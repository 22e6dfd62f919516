/** The pieces of Go's `strings` and `fmt` packages that the command-line code
    relies on, as total functions over `string` (a sequence of characters, one
    per rune). */
module GoStrings {

  /** strings.HasPrefix */
  predicate HasPrefix(s: string, prefix: string) {
    |prefix| <= |s| && s[..|prefix|] == prefix
  }

  /** strings.HasSuffix */
  predicate HasSuffix(s: string, suffix: string) {
    |suffix| <= |s| && s[|s| - |suffix|..] == suffix
  }

  /** `sub` occurs in `s` starting at offset `i`. */
  ghost predicate OccursAt(s: string, sub: string, i: int) {
    0 <= i && i + |sub| <= |s| && s[i..i + |sub|] == sub
  }

  /** strings.Contains(s, sub): `sub` occurs somewhere in `s`. The empty
      string occurs in every string, at offset 0. */
  function Contains(s: string, sub: string): (r: bool)
    ensures r <==> exists i :: OccursAt(s, sub, i)
    decreases |s|
  {
    if HasPrefix(s, sub) then
      assert OccursAt(s, sub, 0);
      true
    else if s == [] then
      false
    else
      var rest := Contains(s[1..], sub);
      OccursShift(s, sub);
      rest
  }

  /** An occurrence in the tail of `s` is an occurrence in `s` one further on. */
  lemma OccursShift(s: string, sub: string)
    requires s != []
    ensures forall i :: OccursAt(s[1..], sub, i) ==> OccursAt(s, sub, i + 1)
    ensures forall i :: OccursAt(s, sub, i) && i != 0 ==> OccursAt(s[1..], sub, i - 1)
  {
    forall i | OccursAt(s[1..], sub, i) ensures OccursAt(s, sub, i + 1) {
      assert s[1..][i..i + |sub|] == s[i + 1..i + 1 + |sub|];
    }
    forall i | OccursAt(s, sub, i) && i != 0 ensures OccursAt(s[1..], sub, i - 1) {
      assert s[1..][i - 1..i - 1 + |sub|] == s[i..i + |sub|];
    }
  }

  predicate IsUpper(c: char) {
    'A' <= c <= 'Z'
  }

  /** Lower-cases one character (ASCII letters only). */
  function LowerChar(c: char): (r: char)
    ensures !IsUpper(r)
    ensures r == ' ' <==> c == ' '
    ensures !IsUpper(c) ==> r == c
  {
    if IsUpper(c) then (c as int + 32) as char else c
  }

  /** strings.ToLower, for ASCII letters. */
  function ToLower(s: string): (r: string)
    ensures |r| == |s|
    ensures forall i :: 0 <= i < |s| ==> r[i] == LowerChar(s[i])
  {
    if s == [] then [] else [LowerChar(s[0])] + ToLower(s[1..])
  }

  /** strings.Replace(s, " ", "", -1): every space removed, everything else kept. */
  function RemoveSpaces(s: string): (r: string)
    ensures ' ' !in r
    ensures |r| <= |s|
    ensures forall c :: c != ' ' ==> multiset(r)[c] == multiset(s)[c]
  {
    if s == [] then []
    else
      assert s == [s[0]] + s[1..];
      if s[0] == ' ' then RemoveSpaces(s[1..]) else [s[0]] + RemoveSpaces(s[1..])
  }

  /** `r` is `s` with a run of characters from `cut` taken off each end,
      starting at offset `i` of `s`. */
  ghost predicate TrimmedFrom(s: string, r: string, cut: set<char>, i: int) {
    && 0 <= i && i + |r| <= |s|
    && r == s[i..i + |r|]
    && (forall k :: 0 <= k < i ==> s[k] in cut)
    && (forall k :: i + |r| <= k < |s| ==> s[k] in cut)
  }

  /** The number of characters of `cut` that `s` starts with. */
  function LeadingCut(s: string, cut: set<char>): (n: nat)
    ensures n <= |s|
    ensures forall k :: 0 <= k < n ==> s[k] in cut
    ensures n < |s| ==> s[n] !in cut
  {
    if s != [] && s[0] in cut then
      var n := LeadingCut(s[1..], cut);
      assert forall k :: 1 <= k <= n ==> s[k] == s[1..][k - 1];
      1 + n
    else 0
  }

  /** The number of characters of `cut` that `s` ends with. */
  function TrailingCut(s: string, cut: set<char>): (n: nat)
    ensures n <= |s|
    ensures forall k :: |s| - n <= k < |s| ==> s[k] in cut
    ensures n < |s| ==> s[|s| - n - 1] !in cut
  {
    if s != [] && s[|s| - 1] in cut then
      var n := TrailingCut(s[..|s| - 1], cut);
      assert forall k :: |s| - 1 - n <= k < |s| - 1 ==> s[k] == s[..|s| - 1][k];
      1 + n
    else 0
  }

  /** strings.TrimLeft */
  function TrimLeft(s: string, cut: set<char>): string {
    s[LeadingCut(s, cut)..]
  }

  /** strings.TrimRight */
  function TrimRight(s: string, cut: set<char>): string {
    s[..|s| - TrailingCut(s, cut)]
  }

  /** strings.Trim: every leading and trailing character in `cut` removed. */
  function Trim(s: string, cut: set<char>): string {
    TrimRight(TrimLeft(s, cut), cut)
  }

  /** Trim keeps a contiguous part of `s`, drops only characters of `cut`,
      and leaves no character of `cut` at either end. */
  lemma TrimShape(s: string, cut: set<char>)
    ensures TrimmedFrom(s, Trim(s, cut), cut, LeadingCut(s, cut))
    ensures var r := Trim(s, cut); r != [] ==> r[0] !in cut && r[|r| - 1] !in cut
  {
    var i := LeadingCut(s, cut);
    var l := s[i..];
    var j := TrailingCut(l, cut);
    var r := l[..|l| - j];
    assert r == s[i..i + |r|];
    forall k | i + |r| <= k < |s| ensures s[k] in cut {
      assert s[k] == l[k - i];
    }
    if r != [] {
      assert r[0] == s[i];
      assert r[|r| - 1] == l[|l| - j - 1];
    }
  }

  /** strings.TrimSuffix: removes one copy of `suffix`, if present. */
  function TrimSuffix(s: string, suffix: string): (r: string)
    ensures HasSuffix(s, suffix) ==> r + suffix == s
    ensures !HasSuffix(s, suffix) ==> r == s
  {
    if HasSuffix(s, suffix) then s[..|s| - |suffix|] else s
  }

  /** fmt's "%.Ns" verb: at most `n` characters of `s`. */
  function Truncate(s: string, n: nat): (r: string)
    ensures |r| == if |s| <= n then |s| else n
    ensures HasPrefix(s, r)
  {
    if |s| <= n then s else s[..n]
  }

  /** fmt's "%N.Ns" verb: `s` cut to `n` characters, then right-aligned in a
      field of `n` characters by padding spaces on the left. */
  function FixedWidth(s: string, n: nat): (r: string)
    ensures |r| == n
    ensures HasSuffix(r, Truncate(s, n))
    ensures forall k :: 0 <= k < n - |Truncate(s, n)| ==> r[k] == ' '
  {
    var t := Truncate(s, n);
    seq(n - |t|, _ => ' ') + t
  }

  lemma ToLowerConcat(a: string, b: string)
    ensures ToLower(a + b) == ToLower(a) + ToLower(b)
  {
  }

  lemma ToLowerIdempotent(s: string)
    ensures ToLower(ToLower(s)) == ToLower(s)
  {
  }

  /** Removing spaces distributes over concatenation. */
  lemma {:induction false} RemoveSpacesConcat(a: string, b: string)
    ensures RemoveSpaces(a + b) == RemoveSpaces(a) + RemoveSpaces(b)
  {
    if a != [] {
      assert (a + b)[1..] == a[1..] + b;
      RemoveSpacesConcat(a[1..], b);
    } else {
      assert a + b == b;
    }
  }

  lemma {:induction false} RemoveSpacesIdempotent(s: string)
    ensures RemoveSpaces(RemoveSpaces(s)) == RemoveSpaces(s)
  {
    if s != [] {
      RemoveSpacesIdempotent(s[1..]);
      if s[0] != ' ' {
        var t := RemoveSpaces(s[1..]);
        assert ([s[0]] + t)[1..] == t;
      }
    }
  }

  /** Lower-casing and removing spaces can be done in either order. */
  lemma {:induction false} LowerRemoveSpacesCommute(s: string)
    ensures ToLower(RemoveSpaces(s)) == RemoveSpaces(ToLower(s))
  {
    if s != [] {
      LowerRemoveSpacesCommute(s[1..]);
      ToLowerConcat([s[0]], RemoveSpaces(s[1..]));
      var l := ToLower(s);
      assert l == [l[0]] + l[1..];
      assert l[1..] == ToLower(s[1..]);
    }
  }

  /** Trimming twice is trimming once. */
  lemma TrimIdempotent(s: string, cut: set<char>)
    ensures Trim(Trim(s, cut), cut) == Trim(s, cut)
  {
    var r := Trim(s, cut);
    TrimShape(s, cut);
    assert LeadingCut(r, cut) == 0;
    assert TrimLeft(r, cut) == r;
    assert TrailingCut(r, cut) == 0;
  }
}
