/** Go's ordering of strings and `sort.Strings`. Go compares strings byte by
    byte in their UTF-8 encoding, which orders them exactly as comparing code
    points one by one does. */
module GoSort {

  /** a < b in Go's string order: lexicographic, a proper prefix first. */
  predicate Less(a: string, b: string) {
    if a == [] then b != []
    else if b == [] then false
    else if a[0] != b[0] then a[0] < b[0]
    else Less(a[1..], b[1..])
  }

  predicate LessEq(a: string, b: string) {
    a == b || Less(a, b)
  }

  /** Every element is at most each later one. */
  ghost predicate Sorted(s: seq<string>) {
    forall i, j :: 0 <= i < j < |s| ==> LessEq(s[i], s[j])
  }

  lemma {:induction false} LessIrreflexive(a: string)
    ensures !Less(a, a)
  {
    if a != [] {
      LessIrreflexive(a[1..]);
    }
  }

  lemma {:induction false} LessTransitive(a: string, b: string, c: string)
    requires Less(a, b) && Less(b, c)
    ensures Less(a, c)
  {
    if a != [] && b != [] && c != [] && a[0] == b[0] && b[0] == c[0] {
      LessTransitive(a[1..], b[1..], c[1..]);
    }
  }

  /** Any two different strings are ordered one way or the other. */
  lemma {:induction false} LessTotal(a: string, b: string)
    requires a != b
    ensures Less(a, b) || Less(b, a)
  {
    if a != [] && b != [] && a[0] == b[0] {
      assert a == [a[0]] + a[1..] && b == [b[0]] + b[1..];
      LessTotal(a[1..], b[1..]);
    }
  }

  lemma LessEqTransitive(a: string, b: string, c: string)
    requires LessEq(a, b) && LessEq(b, c)
    ensures LessEq(a, c)
  {
    if a != b && b != c {
      LessTransitive(a, b, c);
    }
  }

  /** Inserts `x` into a sorted sequence before the first element not below it. */
  function Insert(x: string, s: seq<string>): (r: seq<string>)
    requires Sorted(s)
    ensures Sorted(r)
    ensures multiset(r) == multiset(s) + multiset{x}
  {
    if s == [] then [x]
    else if LessEq(x, s[0]) then
      assert forall j :: 0 <= j < |s| ==> LessEq(x, s[j]) by {
        forall j | 0 <= j < |s| ensures LessEq(x, s[j]) {
          if j > 0 { LessEqTransitive(x, s[0], s[j]); }
        }
      }
      [x] + s
    else
      LessTotal(x, s[0]);
      var t := Insert(x, s[1..]);
      assert s == [s[0]] + s[1..];
      assert forall j :: 0 <= j < |t| ==> LessEq(s[0], t[j]) by {
        forall j | 0 <= j < |t| ensures LessEq(s[0], t[j]) {
          assert t[j] in multiset(t);
        }
      }
      [s[0]] + t
  }

  /** sort.Strings: the elements of `s` in ascending order. */
  method SortStrings(s: seq<string>) returns (t: seq<string>)
    ensures Sorted(t)
    ensures multiset(t) == multiset(s)
  {
    t := [];
    for i := 0 to |s|
      invariant Sorted(t)
      invariant multiset(t) == multiset(s[..i])
    {
      assert s[..i + 1] == s[..i] + [s[i]];
      t := Insert(s[i], t);
    }
    assert s[..|s|] == s;
  }

  /** A sorted sequence in which no element occurs twice is strictly ascending. */
  lemma SortedOnceIsStrict(s: seq<string>)
    requires Sorted(s)
    requires forall x :: x in multiset(s) ==> multiset(s)[x] == 1
    ensures forall i, j :: 0 <= i < j < |s| ==> Less(s[i], s[j])
  {
    forall i, j | 0 <= i < j < |s| ensures Less(s[i], s[j]) {
      assert s == s[..j] + [s[j]] + s[j + 1..];
      assert multiset(s)[s[j]] == multiset(s[..j])[s[j]] + 1 + multiset(s[j + 1..])[s[j]];
      assert s[i] in s[..j];
    }
  }
}
