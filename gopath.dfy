/** The two functions of Go's `path/filepath` package that the commands use to
    form library paths, for a Unix-style separator. */
module GoPath {
  import opened GoStrings

  const Separator: char := '/'

  /** filepath.Join of two elements: empty elements are ignored, otherwise the
      elements are joined by one separator. (The lexical clean-up that Join
      also performs is not modelled.) */
  function Join(dir: string, name: string): (p: string)
    ensures dir != "" && name != "" ==> p == dir + [Separator] + name
    ensures dir == "" ==> p == name
    ensures name == "" ==> p == dir
  {
    if dir == "" then name else if name == "" then dir else dir + [Separator] + name
  }

  /** filepath.Ext: the suffix of the last path element that starts at its
      final dot, or "" when that element has no dot. */
  function Ext(path: string): (e: string)
    ensures HasSuffix(path, e)
    ensures e != [] ==> e[0] == '.'
    ensures forall k :: 0 < k < |e| ==> e[k] != '.' && e[k] != Separator
    ensures e == [] ==> forall k :: 0 <= k < |path| && Separator !in path[k..] ==> path[k] != '.'
    decreases |path|
  {
    if path == [] then ""
    else
      var c := path[|path| - 1];
      if c == Separator then
        assert forall k :: 0 <= k < |path| ==> path[k..][|path| - 1 - k] == Separator;
        ""
      else if c == '.' then "."
      else
        var prefix := path[..|path| - 1];
        assert forall k :: 0 <= k < |prefix| ==> path[k..] == prefix[k..] + [c];
        var e := Ext(prefix);
        if e == "" then "" else e + [c]
  }

  /** Appending to a non-empty last element appends to the joined path. */
  lemma JoinExtend(dir: string, name: string, s: string)
    requires name != ""
    ensures Join(dir, name) + s == Join(dir, name + s)
  {
  }

  /** An extension appended to any path is that path's extension. */
  lemma {:induction false} ExtOfSuffix(x: string, e: string)
    requires e != [] && e[0] == '.'
    requires forall k :: 0 < k < |e| ==> e[k] != '.' && e[k] != Separator
    ensures Ext(x + e) == e
    decreases |e|
  {
    var p := x + e;
    if |e| > 1 {
      var c := e[|e| - 1];
      assert p[|p| - 1] == c;
      assert p[..|p| - 1] == x + e[..|e| - 1];
      ExtOfSuffix(x, e[..|e| - 1]);
      assert e[..|e| - 1] + [c] == e;
    }
  }
}
