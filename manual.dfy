/** Manual entry of the required fields: the user is asked for each required
    field in turn and types one line per field. The order in which Go ranges
    over the field map is unspecified, so the model takes the line each field
    receives as a map from field name to the line read (a missing name is a
    line cut short by end of input, which reads as ""). */
module Manual {
  import opened GoStrings
  import opened Scholar

  /** The characters stripped from both ends of a typed line. */
  const LineCut: set<char> := {' ', '\n'}

  /** strings.Trim(text, " \n"): the value stored for a typed line. */
  function Typed(line: string): string {
    Trim(line, LineCut)
  }

  /** The stored value is the typed line less the spaces and newlines at its
      two ends: nothing else is dropped, and it neither starts nor ends with
      a space or a newline. */
  lemma TypedShape(line: string)
    ensures TrimmedFrom(line, Typed(line), LineCut, LeadingCut(line, LineCut))
    ensures var v := Typed(line); v != [] ==> v[0] != ' ' && v[0] != '\n' && v[|v| - 1] != ' ' && v[|v| - 1] != '\n'
  {
    TrimShape(line, LineCut);
  }

  /** The loop over the required fields: each one is set to its trimmed line;
      no field is added or removed. */
  method FillRequired(e: Entry, lines: map<string, string>)
    modifies e`required
    ensures e.required.Keys == old(e.required).Keys
    ensures e.required == map f | f in old(e.required).Keys :: Typed(Lookup(lines, f))
  {
    ghost var fields := e.required.Keys;
    var pending := e.required.Keys;
    while pending != {}
      invariant pending <= fields && e.required.Keys == fields
      invariant forall f :: f in fields - pending ==> e.required[f] == Typed(Lookup(lines, f))
      decreases pending
    {
      var f :| f in pending;
      var text := Lookup(lines, f);
      text := Typed(text);
      e.required := e.required[f := text];
      pending := pending - {f};
    }
  }

  /** A stored value is already trimmed: typing it again stores the same. */
  lemma TypedStable(line: string)
    ensures Typed(Typed(line)) == Typed(line)
  {
    TrimIdempotent(line, LineCut);
  }

  /** Only spaces and newlines are stripped: a tab survives. */
  lemma TypedKeepsTab()
    ensures Typed("\tQ\n") == "\tQ"
  {
    var line := "\tQ\n";
    assert line[0] == '\t' && '\t' !in LineCut;
    assert TrimLeft(line, LineCut) == line;
    assert line[2] in LineCut;
    assert line[..2] == "\tQ";
    assert "\tQ"[1] == 'Q' && 'Q' !in LineCut;
    assert TrimRight("\tQ", LineCut) == "\tQ";
  }
}
