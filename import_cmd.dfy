/** `scholar import FILE`: every raw field map read from a bibtex/biblatex file
    becomes an Entry, and only once all of them are built is each one
    committed (and its file attached). Reading and parsing the file is outside
    the model: the parsed records are the input. */
module ImportCmd {
  import opened Results
  import opened Scholar

  /** Raw names that set the entry's own attributes instead of a field. */
  const Reserved: set<string> := {"type", "key", "file"}

  /** The raw record once its reserved names are deleted. */
  function Fields(raw: map<string, string>): map<string, string> {
    raw - Reserved
  }

  /** The type an entry is built as: the raw `type` when the catalog knows it,
      otherwise `misc`; nothing when the catalog lacks `misc` too. */
  function BuiltType(catalog: Catalog, raw: map<string, string>): (t: Option<string>)
    ensures t.Some? ==> t.value in catalog
    ensures Lookup(raw, "type") in catalog ==> t == Some(Lookup(raw, "type"))
    ensures Lookup(raw, "type") !in catalog ==> t == (if "misc" in catalog then Some("misc") else None)
  {
    var name := Lookup(raw, "type");
    if name in catalog then Some(name) else if "misc" in catalog then Some("misc") else None
  }

  /** The required map after routing: every schema field, holding the raw
      value of that name or "" (a reserved name always reads as ""). */
  function RoutedRequired(fields: set<string>, raw: map<string, string>): map<string, string> {
    map f | f in fields :: Lookup(Fields(raw), f)
  }

  /** The optional map after routing: every raw field that is neither
      reserved nor required, with its raw value. */
  function RoutedOptional(fields: set<string>, raw: map<string, string>): map<string, string> {
    map f | f in Fields(raw).Keys - fields :: raw[f]
  }

  /** `e` is the entry that routing builds from `raw`. */
  ghost predicate Built(catalog: Catalog, raw: map<string, string>, e: Entry)
    reads e
  {
    var t := BuiltType(catalog, raw);
    && t.Some?
    && e.entryType == t.value
    && e.key == Lookup(raw, "key")
    && e.file == (if "file" in raw then raw["file"] else "")
    && e.required == RoutedRequired(catalog[t.value].required, raw)
    && e.optional == RoutedOptional(catalog[t.value].required, raw)
  }

  /** The required-field loop: every field of the entry's required map takes
      the raw value of that name ("" when absent) and that name is deleted
      from the raw record. */
  method RouteRequired(e: Entry, entry: map<string, string>) returns (rest: map<string, string>)
    modifies e`required
    ensures e.required == map f | f in old(e.required).Keys :: Lookup(entry, f)
    ensures rest == entry - old(e.required).Keys
  {
    ghost var fields := e.required.Keys;
    rest := entry;
    var pending := e.required.Keys;
    while pending != {}
      invariant pending <= fields && e.required.Keys == fields
      invariant forall f :: f in fields - pending ==> e.required[f] == Lookup(entry, f)
      invariant rest == entry - (fields - pending)
      decreases pending
    {
      var f :| f in pending;
      e.required := e.required[f := Lookup(rest, f)];
      rest := rest - {f};
      pending := pending - {f};
    }
  }

  /** The optional-field loop: every field left in the raw record is copied
      to the optional map and deleted, until the raw record is empty. */
  method RouteOptional(e: Entry, entry: map<string, string>) returns (rest: map<string, string>)
    modifies e`optional
    ensures e.optional == old(e.optional) + entry
    ensures rest == map[]
  {
    rest := entry;
    while rest != map[]
      invariant rest.Keys <= entry.Keys
      invariant forall f :: f in rest ==> rest[f] == entry[f]
      invariant e.optional == old(e.optional) + (map f | f in entry.Keys - rest.Keys :: entry[f])
      decreases rest.Keys
    {
      var f :| f in rest;
      e.optional := e.optional[f := rest[f]];
      rest := rest - {f};
    }
    assert entry == map f | f in entry.Keys - rest.Keys :: entry[f];
  }

  /** One iteration of the routing loop: construct the entry (falling back to
      `misc`), consume `type`, `key` and `file`, fill every required field,
      then move every remaining field to the optional map. */
  method BuildEntry(catalog: Catalog, raw: map<string, string>) returns (r: Result<Entry, EntryError>)
    ensures r.Ok? <==> BuiltType(catalog, raw).Some?
    ensures r.Err? ==> r.error == TypeNotFoundError
    ensures r.Ok? ==> fresh(r.value) && Built(catalog, raw, r.value)
  {
    var entry := raw;
    var made := NewEntry(catalog, Lookup(entry, "type"));
    if made.Err? {
      match made.error
      case TypeNotFoundError =>
        made := NewEntry(catalog, "misc");
        if made.Err? {
          return Err(made.error);
        }
    }
    var e := made.value;
    ghost var fields := catalog[BuiltType(catalog, raw).value].required;

    entry := entry - {"type"};
    e.key := Lookup(entry, "key");
    entry := entry - {"key"};
    if "file" in entry {
      e.file := entry["file"];
      entry := entry - {"file"};
    }
    assert entry == Fields(raw);

    entry := RouteRequired(e, entry);
    assert e.required == RoutedRequired(fields, raw);
    assert entry == RoutedOptional(fields, raw);
    entry := RouteOptional(e, entry);
    r := Ok(e);
  }

  /** A side effect of the commit phase, in the order it happens. */
  datatype Action = Commit(index: nat) | Attach(index: nat, source: string)

  datatype ImportError = Fatal(index: nat, cause: EntryError)

  /** The actions for the entry at `i` whose file is `file`. */
  function Step(i: nat, file: string): seq<Action> {
    [Commit(i)] + if file != "" then [Attach(i, file)] else []
  }

  /** The commit phase over entries whose files are `files`, in order. */
  function Plan(files: seq<string>): seq<Action>
    decreases |files|
  {
    if files == [] then []
    else Plan(files[..|files| - 1]) + Step(|files| - 1, files[|files| - 1])
  }

  function FileOf(raw: map<string, string>): string {
    Lookup(raw, "file")
  }

  function Files(records: seq<map<string, string>>): (files: seq<string>)
    ensures |files| == |records|
    ensures forall i :: 0 <= i < |records| ==> files[i] == FileOf(records[i])
  {
    seq(|records|, i requires 0 <= i < |records| => FileOf(records[i]))
  }

  /** importParse: build every entry first; a construction failure (no such
      type and no `misc`) stops the import before anything is committed. */
  method ImportParse(catalog: Catalog, records: seq<map<string, string>>)
    returns (r: Result<seq<Entry>, ImportError>, actions: seq<Action>)
    ensures r.Ok? <==> forall j :: 0 <= j < |records| ==> BuiltType(catalog, records[j]).Some?
    ensures r.Err? ==> && actions == []
                       && r.error.index < |records|
                       && BuiltType(catalog, records[r.error.index]).None?
                       && (forall j :: 0 <= j < r.error.index ==> BuiltType(catalog, records[j]).Some?)
                       && r.error.cause == TypeNotFoundError
    ensures r.Ok? ==> && |r.value| == |records|
                      && (forall i :: 0 <= i < |records| ==> fresh(r.value[i]) && Built(catalog, records[i], r.value[i]))
                      && actions == Plan(Files(records))
  {
    var es: seq<Entry> := [];
    for i := 0 to |records|
      invariant |es| == i
      invariant forall j :: 0 <= j < i ==> BuiltType(catalog, records[j]).Some?
      invariant forall j :: 0 <= j < i ==> fresh(es[j]) && Built(catalog, records[j], es[j])
    {
      var b := BuildEntry(catalog, records[i]);
      if b.Err? {
        return Err(Fatal(i, b.error)), [];
      }
      es := es + [b.value];
    }

    actions := [];
    for i := 0 to |es|
      invariant actions == Plan(Files(records)[..i])
    {
      assert Files(records)[..i + 1][..i] == Files(records)[..i];
      actions := actions + Step(i, es[i].file);
    }
    assert Files(records)[..|es|] == Files(records);
    r := Ok(es);
  }

  /** Routing loses nothing and duplicates nothing: the required keys are
      exactly the schema's, every non-reserved raw field lands in exactly one
      of the two maps with its value, and nothing else is added. */
  lemma RoutingPartition(fields: set<string>, raw: map<string, string>)
    ensures RoutedRequired(fields, raw).Keys == fields
    ensures RoutedOptional(fields, raw).Keys == raw.Keys - Reserved - fields
    ensures forall f :: f in fields ==> RoutedRequired(fields, raw)[f] == (if f in raw && f !in Reserved then raw[f] else "")
    ensures forall f :: f in raw && f !in Reserved ==>
              if f in fields then RoutedRequired(fields, raw)[f] == raw[f]
              else RoutedOptional(fields, raw)[f] == raw[f]
  {
  }

  /** A field that the schema does not know is kept, as an optional field. */
  lemma UnknownFieldGoesOptional()
    ensures var raw := map["type" := "article", "author" := "Smith, John", "isbn" := "123"];
            var fields := {"author", "title"};
            && RoutedRequired(fields, raw) == map["author" := "Smith, John", "title" := ""]
            && RoutedOptional(fields, raw) == map["isbn" := "123"]
  {
    var raw := map["type" := "article", "author" := "Smith, John", "isbn" := "123"];
    var fields := {"author", "title"};
    assert Fields(raw) == map["author" := "Smith, John", "isbn" := "123"];
    assert Fields(raw).Keys - fields == {"isbn"};
  }

  /** The commit phase commits every entry, and attaches an entry's file
      exactly when that file is set. */
  lemma {:induction false} PlanContents(files: seq<string>)
    ensures forall i :: 0 <= i < |files| ==> Commit(i) in Plan(files)
    ensures forall i: nat, f :: Attach(i, f) in Plan(files) <==> i < |files| && f == files[i] && f != ""
    decreases |files|
  {
    if files != [] {
      var n := |files| - 1;
      var init := files[..n];
      PlanContents(init);
      var P, S := Plan(init), Step(n, files[n]);
      assert Plan(files) == P + S;
      forall i | 0 <= i < |files| ensures Commit(i) in Plan(files) {
        if i < n { assert init[i] == files[i]; } else { assert S[0] == Commit(i); }
      }
      forall i: nat, f ensures Attach(i, f) in Plan(files) <==> i < |files| && f == files[i] && f != "" {
        assert Attach(i, f) in Plan(files) <==> Attach(i, f) in P || Attach(i, f) in S;
        if i < n { assert init[i] == files[i]; }
      }
    }
  }

  /** Entries are committed in input order, and an attachment comes right
      after the commit of its own entry. */
  lemma {:induction false} PlanOrder(files: seq<string>)
    ensures forall p :: 0 <= p < |Plan(files)| ==> Plan(files)[p].index < |files|
    ensures forall p, q :: 0 <= p < q < |Plan(files)| ==> Plan(files)[p].index <= Plan(files)[q].index
    ensures forall p :: 0 <= p < |Plan(files)| && Plan(files)[p].Attach? ==>
              p > 0 && Plan(files)[p - 1] == Commit(Plan(files)[p].index)
    decreases |files|
  {
    if files != [] {
      var n := |files| - 1;
      PlanOrder(files[..n]);
      var P, S := Plan(files[..n]), Step(n, files[n]);
      assert Plan(files) == P + S;
      assert forall p :: |P| <= p < |P + S| ==> (P + S)[p] == S[p - |P|];
    }
  }
}
