/** The parts of the `scholar` library package that the commands use: the
    entry-type catalog, the Entry record and its constructor. Only their
    interface is modelled; key generation, bibtex rendering and the checks of
    the library are inputs to the commands, not functions of this module. */
module Scholar {
  import opened Results

  /** One entry type of the catalog: its name, the description shown when
      picking a type, and the names of its required fields. */
  datatype EntryType = EntryType(name: string, description: string, required: set<string>)

  /** The loaded catalog, keyed by type name. */
  type Catalog = map<string, EntryType>

  /** Every slot holds the type of that name. */
  ghost predicate WellFormed(catalog: Catalog) {
    forall name :: name in catalog ==> catalog[name].name == name
  }

  datatype EntryError = TypeNotFoundError

  /** Reading a Go map: a missing key reads as the zero value "". */
  function Lookup(m: map<string, string>, k: string): (v: string)
    ensures k in m ==> v == m[k]
    ensures k !in m ==> v == ""
  {
    if k in m then m[k] else ""
  }

  /** A field map holding every name of `fields`, each with the empty value. */
  function Blank(fields: set<string>): (m: map<string, string>)
    ensures m.Keys == fields
    ensures forall f :: f in m ==> m[f] == ""
  {
    map f | f in fields :: ""
  }

  /** A bibliographic record, updated in place by the commands. */
  class Entry {
    var entryType: string
    var key: string
    var required: map<string, string>
    var optional: map<string, string>
    var file: string

    constructor (t: string, fields: set<string>)
      ensures entryType == t && key == "" && file == ""
      ensures required == Blank(fields) && optional == map[]
    {
      entryType := t;
      key := "";
      required := Blank(fields);
      optional := map[];
      file := "";
    }
  }

  /** scholar.NewEntry: a fresh entry of the named type, with every required
      field of the schema present and empty and no optional field; fails with
      TypeNotFoundError when the catalog has no such type. */
  method NewEntry(catalog: Catalog, name: string) returns (r: Result<Entry, EntryError>)
    ensures r.Ok? <==> name in catalog
    ensures r.Err? ==> r.error == TypeNotFoundError
    ensures r.Ok? ==> && fresh(r.value)
                      && r.value.entryType == name
                      && r.value.key == "" && r.value.file == ""
                      && r.value.required == Blank(catalog[name].required)
                      && r.value.optional == map[]
  {
    if name in catalog {
      var e := new Entry(name, catalog[name].required);
      r := Ok(e);
    } else {
      r := Err(TypeNotFoundError);
    }
  }
}
