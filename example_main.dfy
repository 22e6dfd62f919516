/** The example program: an entry filled from a metadata-service record
    (`addDOI`), the path an attached file is copied to (`attach`), and a
    hand-typed entry with the file it is saved to (`add`, `commit`). The
    metadata service, the file system and the terminal are inputs: the record
    fetched, the key the library generates, the lines typed. */
module ExampleMain {
  import opened GoStrings
  import opened GoPath
  import opened Scholar
  import Manual

  /** One author of a fetched record. */
  datatype Author = Author(first: string, last: string)

  /** The fields of a fetched record that addDOI reads. */
  datatype CrossrefWork = CrossrefWork(
    kind: string, authors: seq<Author>, date: string, title: string,
    bookTitle: string, volume: string, issue: string, doi: string)

  /** What separates two authors in the author field. */
  const AuthorSep: string := " and "

  /** One author as the author field shows it: "Last, First". */
  function AuthorName(a: Author): string {
    a.last + ", " + a.first
  }

  function Names(authors: seq<Author>): (names: seq<string>)
    ensures |names| == |authors|
    ensures forall i :: 0 <= i < |authors| ==> names[i] == AuthorName(authors[i])
  {
    seq(|authors|, i requires 0 <= i < |authors| => AuthorName(authors[i]))
  }

  /** The reference rendering: the names joined by " and ". */
  function JoinAnd(names: seq<string>): string
    decreases |names|
  {
    if names == [] then ""
    else if |names| == 1 then names[0]
    else JoinAnd(names[..|names| - 1]) + AuthorSep + names[|names| - 1]
  }

  // ---------------------------------------------------------------- authors

  /** The author slot after the loop has appended "Last, First and " for
      every author of `authors` to `acc`. */
  function Appended(acc: string, authors: seq<Author>): string
    decreases |authors|
  {
    if authors == [] then acc
    else Appended(acc, authors[..|authors| - 1]) + AuthorName(authors[|authors| - 1]) + AuthorSep
  }

  /** The author slot once the loop is done and one trailing " and " is cut. */
  function AuthorField(acc: string, authors: seq<Author>): string {
    TrimSuffix(Appended(acc, authors), AuthorSep)
  }

  /** What the loop appends does not depend on what the slot held before. */
  lemma {:induction false} AppendedAfter(acc: string, authors: seq<Author>)
    ensures Appended(acc, authors) == acc + Appended("", authors)
    decreases |authors|
  {
    if authors != [] {
      var n := |authors| - 1;
      AppendedAfter(acc, authors[..n]);
    }
  }

  /** Starting from an empty slot, the loop leaves every name joined by
      " and ", followed by one more " and ". */
  lemma {:induction false} AppendedJoin(authors: seq<Author>)
    requires authors != []
    ensures Appended("", authors) == JoinAnd(Names(authors)) + AuthorSep
    decreases |authors|
  {
    var n := |authors| - 1;
    var init := authors[..n];
    assert Names(authors)[..n] == Names(init);
    if init == [] {
      assert Appended("", init) == "";
    } else {
      AppendedJoin(init);
    }
  }

  /** The author field is the authors' names joined by " and ", after what
      the slot held before; with no author the old value only loses one
      trailing " and ". */
  lemma AuthorFieldJoin(acc: string, authors: seq<Author>)
    ensures authors != [] ==> AuthorField(acc, authors) == acc + JoinAnd(Names(authors))
    ensures authors == [] ==> AuthorField(acc, authors) == TrimSuffix(acc, AuthorSep)
  {
    if authors != [] {
      AppendedAfter(acc, authors);
      AppendedJoin(authors);
      var s := acc + JoinAnd(Names(authors));
      assert Appended(acc, authors) == s + AuthorSep;
      assert HasSuffix(s + AuthorSep, AuthorSep) by {
        assert (s + AuthorSep)[|s|..] == AuthorSep;
      }
      assert (s + AuthorSep)[..|s|] == s;
    }
  }

  /** Two authors, as the author field shows them. */
  lemma AuthorFieldTwo()
    ensures AuthorField("", [Author("Ada", "Lovelace"), Author("Alan", "Turing")])
            == "Lovelace, Ada and Turing, Alan"
  {
    var authors := [Author("Ada", "Lovelace"), Author("Alan", "Turing")];
    AuthorFieldJoin("", authors);
    var names := Names(authors);
    assert names[0] == "Lovelace, Ada" && names[1] == "Turing, Alan";
    assert names[..1] == ["Lovelace, Ada"];
  }

  /** The author loop: for every author in order, the slot becomes its old
      value followed by "Last, First and ". No author, no write. */
  method AppendAuthors(e: Entry, authors: seq<Author>)
    modifies e`required
    ensures authors == [] ==> e.required == old(e.required)
    ensures authors != [] ==>
              e.required == old(e.required)["author" := Appended(Lookup(old(e.required), "author"), authors)]
  {
    ghost var acc := Lookup(e.required, "author");
    for i := 0 to |authors|
      invariant i == 0 ==> e.required == old(e.required)
      invariant i > 0 ==> e.required == old(e.required)["author" := Appended(acc, authors[..i])]
    {
      assert authors[..i + 1][..i] == authors[..i];
      e.required := e.required["author" := Lookup(e.required, "author") + AuthorName(authors[i]) + AuthorSep];
    }
    assert authors[..|authors|] == authors;
  }

  // ---------------------------------------------------------------- addDOI

  /** Where the record's book title goes: `booktitle` for a conference
      paper, `journaltitle` for every other type. */
  function BookTitleSlot(kind: string): string {
    if kind == "inproceedings" then "booktitle" else "journaltitle"
  }

  /** The required map addDOI leaves, from the one the entry started with:
      author, date, title and exactly one of booktitle and journaltitle are
      written, and every other required field keeps its value. */
  function DOIRequired(req: map<string, string>, w: CrossrefWork, kind: string): (r: map<string, string>)
    ensures r.Keys == req.Keys + {"author", "date", "title", BookTitleSlot(kind)}
    ensures r["author"] == AuthorField(Lookup(req, "author"), w.authors)
    ensures r["date"] == w.date && r["title"] == w.title
    ensures kind == "inproceedings" ==> r["booktitle"] == w.bookTitle
    ensures kind != "inproceedings" ==> r["journaltitle"] == w.bookTitle
    ensures forall f :: f in req && f !in {"author", "date", "title", BookTitleSlot(kind)} ==> r[f] == req[f]
  {
    req["author" := AuthorField(Lookup(req, "author"), w.authors)]
       ["date" := w.date]["title" := w.title][BookTitleSlot(kind) := w.bookTitle]
  }

  /** The optional map addDOI leaves: volume, number and doi are written,
      even when empty, and nothing else changes. */
  function DOIOptional(opt: map<string, string>, w: CrossrefWork): (o: map<string, string>)
    ensures o.Keys == opt.Keys + {"volume", "number", "doi"}
    ensures o["volume"] == w.volume && o["number"] == w.issue && o["doi"] == w.doi
    ensures forall f :: f in opt && f !in {"volume", "number", "doi"} ==> o[f] == opt[f]
  {
    opt["volume" := w.volume]["number" := w.issue]["doi" := w.doi]
  }

  /** What the two-argument constructor of the example program's library
      version records: how its arguments become the entry's key and type is
      not visible, so both are taken as given. */
  datatype Start = Start(key: string, entryType: string)

  /** scholar.NewEntry(_, _) as the example program calls it: a fresh entry
      with the recorded key and type, every required field of `fields` blank
      and no optional field. */
  method NewEntry(start: Start, fields: set<string>) returns (e: Entry)
    ensures fresh(e)
    ensures e.entryType == start.entryType && e.key == start.key && e.file == ""
    ensures e.required == Blank(fields) && e.optional == map[]
  {
    e := new Entry(start.entryType, fields);
    e.key := start.key;
  }

  /** addDOI: the entry the constructor gives for the record's type (`start`,
      with `fields` its required fields), filled from the record; the
      book-title slot follows the entry's own type. */
  method AddDOI(start: Start, fields: set<string>, w: CrossrefWork) returns (e: Entry)
    ensures fresh(e)
    ensures e.entryType == start.entryType && e.key == start.key && e.file == ""
    ensures e.required == DOIRequired(Blank(fields), w, start.entryType)
    ensures e.optional == DOIOptional(map[], w)
  {
    e := NewEntry(start, fields);
    AppendAuthors(e, w.authors);
    var required := e.required;
    required := required["author" := TrimSuffix(Lookup(required, "author"), AuthorSep)];
    required := required["date" := w.date];
    required := required["title" := w.title];
    if e.entryType == "inproceedings" {
      required := required["booktitle" := w.bookTitle];
    } else {
      required := required["journaltitle" := w.bookTitle];
    }
    e.required := required;
    var optional := e.optional;
    optional := optional["volume" := w.volume];
    optional := optional["number" := w.issue];
    optional := optional["doi" := w.doi];
    e.optional := optional;
  }

  /** A fresh entry's author field is the record's authors joined by " and ". */
  lemma DOIAuthors(fields: set<string>, w: CrossrefWork, kind: string)
    ensures DOIRequired(Blank(fields), w, kind)["author"] == JoinAnd(Names(w.authors))
  {
    AuthorFieldJoin("", w.authors);
    if w.authors == [] {
      assert !HasSuffix("", AuthorSep);
    }
  }

  // ---------------------------------------------------------------- attach, commit

  /** The entry's directory under the library folder. */
  function EntryDir(folder: string, key: string): string {
    Join(folder, key)
  }

  /** The file commit writes the entry to. */
  function EntryFile(folder: string, key: string): string {
    Join(EntryDir(folder, key), "entry.yaml")
  }

  /** The path attach copies a file to: the key plus the source's extension,
      in the entry's directory. */
  function AttachPath(folder: string, key: string, source: string): string {
    Join(EntryDir(folder, key), key + Ext(source))
  }

  /** attach: records the copy's path as the entry's file. `key` is what
      the library's key generator returns for the entry. */
  method Attach(entry: Entry, folder: string, key: string, source: string) returns (path: string)
    modifies entry`file
    ensures path == AttachPath(folder, key, source)
    ensures entry.file == path
  {
    var saveTo := Join(folder, key);
    path := Join(saveTo, key + Ext(source));
    entry.file := path;
  }

  /** The copy is named after the key, keeps the source's extension, and sits
      beside the entry file; it is the entry file only when key plus
      extension spells "entry.yaml". */
  lemma AttachPathShape(folder: string, key: string, source: string)
    requires folder != "" && key != ""
    ensures AttachPath(folder, key, source) == folder + [Separator] + key + [Separator] + key + Ext(source)
    ensures Ext(source) != "" ==> Ext(AttachPath(folder, key, source)) == Ext(source)
    ensures AttachPath(folder, key, source) == EntryFile(folder, key) <==> key + Ext(source) == "entry.yaml"
  {
    var d := folder + [Separator] + key + [Separator];
    assert AttachPath(folder, key, source) == d + (key + Ext(source));
    assert EntryFile(folder, key) == d + "entry.yaml";
    if Ext(source) != "" {
      ExtOfSuffix(d + key, Ext(source));
    }
    if d + (key + Ext(source)) == d + "entry.yaml" {
      assert (d + (key + Ext(source)))[|d|..] == key + Ext(source);
      assert (d + "entry.yaml")[|d|..] == "entry.yaml";
    }
  }

  /** add: the entry the constructor gives for the named type (`start`, with
      `fields` its required fields), whose required fields then hold the
      trimmed lines typed for them, saved to its key's entry file. `key` is
      what the library's key generator returns for the filled entry. */
  method Add(start: Start, fields: set<string>, lines: map<string, string>, folder: string, key: string)
    returns (e: Entry, written: string)
    ensures fresh(e)
    ensures e.entryType == start.entryType && e.key == start.key && e.file == "" && e.optional == map[]
    ensures e.required == map f | f in fields :: Manual.Typed(Lookup(lines, f))
    ensures written == EntryFile(folder, key)
  {
    e := NewEntry(start, fields);
    Manual.FillRequired(e, lines);
    var saveTo := Join(folder, key);
    written := Join(saveTo, "entry.yaml");
  }
}
