/** `scholar add`: the decision rules around the interactive prompts (the
    yes/no question, the search filter of both pickers, the listing of entry
    types, the shortcut for zero or one search hit), the choice of the
    directory an entry is committed to, and the name of an attached file. The
    prompts themselves, the metadata service and the file system are inputs:
    what the user typed or picked, the hits of a search, the set of paths that
    already exist. */
module AddCmd {
  import opened Results
  import opened GoStrings
  import opened GoPath
  import opened GoSort
  import opened Scholar
  import Manual

  // ---------------------------------------------------------------- requestManual

  /** The question asks "search the web?"; the answer is the text typed. The
      entry is made by hand unless that text occurs in "yesYes". */
  function RequestManual(answer: string): (manual: bool) {
    !Contains("yesYes", answer)
  }

  /** Every piece of "yesYes", the empty one included. */
  const YesAnswers: set<string> := {
    "", "y", "e", "s", "Y",
    "ye", "es", "sY", "Ye",
    "yes", "esY", "sYe", "Yes",
    "yesY", "esYe", "sYes",
    "yesYe", "esYes",
    "yesYes"
  }

  /** Each piece of "yesYes" is one of YesAnswers. */
  lemma YesPiece(i: nat, n: nat)
    requires i + n <= 6
    ensures "yesYes"[i..i + n] in YesAnswers
  {
    if n == 0 {
      assert "yesYes"[i..i + n] == "";
    } else if i == 0 {
      YesPieceFrom0(n);
    } else if i == 1 {
      YesPieceFrom1(n);
    } else if i == 2 {
      YesPieceFrom2(n);
    } else if i == 3 {
      YesPieceFrom3(n);
    } else if i == 4 {
      YesPieceFrom4(n);
    } else {
      YesPieceFrom5(n);
    }
  }

  /** The pieces of "yesYes" starting at one offset. */
  lemma YesPieceFrom0(n: nat)
    requires 0 < n <= 6
    ensures "yesYes"[0..0 + n] in YesAnswers
  {
    if n == 1 { assert "yesYes"[0..1] == "y"; }
    else if n == 2 { assert "yesYes"[0..2] == "ye"; }
    else if n == 3 { assert "yesYes"[0..3] == "yes"; }
    else if n == 4 { assert "yesYes"[0..4] == "yesY"; }
    else if n == 5 { assert "yesYes"[0..5] == "yesYe"; }
    else { assert "yesYes"[0..6] == "yesYes"; }
  }

  lemma YesPieceFrom1(n: nat)
    requires 0 < n <= 5
    ensures "yesYes"[1..1 + n] in YesAnswers
  {
    if n == 1 { assert "yesYes"[1..2] == "e"; }
    else if n == 2 { assert "yesYes"[1..3] == "es"; }
    else if n == 3 { assert "yesYes"[1..4] == "esY"; }
    else if n == 4 { assert "yesYes"[1..5] == "esYe"; }
    else { assert "yesYes"[1..6] == "esYes"; }
  }

  lemma YesPieceFrom2(n: nat)
    requires 0 < n <= 4
    ensures "yesYes"[2..2 + n] in YesAnswers
  {
    if n == 1 { assert "yesYes"[2..3] == "s"; }
    else if n == 2 { assert "yesYes"[2..4] == "sY"; }
    else if n == 3 { assert "yesYes"[2..5] == "sYe"; }
    else { assert "yesYes"[2..6] == "sYes"; }
  }

  lemma YesPieceFrom3(n: nat)
    requires 0 < n <= 3
    ensures "yesYes"[3..3 + n] in YesAnswers
  {
    if n == 1 { assert "yesYes"[3..4] == "Y"; }
    else if n == 2 { assert "yesYes"[3..5] == "Ye"; }
    else { assert "yesYes"[3..6] == "Yes"; }
  }

  lemma YesPieceFrom4(n: nat)
    requires 0 < n <= 2
    ensures "yesYes"[4..4 + n] in YesAnswers
  {
    if n == 1 { assert "yesYes"[4..5] == "e"; }
    else { assert "yesYes"[4..6] == "es"; }
  }

  lemma YesPieceFrom5(n: nat)
    requires 0 < n <= 1
    ensures "yesYes"[5..5 + n] in YesAnswers
  {
    assert "yesYes"[5..6] == "s";
  }

  /** Every one of YesAnswers occurs in "yesYes", so the web is searched. */
  lemma YesAnswerOccurs(answer: string)
    requires answer in YesAnswers
    ensures !RequestManual(answer)
  {
    var w := "yesYes";
    if answer == "" { assert OccursAt(w, answer, 0) by { assert w[0..0] == ""; } }
    else if answer == "y" { assert OccursAt(w, answer, 0) by { assert w[0..1] == "y"; } }
    else if answer == "e" { assert OccursAt(w, answer, 1) by { assert w[1..2] == "e"; } }
    else if answer == "s" { assert OccursAt(w, answer, 2) by { assert w[2..3] == "s"; } }
    else if answer == "Y" { assert OccursAt(w, answer, 3) by { assert w[3..4] == "Y"; } }
    else if answer == "ye" { assert OccursAt(w, answer, 0) by { assert w[0..2] == "ye"; } }
    else if answer == "es" { assert OccursAt(w, answer, 1) by { assert w[1..3] == "es"; } }
    else if answer == "sY" { assert OccursAt(w, answer, 2) by { assert w[2..4] == "sY"; } }
    else if answer == "Ye" { assert OccursAt(w, answer, 3) by { assert w[3..5] == "Ye"; } }
    else if answer == "yes" { assert OccursAt(w, answer, 0) by { assert w[0..3] == "yes"; } }
    else if answer == "esY" { assert OccursAt(w, answer, 1) by { assert w[1..4] == "esY"; } }
    else if answer == "sYe" { assert OccursAt(w, answer, 2) by { assert w[2..5] == "sYe"; } }
    else if answer == "Yes" { assert OccursAt(w, answer, 3) by { assert w[3..6] == "Yes"; } }
    else if answer == "yesY" { assert OccursAt(w, answer, 0) by { assert w[0..4] == "yesY"; } }
    else if answer == "esYe" { assert OccursAt(w, answer, 1) by { assert w[1..5] == "esYe"; } }
    else if answer == "sYes" { assert OccursAt(w, answer, 2) by { assert w[2..6] == "sYes"; } }
    else if answer == "yesYe" { assert OccursAt(w, answer, 0) by { assert w[0..5] == "yesYe"; } }
    else if answer == "esYes" { assert OccursAt(w, answer, 1) by { assert w[1..6] == "esYes"; } }
    else { assert OccursAt(w, answer, 0) by { assert w[0..6] == "yesYes"; } }
  }

  /** The web is searched exactly for the answers in YesAnswers: an empty
      answer counts as yes, "YES" and "no" do not. */
  lemma RequestManualAnswers(answer: string)
    ensures !RequestManual(answer) <==> answer in YesAnswers
  {
    var w := "yesYes";
    if answer in YesAnswers {
      YesAnswerOccurs(answer);
    } else if !RequestManual(answer) {
      var i :| OccursAt(w, answer, i);
      YesPiece(i, |answer|);
    }
  }

  // ---------------------------------------------------------------- search filter

  /** What both pickers compare: lower-cased, with every space removed. */
  function Normalize(s: string): string {
    RemoveSpaces(ToLower(s))
  }

  /** The `searcher` closure of both pickers: the typed input, normalized,
      occurs in the normalized first text followed by the normalized second. */
  function SearchMatches(input: string, first: string, second: string): bool {
    Contains(Normalize(first) + Normalize(second), Normalize(input))
  }

  lemma {:induction false} NormalizeConcat(a: string, b: string)
    ensures Normalize(a + b) == Normalize(a) + Normalize(b)
  {
    ToLowerConcat(a, b);
    RemoveSpacesConcat(ToLower(a), ToLower(b));
  }

  lemma {:induction false} NormalizeIdempotent(s: string)
    ensures Normalize(Normalize(s)) == Normalize(s)
  {
    LowerRemoveSpacesCommute(ToLower(s));
    ToLowerIdempotent(s);
    RemoveSpacesIdempotent(ToLower(s));
  }

  /** Matching is substring search in the normalized concatenation of the
      two texts, so a match may span the boundary between them. */
  lemma SearchMatchesJoined(input: string, first: string, second: string)
    ensures SearchMatches(input, first, second) <==> Contains(Normalize(first + second), Normalize(input))
  {
    NormalizeConcat(first, second);
  }

  /** Case and spaces never matter, in the input or in either text. */
  lemma SearchIgnoresCaseAndSpaces(input: string, first: string, second: string)
    ensures SearchMatches(Normalize(input), first, second) == SearchMatches(input, first, second)
    ensures SearchMatches(input, Normalize(first), second) == SearchMatches(input, first, second)
    ensures SearchMatches(input, first, Normalize(second)) == SearchMatches(input, first, second)
  {
    NormalizeIdempotent(input);
    NormalizeIdempotent(first);
    NormalizeIdempotent(second);
  }

  /** A text of spaces only normalizes to the empty text. */
  lemma {:induction false} BlankNormalizesEmpty(s: string)
    requires forall k :: 0 <= k < |s| ==> s[k] == ' '
    ensures Normalize(s) == []
  {
    if s != [] {
      BlankNormalizesEmpty(s[1..]);
      var l := ToLower(s);
      assert l[0] == ' ';
      assert l[1..] == ToLower(s[1..]);
    }
  }

  /** An input made of spaces only (the empty input included) shows every item. */
  lemma SearchBlankMatchesAll(input: string, first: string, second: string)
    requires forall k :: 0 <= k < |input| ==> input[k] == ' '
    ensures SearchMatches(input, first, second)
  {
    BlankNormalizesEmpty(input);
    assert OccursAt(Normalize(first) + Normalize(second), Normalize(input), 0);
  }

  /** A search hit of the metadata service; `authors` is the author list as
      Go's %v verb renders it. */
  datatype Work = Work(title: string, authors: string, date: string, doi: string)

  /** The search filter of the paper picker: title followed by authors. */
  function WorkMatches(input: string, w: Work): bool {
    SearchMatches(input, w.title, w.authors)
  }

  /** The search filter of the type picker: type name followed by description. */
  function TypeMatches(input: string, t: EntryType): bool {
    SearchMatches(input, t.name, t.description)
  }

  /** In the type picker, an empty or all-space input lists every type, and
      otherwise a type is shown exactly when the input occurs in its
      normalized name followed by its normalized description. */
  lemma TypeMatchesAll(input: string, catalog: Catalog)
    ensures (forall k :: 0 <= k < |input| ==> input[k] == ' ') ==>
              forall name :: name in catalog ==> TypeMatches(input, catalog[name])
    ensures forall name :: name in catalog ==>
              (TypeMatches(input, catalog[name]) <==>
               Contains(Normalize(catalog[name].name + catalog[name].description), Normalize(input)))
  {
    forall name | name in catalog
      ensures (forall k :: 0 <= k < |input| ==> input[k] == ' ') ==> TypeMatches(input, catalog[name])
      ensures TypeMatches(input, catalog[name]) <==>
              Contains(Normalize(catalog[name].name + catalog[name].description), Normalize(input))
    {
      var t := catalog[name];
      if forall k :: 0 <= k < |input| ==> input[k] == ' ' {
        SearchBlankMatchesAll(input, t.name, t.description);
      }
      SearchMatchesJoined(input, t.name, t.description);
    }
  }

  /** Case and spaces are ignored, and a match may run from the end of the
      title into the authors. */
  lemma WorkMatchesAcrossFields()
    ensures WorkMatches("a B", Work("xA", "by", "2020", "10.1/x"))
  {
    assert ToLower("a B") == "a b";
    assert RemoveSpaces("a b") == "ab" by {
      assert "a b"[1..] == " b";
      assert " b"[1..] == "b";
    }
    assert ToLower("xA") == "xa";
    assert RemoveSpaces("xa") == "xa" by {
      assert "xa"[1..] == "a";
    }
    assert ToLower("by") == "by";
    assert RemoveSpaces("by") == "by" by {
      assert "by"[1..] == "y";
    }
    var t := "xa" + "by";
    assert t[1..3] == "ab";
    assert OccursAt(t, "ab", 1);
  }

  // ---------------------------------------------------------------- query

  /** One row of the paper picker: the title, the title cut and padded to 20
      characters, the authors, the date cut and padded to 4, and the DOI. */
  datatype Row = Row(title: string, short: string, author: string, year: string, doi: string)

  function RowOf(w: Work): Row {
    Row(w.title, FixedWidth(w.title, 20), w.authors, FixedWidth(w.date, 4), w.doi)
  }

  /** The short title and the year always take 20 and 4 columns, holding the
      start of the title and of the date, right-aligned. */
  lemma RowOfShape(w: Work)
    ensures var row := RowOf(w);
            && row.title == w.title && row.author == w.authors && row.doi == w.doi
            && |row.short| == 20 && |row.year| == 4
            && HasSuffix(row.short, Truncate(w.title, 20)) && HasSuffix(row.year, Truncate(w.date, 4))
  {
  }

  /** query: no hit gives "" and one hit gives its DOI, both without a
      prompt; with two or more hits every hit is listed and the DOI of the
      one picked is returned (`pick` is the prompt's answer: the index of the
      chosen row, or None when the prompt fails and the command aborts). */
  method Query(ws: seq<Work>, pick: Option<nat>) returns (r: Answer<string>, rows: seq<Row>)
    requires |ws| >= 2 && pick.Some? ==> pick.value < |ws|
    ensures |ws| == 0 ==> r == Value("") && rows == []
    ensures |ws| == 1 ==> r == Value(ws[0].doi) && rows == []
    ensures |ws| >= 2 ==> && |rows| == |ws|
                          && (forall i :: 0 <= i < |ws| ==> rows[i] == RowOf(ws[i]))
                          && r == (if pick.None? then Abort else Value(ws[pick.value].doi))
  {
    rows := [];
    if |ws| == 0 {
      return Value(""), rows;
    } else if |ws| == 1 {
      return Value(ws[0].doi), rows;
    }
    for i := 0 to |ws|
      invariant |rows| == i
      invariant forall j :: 0 <= j < i ==> rows[j] == RowOf(ws[j])
    {
      rows := rows + [RowOf(ws[i])];
    }
    match pick {
      case None => r := Abort;
      case Some(i) => r := Value(rows[i].doi);
    }
  }

  // ---------------------------------------------------------------- selectType

  /** The loop over the catalog: every type name once, in map order. */
  method CollectNames(catalog: Catalog) returns (names: seq<string>)
    ensures multiset(names) == multiset(catalog.Keys)
  {
    names := [];
    var todo := catalog.Keys;
    while todo != {}
      invariant todo <= catalog.Keys
      invariant multiset(names) == multiset(catalog.Keys - todo)
      decreases todo
    {
      var name :| name in todo;
      assert catalog.Keys - (todo - {name}) == (catalog.Keys - todo) + {name};
      names := names + [name];
      todo := todo - {name};
    }
    assert catalog.Keys - todo == catalog.Keys;
  }

  /** A sorted arrangement of the catalog's names lists each name once, in
      strictly increasing order. */
  lemma NamesOfCatalog(catalog: Catalog, names: seq<string>)
    requires Sorted(names) && multiset(names) == multiset(catalog.Keys)
    ensures forall i, j :: 0 <= i < j < |names| ==> Less(names[i], names[j])
    ensures |names| == |catalog|
    ensures forall i :: 0 <= i < |names| ==> names[i] in catalog
  {
    SortedOnceIsStrict(names);
    assert |names| == |multiset(names)| == |catalog.Keys|;
    forall i | 0 <= i < |names| ensures names[i] in catalog {
      assert names[i] in multiset(names);
    }
  }

  /** selectType: the catalog's type names are collected, sorted, and their
      types listed in that order; the type picked is returned (`pick` as in
      Query). */
  method SelectType(catalog: Catalog, pick: Option<nat>)
    returns (r: Answer<string>, names: seq<string>, entries: seq<EntryType>)
    requires pick.Some? ==> pick.value < |catalog|
    ensures multiset(names) == multiset(catalog.Keys)
    ensures Sorted(names)
    ensures forall i, j :: 0 <= i < j < |names| ==> Less(names[i], names[j])
    ensures |entries| == |names| == |catalog|
    ensures forall i :: 0 <= i < |names| ==> names[i] in catalog && entries[i] == catalog[names[i]]
    ensures r == if pick.None? then Abort else Value(entries[pick.value].name)
    ensures WellFormed(catalog) && r.Value? ==> r.value in catalog
  {
    var eNames := CollectNames(catalog);
    names := SortStrings(eNames);
    NamesOfCatalog(catalog, names);

    entries := [];
    for i := 0 to |names|
      invariant |entries| == i
      invariant forall j :: 0 <= j < i ==> entries[j] == catalog[names[j]]
    {
      entries := entries + [catalog[names[i]]];
    }
    match pick {
      case None => r := Abort;
      case Some(i) => r := Value(entries[i].name);
    }
  }

  // ---------------------------------------------------------------- commit

  /** The configuration commit reads: the default library, the library named
      by --to ("" when not given) and the LIBRARIES table. */
  datatype Config = Config(deflib: string, currentLibrary: string, libraries: map<string, string>)

  /** The library an entry is committed to. */
  function LibraryDir(cfg: Config): string {
    if cfg.currentLibrary != "" then Lookup(cfg.libraries, cfg.currentLibrary) else cfg.deflib
  }

  /** Where commit saves an entry whose generated key is `key`, given the
      paths that already exist: the key's directory in the library, or, when
      that exists, the same path with "a" appended. */
  function CommitDir(cfg: Config, key: string, taken: set<string>): string {
    var base := Join(LibraryDir(cfg), key);
    if base in taken then base + "a" else base
  }

  /** commit: saves the entry under CommitDir; on a collision the entry's key
      also gets the "a" suffix. `key` is what the library's key generator
      returned for this entry. Returns the directory and the file written. */
  method Commit(entry: Entry, key: string, cfg: Config, taken: set<string>) returns (saveTo: string, written: string)
    modifies entry`key
    ensures saveTo == CommitDir(cfg, key, taken)
    ensures written == Join(saveTo, "entry.yaml")
    ensures entry.key == if Join(LibraryDir(cfg), key) in taken then key + "a" else old(entry.key)
  {
    saveTo := Join(cfg.deflib, key);
    if cfg.currentLibrary != "" {
      saveTo := Join(Lookup(cfg.libraries, cfg.currentLibrary), key);
    }
    if saveTo in taken {
      saveTo := saveTo + "a";
      entry.key := key + "a";
    }
    written := Join(saveTo, "entry.yaml");
  }

  /** Without a collision the entry goes to its key's own, unused directory. */
  lemma CommitWhenFree(cfg: Config, key: string, taken: set<string>)
    requires Join(LibraryDir(cfg), key) !in taken
    ensures CommitDir(cfg, key, taken) == Join(LibraryDir(cfg), key)
    ensures CommitDir(cfg, key, taken) !in taken
  {
  }

  /** On a collision the directory and the new key move together: the entry
      is saved under the directory of its suffixed key. */
  lemma CommitOnCollision(cfg: Config, key: string, taken: set<string>)
    requires key != ""
    requires Join(LibraryDir(cfg), key) in taken
    ensures CommitDir(cfg, key, taken) == Join(LibraryDir(cfg), key + "a")
  {
    JoinExtend(LibraryDir(cfg), key, "a");
  }

  /** The suffix is added once and never checked: when the suffixed
      directory exists too, commit writes into it, over the entry already
      there. */
  lemma CommitMayReuseTakenDir()
    ensures var cfg := Config("lib", "", map[]);
            CommitDir(cfg, "k", {"lib/k", "lib/ka"}) == "lib/ka"
            && CommitDir(cfg, "k", {"lib/k", "lib/ka"}) in {"lib/k", "lib/ka"}
  {
    assert Join("lib", "k") == "lib/k";
  }

  /** With --to, the entry goes to that library's directory; otherwise to
      the default library. */
  lemma CommitLibrary(cfg: Config, key: string, taken: set<string>)
    requires key != "" && LibraryDir(cfg) != ""
    ensures HasPrefix(CommitDir(cfg, key, taken), LibraryDir(cfg) + [Separator])
    ensures cfg.currentLibrary != "" ==> LibraryDir(cfg) == Lookup(cfg.libraries, cfg.currentLibrary)
    ensures cfg.currentLibrary == "" ==> LibraryDir(cfg) == cfg.deflib
  {
    var d := LibraryDir(cfg) + [Separator];
    assert Join(LibraryDir(cfg), key) == d + key;
    assert (d + key + "a")[..|d|] == d;
    assert (d + key)[..|d|] == d;
  }

  // ---------------------------------------------------------------- attach

  /** The attached file's name: the key, "_", at most 40 characters of the
      cleaned title, then the source file's extension. */
  function AttachName(key: string, cleanTitle: string, source: string): (name: string)
    ensures |name| == |key| + 1 + |Truncate(cleanTitle, 40)| + |Ext(source)|
    ensures HasPrefix(name, key + "_")
    ensures HasSuffix(name, Ext(source))
    ensures name[|key| + 1..|name| - |Ext(source)|] == Truncate(cleanTitle, 40)
    ensures |name| <= |key| + 41 + |Ext(source)|
  {
    var name := key + "_" + Truncate(cleanTitle, 40) + Ext(source);
    assert name[..|key| + 1] == key + "_";
    name
  }

  /** Where attach copies the file: always under the default library. */
  function AttachPath(deflib: string, key: string, cleanTitle: string, source: string): string {
    Join(Join(deflib, key), AttachName(key, cleanTitle, source))
  }

  /** attach: copies `source` into the entry's directory of the default
      library and records the copy's path as the entry's file. `clean` is the
      library's title-cleaning function. */
  method Attach(entry: Entry, key: string, clean: string -> string, source: string, deflib: string)
    returns (path: string)
    modifies entry`file
    ensures path == AttachPath(deflib, key, clean(Lookup(entry.required, "title")), source)
    ensures entry.file == path
  {
    var saveTo := Join(deflib, key);
    var filename := AttachName(key, clean(Lookup(entry.required, "title")), source);
    path := Join(saveTo, filename);
    entry.file := path;
  }

  /** The attached file sits directly in the key's directory of the default
      library. */
  lemma AttachInEntryDir(deflib: string, key: string, cleanTitle: string, source: string)
    requires deflib != "" && key != ""
    ensures AttachPath(deflib, key, cleanTitle, source)
            == deflib + [Separator] + key + [Separator] + AttachName(key, cleanTitle, source)
  {
    assert AttachName(key, cleanTitle, source) != "" by {
      assert |AttachName(key, cleanTitle, source)| >= |key| + 1;
    }
  }

  /** attach ignores --to: an entry committed to another library gets its
      file placed under the default library, in a directory commit did not
      create. */
  lemma AttachIgnoresTargetLibrary()
    ensures var cfg := Config("d", "work", map["work" := "w"]);
            && CommitDir(cfg, "k", {}) == "w/k"
            && HasPrefix(AttachPath(cfg.deflib, "k", "t", "p.pdf"), "d/k/")
  {
    var cfg := Config("d", "work", map["work" := "w"]);
    assert LibraryDir(cfg) == "w";
    var name := AttachName("k", "t", "p.pdf");
    assert AttachPath(cfg.deflib, "k", "t", "p.pdf") == "d/k/" + name;
  }

  // ---------------------------------------------------------------- add

  /** add: a fresh entry of the picked type whose required fields hold the
      trimmed lines typed for them (`lines`, see Manual). */
  method Add(catalog: Catalog, entryType: string, lines: map<string, string>) returns (e: Entry)
    requires entryType in catalog
    ensures fresh(e)
    ensures e.entryType == entryType && e.key == "" && e.file == "" && e.optional == map[]
    ensures e.required == map f | f in catalog[entryType].required :: Manual.Typed(Lookup(lines, f))
  {
    var made := NewEntry(catalog, entryType);
    e := made.value;
    Manual.FillRequired(e, lines);
  }
}
