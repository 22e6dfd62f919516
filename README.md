# scholar: entry routing, picker rules and library paths

This is a Dafny model of the command-line glue of `scholar`. `scholar` is a
Go tool that keeps a library of bibliographic entries, storing one directory
per entry key. The model covers three pieces of that glue.

- **`scholar import FILE`** (`cmd/import.go`). Each raw field map parsed from a
  bibtex/biblatex file becomes an `Entry`:
  - An unknown type falls back to `misc`.
  - The reserved names `type`, `key` and `file` set the entry's own
    attributes.
  - Each schema-required field takes its raw value, or `""` when the raw
    map lacks it.
  - Every other field goes to the optional map.

  Every entry is built before any is committed. A build failure stops the
  import with nothing committed.
- **`scholar add`** (`scholar/cmd/add.go`). The decision rules around the
  prompts:
  - the yes/no reading of `requestManual`;
  - the search filter shared by the paper picker and the type picker, which
    ignores case and spaces;
  - the shortcut for zero or one search hit;
  - the sorted type listing;
  - the directory `commit` chooses, with its one-shot `"a"` suffix on a
    collision;
  - the name `attach` gives the copied file;
  - the trimming of typed field values in `add`.
- **The example program** (`examples/main.go`). It covers three things:
  - `addDOI`: the `"Last, First and …"` author join and the routing of the
    book title to `booktitle` or `journaltitle`;
  - `attach`: the key-plus-extension attachment path;
  - `add`/`commit`: the trimmed manual entry and the file it is saved to.

`Entry` is a class whose fields the commands update in place. The entry-type
catalog is a map from type name to `EntryType` (name, description, required
field set). The library's key generator and title cleaner are inputs, and so
are the answers given at the prompts, the hits of a metadata search and the
paths that already exist on disk.

Modules:
- `Results`: Option, Result, and `Answer`. `Answer` is a value or an abort; an
  abort models `os.Exit(1)`.
- `GoStrings`, `GoPath`, `GoSort`: the Go standard-library functions the
  commands call.
- `Scholar`: the catalog, `Entry` and `NewEntry`.
- `ImportCmd`, `AddCmd`, `Manual`, `ExampleMain`: the three programs.
  `Manual` holds the field-by-field typing loop, which `add` in both
  programs shares.

## Model

| member | source | states |
|---|---|---|
| GoStrings.Contains | scholar/cmd/add.go:146 | strings.Contains: true exactly when the substring occurs at some offset (the empty string occurs everywhere) |
| GoStrings.ToLower | scholar/cmd/add.go:245-248 | same length; every character lower-cased, others kept |
| GoStrings.RemoveSpaces | scholar/cmd/add.go:245-248 | no space left, nothing longer, every non-space character kept with its multiplicity |
| GoStrings.TrimLeft | scholar/cmd/add.go:346 | strings.TrimLeft: the input from its first character outside the cut set on (characterised by LeadingCut and TrimShape) |
| GoStrings.TrimRight | scholar/cmd/add.go:346 | strings.TrimRight: the input up to its last character outside the cut set (characterised by TrailingCut and TrimShape) |
| GoStrings.Trim | scholar/cmd/add.go:346 | strings.Trim as TrimRight after TrimLeft; what it keeps and drops is stated by TrimShape and TrimIdempotent |
| GoStrings.RemoveSpacesConcat | scholar/cmd/add.go:245-247 | removing spaces distributes over concatenation |
| GoStrings.RemoveSpacesIdempotent | scholar/cmd/add.go:248 | removing spaces twice is removing them once |
| GoStrings.LowerRemoveSpacesCommute | scholar/cmd/add.go:245-248 | lower-casing and space removal commute |
| GoStrings.TrimShape | scholar/cmd/add.go:346 | strings.Trim keeps a contiguous middle part, drops only cut characters and leaves none at either end |
| GoStrings.TrimIdempotent | scholar/cmd/add.go:346 | trimming twice is trimming once |
| GoStrings.TrimSuffix | examples/main.go:35 | removes exactly one copy of the suffix when present, else returns the input |
| GoStrings.Truncate | scholar/cmd/add.go:363 | fmt `%.Ns`: at most N characters, a prefix of the input |
| GoStrings.FixedWidth | scholar/cmd/add.go:223-225 | fmt `%N.Ns`: exactly N characters, spaces then the truncated text |
| GoPath.Join | scholar/cmd/add.go:166-168 | filepath.Join of two elements: empty elements ignored, otherwise one separator between |
| GoPath.Ext | scholar/cmd/add.go:363 | filepath.Ext: a suffix of the path that is empty or starts with its only dot and holds no separator; empty only when the last element has no dot |
| GoPath.ExtOfSuffix | examples/main.go:88 | a name ending in an extension has that extension |
| GoSort.Less | scholar/cmd/add.go:294 | the order sort.Strings uses: lexicographic by character, a proper prefix first; its laws are the three lemmas below |
| GoSort.LessIrreflexive | scholar/cmd/add.go:294 | the byte order of sort.Strings is irreflexive |
| GoSort.LessTransitive | scholar/cmd/add.go:294 | the byte order is transitive |
| GoSort.LessTotal | scholar/cmd/add.go:294 | any two distinct strings are ordered |
| GoSort.Insert | scholar/cmd/add.go:294 | inserting into a sorted list keeps it sorted and adds exactly that element |
| GoSort.SortStrings | scholar/cmd/add.go:294 | sort.Strings: the result is sorted and a permutation of the input |
| GoSort.SortedOnceIsStrict | scholar/cmd/add.go:290-294 | a sorted list without repeats is strictly increasing |
| Scholar.Lookup | cmd/import.go:78 | reading a Go map: the stored value, or "" for a missing name |
| Scholar.Blank | cmd/import.go:66 | the fresh required map: exactly the schema's names, all "" |
| Scholar.NewEntry | cmd/import.go:66-69 | a fresh entry of the named type with blank required fields and no optional ones; TypeNotFoundError exactly when the catalog lacks the name |
| ImportCmd.BuiltType | cmd/import.go:66-72 | the raw type when the catalog knows it, else `misc` when known, else nothing |
| ImportCmd.RoutedRequired | cmd/import.go:86-89 | the required map after routing: each schema field with the raw value of its name, "" when absent or reserved (laws in RoutingPartition) |
| ImportCmd.RoutedOptional | cmd/import.go:91-94 | the optional map after routing: each raw field neither reserved nor required, with its value (laws in RoutingPartition) |
| ImportCmd.Built | cmd/import.go:65-94 | the entry one routing iteration builds from a raw record: type with misc fallback, raw key or "", file only when present, routed maps |
| ImportCmd.RouteRequired | cmd/import.go:86-89 | every required field takes the raw value of its name or ""; exactly those names are deleted from the raw map |
| ImportCmd.RouteOptional | cmd/import.go:91-94 | every remaining raw field is added to the optional map with its value and the raw map is drained |
| ImportCmd.BuildEntry | cmd/import.go:65-94 | builds the entry exactly when the raw type or `misc` is in the catalog; the built entry has the type, key, file, required and optional maps that routing defines; fails with TypeNotFoundError otherwise |
| ImportCmd.RoutingPartition | cmd/import.go:77-94 | the required keys are the schema's; every non-reserved raw field lands in exactly one of the two maps with its value |
| ImportCmd.UnknownFieldGoesOptional | cmd/import.go:91-94 | a field the schema does not list (isbn) is kept as optional, and a missing required field reads "" |
| ImportCmd.ImportParse | cmd/import.go:63-105 | succeeds exactly when every record can be built; on failure it names the first record that cannot (every earlier one can) and nothing is committed; on success the entries are in input order and the commit phase is Plan of their files |
| ImportCmd.Step | cmd/import.go:101-104 | the commit phase for one entry: its commit, then its attachment when its file is non-empty |
| ImportCmd.Plan | cmd/import.go:100-105 | the commit phase over all entries, Step by Step in input order (laws in PlanContents and PlanOrder) |
| ImportCmd.Files | cmd/import.go:81-84 | the file each record's entry carries, in record order: the raw `file` or "" |
| ImportCmd.PlanContents | cmd/import.go:100-105 | every entry is committed; an entry's file is attached exactly when the file is non-empty |
| ImportCmd.PlanOrder | cmd/import.go:100-105 | commits follow input order, and an attachment comes right after its entry's commit |
| AddCmd.RequestManual | scholar/cmd/add.go:138-147 | the entry is made by hand unless the answer occurs in "yesYes"; which answers those are is RequestManualAnswers |
| AddCmd.YesPiece | scholar/cmd/add.go:146 | every piece of "yesYes" is in the list of yes answers |
| AddCmd.YesAnswerOccurs | scholar/cmd/add.go:146 | every one of the yes answers occurs in "yesYes", so the web is searched for it |
| AddCmd.RequestManualAnswers | scholar/cmd/add.go:138-147 | the web is searched exactly for the 19 pieces of "yesYes", the empty answer included |
| AddCmd.Normalize | scholar/cmd/add.go:245-248 | lower-case, then remove every space (also lines 312-315); its laws are NormalizeConcat and NormalizeIdempotent |
| AddCmd.SearchMatches | scholar/cmd/add.go:243-251 | the searcher shared with lines 310-318: the normalized input occurs in the normalized first text followed by the normalized second (see SearchMatchesJoined) |
| AddCmd.WorkMatches | scholar/cmd/add.go:243-251 | the paper picker's filter over title then authors |
| AddCmd.TypeMatches | scholar/cmd/add.go:310-318 | the type picker's filter over type name then description (see TypeMatchesAll) |
| AddCmd.NormalizeConcat | scholar/cmd/add.go:243-251 | normalizing distributes over concatenation |
| AddCmd.NormalizeIdempotent | scholar/cmd/add.go:243-251 | normalizing twice is normalizing once |
| AddCmd.SearchMatchesJoined | scholar/cmd/add.go:243-251 | the filter matches exactly when the normalized input occurs in the normalized title-plus-authors text |
| AddCmd.SearchIgnoresCaseAndSpaces | scholar/cmd/add.go:243-251 | normalizing the input or either text first never changes the verdict |
| AddCmd.BlankNormalizesEmpty | scholar/cmd/add.go:248 | an input of spaces only normalizes to "" |
| AddCmd.SearchBlankMatchesAll | scholar/cmd/add.go:243-251 | an empty or all-space input matches every item |
| AddCmd.TypeMatchesAll | scholar/cmd/add.go:310-318 | in the type picker a blank input lists every catalog type, and a type is shown exactly when the input occurs in its normalized name plus description |
| AddCmd.WorkMatchesAcrossFields | scholar/cmd/add.go:243-251 | a match may ignore case and spaces and run from the title into the authors |
| AddCmd.RowOf | scholar/cmd/add.go:220-228 | the picker row built for one hit (its shape is RowOfShape) |
| AddCmd.RowOfShape | scholar/cmd/add.go:220-228 | a picker row keeps title, authors and DOI; short title and year are 20 and 4 columns, right-aligned |
| AddCmd.Query | scholar/cmd/add.go:192-272 | zero hits give "" and one hit its DOI, with no listing; two or more are all listed in order and the DOI of the pick is returned, or the command aborts |
| AddCmd.CollectNames | scholar/cmd/add.go:290-293 | every type name is collected exactly once |
| AddCmd.NamesOfCatalog | scholar/cmd/add.go:290-297 | the sorted names list every catalog type once, strictly ascending |
| AddCmd.SelectType | scholar/cmd/add.go:287-337 | every catalog type is listed once, in ascending name order, each with its own type; the type picked is returned, or the command aborts; in a catalog keyed by type name the returned name is one of its keys, as `add` needs |
| AddCmd.LibraryDir | scholar/cmd/add.go:166-169 | the --to library's directory from the LIBRARIES table when --to is given, else the default library (see CommitLibrary) |
| AddCmd.CommitDir | scholar/cmd/add.go:166-175 | the key's directory in that library, with one "a" appended when it exists (see CommitWhenFree, CommitOnCollision) |
| AddCmd.Commit | scholar/cmd/add.go:164-190 | the directory is the key's under the --to library or the default; on a collision both path and key get one "a"; the file written is entry.yaml in it |
| AddCmd.CommitWhenFree | scholar/cmd/add.go:166-171 | without a collision the entry goes to its key's unused directory |
| AddCmd.CommitOnCollision | scholar/cmd/add.go:171-175 | on a collision the directory is that of the suffixed key |
| AddCmd.CommitMayReuseTakenDir | scholar/cmd/add.go:171-175 | the suffixed directory is not checked and may already exist |
| AddCmd.CommitLibrary | scholar/cmd/add.go:166-169 | the directory lies in the --to library when one is named, else in the default library |
| AddCmd.AttachName | scholar/cmd/add.go:363 | key, "_", at most 40 characters of the cleaned title, then the source's extension |
| AddCmd.AttachPath | scholar/cmd/add.go:355-365 | the attach name joined to the key's directory of the default library (see AttachInEntryDir) |
| AddCmd.Attach | scholar/cmd/add.go:353-379 | the copy goes to the attach name in the key's directory of the default library, and the entry's file becomes that path |
| AddCmd.AttachInEntryDir | scholar/cmd/add.go:355-365 | the attach path is default library / key / attach name |
| AddCmd.AttachIgnoresTargetLibrary | scholar/cmd/add.go:166-168 | with --to the entry is committed to the named library but its file goes under the default one |
| AddCmd.Add | scholar/cmd/add.go:339-351 | a fresh entry of the picked type whose required fields hold the trimmed typed lines |
| Manual.TypedShape | scholar/cmd/add.go:346 | a stored value is the typed line less spaces and newlines at both ends, and starts and ends with neither |
| Manual.Typed | scholar/cmd/add.go:346 | strings.Trim(text, " \n"): the value stored for a typed line (characterised by TypedShape) |
| Manual.FillRequired | scholar/cmd/add.go:342-348 | every required field, and no other, is set to its trimmed line |
| Manual.TypedStable | examples/main.go:113 | a stored value, typed again, is stored unchanged |
| Manual.TypedKeepsTab | examples/main.go:113 | only spaces and newlines are trimmed: a tab survives |
| ExampleMain.AuthorName | examples/main.go:33 | one author as "Last, First" |
| ExampleMain.Names | examples/main.go:32-33 | one "Last, First" per author, in order |
| ExampleMain.JoinAnd | examples/main.go:32-35 | the reference rendering the author loop is proved against: the names joined by " and " |
| ExampleMain.Appended | examples/main.go:32-34 | the slot after the loop: each author's "Last, First and " appended in order (see AppendedAfter, AppendedJoin) |
| ExampleMain.AuthorField | examples/main.go:32-35 | the slot after the loop and one TrimSuffix of " and " (see AuthorFieldJoin) |
| ExampleMain.AppendedAfter | examples/main.go:32-34 | the loop appends to whatever the author slot held |
| ExampleMain.AppendedJoin | examples/main.go:32-34 | from an empty slot the loop leaves the names joined by " and " plus one trailing " and " |
| ExampleMain.AuthorFieldJoin | examples/main.go:32-35 | the author field is the old value followed by the names joined by " and "; with no author only one trailing " and " is cut |
| ExampleMain.AuthorFieldTwo | examples/main.go:32-35 | two authors render as "Lovelace, Ada and Turing, Alan" |
| ExampleMain.AppendAuthors | examples/main.go:32-34 | each author appends "Last, First and " to the slot, in order; no author, no write |
| ExampleMain.BookTitleSlot | examples/main.go:39-43 | `booktitle` for type inproceedings, `journaltitle` for every other type |
| ExampleMain.DOIRequired | examples/main.go:33-43 | author, date and title are written, with booktitle for inproceedings and journaltitle otherwise; every other required field is kept |
| ExampleMain.DOIOptional | examples/main.go:45-47 | volume, number and doi are written even when empty; nothing else changes |
| ExampleMain.NewEntry | examples/main.go:30 | the two-argument constructor (also line 107): a fresh entry with the key and type it records, blank required fields and no optional field |
| ExampleMain.AddDOI | examples/main.go:22-50 | the constructed entry, its key and type untouched, with maps DOIRequired (book-title slot by the entry's own type) and DOIOptional of the blank ones |
| ExampleMain.DOIAuthors | examples/main.go:32-35 | for any type, a fresh entry's author field is the names joined by " and ", "" for no author |
| ExampleMain.EntryDir | examples/main.go:80 | the entry's directory (also lines 54 and 125): folder joined with the key |
| ExampleMain.EntryFile | examples/main.go:139 | the file (also line 68) the entry is written to: entry.yaml in its directory |
| ExampleMain.AttachPath | examples/main.go:80-88 | key plus the source's extension, in the entry's directory (see AttachPathShape) |
| ExampleMain.Attach | examples/main.go:77-102 | the entry's file becomes folder/key/(key + source extension) |
| ExampleMain.AttachPathShape | examples/main.go:80-88 | the attach path is folder/key/key+ext, keeps the source's extension, and is the entry file only when key+ext is "entry.yaml" |
| ExampleMain.Add | examples/main.go:105-139 | the constructed entry, key and type untouched, whose required fields hold the trimmed typed lines, written to folder/key/entry.yaml |

## Left out

- Network I/O: the metadata client's search and lookup are left out, and their results are inputs (`Work`, `CrossrefWork`). `scholar.Parse`, which builds an entry from a record in `scholar/cmd/add.go`, is not part of this model.
- `bib.Unmarshal`, the bibtex parser: the parsed records are the input of `ImportCmd.ImportParse`.
- The `scholar` package's internals: `GetKey`, `clean`, `Bib`, `Check`, `LoadTypes` and `TypesInfo` are not part of this model. The key and the cleaned title are parameters.
- Scholar.NewEntry: the source calls three different constructors (with and without an error result, and with two arguments). The model has one: a fresh entry with the schema's required names blank. Construction errors other than TypeNotFoundError are not modelled.
- AddCmd.Add: requires the type to be in the catalog, because `add` always receives a type picked from it. The library's behaviour for an unknown name is not part of this model.
- ExampleMain.AddDOI: the example program's library version builds the entry with `NewEntry("crossref", work.Type)`, whose code is not part of this model. The key and type it records and the required field set it gives are parameters (`Start`, `fields`), so the model does not say how the first argument or the record's type become them.
- ExampleMain.Add: the same holds for `NewEntry("none", entryType)`: the recorded key and type and the required field set are parameters.
- AddCmd.Query and AddCmd.SelectType: the picked index is assumed to lie in the listing, which the prompt guarantees. The prompt's failure is `None`, which aborts.
- Prompts, terminal reading and printing, cobra/viper configuration and `os.Exit` are out. The answers are parameters, and an exit is `Abort`.
- The `Run` dispatch of `scholar add`, `edit`, `update` and the example program's `export`, `find` and `main` are orchestration or file scans and are not modelled.
- File I/O: `os.Stat`, `MkdirAll`, file writes, `io.Copy` and YAML marshalling are out. Only paths are computed. An existing path is membership in the `taken` set. Any `os.Stat` error other than "does not exist" also counts as a collision in the source, which the model does not distinguish.
- Panics on I/O errors are not modelled. The one panic that the routing decides (no `misc` type) is `ImportError.Fatal`.
- The import's commit phase is a list of `Commit`/`Attach` actions rather than the calls themselves, whose effects are those of `commit` and `attach` above.
- AddCmd.Commit: when there is no collision the entry's key is left as it was. The key generator's own effect on the entry is unknown.
- A missing LIBRARIES section in the configuration (a nil sub-tree in the source) is not modelled. The library name then reads as "".
- GoPath.Join: filepath.Join's lexical clean-up (removing `..`, `.` and doubled separators) is not modelled.
- GoStrings.ToLower: only ASCII letters are lower-cased.
- Strings are sequences of characters, one per rune. A `%.40s` cut therefore counts runes, as Go's fmt does.
- GoSort.SortStrings: only the result of sort.Strings is modelled, not its algorithm.
- Go's random map iteration order is an arbitrary choice (`:|`). Every result stated holds for every order.
- The comment at cmd/import.go:99 speaks of validation, but nothing is validated between building and committing. The model builds and then commits, as the code does.
