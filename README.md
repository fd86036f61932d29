# Glossary merger — a Dafny model

The glossary tool reads a directory of YAML dictionaries, each a map from a
term to its definitions. It merges them into one CSV stream of
`term,definitions` records, optionally sorted by term. This project models the
core of that tool and proves what it promises:

- **Definition decoding.** Two variants exist. `src/term.rs` is the one the
  binary compiles: a field is a string or a sequence of strings.
  `src/definition.rs` is a richer variant that `src/main.rs` never declares as a
  module: a definition is a bare string or a map with a required `def` and an
  optional `note`, and a field holds one definition or a sequence of them.
- **Canonical rendering.** A definition list is rendered as its texts joined by
  `"; "`. Notes never appear in the output.
- **Loading a dictionary.** The decoded term map becomes one entry per key, in
  an unspecified order. The dictionary is named after the file stem of its
  path.
- **The `merge` command.** It keeps only the regular files the directory walk
  yields and loads each one; any failure aborts the run. It concatenates the
  entries, sorts them by term when `--sort` is given, and emits one
  two-field record per entry.

Files:

- `wrappers.dfy`: `Option`, `Result`.
- `serde.dfy`: the parsed YAML value tree and serde's shape errors.
- `text.dfy`: `join` and `split`.
- `ordering.dfy`: byte-wise string ordering.
- `paths.dfy`: `Path::file_stem`.
- `definition.dfy`: `src/definition.rs`.
- `term.dfy`: `src/term.rs`.
- `merge.dfy`: the `Merge` arm of `src/main.rs`.

Behaviour of the code that is easy to overlook:

- The `{def, note}` map shape (`cat: {def: a feline, note: ...}`) is decoded
  only by `src/definition.rs`. `src/main.rs:9` compiles `src/term.rs` alone,
  and its decoder rejects that map (`Term.StructuredShapeRejected`).
- No stable order is promised for equal terms, because `src/main.rs:46` calls
  `sort_unstable_by`. The model promises "sorted and a permutation" and
  proves that the term column is determined anyway
  (`Merge.SortedTermsDetermined`).
- Both decoders accept an empty sequence. It gives an empty definition list,
  which renders as `""`.
- When a sequence element fails to decode, serde's `Vec` visitor reports
  that element's own error and adds no index. In `src/term.rs`, serde_yaml
  also attaches a location to the error: a path such as `cat[1]`, plus a
  line and column. The model does not carry that location.
- Duplicate keys in one YAML map are resolved last-write-wins, as inserting
  into a `HashMap` does (`Term.InsertAllSpec`).

## Model

| member | source | states |
|---|---|---|
| `Definition.DecodeDefinitionSpec` | src/definition.rs:69-110 | About `Definition.DecodeDefinition` (`string_or_struct`) and `Definition.ParseInner` (`FromStr`). A bare string `s` decodes to `def = s`, `note = None`, and never fails (the `FromStr` at src/definition.rs:23-31). A map decodes iff it has exactly one `def`, at most one `note`, and both are well typed; the result carries those values. Any other shape is rejected with `InvalidType(.., "string or map")`. |
| `Definition.DecodeInnerSpec` | src/definition.rs:13-17 | About `Definition.DecodeInner` (the derived `Deserialize` of `InnerDefinition`). The derived struct decoder succeeds iff `def` occurs once as a string and `note` at most once as a string or null. `def` is that string. `note` is `Some(n)` for a string, otherwise `None`. |
| `Definition.VisitFieldsSpec` | src/definition.rs:98-107 | About `Definition.VisitFields` and `Definition.VisitField` (the derived `visit_map`). Visiting the map entries in order succeeds iff no field repeats (counting fields already seen) and every `def`/`note` value is well typed. Other keys are ignored. The fields gathered are the first `def` and `note` values. |
| `Definition.MissingDef` | src/definition.rs:13-17 | A map without `def` is always rejected. With nothing else wrong, the error is `MissingField("def")`. |
| `Definition.DefAndNote` | src/definition.rs:13-17 | `{def: t, note: n}`, in either key order, gives `(t, Some(n))`. `{def: t}` gives `(t, None)`. |
| `Definition.DecodeEach` | src/definition.rs:40-44 | A sequence decodes iff every element does. The result has the same length and order, each element decoded on its own. The error is that of the first failing element. |
| `Definition.DecodeDefinitionsSpec` | src/definition.rs:40-44 | About `Definition.DecodeDefinitions` (`OneOrMany<_, PreferMany>` decoding). A non-sequence field gives exactly `[decode(v)]`. It fails exactly when `decode(v)` fails, with `NoVariant(decode(v)'s error, InvalidType(.., "a sequence"))`. A sequence gives the element-wise list, or a `NoVariant` error whose one-form part is `InvalidType(Sequence, "string or map")` and whose many-form part is the first element's error. |
| `Definition.DisplayIgnoresNote` | src/definition.rs:34-38 | About `Definition.Display` (`Display for Definition`). A definition displays as its `def` text, whatever its note. |
| `Definition.RenderIgnoresNotes` | src/definition.rs:46-67 | Two lists whose `def` texts agree position by position render and serialize identically. |
| `Definition.RenderShape` | src/definition.rs:46-67 | About `Definition.Render` and `Definition.Serialize` (`Display` and `Serialize for Definitions`). Empty renders `""`. One element renders as its `def`. n ≥ 1 elements give the summed text length plus 2·(n−1). Serialization is one string equal to the rendering. |
| `Definition.RenderConcat` | src/definition.rs:46-58 | Rendering a concatenation of two non-empty lists puts exactly one `"; "` at the seam. |
| `Text.JoinLength` | src/term.rs:18-22 | About `Text.Join` (`join`). `join` of no parts is `""`. Of n ≥ 1 parts it has length equal to the summed part lengths plus (n−1) separators. |
| `Text.JoinConcat` | src/term.rs:18-22 | `join(a ++ b) == join(a) + sep + join(b)` for non-empty `a` and `b`. |
| `Text.SplitJoin` | src/term.rs:95 | About `Text.Split` (the component split under `Path`). Splitting a path on `/` gives pieces without `/` that join back to the path. |
| `Lexicographic.CompareLess` | src/main.rs:46 | About `Lexicographic.Compare` (`String::cmp`). `cmp` answers `Less` exactly when `a` is a proper prefix of `b` or the first differing character is smaller in `a`. |
| `Lexicographic.CompareEqual` | src/main.rs:46 | `cmp` answers `Equal` exactly for equal strings. |
| `Lexicographic.CompareSwap` | src/main.rs:46 | Swapping the operands reverses the answer. |
| `Lexicographic.LeTotal` | src/main.rs:46 | Any two terms are ordered one way or the other. |
| `Lexicographic.LeTransitive` | src/main.rs:46 | Byte-order `<=` is transitive. |
| `Lexicographic.LeAntisymmetric` | src/main.rs:46 | `<=` both ways only holds between equal strings. |
| `Paths.LastDot` | src/term.rs:95 | Finds the last `.` of a file name; `None` means the name has no dot. |
| `Paths.StemSpec` | src/term.rs:95 | About `Paths.StemOf` and `Paths.FileStem` (`Path::file_stem`). The stem is the whole name exactly when the name is `..` or no dot follows its first character. Otherwise the name is the non-empty stem, a `.`, and an extension without dots. |
| `Paths.FileNameOfChild` | src/term.rs:95 | About `Paths.FileName` (`Path::file_name`). The file name of `dir/name` is `name` for a plain name, and so is that of `name` alone. |
| `Paths.StemOfChild` | src/term.rs:95 | The stem of `dir/base.ext` is `base` when `ext` has no dot. |
| `Term.DecodeStrings` | src/term.rs:70-75 | A sequence decodes iff every element is a string. The result is those strings, in order. The error names the first non-string with `InvalidType(.., "a string")`. |
| `Term.DecodeDefinitionsSpec` | src/term.rs:50-79 | About `Term.DecodeDefinitions` (`string_or_seq_string`). A string `s` gives `[s]`. A sequence of strings gives the same strings in order. Anything else (map, number, bool, null) fails with `InvalidType(.., "string or sequence of strings")`. |
| `Term.StructuredShapeRejected` | src/term.rs:59-61 | The `{def, note}` map shape is rejected by the compiled decoder. |
| `Term.RenderShape` | src/term.rs:18-31 | About `Term.Render` and `Term.Serialize` (`Display` and `Serialize for Definitions`). Empty renders `""`. One element renders as itself. n ≥ 1 elements give the summed length plus 2·(n−1). Serialization emits exactly the display string. |
| `Term.SerializeReadsBack` | src/term.rs:24-31 | Decoding a serialized list gives one definition holding the joined text. This is exact for one-element lists and loses the boundaries for longer ones. |
| `Term.RecordShape` | src/term.rs:35-48 | About `Term.EntryFrom` (`From<(String, Definitions)>`) and `Term.Record` (the derived `Serialize` of `Entry`). `Entry::from((t, d))` serializes as exactly two fields: `t`, then the rendering of `d`. |
| `Term.InsertAllSpec` | src/term.rs:88-92 | About `Term.InsertAll` and `Term.DecodeEntryMap` (decoding `EntryMap`). The term map decodes iff every value is a definition field, and the first bad value's error is reported. The keys are exactly those written. Each key holds the value written last under it. |
| `Term.ExampleDocuments` | src/term.rs:63-75 | `{cat: "a feline"}` and `{cat: ["a feline", "a whip"]}` decode as expected. The latter's record is `cat`, `a feline; a whip`. `{cat: 42}` is rejected. |
| `Term.LoadRejects` | src/term.rs:88-92 | About `Term.Load` (open, then decode, then `file_stem`). A document that is not a map is rejected with `InvalidType(.., "a map")`. A map holding a bad value fails with a decode error. |
| `Term.ListsEveryKey` | src/term.rs:92 | A list of entries with one entry per key and distinct terms covers every key, each with its own value. |
| `Term.FromFile` | src/term.rs:88-98 | Fails exactly when reading, decoding or taking the file stem fails, with that failure. Otherwise the name is the file stem and the terms are one entry per map key in some order: count equals the map size, each entry carries its key's value, and terms are pairwise distinct. |
| `Merge.SourcesSpec` | src/main.rs:34-37 | About `Merge.Sources` (the `filter_map` and `filter` steps). Walk errors and non-files contribute nothing. Each file contributes its path. The walk's order is kept. |
| `Merge.FlattenSpec` | src/main.rs:38-43 | About `Merge.Flatten` (`flat_map` then `collect`). The merged list's length is the sum of the dictionaries' lengths. An entry is in it exactly when it is in some dictionary: nothing is dropped, invented or deduplicated. |
| `Merge.LoadAll` | src/main.rs:34-43 | Succeeds iff every source loads. On failure it reports the first failing source's error, with no partial result. On success it returns the concatenation of one valid load per source, in order. |
| `Merge.MinFrom` | src/main.rs:46 | Returns a position at or after `from` whose term is `<=` every later term. |
| `Merge.SortByTerm` | src/main.rs:45-47 | The array ends sorted by term in byte order and is a permutation of what it held. Stability is not promised. |
| `Merge.SortedTermsDetermined` | src/main.rs:45-47 | Any two sorted permutations of the same entries have the same term column. Only ties may be arranged differently. |
| `Merge.EmitRecords` | src/main.rs:49-55 | One record per entry, in list order, with no header. Record `i` is exactly `[term, rendered definitions]` of entry `i`. |
| `Merge.Run` | src/main.rs:32-56 | The run succeeds iff every walked file loads, and otherwise reports the first failure. On success the records are, in order, those of the flattened entries (no `--sort`) or of a term-sorted permutation of them (`--sort`). |

## Left out

- YAML text parsing is the parser library's job. A document reaches the model as an already-parsed `Serde.Value`, or as a `ReadError`.
- serde_yaml's coercion of plain scalars such as `42` into strings when a string is expected is not modelled. The value tree is typed, so a number stays a number.
- Mapping keys are strings in the model. YAML maps with non-string keys are not represented.
- Opening files (`File::open`), the directory walk (`WalkDir`), and the command-line parsing are collaborators. The walk is an input sequence of entries. Each entry is an error or (is-file flag, path, parse outcome).
- CSV quoting and the writer's own I/O errors belong to the csv crate. Records stop at their two field strings.
- The wording of serde's error messages is not modelled, including the text serde_with builds when neither the one-form nor the many-form decodes. The same goes for the location serde_yaml attaches to an error: a path such as `cat[1]`, a line and a column. The model keeps the error kind, the shape found and the expectation string.
- `PreferMany` only affects serialization, which this program never performs through `OneOrMany`.
- `HashMap` iteration order is left unspecified: `Term.FromFile` drains the keys in an arbitrary order.
- Paths are `/`-separated strings. OS-specific separators, prefixes and `to_string_lossy` are not modelled.
- `Merge.SortByTerm`: this is a selection sort, not Rust's pattern-defeating quicksort. Only the shared contract is modelled: sorted by term, a permutation, no stability.
- `Lexicographic.Compare` compares Unicode code points rather than UTF-8 bytes. The two orders agree for valid UTF-8, and Rust `String`s are always valid UTF-8.
- Panics are modelled as failures of the run: the `unwrap` on `from_file`, and the `unwrap` on a missing file stem (`Term.NoFileStem`).
