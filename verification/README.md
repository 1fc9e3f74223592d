# Zemberek tester: stem extraction and batch output

A Dafny model of the tester around the Zemberek Turkish morphological
analyser. The tester turns raw text into a sequence of stems, each rendered
as `<text>_<POS>`, and runs over a corpus in one of two modes: one aggregated
comparison report (Mode A) or one stem file per input (Mode B).

The model is functional: immutable datatypes and pure functions over
sequences.

- `Wrappers`: `Option`, standing for Java's nullable results.
- `Text`: `String.join` and its inverse, splitting at one character.
- `Morph`: the analyser's output as the tester sees it. A `Parse` holds the
  lemma, the string form of the primary part of speech and the surface form.
  An `Entry` is one token with its parses ranked best first. A `StemRecord`
  renders as `<text>_<tag>` and can be read back.
- `StemExtractor`: the policy of `sentenceStems`. Entries without a parse
  are skipped, and only parse 0 is consulted. A `Punc` top parse is dropped.
  An `Unk` top parse yields its surface form, and any other yields its lemma.
  Stems keep the entries' order. The Java loop is also modelled as the
  method `ExtractStems`.
- `Pipeline`: `stems(String)`. The sentence detector and the disambiguating
  sentence parser are two uninterpreted functions in an `Analyzer`:
  `segment` and `analyze`.
- `FilePaths`: a structural model of a Unix `java.nio.file.Path`, made of an
  absolute flag and name elements. It covers `getParent`, `getFileName`,
  `toString`, `outPath` and the location of the aggregated report.
- `Corpus`: Mode A (`generateSingleFile`) as the list of report lines, six
  per file, with a reader that recovers each file's path, text and stem
  line. Mode B (`generateMultipleFiles`) as the sequence of per-file writes.

Facts about `Tester.java` that the model keeps:
- A Mode A block is six lines: `"Path: "+path+"\n"`, `"Actual:"`, the text
  followed by `"\n"`, `"Stemmed:"`, the space-joined stems, and `"\n"`.
- Entries with no parse are dropped too, so a sentence yields exactly one
  stem per entry only when every entry has at least one parse and no top
  parse is `Punc`.
- `getParent()` is `null` for a relative path of one element, and then both
  modes fail with a `NullPointerException`. The model returns `None`. In
  Mode A nothing is written. In Mode B the files before the failing one are
  already written.

## Model

| member | source | states |
|---|---|---|
| StemExtractor.EntryRecord | src/main/java/tester/Tester.java:53-58 | an entry yields a record exactly when it has a parse and its top parse is not `Punc` |
| StemExtractor.EntryStems | src/main/java/tester/Tester.java:53-59 | an entry adds one stem when it contributes and none otherwise |
| StemExtractor.SentenceStems | src/main/java/tester/Tester.java:48-62 | a sentence never has more stems than entries |
| StemExtractor.SentenceStemsCount | src/main/java/tester/Tester.java:52-60 | a sentence has exactly as many stems as entries iff every entry has a parse and no top parse is `Punc` |
| StemExtractor.ExtractStems | src/main/java/tester/Tester.java:49-61 | the loop over the entries computes exactly the stems of the sentence |
| StemExtractor.SentenceStemsAppend | src/main/java/tester/Tester.java:52-60 | stems of `s ++ t` are the stems of `s` followed by those of `t`: no reordering, merging or deduplication |
| StemExtractor.SentenceStemsPositional | src/main/java/tester/Tester.java:52-60 | there is one stem per kept position, and stem `k` is the rendered record of the entry at the `k`-th kept position |
| StemExtractor.KeptIndicesExact | src/main/java/tester/Tester.java:53-54 | the kept positions are exactly those of the entries with a parse and a non-`Punc` top parse, each once, in increasing order |
| StemExtractor.SplitAt | src/main/java/tester/Tester.java:52-60 | each entry's stems sit between the stems of the entries before it and those after it |
| StemExtractor.EntryIgnored | src/main/java/tester/Tester.java:53-54 | removing an entry with no parse or with a `Punc` top parse leaves the stems unchanged, so it adds no stem and causes no error |
| StemExtractor.TopParseOnly | src/main/java/tester/Tester.java:54-58 | sentences that agree on each entry's top parse stem alike, whatever the lower-ranked parses are |
| StemExtractor.UnknownStem | src/main/java/tester/Tester.java:56-57 | an entry whose top parse is `Unk` yields its surface form followed by `_Unk`, in its place |
| StemExtractor.KnownStem | src/main/java/tester/Tester.java:58 | any other contributing entry yields `lemma + "_" + pos` of its top parse, in its place |
| StemExtractor.KnownEntry | src/main/java/tester/Tester.java:58 | a single-parse entry that is neither `Punc` nor `Unk` yields `lemma_pos` |
| StemExtractor.AliEveGitti | src/main/java/tester/Tester.java:48-62 | the sentence "Ali eve gitti." with a final `Punc` yields `Ali_Noun`, `ev_Noun`, `git_Verb` |
| Morph.ReadRender | src/main/java/tester/Tester.java:57-58 | a rendered stem whose tag has no underscore reads back as the same text and tag |
| Morph.RenderRead | src/main/java/tester/Tester.java:57-58 | a string reads as a stem iff it contains an underscore, and the record read renders back to that string |
| Pipeline.FlattenStems | src/main/java/tester/Tester.java:42-44 | the stems of the sentences never outnumber their entries |
| Pipeline.FlattenAppend | src/main/java/tester/Tester.java:43 | document stems follow sentence order: flattening two runs of sentences concatenates their stems |
| Pipeline.FlattenIsEntryStream | src/main/java/tester/Tester.java:43 | flattening per-sentence stems equals stemming all entries of all sentences as one sequence, so boundaries leave no mark |
| Pipeline.DocumentStems | src/main/java/tester/Tester.java:42-44 | a document has exactly as many stems as entries iff every entry of every sentence has a parse and no top parse is `Punc` |
| Pipeline.SingleSentence | src/main/java/tester/Tester.java:42-44 | a text segmented into one sentence stems as that sentence |
| Pipeline.Stems | src/main/java/tester/Tester.java:42-44 | a text's stems are the stems of all entries of its segmented sentences, taken in sentence order as one sequence |
| Text.Join | src/main/java/tester/Tester.java:85 | a joined line is as long as its parts together plus one separator between each two; no parts give the empty line |
| Text.SplitJoin | src/main/java/tester/Tester.java:85 | when no part contains the character, splitting the joined string gives the parts back; an empty list joins to `""`, which splits into one empty piece |
| Text.JoinSplit | src/main/java/tester/Tester.java:85 | splitting a string at a character and joining with it gives the string back |
| Corpus.StemLineSplits | src/main/java/tester/Tester.java:85 | a file's stem line splits back at spaces into its stems when no stem contains a space; a file with no stems gives the empty line, which splits into one empty piece |
| FilePaths.Parent | src/main/java/tester/Tester.java:97 | `getParent` drops the last element, and is `null` exactly for the root and for a relative path of one element |
| FilePaths.FileName | src/main/java/tester/Tester.java:97 | `getFileName` is `null` exactly for the root |
| FilePaths.Resolve | src/main/java/tester/Tester.java:97 | `Paths.get(dir.toString(), name)` has parent `dir` and file name `name` |
| FilePaths.OutPath | src/main/java/tester/Tester.java:96-98 | `outPath(p)` exists iff `p` has a parent; it then has the same parent as `p` and is named `zemberek_` followed by p's name |
| FilePaths.ReportPath | src/main/java/tester/Tester.java:77 | the report is `zemberek_comparison.txt` next to the input root, and fails iff the root has no parent |
| FilePaths.ParentThenName | src/main/java/tester/Tester.java:97 | a path with a parent is that parent with its own name appended |
| FilePaths.OutPathInjective | src/main/java/tester/Tester.java:96-98 | distinct inputs get distinct output paths, and no output path equals its input |
| FilePaths.OutPathString | src/main/java/tester/Tester.java:97 | the rendered output path is the parent's rendering, a `/` unless the parent is the root, then `zemberek_` and the name |
| FilePaths.ParseToString | src/main/java/tester/Tester.java:97 | a valid path (non-empty names free of `/`, and at least one name when relative) is read back from its `toString()` |
| FilePaths.ToStringInjective | src/main/java/tester/Tester.java:81 | two valid paths render alike iff they are equal, so the `Path:` line of a block names one file |
| FilePaths.OutPathValid | src/main/java/tester/Tester.java:97 | the output path of a valid path is valid |
| FilePaths.OutPathHitsSibling | src/main/java/tester/Tester.java:94-97 | as written, the output for `/d/a` is the distinct input `/d/zemberek_a` |
| FilePaths.OutPathAvoidsInputs | src/main/java/tester/Tester.java:94-97 | an output path never equals a path whose file name does not start with `zemberek_` |
| FilePaths.ReportPathIsRoot | src/main/java/tester/Tester.java:77-79 | as written, a root that is the file `zemberek_comparison.txt` is its own report path |
| FilePaths.ReportPathOutsideWalk | src/main/java/tester/Tester.java:77-79 | the report never lies below the walked root, and it is the root itself exactly when the root is named `zemberek_comparison.txt` |
| Corpus.ReportLines | src/main/java/tester/Tester.java:78-88 | the report has exactly six lines per file |
| Corpus.BlockAt | src/main/java/tester/Tester.java:80-88 | lines `6i` to `6i+5` of the report are the block of file `i`, in walk order |
| Corpus.ReportRoundTrip | src/main/java/tester/Tester.java:80-87 | the report reads back into one block per file, in order, each with the rendered path, the full original text and the space-joined stems |
| Corpus.SingleFileReport | src/main/java/tester/Tester.java:76-89 | Mode A writes six lines per file to the report path, and fails before writing iff the root has no parent |
| Corpus.MultipleFiles | src/main/java/tester/Tester.java:91-95 | Mode B writes one file per input, in walk order, each holding the single space-joined stem line at that input's `outPath`; it stops at the first input with no parent; distinct inputs get distinct outputs; when no input's name starts with `zemberek_`, no write targets an input |
| Corpus.DistinctOutputs | src/main/java/tester/Tester.java:94-97 | writes placed at the `outPath`s of distinct input paths go to distinct output paths |
| Corpus.DistinctRenderings | src/main/java/tester/Tester.java:94-97 | for valid input paths, inputs with distinct renderings get outputs with distinct renderings |
| Corpus.WritesAvoidInputs | src/main/java/tester/Tester.java:92-97 | when no input's file name starts with `zemberek_`, no write placed at an input's `outPath` targets any input |
| Corpus.ReportBlockReads | src/main/java/tester/Tester.java:80-87 | one file's six-line block reads back as its rendered path, its full text and its stem line, whatever the text holds |

## Left out

- Construction of the lexer, word parser, Markov disambiguator and sentence detector (src/main/java/tester/Tester.java:32-38): these are library objects with large hidden state.
- Sentence boundary detection, morphological analysis and disambiguation (src/main/java/tester/Tester.java:45-47, 50-51): these are the uninterpreted functions `segment` and `analyze` of an `Analyzer`. `analyze` returns the disambiguated entries directly; the in-place mutation is not modelled.
- Part-of-speech values are their string forms (`getStringForm`), so `Punc` and `Unk` are compared as strings, as the source does.
- `readFileToString` and `stems(Path)` (src/main/java/tester/Tester.java:39-41, 63-70): UTF-8 decoding and the return of `""` on an `IOException` are I/O. Each corpus file comes with its text. Mode A reads each file twice; the model assumes both reads return the same text.
- `write` and `writeSingle` (src/main/java/tester/Tester.java:99-112): the model stops at the lines handed to `Files.write`. Line separators, UTF-8 encoding and the swallowed `IOException` are I/O.
- `Files.walk` and the `isRegularFile` filter (src/main/java/tester/Tester.java:78-79, 92-94): the corpus is given as the sequence of regular files in walk order. The walk's order and its exceptions are not modelled. The walk is lazy, so Mode B's own outputs may be walked and stemmed in turn; the model fixes the file list before any write.
- `main` and the commented-out choice of mode (src/main/java/tester/Tester.java:71-75).
- FilePaths.Resolve: parsing the parent's string back into a path is modelled as appending one name element. Normalisation of `.`, `..` and repeated slashes, and non-Unix file systems, are not modelled.
- Pipeline.FlattenStems: its own contract states only the bound on the stem count. The full characterisation is in `Pipeline.FlattenIsEntryStream` and `Pipeline.DocumentStems`.
- Corpus.MultipleFiles: that no write replaces an input is proved only when no input's name starts with `zemberek_`, because as written it can (see Findings).
- Corpus.DistinctOutputs: distinctness is stated for `Path` values; for rendered strings it holds on valid paths, in `Corpus.DistinctRenderings`.

## Findings

| source | as written | input that shows it | evidently intended | confidence | as-written member | corrected member |
|---|---|---|---|---|---|---|
| src/main/java/tester/Tester.java:94-97 | Mode B writes each input's stems to `zemberek_` plus its name in the same directory, even when that file is itself an input | a directory holding `a` and `zemberek_a`: the output for `/d/a` is `/d/zemberek_a`, which is overwritten | outputs never replace inputs; this holds when no input's name starts with `zemberek_` | medium, not executed | FilePaths.OutPathHitsSibling | Corpus.WritesAvoidInputs |
| src/main/java/tester/Tester.java:77-79 | the report goes to `zemberek_comparison.txt` beside the root, whatever the root is | a root that is the regular file `/d/zemberek_comparison.txt`: the walk reads it and the report replaces it | the report never replaces a walked file; this holds unless the root itself is named `zemberek_comparison.txt` | low, not executed | FilePaths.ReportPathIsRoot | FilePaths.ReportPathOutsideWalk |
