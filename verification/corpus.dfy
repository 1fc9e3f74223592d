/**
 The two batch modes of the tester over a corpus of files, given as the
 regular files found under the input root in walk order, each with its text.

 Mode A (`generateSingleFile`) builds one list of lines, a six-line block per
 file, for the report next to the root. Mode B (`generateMultipleFiles`)
 writes, for each file, one line of space-joined stems next to that file.
 */
module Corpus {
  import opened Wrappers
  import opened Text
  import opened Pipeline
  import opened FilePaths

  datatype CorpusFile = CorpusFile(path: Path, text: string)

  /** The line marking the original text of a block. */
  const ACTUAL: string := "Actual:"

  /** The line marking the stems of a block. */
  const STEMMED: string := "Stemmed:"

  /** The prefix of the first line of a block. */
  const PATH_PREFIX: string := "Path: "

  /** The stems of a file's text, joined by single spaces. */
  function StemLine(an: Analyzer, text: string): string
  {
    Join(" ", Stems(an, text))
  }

  /** When no stem contains a space the stem line splits back into the
      stems; a text with no stems gives the empty line, which splits into
      one empty piece. */
  lemma StemLineSplits(an: Analyzer, text: string)
    ensures var stems := Stems(an, text);
      (forall i :: 0 <= i < |stems| ==> ' ' !in stems[i]) ==>
        Split(' ', StemLine(an, text)) == (if |stems| == 0 then [""] else stems)
  {
    SplitJoin(' ', Stems(an, text));
    assert [' '] == " ";
  }

  /** The six lines reported for one file. */
  function ReportBlock(an: Analyzer, f: CorpusFile): (r: seq<string>)
    ensures |r| == 6
  {
    [PATH_PREFIX + ToString(f.path) + "\n", ACTUAL, f.text + "\n", STEMMED, StemLine(an, f.text), "\n"]
  }

  /** A file's block reads back as its rendered path, its full text and its
      stem line, whatever the text holds. */
  lemma ReportBlockReads(an: Analyzer, f: CorpusFile)
    ensures ReadBlock(ReportBlock(an, f)) == Some(Expected(an, f))
  {
    var l0 := PATH_PREFIX + ToString(f.path) + "\n";
    var l2 := f.text + "\n";
    assert l0[..|PATH_PREFIX|] == PATH_PREFIX;
    assert l0[|PATH_PREFIX|..|l0| - 1] == ToString(f.path);
    assert l2[..0] == "";
    assert l2[..|l2| - 1] == f.text;
  }

  /** The blocks of all files, in walk order: six lines per file. */
  function ReportLines(an: Analyzer, files: seq<CorpusFile>): (r: seq<string>)
    ensures |r| == 6 * |files|
  {
    if |files| == 0 then []
    else ReportBlock(an, files[0]) + ReportLines(an, files[1..])
  }

  /** What Mode A writes: the report's location and its lines. */
  datatype Report = Report(out: Path, lines: seq<string>)

  /** `generateSingleFile`: the report for the files under `root`, or a
      failure when `root` has no parent and nothing is written. */
  function SingleFileReport(an: Analyzer, root: Path, files: seq<CorpusFile>): (r: Option<Report>)
    ensures r.Some? <==> Parent(root).Some?
    ensures r.Some? ==> Some(r.value.out) == ReportPath(root) && |r.value.lines| == 6 * |files|
  {
    match ReportPath(root)
    case None => None
    case Some(out) => Some(Report(out, ReportLines(an, files)))
  }

  /** One block read back from a report: the path as rendered, the text and
      the stem line. */
  datatype Block = Block(path: string, text: string, stemmed: string)

  /** The block Mode A reports for a file. */
  function Expected(an: Analyzer, f: CorpusFile): Block
  {
    Block(ToString(f.path), f.text, StemLine(an, f.text))
  }

  /** True when `s` starts with `prefix` and ends with a newline after it. */
  predicate Framed(prefix: string, s: string)
  {
    |s| >= |prefix| + 1 && s[..|prefix|] == prefix && s[|s| - 1] == '\n'
  }

  /** Reads one six-line block back, or fails if the lines are not one. */
  function ReadBlock(ls: seq<string>): Option<Block>
    requires |ls| == 6
  {
    if Framed(PATH_PREFIX, ls[0]) && ls[1] == ACTUAL && Framed("", ls[2])
       && ls[3] == STEMMED && ls[5] == "\n"
    then Some(Block(ls[0][|PATH_PREFIX|..|ls[0]| - 1], ls[2][..|ls[2]| - 1], ls[4]))
    else None
  }

  /** Reads a whole report back into its blocks, or fails if it is not a
      sequence of well-formed blocks. */
  function ReadReport(lines: seq<string>): Option<seq<Block>>
    decreases |lines|
  {
    if |lines| == 0 then Some([])
    else if |lines| < 6 then None
    else
      match ReadBlock(lines[..6])
      case None => None
      case Some(b) =>
        match ReadReport(lines[6..])
        case None => None
        case Some(bs) => Some([b] + bs)
  }

  /** The report can be read back: it holds, for each file in walk order,
      the rendered path, the full original text and the stem line. */
  lemma {:induction false} ReportRoundTrip(an: Analyzer, files: seq<CorpusFile>)
    ensures ReadReport(ReportLines(an, files)).Some?
    ensures var blocks := ReadReport(ReportLines(an, files)).value;
      |blocks| == |files| && forall i :: 0 <= i < |files| ==> blocks[i] == Expected(an, files[i])
    decreases |files|
  {
    if |files| > 0 {
      var lines := ReportLines(an, files);
      var rest := ReportLines(an, files[1..]);
      assert lines[..6] == ReportBlock(an, files[0]) && lines[6..] == rest by {
        assert lines == ReportBlock(an, files[0]) + rest;
      }
      ReportBlockReads(an, files[0]);
      ReportRoundTrip(an, files[1..]);
      var tail := ReadReport(rest).value;
      assert ReadReport(lines).value == [Expected(an, files[0])] + tail;
      assert forall i :: 1 <= i < |files| ==> files[i] == files[1..][i - 1];
    }
  }

  /** Lines `6*i` to `6*i+5` of the report are the block of file `i`. */
  lemma {:induction false} BlockAt(an: Analyzer, files: seq<CorpusFile>, i: nat)
    requires i < |files|
    ensures ReportLines(an, files)[6 * i..6 * i + 6] == ReportBlock(an, files[i])
    decreases i
  {
    var block, rest := ReportBlock(an, files[0]), ReportLines(an, files[1..]);
    assert ReportLines(an, files) == block + rest;
    if i == 0 {
      SliceOfAppend(block, rest, 0, 6);
    } else {
      BlockAt(an, files[1..], i - 1);
      SliceOfAppend(block, rest, 6 * i, 6 * i + 6);
    }
  }

  /** A slice of a concatenation lying within one of its parts is a slice
      of that part. */
  lemma SliceOfAppend<T>(a: seq<T>, b: seq<T>, lo: nat, hi: nat)
    requires lo <= hi <= |a| + |b|
    requires hi <= |a| || |a| <= lo
    ensures hi <= |a| ==> (a + b)[lo..hi] == a[lo..hi]
    ensures |a| <= lo ==> (a + b)[lo..hi] == b[lo - |a|..hi - |a|]
  {
  }

  /** One file written by Mode B: its location and its lines. */
  datatype FileWrite = FileWrite(out: Path, lines: seq<string>)

  /** `generateMultipleFiles`: for each file in walk order, one line of
      stems written to its `outPath`. The first file whose `outPath` fails
      stops the batch (`completed` is false), with the earlier files already
      written. */
  method MultipleFiles(an: Analyzer, files: seq<CorpusFile>) returns (writes: seq<FileWrite>, completed: bool)
    ensures |writes| <= |files|
    ensures completed <==> forall i :: 0 <= i < |files| ==> OutPath(files[i].path).Some?
    ensures completed ==> |writes| == |files|
    ensures !completed ==> |writes| < |files| && OutPath(files[|writes|].path).None?
    ensures forall i :: 0 <= i < |writes| ==>
      Some(writes[i].out) == OutPath(files[i].path) &&
      writes[i].lines == [StemLine(an, files[i].text)]
    ensures (forall i, j :: 0 <= i < j < |files| ==> files[i].path != files[j].path) ==>
      forall i, j :: 0 <= i < j < |writes| ==> writes[i].out != writes[j].out
    ensures NoOutPrefix(files) ==>
      forall i, j :: 0 <= i < |writes| && 0 <= j < |files| ==> writes[i].out != files[j].path
  {
    writes := [];
    var i := 0;
    while i < |files| && OutPath(files[i].path).Some?
      invariant i <= |files| && |writes| == i
      invariant forall j :: 0 <= j < i ==> OutPath(files[j].path).Some?
      invariant forall j :: 0 <= j < i ==>
        Some(writes[j].out) == OutPath(files[j].path) &&
        writes[j].lines == [StemLine(an, files[j].text)]
    {
      var out := OutPath(files[i].path);
      writes := writes + [FileWrite(out.value, [StemLine(an, files[i].text)])];
      i := i + 1;
    }
    completed := i == |files|;
    DistinctOutputs(files, writes);
    WritesAvoidInputs(files, writes);
  }

  /** True when no file's name starts with the output prefix. */
  predicate NoOutPrefix(files: seq<CorpusFile>)
  {
    forall j :: 0 <= j < |files| ==>
      FileName(files[j].path).None? || !HasOutPrefix(FileName(files[j].path).value)
  }

  /** When no input is named with the output prefix, no write at an input's
      `outPath` targets any input. */
  lemma WritesAvoidInputs(files: seq<CorpusFile>, writes: seq<FileWrite>)
    requires |writes| <= |files|
    requires forall i :: 0 <= i < |writes| ==> Some(writes[i].out) == OutPath(files[i].path)
    ensures NoOutPrefix(files) ==>
      forall i, j :: 0 <= i < |writes| && 0 <= j < |files| ==> writes[i].out != files[j].path
  {
    forall i, j | 0 <= i < |writes| && 0 <= j < |files|
      ensures NoOutPrefix(files) ==> writes[i].out != files[j].path
    {
      OutPathAvoidsInputs(files[i].path, files[j].path);
    }
  }

  /** Writes at the `outPath`s of distinct inputs go to distinct paths. */
  lemma DistinctOutputs(files: seq<CorpusFile>, writes: seq<FileWrite>)
    requires |writes| <= |files|
    requires forall i :: 0 <= i < |writes| ==> Some(writes[i].out) == OutPath(files[i].path)
    ensures (forall i, j :: 0 <= i < j < |files| ==> files[i].path != files[j].path) ==>
      forall i, j :: 0 <= i < j < |writes| ==> writes[i].out != writes[j].out
  {
    forall i, j | 0 <= i < j < |writes|
      ensures files[i].path != files[j].path ==> writes[i].out != writes[j].out
    {
      OutPathInjective(files[i].path, files[j].path);
    }
  }

  /** For valid input paths, inputs with distinct renderings get outputs
      with distinct renderings. */
  lemma DistinctRenderings(files: seq<CorpusFile>, writes: seq<FileWrite>)
    requires |writes| <= |files|
    requires forall i :: 0 <= i < |writes| ==> Some(writes[i].out) == OutPath(files[i].path)
    ensures (forall i :: 0 <= i < |files| ==> ValidPath(files[i].path)) ==>
      forall i, j :: 0 <= i < j < |writes| ==>
        ToString(files[i].path) != ToString(files[j].path) ==>
          ToString(writes[i].out) != ToString(writes[j].out)
  {
    if forall i :: 0 <= i < |files| ==> ValidPath(files[i].path) {
      forall i, j | 0 <= i < j < |writes| && ToString(files[i].path) != ToString(files[j].path)
        ensures ToString(writes[i].out) != ToString(writes[j].out)
      {
        var p, q := files[i].path, files[j].path;
        ToStringInjective(p, q);
        OutPathInjective(p, q);
        OutPathValid(p);
        OutPathValid(q);
        ToStringInjective(writes[i].out, writes[j].out);
      }
    }
  }

}
