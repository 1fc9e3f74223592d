/**
 The output file names of the tester, over a structural model of a
 `java.nio.file.Path` on a Unix file system: whether the path is absolute,
 and its name elements in order (the root alone has none).
 */
module FilePaths {
  import opened Wrappers
  import opened Text

  datatype Path = Path(absolute: bool, names: seq<string>)

  /** Prefix of every per-file output name. */
  const OUT_PREFIX: string := "zemberek_"

  /** Name of the aggregated report. */
  const REPORT_NAME: string := "zemberek_comparison.txt"

  /** `getParent()`: the path without its last name element; `null` (here
      `None`) for the root and for a relative path of one element. */
  function Parent(p: Path): (r: Option<Path>)
    ensures r.Some? ==> |r.value.names| + 1 == |p.names| && r.value.absolute == p.absolute
    ensures r.None? <==> |p.names| == 0 || (|p.names| == 1 && !p.absolute)
  {
    if |p.names| == 0 then None
    else if |p.names| == 1 && !p.absolute then None
    else Some(Path(p.absolute, p.names[..|p.names| - 1]))
  }

  /** `getFileName()`: the last name element; `null` (here `None`) for the root. */
  function FileName(p: Path): (r: Option<string>)
    ensures r.None? <==> |p.names| == 0
  {
    if |p.names| == 0 then None else Some(p.names[|p.names| - 1])
  }

  /** A path Java can produce: every name element is non-empty and free of
      `/`, and a relative path has at least one element. */
  predicate ValidPath(p: Path)
  {
    && (forall i :: 0 <= i < |p.names| ==> p.names[i] != "" && '/' !in p.names[i])
    && (p.absolute || |p.names| > 0)
  }

  /** Reads a Unix path string: absolute when it starts with `/`, and the
      rest split at every `/`. */
  function ParsePath(s: string): Path
  {
    var absolute := |s| > 0 && s[0] == '/';
    var rest := if absolute then s[1..] else s;
    Path(absolute, if rest == "" then [] else Split('/', rest))
  }

  /** `toString()`: the elements joined by `/`, after a leading `/` when the
      path is absolute. */
  function ToString(p: Path): string
  {
    (if p.absolute then "/" else "") + Join("/", p.names)
  }

  /** A valid path reads back from its rendering. */
  lemma ParseToString(p: Path)
    ensures ValidPath(p) ==> ParsePath(ToString(p)) == p
  {
    var absolute, names := p.absolute, p.names;
    if ValidPath(p) {
      var body := Join("/", names);
      var s := (if absolute then "/" else "") + body;
      SplitJoin('/', names);
      assert ['/'] == "/";
      if |names| > 0 {
        JoinStartsWithFirst("/", names);
        assert body[0] == names[0][0];
        assert body != "";
        assert Split('/', body) == names;
      } else {
        assert body == "";
      }
      var rest := if absolute then s[1..] else s;
      if absolute {
        assert s[0] == '/';
        assert rest == body;
      } else {
        assert s == body;
        assert s[0] == names[0][0] && names[0][0] in names[0];
        assert s[0] != '/';
      }
      assert ParsePath(s).names == (if rest == "" then [] else Split('/', rest));
    }
  }

  /** Distinct valid paths render as distinct strings. */
  lemma ToStringInjective(p: Path, q: Path)
    requires ValidPath(p) && ValidPath(q)
    ensures ToString(p) == ToString(q) <==> p == q
  {
    ParseToString(p);
    ParseToString(q);
  }

  /** `Paths.get(dir.toString(), name)` for a name of one element: the path
      of `name` inside `dir`. */
  function Resolve(dir: Path, name: string): (r: Path)
    ensures Parent(r) == (if |dir.names| == 0 && !dir.absolute then None else Some(dir))
    ensures FileName(r) == Some(name)
  {
    var r := Path(dir.absolute, dir.names + [name]);
    assert r.names[..|r.names| - 1] == dir.names;
    r
  }

  /** `outPath`: the sibling of `p` named by the prefix and p's own name.
      It fails (a `NullPointerException` in the source) exactly when `p`
      has no parent. */
  function OutPath(p: Path): (r: Option<Path>)
    ensures r.Some? <==> Parent(p).Some?
    ensures r.Some? ==> Parent(r.value) == Parent(p)
    ensures r.Some? ==> FileName(r.value) == Some(OUT_PREFIX + FileName(p).value)
  {
    match Parent(p)
    case None => None
    case Some(dir) => Some(Resolve(dir, OUT_PREFIX + FileName(p).value))
  }

  /** The location of the aggregated report: `zemberek_comparison.txt` next
      to the input root, or a failure when the root has no parent. */
  function ReportPath(root: Path): (r: Option<Path>)
    ensures r.Some? <==> Parent(root).Some?
    ensures r.Some? ==> Parent(r.value) == Parent(root) && FileName(r.value) == Some(REPORT_NAME)
  {
    match Parent(root)
    case None => None
    case Some(dir) => Some(Resolve(dir, REPORT_NAME))
  }

  /** The output path of a valid path is valid. */
  lemma OutPathValid(p: Path)
    requires ValidPath(p)
    ensures OutPath(p).Some? ==> ValidPath(OutPath(p).value)
  {
    if OutPath(p).Some? {
      var q := OutPath(p).value;
      var name := OUT_PREFIX + FileName(p).value;
      assert q.names == p.names[..|p.names| - 1] + [name];
      assert '/' !in name by {
        assert forall k :: 0 <= k < |name| ==> name[k] == (if k < |OUT_PREFIX| then OUT_PREFIX[k] else FileName(p).value[k - |OUT_PREFIX|]);
        assert '/' !in OUT_PREFIX;
      }
    }
  }

  /** True when a file name starts with the output prefix. */
  predicate HasOutPrefix(name: string)
  {
    |name| >= |OUT_PREFIX| && name[..|OUT_PREFIX|] == OUT_PREFIX
  }

  /** As written, `outPath` does not avoid the inputs: in one directory,
      the output for `a` is the input `zemberek_a`. */
  lemma OutPathHitsSibling()
    ensures var a, b := Path(true, ["d", "a"]), Path(true, ["d", "zemberek_a"]);
      a != b && OutPath(a) == Some(b)
  {
    var a := Path(true, ["d", "a"]);
    assert a.names[..1] == ["d"];
    assert OUT_PREFIX + "a" == "zemberek_a";
    assert ["d"] + ["zemberek_a"] == ["d", "zemberek_a"];
  }

  /** An output path never equals a path whose file name lacks the output
      prefix; so when no input is named with the prefix, no output
      overwrites an input. */
  lemma OutPathAvoidsInputs(p: Path, q: Path)
    ensures (FileName(q).None? || !HasOutPrefix(FileName(q).value)) ==> OutPath(p) != Some(q)
  {
    if OutPath(p).Some? {
      var name := OUT_PREFIX + FileName(p).value;
      assert name[..|OUT_PREFIX|] == OUT_PREFIX;
    }
  }

  /** True when `q` lies strictly below the directory `root`. */
  predicate Below(q: Path, root: Path)
  {
    q.absolute == root.absolute && |root.names| < |q.names| && q.names[..|root.names|] == root.names
  }

  /** As written, the report can replace its own input: a root that is the
      file `zemberek_comparison.txt` is its own report path. */
  lemma ReportPathIsRoot()
    ensures var root := Path(true, ["d", REPORT_NAME]); ReportPath(root) == Some(root)
  {
    var root := Path(true, ["d", REPORT_NAME]);
    assert root.names[..1] == ["d"];
    assert ["d"] + [REPORT_NAME] == root.names;
  }

  /** The report never lies below the root, so the walk of a directory
      never reaches it; and it is the root itself exactly when the root is
      named `zemberek_comparison.txt`. */
  lemma ReportPathOutsideWalk(root: Path)
    ensures ReportPath(root).Some? ==> !Below(ReportPath(root).value, root)
    ensures ReportPath(root).Some? ==>
      (ReportPath(root).value == root <==> FileName(root) == Some(REPORT_NAME))
  {
    if ReportPath(root).Some? {
      ParentThenName(root);
    }
  }

  /** A path with a parent is its parent with its own name appended. */
  lemma ParentThenName(p: Path)
    requires Parent(p).Some?
    ensures Resolve(Parent(p).value, FileName(p).value) == p
  {
    assert p.names[..|p.names| - 1] + [p.names[|p.names| - 1]] == p.names;
  }

  /** Distinct inputs get distinct output files, and no output file is its
      own input. */
  lemma OutPathInjective(p: Path, q: Path)
    requires OutPath(p).Some? && OutPath(q).Some?
    ensures OutPath(p) == OutPath(q) <==> p == q
    ensures OutPath(p).value != p
  {
    ParentThenName(p);
    ParentThenName(q);
    if OutPath(p) == OutPath(q) {
      var name := FileName(p).value;
      var name' := FileName(q).value;
      assert OUT_PREFIX + name == OUT_PREFIX + name';
      assert name == (OUT_PREFIX + name)[|OUT_PREFIX|..];
      assert name' == (OUT_PREFIX + name')[|OUT_PREFIX|..];
    }
    assert |FileName(OutPath(p).value).value| > |FileName(p).value|;
  }

  /** The rendered output path: the parent's rendering, a `/` unless the
      parent is the root, and the prefixed name. */
  lemma OutPathString(p: Path)
    requires OutPath(p).Some?
    ensures var dir := Parent(p).value;
      ToString(OutPath(p).value) ==
        ToString(dir) + (if |dir.names| == 0 then "" else "/") + OUT_PREFIX + FileName(p).value
  {
    var dir := Parent(p).value;
    var name := OUT_PREFIX + FileName(p).value;
    if |dir.names| > 0 {
      JoinAppend("/", dir.names, [name]);
    }
  }

}
