/**
 * The batch loop at lines 35-61: for each discovered example, invoke the
 * transform, highlight both texts, rewrite the height, compose the table and
 * write it to its output path. The directory listing, the file contents, the
 * transform and the highlighter are parameters; the output directory is a map
 * from path to file content.
 */
module Pipeline {
  import opened Results
  import opened Text
  import opened Paths
  import opened Discovery
  import opened Layout

  /** The run's fatal errors, each naming the example being processed. */
  datatype Error =
    | TransformFailed(mjsFile: string)    // the node process exited with a non-zero status
    | ContractViolation(mjsFile: string)  // the highlighted translation lacks WrapperPrefix

  /**
   * What the run works with: the two directories, the text of each file by
   * path as Python reads it, the external transform of the file at a path
   * (what node prints before console.log's line break, or None for a failed
   * process) and the highlighter.
   */
  datatype Config = Config(
    examplesDir: string,
    outDir: string,
    contents: string -> string,
    transform: string -> Option<string>,
    highlight: string -> string)

  /** One output file: its path and its content. */
  datatype Artifact = Artifact(outputPath: string, html: string)

  /** The output files after a run, and the error that stopped it, if any. */
  datatype Outcome = Outcome(disk: map<string, string>, failure: Option<Error>)

  /**
   * Lines 37-42: the node process prints the transformed code with
   * console.log, which ends it with a line break.
   */
  function Translate(cfg: Config, mjsFile: string): (r: Option<string>)
    ensures r.Some? <==> cfg.transform(mjsFile).Some?
    ensures r.Some? ==> EndsWith(r.value, "\n") && r.value[..|r.value| - 1] == cfg.transform(mjsFile).value
  {
    match cfg.transform(mjsFile)
    case None => None
    case Some(code) =>
      EndsWithConcat(code, "\n");
      Some(code + "\n")
  }

  /** The body of the loop for one example, as a value. */
  function ProcessFile(cfg: Config, mjsFile: string): (r: Result<Artifact, Error>)
    ensures r.Ok? ==> r.value.outputPath == OutputPath(cfg.outDir, mjsFile)
    ensures r.Err? ==> r.error.mjsFile == mjsFile
    ensures r.Err? && r.error.TransformFailed? <==> Translate(cfg, mjsFile).None?
  {
    match Translate(cfg, mjsFile)
    case None => Err(TransformFailed(mjsFile))
    case Some(translation) =>
      match Render(cfg.contents(mjsFile), translation, cfg.highlight)
      case None => Err(ContractViolation(mjsFile))
      case Some(html) => Ok(Artifact(OutputPath(cfg.outDir, mjsFile), html))
  }

  /**
   * One example succeeds exactly when its transform succeeds and the
   * highlighted translation has the expected prefix; its table then holds
   * the highlighted original on the left and, on the right, the highlighted
   * translation after its prefix with the original's line count as height.
   */
  lemma ProcessFileShape(cfg: Config, mjsFile: string)
    ensures ProcessFile(cfg, mjsFile).Ok? <==>
      Translate(cfg, mjsFile).Some? && StartsWith(cfg.highlight(Translate(cfg, mjsFile).value), WrapperPrefix)
    ensures ProcessFile(cfg, mjsFile).Ok? ==>
      var original := cfg.contents(mjsFile);
      var translation := Translate(cfg, mjsFile).value;
      var cells := SplitCells(ProcessFile(cfg, mjsFile).value.html, |cfg.highlight(original)|);
      && cells.Some?
      && cells.value.0 == cfg.highlight(original)
      && ParseStyledWrapper(cells.value.1)
         == Some((LineCount(original), cfg.highlight(translation)[|WrapperPrefix|..]))
  {
    if Translate(cfg, mjsFile).Some? {
      RenderShape(cfg.contents(mjsFile), Translate(cfg, mjsFile).value, cfg.highlight);
    }
  }

  /** The processing of one example under cfg, as a value Run can be given. */
  function Processor(cfg: Config): (process: string -> Result<Artifact, Error>)
    ensures forall f :: process(f) == ProcessFile(cfg, f)
  {
    f => ProcessFile(cfg, f)
  }

  /**
   * The run over the discovered files, in order, each processed by
   * `process`: each file's table is written (overwriting) to its output
   * path; the first error stops the run and leaves the files written so far.
   */
  function Run(process: string -> Result<Artifact, Error>, files: seq<string>, disk: map<string, string>): (r: Outcome)
    ensures disk.Keys <= r.disk.Keys
    decreases |files|
  {
    if files == [] then Outcome(disk, None)
    else
      match process(files[0])
      case Err(e) => Outcome(disk, Some(e))
      case Ok(a) => Run(process, files[1..], disk[a.outputPath := a.html])
  }

  /**
   * Lines 35-61: processes the files one at a time, in order, writing each
   * table into `written`; stops at the first error.
   */
  method WriteExamples(cfg: Config, mjsFiles: seq<string>, disk: map<string, string>)
    returns (written: map<string, string>, failure: Option<Error>)
    ensures Outcome(written, failure) == Run(Processor(cfg), mjsFiles, disk)
  {
    var process := Processor(cfg);
    written, failure := disk, None;
    var i := 0;
    while i < |mjsFiles| && failure.None?
      invariant 0 <= i <= |mjsFiles|
      invariant failure.None? ==> Run(process, mjsFiles, disk) == Run(process, mjsFiles[i..], written)
      invariant failure.Some? ==> Run(process, mjsFiles, disk) == Outcome(written, failure)
      decreases |mjsFiles| - i, if failure.None? then 1 else 0
    {
      var mjsFile := mjsFiles[i];
      var code := cfg.transform(mjsFile);
      if code.None? {
        failure := Some(TransformFailed(mjsFile));
      } else {
        var translation := code.value + "\n";
        var original := cfg.contents(mjsFile);
        var leftHtml := cfg.highlight(original);
        var rightHtml := cfg.highlight(translation);
        ghost var highlighted := rightHtml;
        var nLines := LineCount(original);
        assert Translate(cfg, mjsFile) == Some(translation);
        if !StartsWith(rightHtml, WrapperPrefix) {
          failure := Some(ContractViolation(mjsFile));
        } else {
          rightHtml := StyledWrapper(nLines) + rightHtml[|WrapperPrefix|..];
          assert Restyle(highlighted, nLines) == Some(rightHtml);
          var html := Compose(leftHtml, rightHtml);
          assert Render(original, translation, cfg.highlight) == Some(html);
          var outFilePath := OutputPath(cfg.outDir, mjsFile);
          assert process(mjsFile) == Ok(Artifact(outFilePath, html));
          written := written[outFilePath := html];
          i := i + 1;
        }
      }
    }
    if failure.None? {
      assert mjsFiles[i..] == [];
    }
  }

  /**
   * Lines 26-61 with the I/O as parameters: discovers the examples in the
   * listing and processes them; says which files the run writes and where
   * it stops.
   */
  method TranslateExamples(cfg: Config, listing: seq<string>, disk: map<string, string>)
    returns (written: map<string, string>, failure: Option<Error>)
    ensures Outcome(written, failure) == Run(Processor(cfg), MjsFiles(cfg.examplesDir, listing), disk)
    ensures failure.None? <==>
      forall k :: 0 <= k < |MjsFiles(cfg.examplesDir, listing)| ==>
        ProcessFile(cfg, MjsFiles(cfg.examplesDir, listing)[k]).Ok?
    ensures failure.Some? ==>
      exists k :: (FailsFirstAt(Processor(cfg), MjsFiles(cfg.examplesDir, listing), k)
        && written == Run(Processor(cfg), MjsFiles(cfg.examplesDir, listing)[..k], disk).disk
        && failure == Some(ProcessFile(cfg, MjsFiles(cfg.examplesDir, listing)[k]).error))
    ensures failure.None? && Distinct(listing) && (forall k :: 0 <= k < |listing| ==> IsEntryName(listing[k])) ==>
      forall k :: 0 <= k < |MjsNames(listing)| ==>
        var name := MjsNames(listing)[k];
        var out := DirectoryPart(cfg.outDir) + (Stem(name) + OutputExtension);
        && ProcessFile(cfg, Join(cfg.examplesDir, name)).Ok?
        && out in written
        && written[out] == ProcessFile(cfg, Join(cfg.examplesDir, name)).value.html
  {
    var mjsFiles := MjsFiles(cfg.examplesDir, listing);
    written, failure := WriteExamples(cfg, mjsFiles, disk);
    var process := Processor(cfg);
    RunSucceedsIff(process, mjsFiles, disk);
    if failure.Some? {
      RunStopsAtFirstFailure(process, mjsFiles, disk);
    } else if Distinct(listing) && (forall k :: 0 <= k < |listing| ==> IsEntryName(listing[k])) {
      MjsFilesDistinctOutputs(cfg, listing);
      RunWritesEachFile(process, mjsFiles, disk);
      forall k | 0 <= k < |MjsNames(listing)|
        ensures OutputPath(cfg.outDir, mjsFiles[k])
             == DirectoryPart(cfg.outDir) + (Stem(MjsNames(listing)[k]) + OutputExtension)
      {
        var name := MjsNames(listing)[k];
        MjsNamesMembership(listing, name);
        OutputPathOfEntry(cfg.examplesDir, cfg.outDir, name);
      }
    }
  }

  // ---------------------------------------------------------------------------
  // Properties of a run
  // ---------------------------------------------------------------------------

  /** files[k] is the first file whose processing fails. */
  predicate FailsFirstAt(process: string -> Result<Artifact, Error>, files: seq<string>, k: int) {
    && 0 <= k < |files|
    && process(files[k]).Err?
    && forall j :: 0 <= j < k ==> process(files[j]).Ok?
  }

  /** The output paths of the examples that are processed successfully. */
  function OutputPaths(process: string -> Result<Artifact, Error>, files: seq<string>): set<string> {
    set f | f in files && process(f).Ok? :: process(f).value.outputPath
  }

  /** No two successfully processed examples share an output path. */
  predicate DistinctOutputs(process: string -> Result<Artifact, Error>, files: seq<string>) {
    forall i, j :: 0 <= i < j < |files| && process(files[i]).Ok? && process(files[j]).Ok? ==>
      process(files[i]).value.outputPath != process(files[j]).value.outputPath
  }

  /** The run stops with an error exactly when some example fails. */
  lemma {:induction false} RunSucceedsIff(process: string -> Result<Artifact, Error>, files: seq<string>, disk: map<string, string>)
    ensures Run(process, files, disk).failure.None? <==>
      forall k :: 0 <= k < |files| ==> process(files[k]).Ok?
    decreases |files|
  {
    if files != [] {
      match process(files[0])
      case Err(e) =>
      case Ok(a) =>
        RunSucceedsIff(process, files[1..], disk[a.outputPath := a.html]);
        assert forall k :: 1 <= k < |files| ==> files[k] == files[1..][k - 1];
    }
  }

  /**
   * A failed run stops at the first failing example: the files before it
   * are written as a run over them alone would write them, and nothing
   * for it or for any later example is written.
   */
  lemma {:induction false} RunStopsAtFirstFailure(process: string -> Result<Artifact, Error>, files: seq<string>, disk: map<string, string>)
    requires Run(process, files, disk).failure.Some?
    ensures exists k :: (FailsFirstAt(process, files, k)
      && Run(process, files, disk) == Outcome(Run(process, files[..k], disk).disk, Some(process(files[k]).error))
      && Run(process, files[..k], disk).failure.None?)
    decreases |files|
  {
    match process(files[0])
    case Err(e) =>
      assert files[..0] == [];
      assert FailsFirstAt(process, files, 0);
    case Ok(a) =>
      var rest := files[1..];
      var next := disk[a.outputPath := a.html];
      RunStopsAtFirstFailure(process, rest, next);
      var k' :| FailsFirstAt(process, rest, k')
        && Run(process, rest, next) == Outcome(Run(process, rest[..k'], next).disk, Some(process(rest[k']).error))
        && Run(process, rest[..k'], next).failure.None?;
      var k := k' + 1;
      assert files[..k][0] == files[0];
      assert files[..k][1..] == rest[..k'];
      assert files[k] == rest[k'];
      assert forall j :: 1 <= j < k ==> files[j] == rest[j - 1];
      assert FailsFirstAt(process, files, k);
  }

  /**
   * What a run writes does not depend on what the output directory held:
   * the run over `disk` overwrites `disk` with what a run over an empty
   * directory writes, and fails in the same way.
   */
  lemma {:induction false} RunOverwrites(process: string -> Result<Artifact, Error>, files: seq<string>, disk: map<string, string>)
    ensures Run(process, files, disk)
         == Outcome(disk + Run(process, files, map[]).disk, Run(process, files, map[]).failure)
    decreases |files|
  {
    if files != [] {
      match process(files[0])
      case Err(e) =>
        assert disk + map[] == disk;
      case Ok(a) =>
        var single: map<string, string> := map[a.outputPath := a.html];
        RunOverwrites(process, files[1..], disk[a.outputPath := a.html]);
        RunOverwrites(process, files[1..], single);
        var later := Run(process, files[1..], map[]).disk;
        assert disk[a.outputPath := a.html] + later == disk + (single + later);
    }
  }

  /**
   * Running twice on unchanged inputs leaves the output directory as one
   * run leaves it, and ends the same way.
   */
  lemma RunIdempotent(process: string -> Result<Artifact, Error>, files: seq<string>, disk: map<string, string>)
    ensures Run(process, files, Run(process, files, disk).disk) == Run(process, files, disk)
  {
    var once := Run(process, files, disk).disk;
    RunOverwrites(process, files, disk);
    RunOverwrites(process, files, once);
    var w := Run(process, files, map[]).disk;
    assert (disk + w) + w == disk + w;
  }

  /**
   * A successful run with distinct output paths writes each example's table
   * to its own path, adds no other path, and leaves every other file as it
   * was.
   */
  lemma {:induction false} RunWritesEachFile(process: string -> Result<Artifact, Error>, files: seq<string>, disk: map<string, string>)
    requires Run(process, files, disk).failure.None?
    requires DistinctOutputs(process, files)
    ensures forall k :: 0 <= k < |files| ==> process(files[k]).Ok?
    ensures Run(process, files, disk).disk.Keys == disk.Keys + OutputPaths(process, files)
    ensures forall k :: 0 <= k < |files| ==>
      Run(process, files, disk).disk[process(files[k]).value.outputPath] == process(files[k]).value.html
    ensures forall p :: p in disk && p !in OutputPaths(process, files) ==>
      Run(process, files, disk).disk[p] == disk[p]
    decreases |files|
  {
    RunSucceedsIff(process, files, disk);
    if files != [] {
      var a := process(files[0]).value;
      var rest := files[1..];
      DistinctOutputsTail(process, files);
      OutputPathsCons(process, files);
      RunWritesEachFile(process, rest, disk[a.outputPath := a.html]);
      assert forall k :: 1 <= k < |files| ==> files[k] == rest[k - 1];
    }
  }

  /** Distinct output paths stay distinct without the first file, and none of the rest reuses its path. */
  lemma DistinctOutputsTail(process: string -> Result<Artifact, Error>, files: seq<string>)
    requires files != [] && process(files[0]).Ok?
    requires DistinctOutputs(process, files)
    ensures DistinctOutputs(process, files[1..])
    ensures process(files[0]).value.outputPath !in OutputPaths(process, files[1..])
  {
    var rest := files[1..];
    forall i, j | 0 <= i < j < |rest| && process(rest[i]).Ok? && process(rest[j]).Ok?
      ensures process(rest[i]).value.outputPath != process(rest[j]).value.outputPath
    {
      assert rest[i] == files[i + 1] && rest[j] == files[j + 1];
    }
    forall f | f in rest && process(f).Ok?
      ensures process(f).value.outputPath != process(files[0]).value.outputPath
    {
      var j :| 0 <= j < |rest| && rest[j] == f;
      assert files[j + 1] == f;
    }
  }

  /** The output paths of a list are its first file's path and those of the rest. */
  lemma OutputPathsCons(process: string -> Result<Artifact, Error>, files: seq<string>)
    requires files != [] && process(files[0]).Ok?
    ensures OutputPaths(process, files) == {process(files[0]).value.outputPath} + OutputPaths(process, files[1..])
  {
    assert files == [files[0]] + files[1..];
  }

  /** Distinct entry names in the listing give the discovered examples distinct output paths. */
  lemma MjsFilesDistinctOutputs(cfg: Config, listing: seq<string>)
    requires Distinct(listing)
    requires forall k :: 0 <= k < |listing| ==> IsEntryName(listing[k])
    ensures DistinctOutputs(Processor(cfg), MjsFiles(cfg.examplesDir, listing))
  {
    var names := MjsNames(listing);
    var files := MjsFiles(cfg.examplesDir, listing);
    MjsNamesDistinct(listing);
    forall i, j | 0 <= i < j < |files|
      ensures OutputPath(cfg.outDir, files[i]) != OutputPath(cfg.outDir, files[j])
    {
      MjsNamesMembership(listing, names[i]);
      MjsNamesMembership(listing, names[j]);
      OutputPathInjective(cfg.examplesDir, cfg.outDir, names[i], names[j]);
    }
  }

  // ---------------------------------------------------------------------------
  // A worked example
  // ---------------------------------------------------------------------------

  const FooLine1 := "let a = 1;"
  const FooLine2 := "let b = 2;"
  /** The text "let a = 1;\nlet b = 2;\n". */
  const FooSource := FooLine1 + "\n" + (FooLine2 + "\n")

  /** Two lines, each ending in a line break, count as three: the last segment is empty. */
  lemma FooLineCount()
    ensures LineCount(FooSource) == 3
  {
    LineCountOfLine(FooLine1);
    LineCountOfLine(FooLine2);
    LineCountAppendNewline(FooLine2);
    LineCountOfLines(FooLine1, FooLine2 + "\n");
  }

  /** foo.mjs in the examples directory is written to foo.html in the output directory. */
  lemma FooOutputPath(examplesDir: string, outDir: string)
    ensures OutputPath(outDir, Join(examplesDir, "foo.mjs")) == DirectoryPart(outDir) + "foo.html"
  {
    var name := "foo.mjs";
    assert IsEntryName(name) && EndsWith(name, SourceExtension) && Stem(name) == "foo" by {
      assert name == "foo" + SourceExtension;
    }
    assert Stem(name) + OutputExtension == "foo.html";
    OutputPathOfEntry(examplesDir, outDir, name);
  }

  /**
   * foo.mjs with a transform that prints the source unchanged and any highlighter that keeps its
   * contract: the output is foo.html, the left cell is the highlighted
   * source, and the right panel is three ex high although the translation,
   * which console.log ends with one more line break, has four segments.
   */
  lemma FooExample(examplesDir: string, outDir: string, highlight: string -> string)
    requires forall s :: StartsWith(highlight(s), WrapperPrefix)
    ensures var cfg := Config(examplesDir, outDir, p => FooSource, p => Some(FooSource), highlight);
      var r := ProcessFile(cfg, Join(examplesDir, "foo.mjs"));
      && r.Ok?
      && r.value.outputPath == DirectoryPart(outDir) + "foo.html"
      && var cells := SplitCells(r.value.html, |highlight(FooSource)|);
      && cells.Some?
      && cells.value.0 == highlight(FooSource)
      && ParseStyledWrapper(cells.value.1) == Some((3, highlight(FooSource + "\n")[|WrapperPrefix|..]))
  {
    var cfg := Config(examplesDir, outDir, p => FooSource, p => Some(FooSource), highlight);
    var file := Join(examplesDir, "foo.mjs");
    FooLineCount();
    FooOutputPath(examplesDir, outDir);
    assert Translate(cfg, file) == Some(FooSource + "\n");
    ProcessFileShape(cfg, file);
  }
}
