/**
 * Selection of the files todds encodes: user inputs that are PNG files or directories,
 * directories listed down to a depth limit, a substring or regular expression filter,
 * the output path of each file and the overwrite rules.
 */
module FileRetrieval {
  import opened Wrappers
  import opened Sequences
  import opened Paths
  import opened FileSystem
  import opened Report
  import Strings
  import ToddsFormat

  /** A compiled regular expression: whether it holds a database, and what it matches. */
  datatype Regex = Regex(valid: bool, matches: string -> bool)

  /** The immutable members of file_retrieval_state. */
  datatype Settings = Settings(
    root: Node,
    input: seq<Path>,
    output: Option<Path>,
    outputExtension: string,
    createFolders: bool,
    overwrite: bool,
    overwriteNew: bool,
    substring: string,
    regex: Regex,
    depth: nat)

  function OutputExtension(format: ToddsFormat.Type): (r: string)
    ensures r == (if format == ToddsFormat.Png then PngExtension else DdsExtension)
    ensures IsLowerExtension(r)
  {
    ExtensionsAreLower();
    if format == ToddsFormat.Png then PngExtension else DdsExtension
  }

  /** The member initialisers of the file_retrieval_state constructor. */
  function MakeSettings(root: Node, input: seq<Path>, output: Option<Path>, format: ToddsFormat.Type,
                        createFolders: bool, overwrite: bool, overwriteNew: bool, substring: string,
                        regex: Regex, depth: nat): (s: Settings)
    ensures s.overwriteNew <==> overwriteNew && !overwrite
    ensures s.overwrite == overwrite && s.outputExtension == OutputExtension(format)
    ensures s.root == root && s.input == input && s.output == output && s.createFolders == createFolders
    ensures s.substring == substring && s.regex == regex && s.depth == depth
  {
    Settings(root, input, output, OutputExtension(format), createFolders, overwrite, overwriteNew && !overwrite,
      substring, regex, depth)
  }

  /** path_matches_criteria */
  predicate PathMatchesCriteria(s: Settings, p: Path)
  {
    (s.substring != [] && Strings.Contains(Native(p), s.substring)) || (s.regex.valid && s.regex.matches(Native(p)))
  }

  /** Whether an existing input was written after an existing output. */
  predicate IsNewer(root: Node, input: Path, output: Path)
  {
    var i := LastWriteTime(root, input);
    var o := LastWriteTime(root, output);
    i.Some? && o.Some? && i.value > o.value
  }

  /** Whether should_generate throws: fs::last_write_time of the input is reached only when the
    * paths differ, overwrite is off, the output exists (so its own time is defined) and
    * overwrite_new is set, and it throws filesystem_error when the input does not exist. */
  predicate GenerateThrows(s: Settings, input: Path, output: Path)
  {
    input != output && !s.overwrite && Exists(s.root, output) && s.overwriteNew && !Exists(s.root, input)
  }

  /** should_generate, when it returns. */
  function ShouldGenerate(s: Settings, input: Path, output: Path): (r: bool)
    ensures r ==> input != output
    ensures GenerateThrows(s, input, output) ==> !r
    ensures input != output && (s.overwrite || !Exists(s.root, output)) ==> r
    ensures !s.overwrite && Exists(s.root, output) ==> (r <==> input != output && s.overwriteNew && IsNewer(s.root, input, output))
  {
    input != output && (s.overwrite || !Exists(s.root, output) || (s.overwriteNew && IsNewer(s.root, input, output)))
  }

  /** (output_path / input_file.stem()) += output extension */
  function OutputFile(s: Settings, inputFile: Path, outputPath: Path): (r: Path)
    ensures ParentPath(r) == outputPath && FileName(r) == Stem(inputFile) + s.outputExtension
  {
    outputPath + [Stem(inputFile) + s.outputExtension]
  }

  /** The pair process_file appends, if any. */
  function ProcessFileResult(s: Settings, inputFile: Path, outputPath: Path, previousMatch: bool): (r: Option<PathPair>)
    ensures r.Some? <==>
      (previousMatch || PathMatchesCriteria(s, inputFile)) && ShouldGenerate(s, inputFile, OutputFile(s, inputFile, outputPath))
    ensures r.Some? ==> r.value == PathPair(inputFile, OutputFile(s, inputFile, outputPath))
    ensures ProcessFileThrows(s, inputFile, outputPath, previousMatch) ==> r.None?
  {
    if !previousMatch && !PathMatchesCriteria(s, inputFile) then None
    else
      var outputFile := OutputFile(s, inputFile, outputPath);
      if !ShouldGenerate(s, inputFile, outputFile) then None else Some(PathPair(inputFile, outputFile))
  }

  /** Whether process_file throws: the criteria hold and should_generate throws. */
  predicate ProcessFileThrows(s: Settings, inputFile: Path, outputPath: Path, previousMatch: bool)
  {
    (previousMatch || PathMatchesCriteria(s, inputFile)) && GenerateThrows(s, inputFile, OutputFile(s, inputFile, outputPath))
  }

  function OptionToSeq(o: Option<PathPair>): (r: seq<PathPair>)
    ensures |r| <= 1 && (o.Some? <==> |r| == 1) && (o.Some? ==> r[0] == o.value)
  {
    match o
    case None => []
    case Some(v) => [v]
  }

  /** fs::relative for a path inside base: the components after base ("." when equal).
    * The listing only produces paths below its base directory (FileSystem.WalkDepthBounded),
    * so the last case does not arise. */
  function Relative(p: Path, base: Path): (r: Path)
    ensures |base| <= |p| && p[..|base|] == base ==> base + r == p
  {
    if |base| <= |p| && p[..|base|] == base then p[|base|..] else []
  }

  /** The output directory of a listed entry: the output argument followed by the entry's
    * directory relative to the input, or else the entry's own directory. */
  function VisitOutput(s: Settings, dir: Path, v: Visit): (r: Path)
    ensures s.output.None? ==> r == ParentPath(v.path)
  {
    match s.output
    case Some(o) => o + Relative(ParentPath(v.path), dir)
    case None => ParentPath(v.path)
  }

  /** What one listed entry adds to the work list. The match flag is re-evaluated on the
    * directory given by the user, never on the entry, so it is constant over the listing. */
  function VisitFiles(s: Settings, dir: Path, v: Visit): (r: seq<PathPair>)
  {
    if HasExtensionView(v.path, PngExtension) then
      OptionToSeq(ProcessFileResult(s, v.path, VisitOutput(s, dir, v), PathMatchesCriteria(s, dir)))
    else []
  }

  function DirectoryFiles(s: Settings, dir: Path, visits: seq<Visit>): (r: seq<PathPair>)
    ensures |r| <= |visits|
  {
    if visits == [] then []
    else DirectoryFiles(s, dir, visits[..|visits| - 1]) + VisitFiles(s, dir, visits[|visits| - 1])
  }

  const ProgressReport: Report := OfType(RetrievingFilesProgress)

  /** The report the walk's catch block sends for a filesystem_error; the text of
    * error.what() is not modelled. */
  const FilesystemErrorReport: Report := OfType(PipelineError)

  /** n progress reports. */
  function Progress(n: nat): (r: seq<Report>)
    ensures |r| == n
  {
    if n == 0 then [] else Progress(n - 1) + [ProgressReport]
  }

  /** Whether process_file throws inside the walk's try block for one listed entry. */
  predicate VisitThrows(s: Settings, dir: Path, v: Visit)
  {
    HasExtensionView(v.path, PngExtension) && ProcessFileThrows(s, v.path, VisitOutput(s, dir, v), PathMatchesCriteria(s, dir))
  }

  /** A listed .png entry is handled by one process_file call on its output directory. */
  lemma VisitOfPng(s: Settings, dir: Path, v: Visit)
    requires HasExtensionView(v.path, PngExtension)
    ensures VisitThrows(s, dir, v) <==> ProcessFileThrows(s, v.path, VisitOutput(s, dir, v), PathMatchesCriteria(s, dir))
    ensures VisitFiles(s, dir, v) == OptionToSeq(ProcessFileResult(s, v.path, VisitOutput(s, dir, v), PathMatchesCriteria(s, dir)))
  {
  }

  /** The reports of one listed entry: its progress report, then the caught error if any. */
  function VisitReports(s: Settings, dir: Path, v: Visit): seq<Report>
  {
    [ProgressReport] + (if VisitThrows(s, dir, v) then [FilesystemErrorReport] else [])
  }

  /** The reports of a listing: one progress report per entry, and one caught error for each
    * entry whose should_generate throws. */
  function DirectoryReports(s: Settings, dir: Path, visits: seq<Visit>): (r: seq<Report>)
    ensures |visits| <= |r| <= 2 * |visits|
    ensures (forall i :: 0 <= i < |visits| ==> !VisitThrows(s, dir, visits[i])) ==> r == Progress(|visits|)
  {
    if visits == [] then []
    else
      var last := |visits| - 1;
      assert forall i :: 0 <= i < last ==> visits[..last][i] == visits[i];
      DirectoryReports(s, dir, visits[..last]) + VisitReports(s, dir, visits[last])
  }

  function Listing(s: Settings, dir: Path): seq<Visit>
  {
    WalkFrom(s.root, dir, s.depth)
  }

  function NotPngText(p: Path): string
  {
    Native(p) + " is not a PNG file or a directory."
  }

  /** What one user input adds to the work list. */
  function InputFilesOne(s: Settings, p: Path): (r: seq<PathPair>)
  {
    if IsDirectory(s.root, p) then DirectoryFiles(s, p, Listing(s, p))
    else if !HasExtensionView(p, PngExtension) then []
    else OptionToSeq(ProcessFileResult(s, p, ParentPath(p), false))
  }

  /** Whether one user input makes process_user_input throw: a .png input that is not a
    * directory and whose should_generate throws. No try block surrounds this call, unlike the
    * one inside the directory walk. */
  predicate InputThrowsOne(s: Settings, p: Path)
  {
    !IsDirectory(s.root, p) && HasExtensionView(p, PngExtension) && ProcessFileThrows(s, p, ParentPath(p), false)
  }

  /** The reports one user input sends; a throw leaves before the "not a PNG" report. */
  function InputReportsOne(s: Settings, p: Path): (r: seq<Report>)
  {
    if IsDirectory(s.root, p) then DirectoryReports(s, p, Listing(s, p))
    else if !HasExtensionView(p, PngExtension) then [WithData(PipelineError, NotPngText(p))]
    else if ProcessFileThrows(s, p, ParentPath(p), false) then []
    else if ProcessFileResult(s, p, ParentPath(p), false).None? then [WithData(PipelineError, NotPngText(p))]
    else []
  }

  /** What one user input contributes: its pairs, its reports, and whether it throws. */
  datatype InputResult = InputResult(files: seq<PathPair>, reports: seq<Report>, throws: bool)

  const NoInputs: InputResult := InputResult([], [], false)

  function InputResultOf(s: Settings): Path -> InputResult
  {
    p => InputResult(InputFilesOne(s, p), InputReportsOne(s, p), InputThrowsOne(s, p))
  }

  /** The loop of process_user_input over inputs whose single results `one` gives: the pairs
    * and reports of the inputs in order, up to and including the first input that throws,
    * after which nothing more is collected. */
  function Collect(one: Path -> InputResult, inputs: seq<Path>): (r: InputResult)
  {
    if inputs == [] then NoInputs
    else
      var c := Collect(one, inputs[..|inputs| - 1]);
      var x := one(inputs[|inputs| - 1]);
      if c.throws then c else InputResult(c.files + x.files, c.reports + x.reports, x.throws)
  }

  /** The pairs process_user_input has collected when it returns or throws. */
  function InputFiles(s: Settings, inputs: seq<Path>): seq<PathPair>
  {
    Collect(InputResultOf(s), inputs).files
  }

  /** The reports process_user_input has sent when it returns or throws. */
  function InputReports(s: Settings, inputs: seq<Path>): seq<Report>
  {
    Collect(InputResultOf(s), inputs).reports
  }

  /** Whether process_user_input throws on these inputs. */
  predicate InputsThrow(s: Settings, inputs: seq<Path>)
  {
    Collect(InputResultOf(s), inputs).throws
  }

  /** The loop throws exactly when one of its inputs does. */
  lemma {:induction false} CollectThrowsIff(one: Path -> InputResult, inputs: seq<Path>)
    ensures Collect(one, inputs).throws <==> exists i :: 0 <= i < |inputs| && one(inputs[i]).throws
    decreases |inputs|
  {
    if inputs != [] {
      var last := |inputs| - 1;
      var init := inputs[..last];
      CollectThrowsIff(one, init);
      if Collect(one, init).throws {
        var i :| 0 <= i < last && one(init[i]).throws;
        assert inputs[i] == init[i];
      } else if !one(inputs[last]).throws {
        forall i | 0 <= i < |inputs| ensures !one(inputs[i]).throws {
          if i < last {
            assert inputs[i] == init[i];
          }
        }
      }
    }
  }

  /** One more input that does not follow a throw adds its own pairs and reports. */
  lemma CollectStep(one: Path -> InputResult, inputs: seq<Path>, i: nat)
    requires i < |inputs| && !Collect(one, inputs[..i]).throws
    ensures var c := Collect(one, inputs[..i]); var x := one(inputs[i]);
      Collect(one, inputs[..i + 1]) == InputResult(c.files + x.files, c.reports + x.reports, x.throws)
  {
    assert inputs[..i + 1][..i] == inputs[..i];
  }

  /** After the first input that throws, nothing more is collected or reported. */
  lemma {:induction false} CollectStops(one: Path -> InputResult, inputs: seq<Path>, i: nat)
    requires i < |inputs| && Collect(one, inputs[..i + 1]).throws
    ensures Collect(one, inputs) == Collect(one, inputs[..i + 1])
    decreases |inputs|
  {
    var last := |inputs| - 1;
    if last == i {
      assert inputs[..i + 1] == inputs;
    } else {
      var init := inputs[..last];
      assert init[..i + 1] == inputs[..i + 1];
      CollectStops(one, init, i);
    }
  }

  /** process_user_input throws exactly when one of its inputs does. */
  lemma InputsThrowIff(s: Settings, inputs: seq<Path>)
    ensures InputsThrow(s, inputs) <==> exists i :: 0 <= i < |inputs| && InputThrowsOne(s, inputs[i])
  {
    CollectThrowsIff(InputResultOf(s), inputs);
    assert forall i :: 0 <= i < |inputs| ==> (InputResultOf(s)(inputs[i]).throws <==> InputThrowsOne(s, inputs[i]));
  }

  lemma DirectoryFilesStep(s: Settings, dir: Path, visits: seq<Visit>, i: nat)
    requires i < |visits|
    ensures DirectoryFiles(s, dir, visits[..i + 1]) == DirectoryFiles(s, dir, visits[..i]) + VisitFiles(s, dir, visits[i])
    ensures DirectoryReports(s, dir, visits[..i + 1]) == DirectoryReports(s, dir, visits[..i]) + VisitReports(s, dir, visits[i])
  {
    assert visits[..i + 1][..i] == visits[..i];
  }

  lemma InputStep(s: Settings, inputs: seq<Path>, i: nat)
    requires i < |inputs| && !InputsThrow(s, inputs[..i])
    ensures InputsThrow(s, inputs[..i + 1]) <==> InputThrowsOne(s, inputs[i])
    ensures InputFiles(s, inputs[..i + 1]) == InputFiles(s, inputs[..i]) + InputFilesOne(s, inputs[i])
    ensures InputReports(s, inputs[..i + 1]) == InputReports(s, inputs[..i]) + InputReportsOne(s, inputs[i])
  {
    CollectStep(InputResultOf(s), inputs, i);
  }

  /** An input that throws adds no pair and sends no report. */
  lemma ThrowingInputSendsNothing(s: Settings, p: Path)
    requires InputThrowsOne(s, p)
    ensures InputFilesOne(s, p) == [] && InputReportsOne(s, p) == []
    ensures InputResultOf(s)(p) == InputResult([], [], true)
  {
    assert ProcessFileResult(s, p, ParentPath(p), false).None?;
  }

  /** After the first input that throws, nothing more is collected or reported: the pairs and
    * reports are those of the inputs before it, and the whole call throws. */
  lemma ThrowStops(s: Settings, inputs: seq<Path>, i: nat)
    requires i < |inputs| && InputThrowsOne(s, inputs[i]) && !InputsThrow(s, inputs[..i])
    ensures InputsThrow(s, inputs)
    ensures InputFiles(s, inputs) == InputFiles(s, inputs[..i]) && InputReports(s, inputs) == InputReports(s, inputs[..i])
  {
    var one := InputResultOf(s);
    var c := Collect(one, inputs[..i]);
    ThrowingInputSendsNothing(s, inputs[i]);
    CollectStep(one, inputs, i);
    assert c.files + [] == c.files && c.reports + [] == c.reports;
    assert Collect(one, inputs[..i + 1]) == InputResult(c.files, c.reports, true);
    CollectStops(one, inputs, i);
    assert Collect(one, inputs) == InputResult(c.files, c.reports, true);
  }

  /** file_retrieval_state: the settings, the shared report queue and the pairs found so far. */
  class FileRetrievalState {
    const settings: Settings
    var files: seq<PathPair>
    var updates: seq<Report>

    constructor (settings: Settings, updates: seq<Report>)
      ensures this.settings == settings && this.updates == updates && files == []
    {
      this.settings := settings;
      this.updates := updates;
      files := [];
    }

    /** process_file: appends (input, output) when the file matches and must be generated. */
    method ProcessFile(inputFile: Path, outputPath: Path, previousMatch: bool) returns (added: bool, failed: bool)
      modifies this
      ensures failed <==> ProcessFileThrows(settings, inputFile, outputPath, previousMatch)
      ensures added <==> ProcessFileResult(settings, inputFile, outputPath, previousMatch).Some?
      ensures files == old(files) + OptionToSeq(ProcessFileResult(settings, inputFile, outputPath, previousMatch))
      ensures updates == old(updates)
    {
      if !previousMatch && !PathMatchesCriteria(settings, inputFile) {
        return false, false;
      }
      var outputFile := OutputFile(settings, inputFile, outputPath);
      if GenerateThrows(settings, inputFile, outputFile) {
        return false, true;
      }
      if !ShouldGenerate(settings, inputFile, outputFile) {
        return false, false;
      }
      files := files + [PathPair(inputFile, outputFile)];
      return true, false;
    }

    /** The body of process_user_input_directory's loop for one listed entry, after the
      * match flag update. */
    method ProcessVisit(path: Path, v: Visit, currentMatch: bool)
      requires currentMatch == PathMatchesCriteria(settings, path)
      modifies this
      ensures files == old(files) + VisitFiles(settings, path, v)
      ensures updates == old(updates) + VisitReports(settings, path, v)
    {
      ghost var caught: seq<Report> := if VisitThrows(settings, path, v) then [FilesystemErrorReport] else [];
      updates := updates + [ProgressReport];
      if HasExtensionView(v.path, PngExtension) {
        var currentOutput := VisitOutput(settings, path, v);
        VisitOfPng(settings, path, v);
        var _, failed := ProcessFile(v.path, currentOutput, currentMatch);
        if failed {
          updates := updates + [FilesystemErrorReport];
        }
      } else {
        assert caught == [] && VisitFiles(settings, path, v) == [];
      }
      assert updates == old(updates) + [ProgressReport] + caught;
      AppendAssociative(old(updates), [ProgressReport], caught);
    }

    /** process_user_input_directory over the listing of a directory. The flag is refreshed
      * whenever the listing moves up, or moves down while it is false, but always from the
      * user's directory, so it keeps its initial value. */
    method ProcessUserInputDirectory(path: Path)
      modifies this
      ensures files == old(files) + DirectoryFiles(settings, path, Listing(settings, path))
      ensures updates == old(updates) + DirectoryReports(settings, path, Listing(settings, path))
    {
      ProcessListing(path, Listing(settings, path));
    }

    /** The loop of process_user_input_directory over the entries the iterator produces. */
    method ProcessListing(path: Path, visits: seq<Visit>)
      modifies this
      ensures files == old(files) + DirectoryFiles(settings, path, visits)
      ensures updates == old(updates) + DirectoryReports(settings, path, visits)
    {
      var matchUpdateDepth: nat := 0;
      var currentMatch := PathMatchesCriteria(settings, path);
      var i := 0;
      while i < |visits|
        invariant 0 <= i <= |visits|
        invariant currentMatch == PathMatchesCriteria(settings, path)
        invariant files == old(files) + DirectoryFiles(settings, path, visits[..i])
        invariant updates == old(updates) + DirectoryReports(settings, path, visits[..i])
      {
        var v := visits[i];
        if v.node.Directory? {
          if (v.depth > matchUpdateDepth && !currentMatch) || v.depth < matchUpdateDepth {
            currentMatch := PathMatchesCriteria(settings, path);
            matchUpdateDepth := v.depth;
          }
        }
        ghost var done := DirectoryFiles(settings, path, visits[..i]);
        ghost var sent := DirectoryReports(settings, path, visits[..i]);
        ProcessVisit(path, v, currentMatch);
        DirectoryFilesStep(settings, path, visits, i);
        AppendAssociative(old(files), done, VisitFiles(settings, path, v));
        AppendAssociative(old(updates), sent, VisitReports(settings, path, v));
        i := i + 1;
      }
      assert visits[..i] == visits;
    }

    /** One iteration of process_user_input; `failed` when process_file throws out of it. */
    method ProcessInput(p: Path) returns (failed: bool)
      modifies this
      ensures failed <==> InputThrowsOne(settings, p)
      ensures files == old(files) + InputFilesOne(settings, p)
      ensures updates == old(updates) + InputReportsOne(settings, p)
    {
      failed := false;
      if IsDirectory(settings.root, p) {
        ProcessUserInputDirectory(p);
      } else if !HasExtensionView(p, PngExtension) {
        updates := updates + [WithData(PipelineError, NotPngText(p))];
      } else {
        var added;
        added, failed := ProcessFile(p, ParentPath(p), false);
        if !added && !failed {
          updates := updates + [WithData(PipelineError, NotPngText(p))];
        }
      }
    }

    /** process_user_input; `failed` when an input throws, which ends the loop there. */
    method ProcessUserInput() returns (failed: bool)
      modifies this
      ensures failed <==> InputsThrow(settings, settings.input)
      ensures files == old(files) + InputFiles(settings, settings.input)
      ensures updates == old(updates) + InputReports(settings, settings.input)
    {
      var inputs := settings.input;
      var i := 0;
      while i < |inputs|
        invariant 0 <= i <= |inputs|
        invariant !InputsThrow(settings, inputs[..i])
        invariant files == old(files) + InputFiles(settings, inputs[..i])
        invariant updates == old(updates) + InputReports(settings, inputs[..i])
      {
        ghost var doneFiles := InputFiles(settings, inputs[..i]);
        ghost var doneReports := InputReports(settings, inputs[..i]);
        failed := ProcessInput(inputs[i]);
        if failed {
          ThrowStops(settings, inputs, i);
          AppendAssociative(old(files), doneFiles, []);
          AppendAssociative(old(updates), doneReports, []);
          return;
        }
        InputStep(settings, inputs, i);
        AppendAssociative(old(files), doneFiles, InputFilesOne(settings, inputs[i]));
        AppendAssociative(old(updates), doneReports, InputReportsOne(settings, inputs[i]));
        i := i + 1;
      }
      assert inputs[..i] == inputs;
      failed := false;
    }

    /** get_result: processes the inputs and hands over every pair, leaving none behind; when
      * process_user_input throws, nothing is handed over ("failed") and the swap is not reached. */
    method GetResult() returns (result: seq<PathPair>, failed: bool)
      modifies this
      ensures failed <==> InputsThrow(settings, settings.input)
      ensures !failed ==> result == old(files) + InputFiles(settings, settings.input) && files == []
      ensures failed ==> result == [] && files == old(files) + InputFiles(settings, settings.input)
      ensures updates == old(updates) + InputReports(settings, settings.input)
    {
      failed := ProcessUserInput();
      if failed {
        return [], true;
      }
      result := files;
      files := [];
    }
  }

  /** What every selected pair satisfies: a PNG input (by has_extension), an output named
    * after the input's stem with the format's extension, and should_generate. */
  predicate Selected(s: Settings, q: PathPair)
  {
    HasExtensionView(q.input, PngExtension) && FileName(q.output) == Stem(q.input) + s.outputExtension
    && ShouldGenerate(s, q.input, q.output)
  }

  lemma VisitFilesSelected(s: Settings, dir: Path, v: Visit)
    ensures forall q :: q in VisitFiles(s, dir, v) ==>
      Selected(s, q) && q.input == v.path && ParentPath(q.output) == VisitOutput(s, dir, v)
  {
  }

  /** Every pair found in a listing comes from one listed entry. */
  lemma {:induction false} DirectoryFilesFromVisits(s: Settings, dir: Path, visits: seq<Visit>)
    ensures forall q :: q in DirectoryFiles(s, dir, visits) ==>
      exists v :: v in visits && q in VisitFiles(s, dir, v)
  {
    if visits != [] {
      var init := visits[..|visits| - 1];
      DirectoryFilesFromVisits(s, dir, init);
      forall q | q in DirectoryFiles(s, dir, visits)
        ensures exists v :: v in visits && q in VisitFiles(s, dir, v)
      {
        if q in DirectoryFiles(s, dir, init) {
          var v :| v in init && q in VisitFiles(s, dir, v);
          assert v in visits;
        } else {
          assert q in VisitFiles(s, dir, visits[|visits| - 1]);
        }
      }
    }
  }

  /** Where a pair found below dir lies: at most depth + 1 components below dir, with its
    * output next to its input or, with an output directory, at the same relative place below it. */
  predicate PlacedBelow(s: Settings, dir: Path, q: PathPair)
  {
    Selected(s, q) && |dir| < |q.input| <= |dir| + 1 + s.depth && q.input[..|dir|] == dir
    && ParentPath(q.output) == (match s.output
                                case None => ParentPath(q.input)
                                case Some(o) => o + q.input[|dir|..|q.input| - 1])
  }

  lemma ListingBounded(s: Settings, dir: Path)
    ensures forall v :: v in Listing(s, dir) ==>
      |dir| < |v.path| <= |dir| + 1 + s.depth && v.path[..|dir|] == dir
  {
    match Lookup(s.root, dir)
    case Some(Directory(_, children)) => WalkDepthBounded(dir, children, 0, s.depth);
    case _ =>
  }

  lemma VisitPlacement(s: Settings, dir: Path, v: Visit)
    requires |dir| < |v.path| <= |dir| + 1 + s.depth && v.path[..|dir|] == dir
    ensures forall q :: q in VisitFiles(s, dir, v) ==> PlacedBelow(s, dir, q)
  {
    VisitFilesSelected(s, dir, v);
    var parent := ParentPath(v.path);
    assert parent == v.path[..|v.path| - 1];
    assert parent[..|dir|] == dir;
    assert Relative(parent, dir) == v.path[|dir|..|v.path| - 1];
  }

  /** A directory contributes only selected PNG files from its listing, placed as PlacedBelow says. */
  lemma DirectoryFilesPlacement(s: Settings, dir: Path)
    ensures forall q :: q in DirectoryFiles(s, dir, Listing(s, dir)) ==> PlacedBelow(s, dir, q)
  {
    var visits := Listing(s, dir);
    DirectoryFilesFromVisits(s, dir, visits);
    ListingBounded(s, dir);
    forall q | q in DirectoryFiles(s, dir, visits) ensures PlacedBelow(s, dir, q) {
      var v :| v in visits && q in VisitFiles(s, dir, v);
      VisitPlacement(s, dir, v);
    }
  }

  /** A user input that is not a directory either adds its one pair or sends exactly one
    * pipeline error, never both, unless it throws, which adds and sends nothing. */
  lemma NonDirectoryInput(s: Settings, p: Path)
    requires !IsDirectory(s.root, p)
    ensures InputThrowsOne(s, p) ==> InputFilesOne(s, p) == [] && InputReportsOne(s, p) == []
    ensures !InputThrowsOne(s, p) ==> |InputFilesOne(s, p)| + |InputReportsOne(s, p)| == 1
    ensures !InputThrowsOne(s, p) ==>
      (InputFilesOne(s, p) == [] <==> InputReportsOne(s, p) == [WithData(PipelineError, NotPngText(p))])
    ensures InputFilesOne(s, p) != [] ==> InputFilesOne(s, p)[0].input == p && Selected(s, InputFilesOne(s, p)[0])
    ensures InputFilesOne(s, p) != [] ==> ParentPath(InputFilesOne(s, p)[0].output) == ParentPath(p)
  {
    var files := InputFilesOne(s, p);
    var reports := InputReportsOne(s, p);
    if !HasExtensionView(p, PngExtension) {
      assert files == [] && reports == [WithData(PipelineError, NotPngText(p))];
    } else {
      var result := ProcessFileResult(s, p, ParentPath(p), false);
      assert files == OptionToSeq(result);
      if InputThrowsOne(s, p) {
        assert files == [] && reports == [];
      } else if result.None? {
        assert reports == [WithData(PipelineError, NotPngText(p))];
      } else {
        assert reports == [];
        assert files == [PathPair(p, OutputFile(s, p, ParentPath(p)))];
      }
    }
  }

  /** Every pair get_result hands over is a selected PNG file. */
  lemma {:induction false} InputFilesSelected(s: Settings, inputs: seq<Path>)
    ensures forall q :: q in InputFiles(s, inputs) ==> Selected(s, q)
  {
    if inputs != [] {
      var p := inputs[|inputs| - 1];
      InputFilesSelected(s, inputs[..|inputs| - 1]);
      if IsDirectory(s.root, p) {
        DirectoryFilesPlacement(s, p);
      }
    }
  }

  /** The fields of todds::args::data from_args reads. */
  datatype RetrievalArguments = RetrievalArguments(
    input: seq<Path>,
    output: Option<Path>,
    format: ToddsFormat.Type,
    overwrite: bool,
    overwriteNew: bool,
    dryRun: bool,
    clean: bool,
    substring: string,
    regex: Regex,
    depth: nat)

  /** The filesystem, the lines std::getline reads from a text file, and fs::canonical,
    * which is None for a line that does not resolve (the overload without an error_code then
    * throws filesystem_error). */
  datatype Disk = Disk(root: Node, lines: Path -> seq<string>, canonical: string -> Option<Path>)

  function CreateFolders(args: RetrievalArguments): bool
  {
    args.output.Some? && !args.dryRun && !args.clean
  }

  /** The first input is a list of inputs, one per line. */
  predicate IsTextList(args: RetrievalArguments)
  {
    |args.input| > 0 && HasExtensionView(args.input[0], TxtExtension)
  }

  /** The canonical paths of the lines of a text list, or None when fs::canonical throws on
    * one of them: exactly when some line does not resolve. */
  function ListedInputs(disk: Disk, lines: seq<string>): (r: Option<seq<Path>>)
    ensures r.Some? <==> forall i :: 0 <= i < |lines| ==> disk.canonical(lines[i]).Some?
    ensures r.Some? ==> |r.value| == |lines| && forall i :: 0 <= i < |lines| ==> r.value[i] == disk.canonical(lines[i]).value
  {
    if lines == [] then Some([])
    else
      var last := |lines| - 1;
      match ListedInputs(disk, lines[..last])
      case None => None
      case Some(paths) =>
        match disk.canonical(lines[last])
        case None => None
        case Some(path) => Some(paths + [path])
  }

  const TextListSingleInputText: string := "TXT file processing only supports a single input."
  const TextListOutputText: string := "Output argument is not supported when processing a TXT file."
  const MultipleInputsOutputText: string := "Output argument is not supported when processing more than one input."

  /** The settings from_args constructs, or None when it throws while reading a text list. */
  function SettingsFromArgs(args: RetrievalArguments, disk: Disk): (s: Option<Settings>)
  {
    var output := if IsTextList(args) || |args.input| > 1 then None else args.output;
    var input := if IsTextList(args) then ListedInputs(disk, disk.lines(args.input[0])) else Some(args.input);
    match input
    case None => None
    case Some(paths) =>
      Some(MakeSettings(disk.root, paths, output, args.format, CreateFolders(args), args.overwrite, args.overwriteNew,
        args.substring, args.regex, args.depth))
  }

  /** The errors from_args reports. */
  function FromArgsReports(args: RetrievalArguments): (r: seq<Report>)
  {
    if IsTextList(args) then
      (if |args.input| > 1 then [WithData(PipelineError, TextListSingleInputText)] else [])
      + (if args.output.Some? then [WithData(PipelineError, TextListOutputText)] else [])
    else if |args.input| > 1 && args.output.Some? then [WithData(PipelineError, MultipleInputsOutputText)]
    else []
  }

  /** The std::getline loop of from_args over a text list: the canonical path of each line in
    * order, ending at the first line fs::canonical throws on. */
  method ReadList(disk: Disk, file: Path) returns (input: Option<seq<Path>>)
    ensures input == ListedInputs(disk, disk.lines(file))
  {
    var lines := disk.lines(file);
    var paths := [];
    for i := 0 to |lines|
      invariant ListedInputs(disk, lines[..i]) == Some(paths)
    {
      assert lines[..i + 1][..i] == lines[..i];
      match disk.canonical(lines[i]) {
        case None =>
          return None;
        case Some(path) =>
          paths := paths + [path];
      }
    }
    assert lines[..|lines|] == lines;
    input := Some(paths);
  }

  /** from_args: the state, or None when it throws; `queued` is the report queue when it
    * returns or throws, which a throw leaves holding the reports queued before it. */
  method FromArgs(args: RetrievalArguments, disk: Disk, updates: seq<Report>) returns (state: Option<FileRetrievalState>, queued: seq<Report>)
    ensures queued == updates + FromArgsReports(args)
    ensures state.None? <==> SettingsFromArgs(args, disk).None?
    ensures state.Some? ==>
      && fresh(state.value) && state.value.files == []
      && state.value.settings == SettingsFromArgs(args, disk).value && state.value.updates == queued
  {
    var hasOutput := args.output.Some?;
    var createFolders := hasOutput && !args.dryRun && !args.clean;
    var reports := updates;
    if |args.input| > 0 && HasExtensionView(args.input[0], TxtExtension) {
      ghost var first: seq<Report> := if |args.input| > 1 then [WithData(PipelineError, TextListSingleInputText)] else [];
      ghost var second: seq<Report> := if hasOutput then [WithData(PipelineError, TextListOutputText)] else [];
      if |args.input| > 1 {
        reports := reports + [WithData(PipelineError, TextListSingleInputText)];
      }
      assert reports == updates + first;
      if hasOutput {
        reports := reports + [WithData(PipelineError, TextListOutputText)];
      }
      assert reports == updates + first + second;
      AppendAssociative(updates, first, second);
      queued := reports;
      var input := ReadList(disk, args.input[0]);
      if input.None? {
        return None, queued;
      }
      var settings := MakeSettings(disk.root, input.value, None, args.format, createFolders, args.overwrite,
        args.overwriteNew, args.substring, args.regex, args.depth);
      var created := new FileRetrievalState(settings, reports);
      return Some(created), queued;
    }
    var output := args.output;
    if |args.input| > 1 && hasOutput {
      reports := reports + [WithData(PipelineError, MultipleInputsOutputText)];
      output := None;
    }
    var settings := MakeSettings(disk.root, args.input, output, args.format, createFolders, args.overwrite,
      args.overwriteNew, args.substring, args.regex, args.depth);
    var created := new FileRetrievalState(settings, reports);
    state, queued := Some(created), reports;
  }

  /** get_paths: the pairs of all inputs, or None when from_args or process_user_input throws;
    * the queue receives the argument reports, then the input reports sent before any throw. */
  method GetPaths(args: RetrievalArguments, disk: Disk, updates: seq<Report>) returns (paths: Option<seq<PathPair>>, reports: seq<Report>)
    ensures SettingsFromArgs(args, disk).None? ==> paths.None? && reports == updates + FromArgsReports(args)
    ensures SettingsFromArgs(args, disk).Some? ==> var s := SettingsFromArgs(args, disk).value;
      && (paths.None? <==> InputsThrow(s, s.input))
      && (paths.Some? ==> paths.value == InputFiles(s, s.input))
      && reports == updates + FromArgsReports(args) + InputReports(s, s.input)
  {
    var state, queued := FromArgs(args, disk, updates);
    if state.None? {
      return None, queued;
    }
    var result, failed := state.value.GetResult();
    paths := if failed then None else Some(result);
    reports := state.value.updates;
  }

  /** A user-given .png that does not exist, whose output exists, under overwrite_new without
    * overwrite: get_paths throws from last_write_time, and the input sends no "not a PNG"
    * report. */
  lemma MissingInputThrows(s: Settings, p: Path)
    requires HasExtensionView(p, PngExtension) && PathMatchesCriteria(s, p) && !Exists(s.root, p)
    requires !s.overwrite && s.overwriteNew
    requires Exists(s.root, OutputFile(s, p, ParentPath(p))) && p != OutputFile(s, p, ParentPath(p))
    ensures InputsThrow(s, [p]) && InputFiles(s, [p]) == [] && InputReports(s, [p]) == []
  {
    assert InputThrowsOne(s, [p][0]);
    ThrowStops(s, [p], 0);
    assert [p][..0] == [];
  }

  /** A text list replaces the inputs by its canonical lines, never uses the output, and
    * reports each ignored argument once; from_args throws exactly when a line does not
    * resolve. */
  lemma TextListInputs(args: RetrievalArguments, disk: Disk)
    requires IsTextList(args)
    ensures var s := SettingsFromArgs(args, disk); var lines := disk.lines(args.input[0]);
      && (s.None? <==> exists i :: 0 <= i < |lines| && disk.canonical(lines[i]).None?)
      && (s.Some? ==> s.value.input == ListedInputs(disk, lines).value && s.value.output == None)
      && |FromArgsReports(args)| == (if |args.input| > 1 then 1 else 0) + (if args.output.Some? then 1 else 0)
  {
    var lines := disk.lines(args.input[0]);
    var listed := ListedInputs(disk, lines);
    assert SettingsFromArgs(args, disk).None? <==> listed.None?;
    if listed.Some? {
      assert SettingsFromArgs(args, disk).value.input == listed.value;
    }
  }

  /** Several inputs with an output: one error, and the output is dropped. */
  lemma MultipleInputsDropOutput(args: RetrievalArguments, disk: Disk)
    requires !IsTextList(args) && |args.input| > 1 && args.output.Some?
    ensures SettingsFromArgs(args, disk).Some?
    ensures SettingsFromArgs(args, disk).value.output == None && SettingsFromArgs(args, disk).value.input == args.input
    ensures FromArgsReports(args) == [WithData(PipelineError, MultipleInputsOutputText)]
  {
  }

  /** A single input keeps its output and reports nothing. */
  lemma SingleInputKeepsOutput(args: RetrievalArguments, disk: Disk)
    requires !IsTextList(args) && |args.input| <= 1
    ensures SettingsFromArgs(args, disk).Some?
    ensures SettingsFromArgs(args, disk).value.output == args.output && FromArgsReports(args) == []
  {
  }

  /** Output folders are created iff an output was given and this is neither a dry run nor a
    * clean-up, whichever branch is taken; overwrite_new never holds together with overwrite. */
  lemma FromArgsFlags(args: RetrievalArguments, disk: Disk)
    ensures SettingsFromArgs(args, disk).Some? ==>
      && (SettingsFromArgs(args, disk).value.createFolders <==> args.output.Some? && !args.dryRun && !args.clean)
      && (SettingsFromArgs(args, disk).value.overwriteNew <==> args.overwriteNew && !args.overwrite)
  {
  }
}
