/**
 * The script that compares DDS encoders: which encoders it runs and with which arguments,
 * where their outputs go, how it validates its command line, which inputs it picks up, and
 * how it reads versions and quality metrics out of the console output of the tools it runs.
 * The console output of a tool, the PATH lookup and the directory tests are parameters.
 */
module CompareDds {
  import opened Wrappers
  import opened Strings
  import opened PyText
  import Paths

  /** The encoders the script can compare. */
  datatype Tool = Bc7enc | Nvtt | Png2dds | Texconv

  /** The encoders in the order of the encoder table, which every loop of the script follows. */
  const Tools: seq<Tool> := [Bc7enc, Nvtt, Png2dds, Texconv]

  /** The name of the tool's command-line switch and of its output directory. */
  function ToolName(tool: Tool): string
  {
    match tool
    case Bc7enc => "bc7enc"
    case Nvtt => "nvtt"
    case Png2dds => "png2dds"
    case Texconv => "texconv"
  }

  /** An encoder's executable, whether it converts a whole directory in one run, whether its
    * output argument is a file rather than a directory, and its fixed parameters. */
  datatype EncoderData = EncoderData(executable: string, batch: bool, filepath: bool, params: seq<string>)

  /** The encoder table. */
  function Encoder(tool: Tool): EncoderData
  {
    match tool
    case Bc7enc => EncoderData("bc7enc", false, true, ["-q", "-g", "-u6"])
    case Nvtt => EncoderData("nvbatchcompress", true, true, ["-fast", "-bc7", "-silent"])
    case Png2dds => EncoderData("png2dds", true, false, ["-o"])
    case Texconv => EncoderData("texconv", true, false, ["-y", "-f", "BC7_UNORM", "-bc", "x"])
  }

  // Argument validation.

  /** The tool was asked for but its executable is not on the PATH. */
  predicate Missing(tool: Tool, selected: set<Tool>, onPath: set<string>)
  {
    tool in selected && Encoder(tool).executable !in onPath
  }

  function MissingMessage(tool: Tool): string
  {
    "To use " + ToolName(tool) + ", " + Encoder(tool).executable + " must be present in the PATH"
  }

  function InputMessage(input: string): string
  {
    "Input directory " + input + " is not valid"
  }

  function OutputMessage(output: string): string
  {
    output + " is not a directory"
  }

  /**
   * validate_args: the first selected tool, in table order, whose executable is missing;
   * only then an input that is not a directory, and then an output that exists without being
   * a directory. The empty text means valid, and only then.
   */
  method ValidateArgs(selected: set<Tool>, onPath: set<string>, input: string, output: string,
                      inputIsDirectory: bool, outputExists: bool, outputIsDirectory: bool)
    returns (error: string)
    ensures error == "" <==>
      && (forall t :: t in selected ==> Encoder(t).executable in onPath)
      && inputIsDirectory && (outputExists ==> outputIsDirectory)
    ensures forall k ::
      (0 <= k < |Tools| && Missing(Tools[k], selected, onPath)
       && forall j :: 0 <= j < k ==> !Missing(Tools[j], selected, onPath))
      ==> error == MissingMessage(Tools[k])
    ensures (forall t :: !Missing(t, selected, onPath)) && !inputIsDirectory ==> error == InputMessage(input)
    ensures (forall t :: !Missing(t, selected, onPath)) && inputIsDirectory && outputExists && !outputIsDirectory
      ==> error == OutputMessage(output)
  {
    for k := 0 to |Tools|
      invariant forall j :: 0 <= j < k ==> !Missing(Tools[j], selected, onPath)
    {
      if Missing(Tools[k], selected, onPath) {
        return MissingMessage(Tools[k]);
      }
    }
    assert forall t :: !Missing(t, selected, onPath) by {
      forall t
        ensures !Missing(t, selected, onPath)
      {
        assert t == Tools[match t case Bc7enc => 0 case Nvtt => 1 case Png2dds => 2 case Texconv => 3];
      }
    }
    assert forall t :: t in selected ==> Encoder(t).executable in onPath by {
      forall t | t in selected
        ensures Encoder(t).executable in onPath
      {
        assert !Missing(t, selected, onPath);
      }
    }
    if !inputIsDirectory {
      return InputMessage(input);
    }
    if outputExists && !outputIsDirectory {
      return OutputMessage(output);
    }
    return "";
  }

  // The inputs.

  /** A name the input listing keeps: it ends in ".png" in any case. */
  predicate IsPngName(name: string)
  {
    EndsWith(Lower(name), ".png")
  }

  /** The names of a directory listing the script keeps, in listing order. */
  function PngNames(names: seq<string>): (r: seq<string>)
    ensures |r| <= |names|
  {
    if names == [] then []
    else PngNames(names[..|names| - 1]) + if IsPngName(names[|names| - 1]) then [names[|names| - 1]] else []
  }

  /** The names kept are exactly the listed PNG names. */
  lemma {:induction false} PngNamesMembers(names: seq<string>)
    ensures forall x :: x in PngNames(names) <==> x in names && IsPngName(x)
  {
    if names != [] {
      var init := names[..|names| - 1];
      PngNamesMembers(init);
      assert names == init + [names[|names| - 1]];
    }
  }

  /** Keeping the names of one more entry. */
  lemma PngNamesStep(names: seq<string>, k: nat)
    requires k < |names|
    ensures PngNames(names[..k + 1]) == PngNames(names[..k]) + if IsPngName(names[k]) then [names[k]] else []
  {
    assert names[..k + 1][..k] == names[..k];
  }

  /** The input list: the kept names of the input directory's listing joined to it. */
  method InputFiles(input: string, listing: seq<string>) returns (files: seq<string>)
    ensures |files| == |PngNames(listing)|
    ensures forall i :: 0 <= i < |files| ==> files[i] == PathJoin(input, PngNames(listing)[i])
  {
    files := [];
    for k := 0 to |listing|
      invariant |files| == |PngNames(listing[..k])|
      invariant forall i :: 0 <= i < |files| ==> files[i] == PathJoin(input, PngNames(listing[..k])[i])
    {
      PngNamesStep(listing, k);
      if IsPngName(listing[k]) {
        files := files + [PathJoin(input, listing[k])];
      }
    }
    assert listing[..|listing|] == listing;
  }

  // Where outputs go.

  /** pathlib's stem of a base name: the name without its suffix, where the suffix runs from
    * the last dot, when that dot is neither the first nor the last character. */
  function PathStem(name: string): (r: string)
    ensures StartsWith(name, r)
    ensures r != name ==> 0 < |r| < |name| - 1 && name[|r|] == '.' && '.' !in name[|r| + 1..]
  {
    match Paths.LastIndexOf(name, '.')
    case None => name
    case Some(i) =>
      if 0 < i < |name| - 1 then name[..i]
      else name
  }

  /** output_file_path: the input's stem in the output directory. */
  function OutputFilePath(inputFile: string, outputPath: string): (r: string)
    ensures BaseName(r) == PathStem(BaseName(inputFile))
  {
    var name := BaseName(inputFile);
    var stem := PathStem(name);
    assert Paths.Separator !in stem by {
      assert forall j :: 0 <= j < |stem| ==> stem[j] == name[j];
    }
    BaseNameOfJoin(outputPath, stem);
    PathJoin(outputPath, stem)
  }

  /** The directory under the output root that holds a tool's results. */
  function ToolDirectory(outputRoot: string, tool: Tool): (r: string)
    ensures BaseName(r) == ToolName(tool)
  {
    BaseNameOfJoin(outputRoot, ToolName(tool));
    PathJoin(outputRoot, ToolName(tool))
  }

  /** The .dds file, named after the input, whose size the per-file timing reports. */
  function EncodedFile(tool: Tool, inputFile: string, outputRoot: string): (r: string)
    ensures BaseName(r) == PathStem(BaseName(inputFile)) + ".dds"
  {
    var path := OutputFilePath(inputFile, ToolDirectory(outputRoot, tool));
    BaseNameOfAppend(path, ".dds");
    path + ".dds"
  }

  /** The output argument of a per-file run: the .dds file itself for tools that take a
    * file, the tool's directory for the others. */
  function FileRunOutput(tool: Tool, inputFile: string, outputRoot: string): (r: string)
    ensures Encoder(tool).filepath ==> r == EncodedFile(tool, inputFile, outputRoot)
    ensures !Encoder(tool).filepath ==> BaseName(r) == ToolName(tool)
  {
    if Encoder(tool).filepath then EncodedFile(tool, inputFile, outputRoot)
    else ToolDirectory(outputRoot, tool)
  }

  /** The argument vector that *_execute passes to Popen: the executable, its fixed
    * parameters, the input and the output. texconv alone looks at its input: a directory
    * becomes a recursive search for its *.png files; and it takes its output after "-o". */
  method Execute(tool: Tool, input: string, output: string, inputIsDirectory: bool)
    returns (arguments: seq<string>)
    ensures tool != Texconv ==> arguments == [Encoder(tool).executable] + Encoder(tool).params + [input, output]
    ensures tool == Texconv ==>
      arguments == ["texconv"] + Encoder(Texconv).params
        + (if inputIsDirectory then ["-r", PathJoin(input, "*.png")] else [input]) + ["-o", output]
  {
    var data := Encoder(tool);
    arguments := [data.executable];
    arguments := arguments + data.params;
    if tool == Texconv {
      var inputString := input;
      if inputIsDirectory {
        arguments := arguments + ["-r"];
        inputString := PathJoin(input, "*.png");
      }
      arguments := arguments + [inputString];
      arguments := arguments + ["-o"];
    } else {
      arguments := arguments + [input];
    }
    arguments := arguments + [output];
  }

  /** The input and output of each run batch_encode starts for a tool: one run over the input
    * directory for batch tools, one run per input file into its .dds file for the others. */
  function BatchRuns(tool: Tool, input: string, inputFiles: seq<string>, outputRoot: string): (r: seq<(string, string)>)
    ensures Encoder(tool).batch ==> r == [(input, ToolDirectory(outputRoot, tool))]
    ensures !Encoder(tool).batch ==>
      && |r| == |inputFiles|
      && forall i :: 0 <= i < |r| ==> r[i].0 == inputFiles[i] && r[i].1 == EncodedFile(tool, inputFiles[i], outputRoot)
  {
    if Encoder(tool).batch then [(input, ToolDirectory(outputRoot, tool))]
    else seq(|inputFiles|, i requires 0 <= i < |inputFiles| => (inputFiles[i], EncodedFile(tool, inputFiles[i], outputRoot)))
  }

  /** Only bc7enc is run once per file in a batch comparison. */
  lemma OnlyBc7encPerFile(tool: Tool)
    ensures !Encoder(tool).batch <==> tool == Bc7enc
  {
  }

  // Reading console output.

  /** `_, t = s.split(open, 1)` then `t, _ = t.split(close, 1)`: the text between the first
    * open and the first close after it; None where an unpacking raises. */
  function Between(s: string, open: string, close: string): (r: Option<string>)
    requires open != [] && close != []
    ensures r.Some? <==> SplitOnce(s, open).Some? && Contains(SplitOnce(s, open).value.1, close)
    ensures r.Some? ==> var rest := SplitOnce(s, open).value.1;
      StartsWith(rest, r.value + close) && FirstAt(rest, close, |r.value|)
  {
    match SplitOnce(s, open)
    case None => None
    case Some((_, rest)) =>
      match SplitOnce(rest, close)
      case None => None
      case Some((v, _)) => Some(v)
  }

  /** A value printed between two markers is read back, when the markers written are the
    * first of their kind. */
  lemma BetweenOfMarked(a: string, open: string, v: string, close: string, b: string)
    requires open != [] && close != []
    requires FirstAt(a + open, open, |a|) && FirstAt(v + close, close, |v|)
    ensures Between(a + open + v + close + b, open, close) == Some(v)
  {
    var rest := v + close + b;
    var s := a + open + v + close + b;
    assert s == (a + open) + rest;
    FirstAtExtended(a + open, rest, open, |a|);
    FindFirstAt(s, open, |a|);
    assert s[|a| + |open|..] == rest;
    assert rest == (v + close) + b;
    FirstAtExtended(v + close, b, close, |v|);
    FindFirstAt(rest, close, |v|);
  }

  /** A version taken between two markers and stripped of white space. */
  function MarkedVersion(s: string, open: string, close: string): (r: Option<string>)
    requires open != [] && close != []
    ensures r.Some? <==> Between(s, open, close).Some?
    ensures r.Some? ==> Strip(r.value) == r.value
  {
    match Between(s, open, close)
    case None => None
    case Some(v) =>
      StripIdempotent(v);
      Some(Strip(v))
  }

  /** nvtt_version: the text before the first " - ", from just after the first "Tools " in
    * it. */
  function NvttVersion(s: string): (r: Option<string>)
    ensures r.Some? <==> Contains(s, " - ") && Contains(SplitOnce(s, " - ").value.0, "Tools ")
    ensures r.Some? ==> var head := SplitOnce(s, " - ").value.0;
      && EndsWith(head, r.value)
      && FirstAt(head, "Tools ", |head| - |r.value| - 6)
  {
    match SplitOnce(s, " - ")
    case None => None
    case Some((head, _)) =>
      match SplitOnce(head, "Tools ")
      case None => None
      case Some((_, v)) =>
        assert head[|head| - |v|..] == v;
        Some(v)
  }

  /** The banner "... Tools <v> - ..." gives v, when neither marker occurs earlier. */
  lemma NvttVersionOfBanner(a: string, v: string, b: string)
    requires FirstAt(a + "Tools ", "Tools ", |a|)
    requires FirstAt(a + "Tools " + v + " - ", " - ", |a| + 6 + |v|)
    ensures NvttVersion(a + "Tools " + v + " - " + b) == Some(v)
  {
    var head := a + "Tools " + v;
    var s := head + " - " + b;
    assert a + "Tools " + v + " - " + b == s;
    assert a + "Tools " + v + " - " == head + " - ";
    FirstAtExtended(head + " - ", b, " - ", |head|);
    FindFirstAt(s, " - ", |head|);
    assert s[..|head|] == head;
    assert head == (a + "Tools ") + v;
    FirstAtExtended(a + "Tools ", v, "Tools ", |a|);
    FindFirstAt(head, "Tools ", |a|);
    assert head[|a| + 6..] == v;
  }

  /** The programs whose versions the information table lists. */
  datatype Program = EncoderProgram(tool: Tool) | Flip | Magick

  /** The command run to learn a program's version. */
  function VersionCommand(program: Program): (r: seq<string>)
    ensures |r| >= 1
  {
    match program
    case EncoderProgram(Png2dds) => ["png2dds", "--help"]
    case EncoderProgram(tool) => [Encoder(tool).executable]
    case Flip => ["flip"]
    case Magick => ["magick", "-version"]
  }

  /** The markers around a stripped version: after "png2dds ", "Version ", "FLIP " or
    * "ImageMagick ", up to the end of the line, ".\n" or a space. */
  function VersionMarkers(program: Program): (r: (string, string))
    requires program != EncoderProgram(Bc7enc) && program != EncoderProgram(Nvtt)
    ensures r.0 != [] && r.1 != []
  {
    match program
    case EncoderProgram(Png2dds) => ("png2dds ", "\n")
    case EncoderProgram(_) => ("Version ", "\n")
    case Flip => ("FLIP ", ".\n")
    case Magick => ("ImageMagick ", " ")
  }

  /** The *_version functions: None where the script raises. bc7enc's version is the text
    * between "bc7enc " and " - ", unstripped. */
  function Version(program: Program, output: string): (r: Option<string>)
    ensures program == EncoderProgram(Bc7enc) ==> r == Between(output, "bc7enc ", " - ")
    ensures program == EncoderProgram(Nvtt) ==> r == NvttVersion(output)
    ensures program != EncoderProgram(Bc7enc) && program != EncoderProgram(Nvtt) ==>
      var (open, close) := VersionMarkers(program);
      && (r.Some? <==> Between(output, open, close).Some?)
      && (r.Some? ==> r.value == Strip(Between(output, open, close).value) && Strip(r.value) == r.value)
  {
    match program
    case EncoderProgram(Bc7enc) => Between(output, "bc7enc ", " - ")
    case EncoderProgram(Nvtt) => NvttVersion(output)
    case _ =>
      var (open, close) := VersionMarkers(program);
      MarkedVersion(output, open, close)
  }

  /** The GPU name of the information table: "Unknown" when nvidia-smi is absent, otherwise
    * the text between the first ": " and the first " (" after it of its listing. None is
    * the ValueError the two-element unpacking of either split raises when its separator is
    * missing; the script does not catch it, so it ends there. */
  function GpuName(listing: Option<string>): (r: Option<string>)
    ensures listing.None? ==> r == Some("Unknown")
    ensures listing.Some? ==> r == Between(listing.value, ": ", " (")
  {
    match listing
    case None => Some("Unknown")
    case Some(s) => Between(s, ": ", " (")
  }

  /** calculate_metric on ImageMagick's report: for RMSE the text between " (" and ")",
    * provided the report holds exactly one " (" and the text after it exactly one ")";
    * any other metric's report as it is. */
  function CalculateMetric(metric: string, report: string): (r: Option<string>)
    ensures metric != "RMSE" ==> r == Some(report)
    ensures metric == "RMSE" ==>
      && (r.Some? <==> OccursOnce(report, " (") && OccursOnce(SplitOnce(report, " (").value.1, ")"))
      && (r.Some? ==> r == Between(report, " (", ")"))
  {
    if metric == "RMSE" then
      var pieces := Split(report, " (");
      SplitInTwo(report, " (");
      if |pieces| != 2 then None
      else
        var inner := Split(pieces[1], ")");
        SplitInTwo(pieces[1], ")");
        if |inner| != 2 then None else Some(inner[0])
    else Some(report)
  }

  /** The normalised RMSE ImageMagick prints in parentheses after the absolute one is read
    * back. */
  lemma RmseOfReport(a: string, v: string, b: string)
    requires FirstAt(a + " (", " (", |a|) && !Contains(v + ")" + b, " (")
    requires ')' !in v && ')' !in b
    ensures CalculateMetric("RMSE", a + " (" + v + ")" + b) == Some(v)
  {
    var s := a + " (" + v + ")" + b;
    var rest := v + ")" + b;
    assert s == (a + " (") + rest;
    FirstAtExtended(a + " (", rest, " (", |a|);
    FindFirstAt(s, " (", |a|);
    assert s[|a| + 2..] == rest;
    CharFree(v, ')');
    CharFree(b, ')');
    assert rest == (v + ")") + b;
    FirstAtExtended(v + ")", b, ")", |v|);
    FindFirstAt(rest, ")", |v|);
    assert rest[|v| + 1..] == b;
    BetweenOfMarked(a, " (", v, ")", b);
  }

  /** calculate_flip: the last space-separated token of the fifth line of FLIP's report,
    * stripped; None when the report has fewer lines or that line no space. */
  function CalculateFlip(report: string): (r: Option<string>)
    ensures r.Some? <==> |Split(report, "\n")| >= 5 && ' ' in Split(report, "\n")[4]
    ensures r.Some? ==> ' ' !in r.value && Strip(r.value) == r.value
  {
    var lines := Split(report, "\n");
    if |lines| < 5 then None
    else match RSplitOnce(lines[4], ' ')
      case None => None
      case Some((_, mean)) =>
        var m := Strip(mean);
        assert forall j :: 0 <= j < |m| ==> m[j] == mean[LeadingSpace(mean) + j];
        StripIdempotent(mean);
        Some(m)
  }

  /** The text after the last space of a line is its last token. */
  lemma LastToken(prefix: string, token: string)
    requires ' ' !in token
    ensures RSplitOnce(prefix + " " + token, ' ') == Some((prefix, token))
  {
    var line := prefix + " " + token;
    var (before, after) := RSplitOnce(line, ' ').value;
    assert line[|prefix|] == ' ';
    assert after == line[|line| - |after|..] && token == line[|line| - |token|..];
    assert |after| == |token|;
    assert before == line[..|before|] && prefix == line[..|prefix|];
  }

  /** The mean printed last on the fifth line of the report is read back. */
  lemma FlipOfReport(lines: seq<string>, prefix: string, mean: string)
    requires |lines| >= 5 && forall i :: 0 <= i < |lines| ==> '\n' !in lines[i]
    requires lines[4] == prefix + " " + mean && ' ' !in mean && Strip(mean) == mean
    ensures CalculateFlip(Join(lines, "\n")) == Some(mean)
  {
    forall i | 0 <= i < |lines|
      ensures FirstAt(lines[i] + "\n", "\n", |lines[i]|) && !Contains(lines[i], "\n")
    {
      CharFree(lines[i], '\n');
    }
    SplitJoin(lines, "\n");
    LastToken(prefix, mean);
  }
}
