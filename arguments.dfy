/**
 * The png2dds command-line parser: optional arguments first, then the input
 * path and an optional output path.
 */
module Arguments {
  import opened Util
  import opened Wrappers
  import Strings
  import Decimal
  import FromChars
  import Png2ddsFormat

  datatype OptionalArg = OptionalArg(name: string, shorter: string, help: string)

  /** An optional argument whose short form is characters [1, 3) of its long name. */
  function OptionalArgument(name: string, help: string): (r: OptionalArg)
    requires |name| >= 3
    ensures r.name == name && r.help == help
    ensures |r.shorter| == 2 && r.shorter[0] == name[1] && r.shorter[1] == name[2]
  {
    OptionalArg(name, name[1..3], help)
  }

  predicate Matches(argument: string, arg: OptionalArg)
  {
    argument == arg.shorter || argument == arg.name
  }

  const FormatArg := OptionalArgument("--format", "DDS encoding format. BC7 is used if this parameter is not used.")
  const LevelArg := OptionalArgument("--level", "Encoder quality level. Higher values take more time.")
  const ThreadsArg := OptionalArg("--threads", "-th", "Number of threads used by the parallel pipeline [1, {:d}].")
  const DepthArg := OptionalArgument("--depth", "Maximum subdirectory depth to use when looking for source files.")
  const OverwriteArg := OptionalArgument("--overwrite", "Convert files even if an output file already exists.")
  const VflipArg := OptionalArg("--vflip", "-vf", "Flip source images vertically before encoding.")
  const TimeArg := OptionalArgument("--time", "Show total execution time.")
  const RegexArg := OptionalArgument("--regex", "Process only absolute paths matching this regex.")
  const VerboseArg := OptionalArgument("--verbose", "Display progress messages.")
  const HelpArg := OptionalArgument("--help", "Show usage information.")

  const InputName: string := "input"
  const InputHelp: string := "Converts to DDS all PNG files inside of this folder. Can also point to a single PNG file."
  const OutputName: string := "output"
  const OutputHelp: string := "Create DDS files in this folder instead of next to their input PNG files."

  /** The largest of a list of lengths, as std::max_element finds it. */
  function MaxLength(names: seq<string>): (r: nat)
    requires |names| > 0
    ensures forall i :: 0 <= i < |names| ==> |names[i]| <= r
    ensures exists i :: 0 <= i < |names| && |names[i]| == r
  {
    if |names| == 1 then |names[0]|
    else
      var rest := MaxLength(names[1..]);
      assert forall i :: 1 <= i < |names| ==> |names[i]| <= rest by {
        forall i | 1 <= i < |names| ensures |names[i]| <= rest { assert names[i] == names[1..][i - 1]; }
      }
      if |names[0]| < rest then rest else |names[0]|
  }

  /** Every name in the help table except --format (which is no longer than --overwrite). */
  const TableNames: seq<string> := [LevelArg.name, ThreadsArg.name, DepthArg.name, OverwriteArg.name,
    VflipArg.name, TimeArg.name, VerboseArg.name, RegexArg.name, HelpArg.name, InputName, OutputName]

  function MaxArgumentSize(): (r: nat)
    ensures r == 11
  {
    var names := TableNames;
    assert |names| == 11;
    assert |names[0]| == 7 && |names[1]| == 9 && |names[2]| == 7 && |names[3]| == 11;
    assert |names[4]| == 7 && |names[5]| == 6 && |names[6]| == 9 && |names[7]| == 7;
    assert |names[8]| == 6 && |names[9]| == 5 && |names[10]| == 6;
    MaxLength(names)
  }

  const ArgumentTableSize: nat := MaxArgumentSize() + 2

  function Spaces(n: nat): string
  {
    seq(n, _ => ' ')
  }

  /** One line of the help table. */
  function PrintArgumentImpl(shorter: string, name: string, help: string): string
    requires |name| <= ArgumentTableSize
  {
    "  " + (if shorter == [] then [] else shorter + ", ") + name + Spaces(ArgumentTableSize - |name|) + help + "\n"
  }

  /** The name is padded with spaces to the table width, so the help text starts in the
    * same column for every argument with the same kind of short form. */
  lemma PrintArgumentImplLayout(shorter: string, name: string, help: string)
    requires |name| <= ArgumentTableSize
    ensures var r := PrintArgumentImpl(shorter, name, help);
      var prefix := 2 + (if shorter == [] then 0 else |shorter| + 2);
      var column := prefix + ArgumentTableSize;
      |r| == column + |help| + 1 && r[prefix..prefix + |name|] == name && r[column..column + |help|] == help
      && (forall i :: prefix + |name| <= i < column ==> r[i] == ' ') && r[|r| - 1] == '\n'
  {
  }

  function PrintOptionalArgument(arg: OptionalArg): string
    requires |arg.name| <= ArgumentTableSize
  {
    PrintArgumentImpl(arg.shorter, arg.name, arg.help)
  }

  function PrintFormatInformation(fmt: Png2ddsFormat.Type): string
  {
    Spaces(MaxArgumentSize() + 4) + Png2ddsFormat.Name(fmt) + ": Encoder quality level [0, "
      + Decimal.ToDecimal(Png2ddsFormat.MaxLevel(fmt)) + "]\n"
  }

  /** The result of fs::canonical */
  datatype Canonical = Canonical(path: string) | CanonicalError(message: string)

  /**
   * What the parser takes from outside: the default concurrency of the thread pool,
   * canonical path resolution, the compile error of a regular expression ("" when it
   * compiles), and the project metadata printed in the help text.
   */
  datatype Environment = Environment(
    maxThreads: SizeT,
    canonical: string -> Canonical,
    regexError: string -> string,
    projectName: string,
    projectVersion: string,
    projectDescription: string)

  predicate ValidEnvironment(env: Environment)
  {
    env.maxThreads >= 1
  }

  function Help(env: Environment): string
  {
    env.projectName + " " + env.projectVersion + "\n\n" + env.projectDescription + "\n\n"
      + "USAGE:\n  " + env.projectName + " [OPTIONS] " + InputName + " [" + OutputName + "]" + "\n\n"
      + "ARGS:\n"
      + PrintArgumentImpl("", InputName, InputHelp)
      + PrintArgumentImpl("", OutputName, OutputHelp)
      + "\nOPTIONS:\n"
      + PrintOptionalArgument(FormatArg)
      + PrintFormatInformation(Png2ddsFormat.Bc1)
      + PrintFormatInformation(Png2ddsFormat.Bc7)
      + PrintOptionalArgument(LevelArg)
      + PrintArgumentImpl(ThreadsArg.shorter, ThreadsArg.name,
          "Number of threads used by the parallel pipeline [1, " + Decimal.ToDecimal(env.maxThreads) + "].")
      + PrintOptionalArgument(DepthArg)
      + PrintOptionalArgument(OverwriteArg)
      + PrintOptionalArgument(VflipArg)
      + PrintOptionalArgument(TimeArg)
      + PrintOptionalArgument(RegexArg)
      + PrintOptionalArgument(VerboseArg)
      + PrintOptionalArgument(HelpArg)
  }

  /** png2dds::args::data */
  datatype Data = Data(
    error: bool,
    text: string,
    input: string,
    output: Option<string>,
    format: Png2ddsFormat.Type,
    level: U32,
    threads: SizeT,
    depth: SizeT,
    overwrite: bool,
    vflip: bool,
    time: bool,
    verbose: bool,
    regex: Option<string>)

  /** Value-initialised data with the defaults get() sets before parsing. */
  function Defaults(env: Environment): (r: Data)
    ensures !r.error && r.text == [] && r.format == Png2ddsFormat.Bc7
    ensures r.threads == env.maxThreads && r.depth == SIZE_MAX
  {
    Data(false, "", "", None, Png2ddsFormat.Bc7, 0, env.maxThreads, SIZE_MAX, false, false, false, false, None)
  }

  function UnsupportedFormatText(argument: string): string { "Unsupported format: " + argument }
  function NotANumberText(argumentName: string): string { "Argument error: " + argumentName + " must be a positive number." }
  function InvalidPositionalText(argument: string): string { "Invalid positional argument " + argument }
  function RegexErrorText(pattern: string, err: string): string { "Could not compile regular expression " + pattern + ": " + err }
  function UnsupportedLevelText(level: nat): string { "Argument error: Unsupported encode quality level " + Decimal.ToDecimal(level) + " ." }
  function InvalidInputText(argument: string, message: string): string { "Invalid " + InputName + " " + argument + ": " + message + "." }
  const MissingInputText: string := "Argument error: " + InputName + " has not been provided."

  /** format_from_str */
  function FormatFromStr(argument: string, parsed: Data): (r: Data)
    ensures Strings.Upper(argument) == "BC1" ==> r == parsed.(format := Png2ddsFormat.Bc1)
    ensures Strings.Upper(argument) == "BC7" ==> r == parsed.(format := Png2ddsFormat.Bc7)
    ensures Strings.Upper(argument) != "BC1" && Strings.Upper(argument) != "BC7" ==>
      r == parsed.(error := true, text := UnsupportedFormatText(argument))
  {
    var upper := Strings.Upper(argument);
    if upper == Png2ddsFormat.Name(Png2ddsFormat.Bc1) then parsed.(format := Png2ddsFormat.Bc1)
    else if upper == Png2ddsFormat.Name(Png2ddsFormat.Bc7) then parsed.(format := Png2ddsFormat.Bc7)
    else parsed.(error := true, text := UnsupportedFormatText(argument))
  }

  /** argument_from_str: the parsed number, or the unchanged value and an error. */
  function ArgumentFromStr(argumentName: string, argument: string, value: nat, max: nat, parsed: Data): (r: (nat, Data))
    requires value <= max
    ensures r.0 <= max
    ensures FromChars.Parse(argument, max).Ok? ==> r == (FromChars.Parse(argument, max).value, parsed)
    ensures FromChars.Parse(argument, max).Err? ==>
      r == (value, parsed.(error := true, text := NotANumberText(argumentName)))
  {
    match FromChars.Parse(argument, max)
    case Ok(v) => (v, parsed)
    case Err(_) => (value, parsed.(error := true, text := NotANumberText(argumentName)))
  }

  function Clamp(v: nat, lo: nat, hi: nat): (r: nat)
    requires lo <= hi
    ensures lo <= r <= hi
    ensures lo <= v <= hi ==> r == v
    ensures v < lo ==> r == lo
    ensures hi < v ==> r == hi
  {
    if v < lo then lo else if hi < v then hi else v
  }

  /** Which branch of the option loop an argument takes, tested in the loop's order. */
  datatype ArgKind =
    | NotAnOption | EndOfOptions | HelpOption
    | FormatOption | LevelOption | ThreadsOption | DepthOption | RegexOption
    | OverwriteOption | VflipOption | TimeOption | VerboseOption
    | UnknownOption

  function Classify(argument: string): (k: ArgKind)
    ensures k == NotAnOption <==> !Strings.StartsWith(argument, "-")
    ensures k == EndOfOptions <==> argument == "--"
    ensures k == HelpOption <==> Strings.StartsWith(argument, "-") && argument != "--" && Matches(argument, HelpArg)
  {
    if !Strings.StartsWith(argument, "-") then NotAnOption
    else if argument == "--" then EndOfOptions
    else if Matches(argument, HelpArg) then HelpOption
    else if Matches(argument, FormatArg) then FormatOption
    else if Matches(argument, LevelArg) then LevelOption
    else if Matches(argument, ThreadsArg) then ThreadsOption
    else if Matches(argument, DepthArg) then DepthOption
    else if Matches(argument, RegexArg) then RegexOption
    else if Matches(argument, OverwriteArg) then OverwriteOption
    else if Matches(argument, VflipArg) then VflipOption
    else if Matches(argument, TimeArg) then TimeOption
    else if Matches(argument, VerboseArg) then VerboseOption
    else UnknownOption
  }

  /** The state of the option loop: the data being filled, the argument index, and
    * whether a level was given. */
  datatype LoopState = LoopState(data: Data, index: nat, levelIsSet: bool)

  function NextArgument(arguments: seq<string>, index: nat): (r: string)
    ensures index + 1 < |arguments| ==> r == arguments[index + 1]
    ensures index + 1 >= |arguments| ==> r == []
  {
    if index + 1 < |arguments| then arguments[index + 1] else ""
  }

  predicate IsStopKind(kind: ArgKind)
  {
    kind == NotAnOption || kind == EndOfOptions || kind == HelpOption
  }

  /** An iteration that handles an option and moves on to the next argument. */
  function OptionStep(arguments: seq<string>, env: Environment, st: LoopState): (r: LoopState)
    requires ValidEnvironment(env)
    requires st.index < |arguments| && !IsStopKind(Classify(arguments[st.index]))
    ensures st.index < r.index
  {
    var argument := arguments[st.index];
    var data := st.data;
    var next := NextArgument(arguments, st.index);
    var after := st.index + 2;
    match Classify(argument)
    case FormatOption => LoopState(FormatFromStr(next, data), after, st.levelIsSet)
    case LevelOption =>
      var (v, d) := ArgumentFromStr(LevelArg.name, next, data.level, UINT32_MAX, data);
      LoopState(d.(level := v), after, true)
    case ThreadsOption =>
      var (v, d) := ArgumentFromStr(ThreadsArg.name, next, data.threads, SIZE_MAX, data);
      LoopState(d.(threads := Clamp(v, 1, env.maxThreads)), after, st.levelIsSet)
    case DepthOption =>
      var (v, d) := ArgumentFromStr(DepthArg.name, next, data.depth, SIZE_MAX, data);
      LoopState(d.(depth := if v == 0 then SIZE_MAX else v), after, st.levelIsSet)
    case RegexOption =>
      var err := env.regexError(next);
      var d := data.(regex := Some(next));
      LoopState(if err != [] then d.(error := true, text := RegexErrorText(next, err)) else d, after, st.levelIsSet)
    case OverwriteOption => st.(data := data.(overwrite := true), index := st.index + 1)
    case VflipOption => st.(data := data.(vflip := true), index := st.index + 1)
    case TimeOption => st.(data := data.(time := true), index := st.index + 1)
    case VerboseOption => st.(data := data.(verbose := true), index := st.index + 1)
    case UnknownOption => st.(data := data.(error := true, text := InvalidPositionalText(argument)), index := st.index + 1)
  }

  /** An iteration that ends the loop: a non-option, "--" (which is consumed) or help. */
  function StopStep(arguments: seq<string>, env: Environment, st: LoopState): (r: LoopState)
    requires st.index < |arguments| && IsStopKind(Classify(arguments[st.index]))
  {
    match Classify(arguments[st.index])
    case NotAnOption => st
    case EndOfOptions => st.(index := st.index + 1)
    case HelpOption => st.(data := st.data.(text := Help(env)))
  }

  /** The option loop: runs until an error, the end of the arguments, or a break. */
  function ParseOptions(arguments: seq<string>, env: Environment, st: LoopState): (r: LoopState)
    requires ValidEnvironment(env)
    decreases |arguments| - st.index
  {
    if st.data.error || st.index >= |arguments| then st
    else
      if IsStopKind(Classify(arguments[st.index])) then StopStep(arguments, env, st)
      else ParseOptions(arguments, env, OptionStep(arguments, env, st))
  }

  /** After the loop, when no error occurred: an unset level becomes the format's
    * maximum, and a set level above that maximum is an error. */
  function CheckLevel(st: LoopState): (r: Data)
  {
    var maxLevel := Png2ddsFormat.MaxLevel(st.data.format);
    if st.data.error then st.data
    else if !st.levelIsSet then st.data.(level := maxLevel)
    else if st.data.level > maxLevel then st.data.(error := true, text := UnsupportedLevelText(st.data.level))
    else st.data
  }

  /** When no text was produced: the input (and output) path, the help text when no
    * argument at all was given, or the missing-input error. */
  function Positional(arguments: seq<string>, env: Environment, index: nat, checked: Data): (r: Data)
  {
    if checked.text != [] then checked
    else if index < |arguments| then
      match env.canonical(arguments[index])
      case CanonicalError(message) =>
        checked.(error := true, text := InvalidInputText(arguments[index], message))
      case Canonical(path) =>
        checked.(input := path, output := if index < |arguments| - 1 then Some(arguments[index + 1]) else checked.output)
    else if index == 1 then checked.(text := Help(env))
    else checked.(error := true, text := MissingInputText)
  }

  function Finish(arguments: seq<string>, env: Environment, st: LoopState): (r: Data)
  {
    Positional(arguments, env, st.index, CheckLevel(st))
  }

  /** The data get() returns for an argument vector whose first entry is the program. */
  function ParsedArguments(arguments: seq<string>, env: Environment): (r: Data)
    requires ValidEnvironment(env)
  {
    Finish(arguments, env, ParseOptions(arguments, env, LoopState(Defaults(env), 1, false)))
  }

  /** The option branches of get()'s loop body, including the final ++index. */
  method ParseOption(arguments: seq<string>, env: Environment, parsed0: Data, index0: nat, levelIsSet0: bool)
    returns (parsed: Data, index: nat, levelIsSet: bool)
    requires ValidEnvironment(env)
    requires index0 < |arguments| && !IsStopKind(Classify(arguments[index0]))
    ensures LoopState(parsed, index, levelIsSet) == OptionStep(arguments, env, LoopState(parsed0, index0, levelIsSet0))
  {
    parsed, index, levelIsSet := parsed0, index0, levelIsSet0;
    var argument := arguments[index];
    var next := if index < |arguments| - 1 then arguments[index + 1] else "";
    match Classify(argument) {
      case FormatOption =>
        index := index + 1;
        parsed := FormatFromStr(next, parsed);
      case LevelOption =>
        levelIsSet := true;
        index := index + 1;
        var (value, updated) := ArgumentFromStr(LevelArg.name, next, parsed.level, UINT32_MAX, parsed);
        parsed := updated.(level := value);
      case ThreadsOption =>
        index := index + 1;
        var (value, updated) := ArgumentFromStr(ThreadsArg.name, next, parsed.threads, SIZE_MAX, parsed);
        parsed := updated.(threads := Clamp(value, 1, env.maxThreads));
      case DepthOption =>
        index := index + 1;
        var (value, updated) := ArgumentFromStr(DepthArg.name, next, parsed.depth, SIZE_MAX, parsed);
        parsed := updated.(depth := value);
        if parsed.depth == 0 {
          parsed := parsed.(depth := SIZE_MAX);
        }
      case RegexOption =>
        index := index + 1;
        parsed := parsed.(regex := Some(next));
        var regexError := env.regexError(next);
        if regexError != [] {
          parsed := parsed.(error := true, text := RegexErrorText(next, regexError));
        }
      case OverwriteOption => parsed := parsed.(overwrite := true);
      case VflipOption => parsed := parsed.(vflip := true);
      case TimeOption => parsed := parsed.(time := true);
      case VerboseOption => parsed := parsed.(verbose := true);
      case UnknownOption => parsed := parsed.(error := true, text := InvalidPositionalText(argument));
    }
    index := index + 1;
  }

  /** The level default and bound check after the loop. */
  method ApplyLevel(parsed0: Data, levelIsSet: bool) returns (parsed: Data)
    ensures parsed == CheckLevel(LoopState(parsed0, 0, levelIsSet))
  {
    parsed := parsed0;
    if !parsed.error {
      var formatMaxLevel := Png2ddsFormat.MaxLevel(parsed.format);
      if !levelIsSet {
        parsed := parsed.(level := formatMaxLevel);
      } else if parsed.level > formatMaxLevel {
        parsed := parsed.(error := true, text := UnsupportedLevelText(parsed.level));
      }
    }
  }

  /** The positional arguments, handled only while no text has been produced. */
  method ApplyPositional(arguments: seq<string>, env: Environment, index: nat, parsed0: Data) returns (parsed: Data)
    ensures parsed == Positional(arguments, env, index, parsed0)
  {
    parsed := parsed0;
    if parsed.text == [] {
      if index < |arguments| {
        match env.canonical(arguments[index])
        case CanonicalError(message) =>
          parsed := parsed.(error := true, text := InvalidInputText(arguments[index], message));
        case Canonical(path) =>
          parsed := parsed.(input := path);
          if index < |arguments| - 1 {
            parsed := parsed.(output := Some(arguments[index + 1]));
          }
      } else if index == 1 {
        parsed := parsed.(text := Help(env));
      } else {
        parsed := parsed.(error := true, text := MissingInputText);
      }
    }
  }

  /** get(): the option loop over `index`, then the level check and the positional arguments. */
  method Get(arguments: seq<string>, env: Environment) returns (parsed: Data)
    requires ValidEnvironment(env)
    ensures parsed == ParsedArguments(arguments, env)
  {
    parsed := Defaults(env);
    var index: nat := 1;
    var levelIsSet := false;
    ghost var total := ParseOptions(arguments, env, LoopState(parsed, index, levelIsSet));
    while !parsed.error && index < |arguments|
      invariant ParseOptions(arguments, env, LoopState(parsed, index, levelIsSet)) == total
      decreases |arguments| - index
    {
      var argument := arguments[index];
      var kind := Classify(argument);
      if kind == NotAnOption {
        break;
      }
      if kind == EndOfOptions {
        index := index + 1;
        break;
      }
      if kind == HelpOption {
        parsed := parsed.(text := Help(env));
        break;
      }
      parsed, index, levelIsSet := ParseOption(arguments, env, parsed, index, levelIsSet);
    }
    assert LoopState(parsed, index, levelIsSet) == total;
    parsed := ApplyLevel(parsed, levelIsSet);
    parsed := ApplyPositional(arguments, env, index, parsed);
  }

  /** The short forms derived from the long names. */
  lemma ShortForms()
    ensures FormatArg.shorter == "-f" && LevelArg.shorter == "-l" && DepthArg.shorter == "-d"
    ensures OverwriteArg.shorter == "-o" && TimeArg.shorter == "-t" && RegexArg.shorter == "-r"
    ensures VerboseArg.shorter == "-v" && HelpArg.shorter == "-h"
    ensures ThreadsArg.shorter == "-th" && VflipArg.shorter == "-vf"
  {
  }

  lemma HelpIsNotEmpty(env: Environment)
    ensures |Help(env)| > 0
  {
  }

  /** Without any argument besides the program name, the result is the help text and no error. */
  lemma HelpWithoutArguments(arguments: seq<string>, env: Environment)
    requires ValidEnvironment(env) && |arguments| <= 1
    ensures var r := ParsedArguments(arguments, env); !r.error && r.text == Help(env)
  {
  }

  /** --help or -h as the first argument gives the help text and no error. */
  lemma HelpArgument(program: string, help: string, rest: seq<string>, env: Environment)
    requires ValidEnvironment(env) && Matches(help, HelpArg)
    ensures var r := ParsedArguments([program, help] + rest, env); !r.error && r.text == Help(env)
  {
    var arguments := [program, help] + rest;
    assert arguments[1] == help;
    HelpIsHelpOption(help);
    var st0 := LoopState(Defaults(env), 1, false);
    StopAtHelp(arguments, env, st0);
    HelpIsNotEmpty(env);
  }

  lemma StopAtHelp(arguments: seq<string>, env: Environment, st: LoopState)
    requires ValidEnvironment(env) && !st.data.error && st.index < |arguments|
    requires Classify(arguments[st.index]) == HelpOption
    ensures ParseOptions(arguments, env, st) == st.(data := st.data.(text := Help(env)))
  {
  }

  lemma HelpIsHelpOption(help: string)
    requires Matches(help, HelpArg)
    ensures Classify(help) == HelpOption
  {
    assert help == "--help" || help == "-h";
  }

  /** The data for a first argument that is the input: every setting keeps its default,
    * and the following argument, whatever it looks like, is the output. */
  function InputOnly(env: Environment, input: string, rest: seq<string>): Data
  {
    var d := Defaults(env).(level := Png2ddsFormat.MaxLevel(Png2ddsFormat.Bc7));
    match env.canonical(input)
    case CanonicalError(message) => d.(error := true, text := InvalidInputText(input, message))
    case Canonical(path) => d.(input := path, output := if rest == [] then None else Some(rest[0]))
  }

  /** Option parsing stops at the first argument that does not start with '-'. */
  lemma OptionsEndAtFirstNonOption(program: string, input: string, rest: seq<string>, env: Environment)
    requires ValidEnvironment(env) && !Strings.StartsWith(input, "-")
    ensures ParsedArguments([program, input] + rest, env) == InputOnly(env, input, rest)
  {
    var arguments := [program, input] + rest;
    assert arguments[1] == input && arguments[2..] == rest;
  }

  /** "--" ends option parsing and is consumed; with nothing after it, the input is missing. */
  lemma DoubleDashAlone(program: string, env: Environment)
    requires ValidEnvironment(env)
    ensures ParsedArguments([program, "--"], env)
      == Defaults(env).(level := Png2ddsFormat.MaxLevel(Png2ddsFormat.Bc7), error := true, text := MissingInputText)
  {
    var arguments := [program, "--"];
    assert arguments[1] == "--";
    assert Classify("--") == EndOfOptions;
  }

  /** "--" ends option parsing and is consumed, so the next argument is the input even if it
    * starts with '-'. */
  lemma DoubleDashEndsOptions(program: string, rest: seq<string>, env: Environment)
    requires ValidEnvironment(env) && rest != []
    ensures ParsedArguments([program, "--"] + rest, env) == InputOnly(env, rest[0], rest[1..])
  {
    var arguments := [program, "--"] + rest;
    assert arguments[1] == "--";
    assert Classify("--") == EndOfOptions;
    assert arguments[2] == rest[0] && arguments[3..] == rest[1..];
  }

  /** An argument starting with '-' that names no option is an error, which ends parsing. */
  lemma UnknownOptionIsError(program: string, argument: string, rest: seq<string>, env: Environment)
    requires ValidEnvironment(env) && Classify(argument) == UnknownOption
    ensures var r := ParsedArguments([program, argument] + rest, env);
      r.error && r.text == InvalidPositionalText(argument)
  {
    var arguments := [program, argument] + rest;
    assert arguments[1] == argument;
    var st0 := LoopState(Defaults(env), 1, false);
    var st1 := OptionStep(arguments, env, st0);
    assert st1.data.error && st1.data.text == InvalidPositionalText(argument);
    assert ParseOptions(arguments, env, st0) == st1;
  }

  /** An argument whose second character is a digit matches no option whose long name
    * continues with a dash and whose short form continues with a letter. */
  lemma DigitMatchesNoOption(argument: string, name: string, shorter: string)
    requires |argument| >= 2 && '0' <= argument[1] <= '9'
    requires |name| >= 2 && name[1] == '-' && |shorter| >= 2 && 'a' <= shorter[1] <= 'z'
    ensures argument != name && argument != shorter
  {
  }

  /** An argument of a dash followed by a digit, such as a negative number, names no option:
    * every long name continues with a second dash and every short form with a letter. */
  lemma NegativeNumberIsNotAnOption(argument: string)
    requires |argument| >= 2 && argument[0] == '-' && '0' <= argument[1] <= '9'
    ensures Classify(argument) == UnknownOption
  {
    ShortForms();
    assert argument != "--";
    DigitMatchesNoOption(argument, HelpArg.name, HelpArg.shorter);
    DigitMatchesNoOption(argument, FormatArg.name, FormatArg.shorter);
    DigitMatchesNoOption(argument, LevelArg.name, LevelArg.shorter);
    DigitMatchesNoOption(argument, ThreadsArg.name, ThreadsArg.shorter);
    DigitMatchesNoOption(argument, DepthArg.name, DepthArg.shorter);
    DigitMatchesNoOption(argument, RegexArg.name, RegexArg.shorter);
    DigitMatchesNoOption(argument, OverwriteArg.name, OverwriteArg.shorter);
    DigitMatchesNoOption(argument, VflipArg.name, VflipArg.shorter);
    DigitMatchesNoOption(argument, TimeArg.name, TimeArg.shorter);
    DigitMatchesNoOption(argument, VerboseArg.name, VerboseArg.shorter);
  }

  /** Once an error is set the loop stops and the remaining steps keep its text. */
  lemma ErrorIsFinal(arguments: seq<string>, env: Environment, st: LoopState)
    requires ValidEnvironment(env) && st.data.error && st.data.text != []
    ensures ParseOptions(arguments, env, st) == st
    ensures Finish(arguments, env, st) == st.data
  {
  }

  lemma ClassifyFormat(flag: string)
    requires Matches(flag, FormatArg)
    ensures Classify(flag) == FormatOption
  {
    assert flag == "--format" || flag == "-f";
  }

  lemma ClassifyLevel(flag: string)
    requires Matches(flag, LevelArg)
    ensures Classify(flag) == LevelOption
  {
    assert flag == "--level" || flag == "-l";
  }

  lemma ClassifyThreads(flag: string)
    requires Matches(flag, ThreadsArg)
    ensures Classify(flag) == ThreadsOption
  {
    assert flag == "--threads" || flag == "-th";
  }

  lemma ClassifyDepth(flag: string)
    requires Matches(flag, DepthArg)
    ensures Classify(flag) == DepthOption
  {
    assert flag == "--depth" || flag == "-d";
  }

  lemma ClassifyOverwrite(flag: string)
    requires Matches(flag, OverwriteArg)
    ensures Classify(flag) == OverwriteOption
  {
    assert flag == "--overwrite" || flag == "-o";
  }

  /** A flag with a value followed by an input: one option step, then the loop stops at the input. */
  lemma ValueOptionThenInput(program: string, flag: string, value: string, input: string, rest: seq<string>, env: Environment)
    requires ValidEnvironment(env) && !IsStopKind(Classify(flag)) && !Strings.StartsWith(input, "-")
    requires Classify(flag) in {FormatOption, LevelOption, ThreadsOption, DepthOption, RegexOption}
    ensures var arguments := [program, flag, value, input] + rest;
      var st1 := OptionStep(arguments, env, LoopState(Defaults(env), 1, false));
      st1.index == 3 && ParsedArguments(arguments, env) == Finish(arguments, env, st1)
  {
    var arguments := [program, flag, value, input] + rest;
    assert arguments[1] == flag && arguments[2] == value && arguments[3] == input;
    var st0 := LoopState(Defaults(env), 1, false);
    var st1 := OptionStep(arguments, env, st0);
    assert st1.index == 3;
    assert ParseOptions(arguments, env, st0) == ParseOptions(arguments, env, st1);
    assert Classify(arguments[3]) == NotAnOption;
    assert ParseOptions(arguments, env, st1) == st1;
  }

  /** --format takes the next argument case-insensitively; a value other than BC1 or BC7 is
    * an error. The default level then follows the chosen format. */
  lemma FormatOptionValue(program: string, flag: string, value: string, input: string, rest: seq<string>, env: Environment)
    requires ValidEnvironment(env) && Matches(flag, FormatArg) && !Strings.StartsWith(input, "-")
    requires env.canonical(input).Canonical?
    ensures var r := ParsedArguments([program, flag, value, input] + rest, env);
      var upper := Strings.Upper(value);
      (upper == "BC1" ==> !r.error && r.format == Png2ddsFormat.Bc1 && r.level == 18 && r.input == env.canonical(input).path)
      && (upper == "BC7" ==> !r.error && r.format == Png2ddsFormat.Bc7 && r.level == 6 && r.input == env.canonical(input).path)
      && (upper != "BC1" && upper != "BC7" ==> r.error && r.text == UnsupportedFormatText(value))
  {
    ClassifyFormat(flag);
    ValueOptionThenInput(program, flag, value, input, rest, env);
  }

  /** A trailing --format without a value parses the empty string, which is unsupported. */
  lemma MissingFormatValue(program: string, flag: string, env: Environment)
    requires ValidEnvironment(env) && Matches(flag, FormatArg)
    ensures var r := ParsedArguments([program, flag], env); r.error && r.text == UnsupportedFormatText("")
  {
    ClassifyFormat(flag);
    var arguments := [program, flag];
    var st0 := LoopState(Defaults(env), 1, false);
    var st1 := OptionStep(arguments, env, st0);
    assert NextArgument(arguments, 1) == "";
    assert Strings.Upper("") == "";
    assert st1.data.error && st1.data.text == UnsupportedFormatText("");
    assert ParseOptions(arguments, env, st0) == ParseOptions(arguments, env, st1);
    assert ParseOptions(arguments, env, st1) == st1;
  }

  /** --level accepts a number up to the format's maximum (6 for the default BC7); a larger
    * number, or a value that is not a number, is an error. */
  lemma LevelOptionValue(program: string, flag: string, value: string, input: string, rest: seq<string>, env: Environment)
    requires ValidEnvironment(env) && Matches(flag, LevelArg) && !Strings.StartsWith(input, "-")
    requires env.canonical(input).Canonical?
    ensures var r := ParsedArguments([program, flag, value, input] + rest, env);
      var n := FromChars.Parse(value, UINT32_MAX);
      (n.Ok? && n.value <= 6 ==> !r.error && r.level == n.value)
      && (n.Ok? && n.value > 6 ==> r.error && r.text == UnsupportedLevelText(n.value))
      && (n.Err? ==> r.error && r.text == NotANumberText(LevelArg.name))
  {
    ClassifyLevel(flag);
    ValueOptionThenInput(program, flag, value, input, rest, env);
  }

  /** --threads is clamped to [1, the default concurrency]; a value that is not a number is an error. */
  lemma ThreadsOptionValue(program: string, flag: string, value: string, input: string, rest: seq<string>, env: Environment)
    requires ValidEnvironment(env) && Matches(flag, ThreadsArg) && !Strings.StartsWith(input, "-")
    requires env.canonical(input).Canonical?
    ensures var r := ParsedArguments([program, flag, value, input] + rest, env);
      var n := FromChars.Parse(value, SIZE_MAX);
      (n.Ok? ==> !r.error && r.threads == Clamp(n.value, 1, env.maxThreads))
      && (n.Err? ==> r.error && r.text == NotANumberText(ThreadsArg.name))
  {
    ClassifyThreads(flag);
    ValueOptionThenInput(program, flag, value, input, rest, env);
  }

  /** --depth 0 means no limit (SIZE_MAX); a value that is not a number is an error. */
  lemma DepthOptionValue(program: string, flag: string, value: string, input: string, rest: seq<string>, env: Environment)
    requires ValidEnvironment(env) && Matches(flag, DepthArg) && !Strings.StartsWith(input, "-")
    requires env.canonical(input).Canonical?
    ensures var r := ParsedArguments([program, flag, value, input] + rest, env);
      var n := FromChars.Parse(value, SIZE_MAX);
      (n.Ok? && n.value == 0 ==> !r.error && r.depth == SIZE_MAX)
      && (n.Ok? && n.value > 0 ==> !r.error && r.depth == n.value)
      && (n.Err? ==> r.error && r.text == NotANumberText(DepthArg.name))
  {
    ClassifyDepth(flag);
    ValueOptionThenInput(program, flag, value, input, rest, env);
  }

  /** Options without any input argument after them are reported as a missing input. */
  lemma OptionWithoutInput(program: string, flag: string, env: Environment)
    requires ValidEnvironment(env) && Matches(flag, OverwriteArg)
    ensures var r := ParsedArguments([program, flag], env); r.error && r.text == MissingInputText
  {
    ClassifyOverwrite(flag);
    var arguments := [program, flag];
    var st0 := LoopState(Defaults(env), 1, false);
    var st1 := OptionStep(arguments, env, st0);
    assert st1.index == 2 && !st1.data.error && st1.data.text == [];
    assert ParseOptions(arguments, env, st0) == st1;
    assert CheckLevel(st1).text == [];
  }
}
