# png2dds / todds core in Dafny

png2dds (and its later generation, todds) converts PNG files into DirectDraw Surface (.dds)
textures. It runs the following steps:

1. It parses a command line.
2. It collects the PNG files to convert: single files, directories walked down to a depth limit, or a text
   list. It pairs each with its output path and applies the overwrite rules.
3. It runs a pipeline over that work list. A PIPELINE STAGE (a "filter") does one step for each file:
   - decode the PNG into the first level of a mipmap image;
   - pad the level to multiples of 4 pixels;
   - downscale every further level from the one before it;
   - rearrange each level into 4×4 pixel blocks;
   - encode the blocks as BC1 or BC7;
   - write the .dds file (the "DDS " magic, a DDSURFACEDESC2 header, the DDS_HEADER_DXT10
     extension for BC7, and the block words).

Two Python tools come with it:
- comparedds runs several encoders and parses their console output;
- flatten copies a tree of PNG files into one directory under collision-free names.

This project models that core in Dafny, one module per source unit:

- **Command line** (`arguments.dfy`, `numbers.dfy`, `decimal.dfy`):
  - the parser's state machine over the argument vector: short forms, the end of options, sticky errors, defaults, clamping, positionals;
  - `std::from_chars` and decimal rendering.
- **File selection**:
  - `paths.dfy` and `filesystem.dfy` cover paths as components and the filesystem as a tree;
  - `file_retrieval.dfy` and `task.dfy` cover the two generations of the work-list builder;
  - `order.dfy` covers the ordering that sorts the work list.
- **Image memory** (`util.dfy`, `image.dfy`, `mipmap.dfy`, `mipmap_levels.dfy`, `pixel_grid.dfy`, `padding.dfy`, `resize.dfy`, `block_layout.dfy`, `pixel_blocks.dfy`):
  - the padding arithmetic and byte positions;
  - the mipmap chain and its single buffer;
  - border padding and the box downscale;
  - the 4×4 block rearrangement.
- **Decoding** (`png.dfy`, `decode_filter.dfy`):
  - `png::decode` over an abstract libspng;
  - the decoding stage with its per-level processing.
- **DDS** (`dds_image.dfy`, `dds.dfy`, `rgbcx.dfy`, `byte_order.dfy`, `filter_common.dfy`, `filter_encode_dds.dfy`, `filter_save_dds.dfy`):
  - the header and block layout;
  - BC7 chunking and BC1 quality factors in three generations;
  - format selection by alpha;
  - the bytes of the saved file.
- **Small tables** (`formats.dfy`, `filters.dfy`, `strings.dfy`, `report.dfy`, `wrappers.dfy`):
  - formats, filters and their names;
  - ASCII case copies;
  - progress reports.
- **Python tools** (`py_text.dfy`, `comparedds.dfy`, `flatten.dfy`):
  - the str and os.path operations the scripts rely on;
  - the scripts' own logic.

Object state that the source updates in place appears as classes with `modifies` clauses:
- the decoding, encoding and saving stages;
- the file-retrieval state;
- mipmap, pixel-block and DDS images.

Buffer algorithms keep their arrays and loops, proved against specification functions on
`seq`. Pure code appears as functions and lemmas.

## Model

| member | source | states |
|---|---|---|
| Util.NextDivisibleBy4 | src/util/include/png2dds/util.hpp:11-16 | the result is divisible by 4; for inputs up to SIZE_MAX−3 it lies in [value, value+3] and is the least multiple of 4 not below value; multiples of 4 are fixed points |
| Util.NextDivisibleBy4Idempotent | src/util/include/todds/util.hpp:16 | applying the rounding twice gives the same result as once |
| Util.NextDivisibleBy4Monotone | src/util/include/png2dds/util.hpp:16 | a ≤ b ≤ SIZE_MAX−3 implies f(a) ≤ f(b) |
| Util.NextDivisibleBy4AsWritten | src/util/include/png2dds/util.hpp:16 | the expression with the 32-bit mask `~0b11U`: every result is a multiple of 4 below 2^32, and it is within [value, value+3] only for values up to 2^32−4 |
| Util.AsWrittenAgreesBelow32Bits | src/util/include/todds/util.hpp:16 | below 2^32−3 the expression as written and the 64-bit rounding agree |
| Util.AsWrittenTruncatesAt2To32 | src/util/include/png2dds/util.hpp:16 | at value 2^32 the expression as written yields 0, the intended rounding yields 2^32 |
| Strings.UpperChar | src/util/string.cpp:13 | toupper of one character under the classic locale's ASCII mapping: no ASCII lower-case letter results, non-letters and upper-case letters are kept, a lower-case letter moves down by 32 |
| Strings.LowerChar | src/util/string.cpp:19 | tolower of one character under the classic locale's ASCII mapping, symmetric to UpperChar |
| Strings.Upper | src/util/string.cpp:11-15 | the character-wise upper-case copy keeps the length |
| Strings.Lower | src/util/string.cpp:17-21 | the character-wise lower-case copy keeps the length |
| Strings.UpperIdempotent | src/util/string.cpp:11-15 | the upper-case copy of an upper-case copy is unchanged |
| Strings.LowerIdempotent | src/util/string.cpp:17-21 | the lower-case copy of a lower-case copy is unchanged |
| Strings.UpperOfConcat | src/util/string.cpp:13 | upper-casing works character by character, so it distributes over concatenation |
| Strings.LowerOfConcat | src/util/string.cpp:19 | lower-casing distributes over concatenation |
| Strings.ToUpperCopy | src/util/string.cpp:11-15 | the loop over a copy: same length, no ASCII lower-case letter left, every character that is not a lower-case letter unchanged, every lower-case letter replaced by its upper-case form; equal to Upper |
| Strings.ToLowerCopy | src/util/string.cpp:17-21 | the loop over a copy: same length, no ASCII upper-case letter left, other characters unchanged, upper-case letters lowered; equal to Lower |
| Report.OfType | src/report/report.cpp:9-12 | `report(type)`: the getters (report.cpp:24-28) give the type, empty data and value 0 |
| Report.WithData | src/report/report.cpp:14-17 | `report(type, data)`: the getters give the type, the data and value 0 |
| Report.WithValue | src/report/report.cpp:19-22 | `report(type, value)`: the getters give the type, empty data and the value |
| Png2ddsFormat.Name | src/format/include/png2dds/format.hpp:14-22 | every name is non-empty and equal to its own upper-case form, so the parser's upper-cased comparison can match it |
| Png2ddsFormat.MaxLevel | src/format/include/png2dds/format.hpp:24-32 | 18 for bc1, 6 for bc7 and bc1_alpha_bc7 |
| Png2ddsFormat.NamesDistinct | src/format/include/png2dds/format.hpp:17-19 | different formats have different names |
| ToddsFormat.QualityValue | src/format/include/todds/format.hpp:15-26 | every quality value lies in 0..7 |
| ToddsFormat.MinimumAndMaximum | src/format/include/todds/format.hpp:16-25 | minimum is 0 and maximum is 7, and every quality lies between them |
| ToddsFormat.QualityValuesAreABijection | src/format/include/todds/format.hpp:15-26 | each value 0..7 is taken by some quality, and no two enumerators share a value (the aliases minimum/maximum are the same enumerators as ultra_fast/slowest) |
| ToddsFormat.Name | src/format/include/todds/format.hpp:28-37 | the name is empty exactly for the invalid type |
| ToddsFormat.NamesDistinct | src/format/include/todds/format.hpp:31-33 | different formats have different names |
| ToddsFilter.Value | src/format/include/todds/filter.hpp:15-21 | the enumerator values lie in 0..4 |
| ToddsFilter.Name | src/format/include/todds/filter.hpp:23-33 | every filter has a non-empty name |
| ToddsFilter.Description | src/format/include/todds/filter.hpp:35-51 | every filter has a non-empty description |
| ToddsFilter.ValuesAndNamesDistinct | src/format/include/todds/filter.hpp:15-33 | different filters have different values and different names |
| Rgbcx.AddFlag | src/dds/rgbcx_todds.hpp:77 | or-ing one flag into the flag word adds exactly that flag and keeps the search-round count |
| Rgbcx.With3Color | thirdparty/bc7enc_rdo/rgbcx/rgbcx_todds.h:37-38 | or-ing both 3-color flags adds exactly those two flags |
| ToddsRgbcx.QualityFlags | src/dds/rgbcx_todds.hpp:16-33 | every level has TwoLeastSquaresPasses and neither 3-color flag; levels 3 and 4 share one set; every level outside 1..5, including 0, gets the iterative level-6 set |
| ToddsRgbcx.QualityTotalOrderings4 | src/dds/rgbcx_todds.hpp:35-46 | the count lies in [1, MAX_TOTAL_ORDERINGS4], and is the maximum for every level outside 1..5 |
| ToddsRgbcx.QualityTotalOrderings3 | src/dds/rgbcx_todds.hpp:48-59 | the count lies in [1, 32], and is 32 for every level outside 1..3 |
| ToddsRgbcx.OrderingsMonotone | src/dds/rgbcx_todds.hpp:35-59 | over levels 1..7 both ordering counts never decrease with the level |
| ToddsRgbcx.FromQualityLevel | src/dds/rgbcx_todds.hpp:68-82 | Use3ColorBlocks is set iff level > 1, Use3ColorBlocksForBlackPixels iff level > 1 and alpha_black; all other flags, the search rounds and both orderings are those of the three table functions |
| ToddsRgbcx.Levels6And7Agree | src/dds/rgbcx_todds.hpp:27-28 | levels 6 and 7 give identical factors for either alpha_black |
| ToddsRgbcx.LevelZeroIsSlowestWithout3Color | src/dds/rgbcx_todds.hpp:26-31 | level 0 falls to the default case: the slowest options and orderings, but without any 3-color flag |
| RgbcxTodds.FromQualityLevel | thirdparty/bc7enc_rdo/rgbcx/rgbcx_todds.h:23-81 | defined for levels 1..7 only (any other level hits the assert); level 1 is TwoLeastSquaresPasses with both orderings 1; every level ≥ 2 has both 3-color flags |
| RgbcxTodds.Levels6And7Agree | thirdparty/bc7enc_rdo/rgbcx/rgbcx_todds.h:62-71 | levels 6 and 7 give identical factors |
| RgbcxPng2dds.FromQualityLevel | thirdparty/bc7enc_rdo/rgbcx/rgbcx_png2dds.h:22-79 | defined for levels 3, 6, …, 18 only; levels 3 and 6 keep both orderings at 1; level 18 uses MAX_TOTAL_ORDERINGS4 and 32 |
| RgbcxGenerations.ComputedEqualsFixedTable | thirdparty/bc7enc_rdo/rgbcx/rgbcx_todds.h:23-81 | for every level 1..7 the fixed table gives exactly what rgbcx_todds.hpp computes with alpha_black set |
| RgbcxGenerations.Png2ddsLevelsAreTriples | thirdparty/bc7enc_rdo/rgbcx/rgbcx_png2dds.h:29-70 | level 3k of the png2dds table equals level k of the todds table, for k = 1..6 |
| Arguments.OptionalArgument | src/arguments/arguments.cpp:32-34 | the short form is the two characters [1, 3) of the long name, so `--level` gives `-l` |
| Arguments.MaxLength | src/arguments/arguments.cpp:71-79 | `max_element` by length: no name is longer than the result, and some name has exactly that length |
| Arguments.MaxArgumentSize | src/arguments/arguments.cpp:71-79 | over the names the source lists, the longest is 11 characters (`--overwrite`) |
| Arguments.PrintArgumentImplLayout | src/arguments/arguments.cpp:80-88 | a help line pads the name with spaces up to the argument column (longest name + 2) and ends in a newline |
| Arguments.Defaults | src/arguments/arguments.cpp:174-179 | before parsing: no error, no text, format bc7, threads = default concurrency, depth = SIZE_MAX |
| Arguments.FormatFromStr | src/arguments/arguments.cpp:136-146 | the upper-cased argument "BC1" or "BC7" sets that format and nothing else; any other value, "" included, sets error and the "Unsupported format" text |
| Arguments.ArgumentFromStr | src/arguments/arguments.cpp:148-156 | a number that `from_chars` accepts is stored and leaves the rest alone; invalid_argument or result_out_of_range keeps the old value and sets error with the "must be a positive number" text |
| Arguments.Clamp | src/arguments/arguments.cpp:212 | `std::clamp`: the result lies in [lo, hi], is v inside the range and the nearer bound outside it |
| Arguments.Classify | src/arguments/arguments.cpp:186-237 | an argument not starting with `-` ends option parsing, exactly `--` ends it after being skipped, and `--help`/`-h` is the help option |
| Arguments.NextArgument | src/arguments/arguments.cpp:201 | the argument after the current one, or "" when there is none |
| Arguments.OptionStep | src/arguments/arguments.cpp:200-239 | one pass of the loop body over an option always advances the index |
| Arguments.ParseOption | src/arguments/arguments.cpp:200-239 | the imperative loop body (the field updates of `parsed_arguments`) gives exactly the state OptionStep describes |
| Arguments.ApplyLevel | src/arguments/arguments.cpp:242-251 | the level check as statements equals its functional description: an unset level becomes max_level(format), a larger set level is an error, and nothing happens after an earlier error |
| Arguments.ApplyPositional | src/arguments/arguments.cpp:253-271 | the positional step as statements equals its functional description |
| Arguments.Get | src/arguments/arguments.cpp:173-274 | the whole `get(vector)` with its while loop computes ParsedArguments, on which the lemmas below state the behaviour |
| Arguments.ShortForms | src/arguments/arguments.cpp:40-62 | the short forms are -f, -l, -d, -o, -t, -r, -v, -h, and the explicit -th and -vf |
| Arguments.HelpIsNotEmpty | src/arguments/arguments.cpp:105-134 | the help text is never empty |
| Arguments.HelpWithoutArguments | src/arguments/arguments.cpp:264-266 | with only the program name the result carries the help text and no error |
| Arguments.HelpArgument | src/arguments/arguments.cpp:196-199 | `--help` or `-h` as the first argument gives the help text without error, whatever follows |
| Arguments.StopAtHelp | src/arguments/arguments.cpp:196-199 | reaching the help option stores the help text and stops the loop |
| Arguments.HelpIsHelpOption | src/arguments/arguments.cpp:36-38 | `matches` accepts both forms of the help option |
| Arguments.OptionsEndAtFirstNonOption | src/arguments/arguments.cpp:189 | a first argument not starting with `-` ends option parsing: it becomes the input and everything after it is positional |
| Arguments.DoubleDashAlone | src/arguments/arguments.cpp:190-194 | `--` alone ends options, and since no input follows the result is the "has not been provided" error |
| Arguments.DoubleDashEndsOptions | src/arguments/arguments.cpp:190-194 | the argument after `--` is the input even when it starts with `-`, e.g. a later `--overwrite` becomes the output and overwrite stays false |
| Arguments.UnknownOptionIsError | src/arguments/arguments.cpp:234-236 | an unrecognised dash argument sets error with the "Invalid positional argument" text, and that text is final |
| Arguments.DigitMatchesNoOption | src/arguments/arguments.cpp:198-234 | an argument whose second character is a digit is neither a long name continuing with a dash nor a short form continuing with a letter |
| Arguments.NegativeNumberIsNotAnOption | src/arguments/arguments.cpp:189-236 | every argument of a dash followed by a digit, such as a negative number, is an unknown option rather than a value |
| Arguments.ErrorIsFinal | src/arguments/arguments.cpp:186 | once error is set with a message, the loop makes no further step and the level and positional stages leave the message unchanged |
| Arguments.ClassifyFormat | src/arguments/arguments.cpp:202 | both forms of `--format` are recognised |
| Arguments.ClassifyLevel | src/arguments/arguments.cpp:205 | both forms of `--level` are recognised |
| Arguments.ClassifyThreads | src/arguments/arguments.cpp:209 | both `--threads` and `-th` are recognised |
| Arguments.ClassifyDepth | src/arguments/arguments.cpp:213 | both forms of `--depth` are recognised |
| Arguments.ClassifyOverwrite | src/arguments/arguments.cpp:226 | both forms of `--overwrite` are recognised |
| Arguments.ValueOptionThenInput | src/arguments/arguments.cpp:201-239 | an option taking a value consumes the next argument, and the argument after it is where positional parsing starts |
| Arguments.FormatOptionValue | src/arguments/arguments.cpp:202-204 | `--format bc1 input` gives bc1 with level 18, `bc7` gives bc7 with level 6 (case-insensitive), any other value is the "Unsupported format" error |
| Arguments.MissingFormatValue | src/arguments/arguments.cpp:201-204 | `--format` as the last argument is read with an empty value, which is the "Unsupported format: " error |
| Arguments.LevelOptionValue | src/arguments/arguments.cpp:205-208 | with the bc7 default, a level up to 6 is kept, a larger one is the "Unsupported encode quality level" error, and a non-number is the "must be a positive number" error |
| Arguments.ThreadsOptionValue | src/arguments/arguments.cpp:209-212 | threads is the parsed number clamped to [1, max_threads], or the "must be a positive number" error |
| Arguments.DepthOptionValue | src/arguments/arguments.cpp:213-216 | depth 0 becomes SIZE_MAX, another number is kept, a non-number is an error |
| Arguments.OptionWithoutInput | src/arguments/arguments.cpp:267-270 | options without an input give error and "input has not been provided" |
| FromChars.DigitCount | src/arguments/arguments.cpp:151 | the length of the leading run of decimal digits that `from_chars` consumes |
| FromChars.Parse | src/arguments/arguments.cpp:151-152 | `from_chars` on an unsigned integer: invalid_argument iff there is no leading digit (empty, `-` or another character), out of range iff the digits' value exceeds the type's maximum, otherwise the value of the leading digits (trailing text is ignored) |
| FromChars.ValueOfDecimal | src/arguments/arguments.cpp:151 | the decimal text of n consists of digits whose value reads back as n |
| FromChars.DigitCountOfDigitsThen | src/arguments/arguments.cpp:151 | digits followed by a non-digit are read up to that non-digit |
| FromChars.RoundTrip | src/arguments/arguments.cpp:151 | parsing the decimal text of n ≤ max, followed by anything that is not a digit, gives n back |
| Decimal.ToDecimal | src/arguments/arguments.cpp:249 | the `{:d}` formatting of a number is a non-empty string of decimal digits |
| Decimal.ToDecimalLength | src/arguments/arguments.cpp:249 | the text is one digit long exactly for numbers below 10 |
| Decimal.ToDecimalInjective | tools/flatten.py:51 | different numbers have different decimal texts, which is what keeps flatten's candidate names apart |
| Paths.NativeEnds | src/task/file_retrieval.cpp:67 | the native text of a path ends with its last component, preceded by a separator when there is a parent |
| Paths.FromString | src/task/file_retrieval.cpp:209 | constructing a path from text gives a non-empty, valid component list |
| Paths.NativeFromString | src/task/file_retrieval.cpp:209 | the native text of a path built from a string is that string |
| Paths.FromStringNative | src/task/file_retrieval.cpp:67 | a valid path is rebuilt exactly from its native text |
| Paths.FromStringJoin | src/task/file_retrieval.cpp:171 | appending a separator and a component to the text appends that component to the path |
| Paths.LastSeparatorOfJoin | src/task/file_retrieval.cpp:171 | after such an append the last separator is the one just added |
| Paths.LastIndexOf | src/task/file_retrieval.cpp:66 | the position of the last occurrence of a character, or none when it does not occur |
| Paths.FileName | src/task/file_retrieval.cpp:171 | the file name is the last component |
| Paths.ParentPath | src/task/file_retrieval.cpp:117 | `parent_path` followed by the file name is the path again; the empty path is its own parent |
| Paths.Extension | src/task/file_retrieval.cpp:66 | a non-empty extension starts with the file name's last dot, is a suffix of the file name and holds no other dot |
| Paths.Stem | src/task/file_retrieval.cpp:171 | the stem followed by the extension is the file name |
| Paths.ReplaceExtension | src/task/task.cpp:31-32 | `replace_extension` keeps the parent and gives the stem followed by the new extension |
| Paths.ExtensionView | src/task/file_retrieval.cpp:65-71 | a non-empty view exists only when the path has an extension and more than 4 characters, and is then the last 4 characters of the native text; a bare ".png" gives the empty view |
| Paths.InsensitiveEquals | src/task/file_retrieval.cpp:51-63 | holds iff the lower-case form of lhs equals rhs, which covers equal lengths and each lowered character equal to the rhs character |
| Paths.ExtensionsAreLower | src/task/file_retrieval.cpp:42-49 | the .dds, .png and .txt constants are 4 lower-case characters starting with a dot |
| Paths.HasExtensionViewIff | src/task/file_retrieval.cpp:73-75 | `has_extension(p, ext)` holds iff the native text is longer than 4 characters and the lower-cased extension is ext |
| Paths.ExtensionIsViewed | src/task/file_retrieval.cpp:65-75 | the "if" half of HasExtensionViewIff |
| Paths.ViewedIsExtension | src/task/file_retrieval.cpp:65-75 | the "only if" half of HasExtensionViewIff |
| Paths.ViewInName | src/task/file_retrieval.cpp:65-75 | a matched view lies wholly inside the file name |
| Paths.NameExtension | src/task/file_retrieval.cpp:66 | a file name whose last 4 characters lower-case to the extension has exactly those as its extension |
| Paths.NameHoldsView | src/task/file_retrieval.cpp:68-70 | a matching 4-character view cannot reach past the file name into a separator |
| Paths.NoSeparatorInExtension | src/task/file_retrieval.cpp:42-49 | no character of a matched extension is a separator |
| Paths.LastFourIsExtension | src/task/file_retrieval.cpp:66 | in such a name the dot of the last 4 characters is the last dot |
| FileSystem.Find | src/task/file_retrieval.cpp:115 | an entry of a directory is found iff a child with that name exists, and it is that child's node |
| FileSystem.Lookup | src/task/file_retrieval.cpp:115 | the empty path names the root |
| FileSystem.LastWriteTime | src/task/file_retrieval.cpp:110 | `last_write_time` is defined exactly for existing paths |
| FileSystem.WalkDepthBounded | src/task/file_retrieval.cpp:164 | `recursive_directory_iterator` with `disable_recursion_pending` at the limit: every listed entry has a depth between the start and the limit, and lies that many levels below the directory |
| FileSystem.WalkListsChildren | src/task/task.cpp:41 | every direct child of the directory is listed |
| FileRetrieval.OutputExtension | src/task/file_retrieval.cpp:85 | ".png" for the png format, ".dds" otherwise, both lower-case |
| FileRetrieval.MakeSettings | src/task/file_retrieval.cpp:79-92 | the constructor stores its arguments and sets overwrite_new to overwrite_new && !overwrite |
| FileRetrieval.ShouldGenerate | src/task/file_retrieval.cpp:107-111 | false whenever input == output; otherwise true iff overwrite, a missing output, or (overwrite_new and an input newer than the output); never true where `last_write_time` of a missing input throws (GenerateThrows) |
| FileRetrieval.OutputFile | src/task/file_retrieval.cpp:171 | the output file is output_path / (stem + output extension) |
| FileRetrieval.ProcessFileResult | src/task/file_retrieval.cpp:169-175 | a pair is produced iff (previous_match or the criteria match) and should_generate; it is (input, output file); no pair when should_generate throws |
| FileRetrieval.OptionToSeq | src/task/file_retrieval.cpp:173 | at most one element, the produced pair |
| FileRetrieval.Relative | src/task/file_retrieval.cpp:150 | for a path below base, base followed by the relative part is the path |
| FileRetrieval.VisitOutput | src/task/file_retrieval.cpp:147-156 | without an output directory, a found file's output goes next to it |
| FileRetrieval.DirectoryFiles | src/task/file_retrieval.cpp:130-165 | a listing adds at most one pair per listed entry |
| FileRetrieval.Progress | src/task/file_retrieval.cpp:141 | one progress report per listed entry |
| FileRetrieval.DirectoryReports | src/task/file_retrieval.cpp:141-161 | at least one and at most two reports per listed entry, and exactly the progress reports when no entry's should_generate throws inside the try block |
| FileRetrieval.DirectoryFilesStep | src/task/file_retrieval.cpp:130-165 | the pairs and reports of a listing are those of its prefix followed by those of the next entry |
| FileRetrieval.InputStep | src/task/file_retrieval.cpp:114-121 | after a prefix that has not thrown, the pairs and reports of the inputs are those of the prefix followed by those of the next input, which throws iff that input does |
| FileRetrieval.CollectThrowsIff | src/task/file_retrieval.cpp:113-122 | the input loop throws exactly when one of its inputs throws, whatever each input's result |
| FileRetrieval.CollectStep | src/task/file_retrieval.cpp:114-121 | one more input after a prefix that has not thrown appends its own pairs and reports |
| FileRetrieval.CollectStops | src/task/file_retrieval.cpp:113-122 | once an input has thrown, later inputs add nothing |
| FileRetrieval.InputsThrowIff | src/task/file_retrieval.cpp:110-122 | process_user_input throws exactly when one of its inputs is a .png whose should_generate throws |
| FileRetrieval.ThrowingInputSendsNothing | src/task/file_retrieval.cpp:110-119 | an input that throws adds no pair and sends no "not a PNG" report |
| FileRetrieval.ThrowStops | src/task/file_retrieval.cpp:110-122 | at the first input that throws, the whole loop throws, with the pairs and reports of the inputs before it |
| FileRetrieval.MissingInputThrows | src/task/file_retrieval.cpp:107-119 | a missing user .png whose output exists, under overwrite_new without overwrite: get_paths throws and no "not a PNG" report is sent |
| FileRetrieval.FileRetrievalState.constructor | src/task/file_retrieval.cpp:79-92 | a state with the settings, the report queue and no files |
| FileRetrieval.FileRetrievalState.ProcessFile | src/task/file_retrieval.cpp:169-175 | returns whether it appended and whether it threw (exactly ProcessFileThrows), appends exactly ProcessFileResult and reports nothing |
| FileRetrieval.FileRetrievalState.ProcessVisit | src/task/file_retrieval.cpp:141-164 | one iteration: a progress report, and the pair of the entry when it has the .png extension, matched with the flag computed for the root directory; a throw of should_generate is caught and sends one pipeline error |
| FileRetrieval.FileRetrievalState.ProcessUserInputDirectory | src/task/file_retrieval.cpp:124-166 | appends the pairs of the depth-limited listing, in listing order, and its reports (DirectoryReports) |
| FileRetrieval.FileRetrievalState.ProcessListing | src/task/file_retrieval.cpp:130-165 | the iterator loop over a given listing, with the same effect |
| FileRetrieval.FileRetrievalState.ProcessInput | src/task/file_retrieval.cpp:115-120 | one input: a directory is walked; otherwise a rejected input yields one "is not a PNG file or a directory" error; it throws exactly when InputThrowsOne holds, and then adds nothing |
| FileRetrieval.FileRetrievalState.ProcessUserInput | src/task/file_retrieval.cpp:113-122 | appends the pairs and reports of the inputs in order, and throws exactly when InputsThrow holds, stopping at that input |
| FileRetrieval.FileRetrievalState.GetResult | src/task/file_retrieval.cpp:94-99 | returns every accumulated pair and leaves the internal list empty; when process_user_input throws, returns nothing and the swap is not reached |
| FileRetrieval.VisitFilesSelected | src/task/file_retrieval.cpp:145-158 | every pair found for an entry is a .png input paired with stem + extension that should be generated, placed in the entry's output directory |
| FileRetrieval.DirectoryFilesFromVisits | src/task/file_retrieval.cpp:130-165 | every pair of a listing comes from one listed entry |
| FileRetrieval.ListingBounded | src/task/file_retrieval.cpp:164 | traversal never goes below the configured depth: every entry lies at most depth + 1 levels below the directory |
| FileRetrieval.VisitPlacement | src/task/file_retrieval.cpp:147-156 | a pair found for such an entry is selected, below the directory, and its output directory is the output root extended by the relative directory (or the input's own directory) |
| FileRetrieval.DirectoryFilesPlacement | src/task/file_retrieval.cpp:124-166 | every pair a directory input produces is placed that way |
| FileRetrieval.NonDirectoryInput | src/task/file_retrieval.cpp:117-120 | a non-directory input that does not throw gives exactly one pair or exactly one pipeline_error report, and one that throws gives neither; the pair pairs the input with a file in its own directory |
| FileRetrieval.InputFilesSelected | src/task/file_retrieval.cpp:113-122 | every collected pair is selected |
| FileRetrieval.ListedInputs | src/task/file_retrieval.cpp:209 | the canonical path of every line, in order, or the throw of fs::canonical exactly when some line does not resolve |
| FileRetrieval.ReadList | src/task/file_retrieval.cpp:206-209 | the getline loop collects the canonical path of each line, and stops with the throw at the first line that does not resolve |
| FileRetrieval.FromArgs | src/task/file_retrieval.cpp:194-223 | a fresh state with no files and the settings of the arguments (for a text list, a copy of its lines; see "## Left out"), or the throw of a text list with an unresolvable line; either way the queue holds the argument reports |
| FileRetrieval.GetPaths | src/task/file_retrieval.cpp:227-230 | the pairs of all inputs, with the queue receiving the argument reports and then the input reports; no pairs when from_args throws (only the argument reports) or when process_user_input throws (the input reports sent before the throw) |
| FileRetrieval.TextListInputs | src/task/file_retrieval.cpp:198-212 | with a first input ending in .txt, the model's state holds a copy of the canonical lines as its inputs (the source keeps a reference to a destroyed local; see "## Left out"), no output is used, and one report each for extra inputs and for a given output; from_args throws exactly when some line does not resolve |
| FileRetrieval.MultipleInputsDropOutput | src/task/file_retrieval.cpp:214-219 | more than one input with an output: exactly one error report and the output is dropped |
| FileRetrieval.SingleInputKeepsOutput | src/task/file_retrieval.cpp:214-222 | a single input keeps the output and reports nothing |
| FileRetrieval.FromArgsFlags | src/task/file_retrieval.cpp:88-196 | create_folders = has_output && !dry_run && !clean, and overwrite_new is dropped under overwrite |
| PathOrder.LessStringIrreflexive | src/task/task.cpp:58 | the lexicographic order of `std::sort` on path text is irreflexive |
| PathOrder.LessStringTransitive | src/task/task.cpp:58 | and transitive |
| PathOrder.LessStringTotal | src/task/task.cpp:58 | and total |
| PathOrder.LessPathIrreflexive | src/task/task.cpp:58 | the component-wise path order is irreflexive |
| PathOrder.LessPathTransitive | src/task/task.cpp:58 | and transitive |
| PathOrder.LessPathTotal | src/task/task.cpp:58 | and total |
| PathOrder.LessPairIrreflexive | src/task/task.cpp:58 | the pair order (input first, then output) is irreflexive |
| PathOrder.LessPairTransitive | src/task/task.cpp:58 | and transitive |
| PathOrder.LessPairTotal | src/task/task.cpp:58 | and total, so it is a strict total order |
| PathOrder.StrictlySortedUnique | src/task/task.cpp:58-59 | two strictly sorted lists with the same elements are equal, so sort + unique has one result |
| PathOrder.LowerBound | src/task/task.cpp:58 | binary search: the first position whose element is not below x |
| PathOrder.InsertUnique | src/task/task.cpp:58-59 | inserting into a strictly sorted list keeps it strictly sorted and adds exactly x |
| PathOrder.SortUnique | src/task/task.cpp:58-59 | the result is strictly ascending (sorted, without duplicates) and holds exactly the elements of the input |
| Task.DdsPath | src/task/task.cpp:30-32 | the same directory, with the stem followed by ".dds" |
| Task.TryAddFile | src/task/task.cpp:25-35 | returns whether the path is a regular file with a lower-case ".png" extension; the pair with the .dds path is appended only if overwrite or the .dds does not exist, and the result is true either way |
| Task.ProcessDirectory | src/task/task.cpp:37-45 | appends the pairs of the depth-limited listing; a missing or non-directory root adds nothing |
| Task.AddListing | src/task/task.cpp:41-44 | the iterator loop appends the pairs of each listed entry in order |
| Task.Collect | src/task/task.cpp:52-55 | the input alone when try_add_file accepts it, otherwise the directory's pairs |
| Task.NewTask | src/task/task.cpp:51-72 | no pipeline iff nothing was collected; otherwise the pipeline gets the collected pairs strictly sorted without duplicates, threads × 4 tokens (wrapping like size_t), the level and the flip flag |
| Task.ListingPairsExactly | src/task/task.cpp:41-44 | a pair is found in a listing iff some listed entry converts to it |
| Task.CollectedAreConversions | src/task/task.cpp:26-33 | every collected pair is a .png (any case) paired with its .dds path, and the .dds is missing unless overwrite |
| Task.FileInputAlone | src/task/task.cpp:53 | an accepted file input is the only candidate |
| Task.NotDirectoryNorPngGivesNothing | src/task/task.cpp:39 | neither an accepted file nor a directory: nothing is collected |
| Task.DirectoryPairsWithinDepth | src/task/task.cpp:43 | recursion stops at the given depth: every collected file lies below the input, at most depth + 1 levels down |
| Task.ReachedPngIsCollected | src/task/task.cpp:41-42 | every listed .png whose .dds is missing is collected |
| Task.TokensPerThread | src/task/task.cpp:65 | without overflow the token count is threads × 4 |
| Image.PixelPosition | src/image/image.cpp:13-44 | the byte position of pixel (x, y) is 4·(x + y·width), and its 4 bytes end within width·height·4 |
| Image.PixelsDisjoint | src/image/image.cpp:40-44 | the 4-byte spans of two different pixels do not overlap |
| Image.Image.constructor | src/image/image.cpp:20-23 | width() and height() are the arguments rounded up to multiples of 4 (the padded grid, which row_start and get_pixel index), and the data starts as an empty span |
| Image.Image.SetData | src/image/image.cpp:29-32 | accepts only a span of exactly width·height·4 bytes (the assert) and stores it |
| Image.Image.RowStart | src/image/image.cpp:38 | with data set, the row starts at byte r·width·4 and the whole row lies within the data |
| Image.Image.RowInside | src/image/image.cpp:38 | a row of a valid index ends within width·height·4 bytes |
| Image.Image.PixelIndex | src/image/image.cpp:40-44 | with data set and (x, y) inside the image, the pixel's 4 bytes lie within the data |
| Image.Image.GetPixel | src/image/image.cpp:40-51 | `get_pixel(x, y)` is the 4 bytes starting at byte position (4x, y) |
| MipmapImage.Halve | src/image/mipmap_image.cpp:24-25 | a dimension > 1 is halved (rounding down) and shrinks; 1 or 0 stays |
| MipmapImage.Chain | src/image/mipmap_image.cpp:18-29 | the chain of raw dimensions starts with the requested ones |
| MipmapImage.Levels | src/image/mipmap_image.cpp:18-29 | at least one level, the first with the requested size; exactly one without mipmaps |
| MipmapImage.ChainHalves | src/image/mipmap_image.cpp:23-28 | a next level exists iff some dimension of the current one is > 1, and it halves every dimension > 1 |
| MipmapImage.ChainLength | src/image/mipmap_image.cpp:23-28 | for w, h ≥ 1 the chain has 1 + ⌊log2 max(w, h)⌋ levels |
| MipmapImage.OffsetAppend | src/image/mipmap_image.cpp:36-42 | adding a level does not move the spans of the earlier ones |
| MipmapImage.OffsetSameSizes | src/image/mipmap_image.cpp:51-58 | levels of the same sizes get the same offsets, as in the copy constructor |
| MipmapImage.OffsetsOrdered | src/image/mipmap_image.cpp:36-42 | a level's span ends before the next one starts: spans are consecutive in level order |
| MipmapImage.EmptyOffsets | src/image/mipmap_image.cpp:31 | with a total of 0 bytes every level has 0 bytes |
| MipmapImage.AppendLevel | src/image/mipmap_image.cpp:26 | appending a new padded level keeps the levels padded as their raw sizes and pairwise distinct objects |
| MipmapImage.MipmapImage.constructor | src/image/mipmap_image.cpp:11-45 | the levels are the padded sizes of the halving chain (one without mipmaps), each level's span starts where the previous ends, the buffer holds exactly 4·Σ width_i·height_i zeroed bytes, and with no pixels it stays empty and no spans are assigned |
| MipmapImage.MipmapImage.Copy | src/image/mipmap_image.cpp:47-60 | the copy constructor: same file index, level sizes and data_size, over a fresh zeroed buffer; the source bytes are not copied |
| MipmapImage.MipmapImage.MipmapCount | src/image/mipmap_image.cpp:64 | the number of levels |
| MipmapImage.MipmapImage.DataSize | src/image/mipmap_image.cpp:70 | the total of the levels' byte counts |
| MipmapImage.NoPixels | src/image/mipmap_image.cpp:31 | with an empty buffer every level keeps the empty span |
| MipmapImage.SpansDisjoint | src/image/mipmap_image.cpp:36-44 | the spans of two levels are disjoint and in level order, and every span lies within the buffer |
| MipmapLevels.Geometry | src/pipeline/filter_decode_png.cpp:45-55 | the pixel-grid view of each level: its offset, raw and padded sizes |
| MipmapLevels.ChainBounded | src/image/mipmap_image.cpp:23-28 | no level is larger than the first |
| MipmapLevels.ChainCount | src/image/mipmap_image.cpp:23 | the loop ends: at most 1 + w + h levels |
| MipmapLevels.LevelsCount | src/image/mipmap_image.cpp:18-29 | the number of levels fits in a size_t |
| MipmapLevels.LevelsHalving | src/image/mipmap_image.cpp:23-28 | for header-sized (32-bit) inputs the chain halves level by level |
| MipmapLevels.PaddedDimension | src/image/image.cpp:21-22 | padding never shrinks a dimension, and only a non-zero one grows |
| MipmapLevels.HalvedFits | src/resize/resize.cpp:12-13 | twice the halved dimension fits in the padded dimension |
| MipmapLevels.LevelBytes | src/image/mipmap_image.cpp:39 | a level's byte count is 4·width·height |
| MipmapLevels.GeometryStacked | src/image/mipmap_image.cpp:36-44 | the levels of a constructed mipmap image are valid grids stacked one after the other in its buffer |
| MipmapLevels.LevelsStacked | src/image/mipmap_image.cpp:36-44 | the same fact for the level list alone |
| MipmapLevels.LevelInside | src/image/mipmap_image.cpp:36-44 | each level lies within the buffer |
| MipmapLevels.LevelDownscalable | src/pipeline/filter_decode_png.cpp:50-53 | each level can be box-downscaled into the next without reading or writing outside the buffer |
| MipmapLevels.ChainBreaksAssert | src/resize/resize.cpp:12-13 | on the padded sizes that width() and height() report, the assert fails for the last two levels of every mipmap chain of two or more levels: both pad a halved dimension to 4, and 4 >> 1 is 2 |
| MipmapLevels.LastHalvingPadsTo4 | src/image/mipmap_image.cpp:23-28 | a dimension that the chain's last halving takes to 1 is 2 or 3, and both it and the 1 it becomes pad to 4 |
| PixelGrid.Level.End | src/image/image.cpp:13-15 | a level's bytes end at or after its start |
| PixelGrid.Level.At | src/image/image.cpp:40-44 | a pixel inside the padded level has its 4 bytes within the level |
| PixelGrid.Level.Index | src/image/image.cpp:40-44 | a channel byte of a pixel inside the padded level lies within the level |
| PixelGrid.Level.Column | src/image/image.cpp:13-15 | the column of a byte of the level lies within the padded width |
| PixelGrid.Level.Row | src/image/image.cpp:13-15 | the row of a byte lies within the padded height |
| PixelGrid.Level.Channel | src/image/image.cpp:13-15 | the channel of a byte is below 4 |
| PixelGrid.Compose | src/image/image.cpp:13-15 | every byte of a level is the byte of its own column, row and channel |
| PixelGrid.Decompose | src/image/image.cpp:13-15 | the byte position of (x, y, k) decomposes back into x, y and k, so positions are a bijection |
| PixelGrid.Disjoint | src/image/image.cpp:40-44 | two different pixels of a level occupy disjoint bytes |
| PixelGrid.LevelEquality | src/pipeline/filter_decode_png.cpp:16-43 | two buffers agreeing outside a level and on every pixel byte inside it are equal |
| PixelGrid.OtherPixelsKept | src/pipeline/filter_decode_png.cpp:27-28 | a copy into one pixel leaves every other byte, inside and outside the level, unchanged |
| Padding.Border | src/pipeline/filter_decode_png.cpp:23-36 | the coordinate clamped to the border: itself inside the image, size − 1 beyond it |
| Padding.Padded | src/pipeline/filter_decode_png.cpp:16-43 | the buffer after add_padding: same length, nothing outside the level changes |
| Padding.SourceByte | src/pipeline/filter_decode_png.cpp:25-36 | the byte each padded byte is copied from lies within the level |
| Padding.PaddedPixel | src/pipeline/filter_decode_png.cpp:22-42 | each padded pixel holds the pixel at the clamped coordinates (Border(x, width), Border(y, height)) |
| Padding.PaddedUnique | src/pipeline/filter_decode_png.cpp:16-43 | the pixel characterisation holds of Padded and no other buffer satisfies it |
| Padding.PaddingCases | src/pipeline/filter_decode_png.cpp:16-43 | pixels with x < width and y < height are unchanged; (x ≥ w, y < h) takes pixel (w−1, y); (x < w, y ≥ h) takes (x, h−1); (x ≥ w, y ≥ h) takes (w−1, h−1) |
| Padding.PaddedNoPadding | src/pipeline/filter_decode_png.cpp:22-33 | add_padding is a no-op when width == padded_width and height == padded_height |
| Padding.PaddedIdempotent | src/pipeline/filter_decode_png.cpp:16-43 | padding twice is padding once |
| Padding.CopyPixel | src/pipeline/filter_decode_png.cpp:27-39 | `std::copy` of the border pixel writes the 4 bytes of the target pixel and nothing else |
| Padding.ColumnStep | src/pipeline/filter_decode_png.cpp:26-29 | one copy extends the padded-columns invariant by one pixel |
| Padding.PadColumns | src/pipeline/filter_decode_png.cpp:22-31 | the column loop fills every padding column with the border pixel of its (clamped) row |
| Padding.RowStep | src/pipeline/filter_decode_png.cpp:37-40 | one copy extends the padded-rows invariant by one pixel |
| Padding.PadRows | src/pipeline/filter_decode_png.cpp:33-42 | the row loop fills every padding row with the border pixel of its (clamped) column |
| Padding.AddPadding | src/pipeline/filter_decode_png.cpp:16-43 | add_padding on the buffer in place yields exactly Padded of the old contents |
| Resize.Average | src/resize/resize.cpp:21-22 | ⌊(p + q + r + t) / 4⌋, which lies between the smallest and largest of the four, so the narrowing cast loses nothing |
| Resize.AssertedHalvesFit | src/resize/resize.cpp:12-13 | the asserted halving of the padded grids keeps every 2×2 source block of the padded destination, and so of its real pixels, inside the padded source |
| Resize.Downscaled | src/resize/resize.cpp:11-25 | the intended box filter: same length, only destination bytes change |
| Resize.DownscaledPixel | src/resize/resize.cpp:16-23 | each channel of a destination pixel is the mean of that channel over the 2×2 source block; padding pixels of the destination are left unchanged |
| Resize.DownscaledKeepsSource | src/resize/resize.cpp:11 | the source level (passed const) is not changed |
| Resize.DownscaledUniform | src/resize/resize.cpp:21 | a source of one colour gives a destination of the same colour |
| Resize.AveragePixel | src/resize/resize.cpp:20-22 | one destination pixel gets the four channel means and nothing else changes |
| Resize.ChannelAverage | src/resize/resize.cpp:21 | the mean read from the buffer is SourceAverage |
| Resize.DownscaleStep | src/resize/resize.cpp:20-23 | one pixel extends the downscaled-so-far invariant |
| Resize.SourceKept | src/resize/resize.cpp:17-18 | writes to the destination do not change the source means still to be read |
| Resize.BoxDownscale | src/resize/resize.cpp:11-25 | the corrected loop in place yields exactly Downscaled, the per-channel 2×2 mean |
| Resize.DownscaledAsWritten | src/resize/resize.cpp:16-23 | the buffer after the loop as written: only the first byte of each row of the padded destination grid can change |
| Resize.RowStartOf | src/resize/resize.cpp:19 | the only destination row start in padded row y is the byte at (0, y) |
| Resize.BoxDownscaleAsWritten | src/resize/resize.cpp:11-25 | under the assert on padded sizes, the loop as written runs over every padded destination row with bytes_per_row = 4 · padded width, pointers never advanced, and yields exactly DownscaledAsWritten: each padded row start holds ⌊(s0[0] + s0[1] + s1[0] + s1[1]) / 4⌋ of the two source rows, and every other byte is unchanged |
| Resize.RowSourceKept | src/resize/resize.cpp:17-18 | the row starts written so far do not change the source bytes read for row y |
| Resize.WriteRowStart | src/resize/resize.cpp:20-23 | the inner loop as written stores the same value bytes_per_row times into the row start and changes nothing else |
| Resize.RowStartsStep | src/resize/resize.cpp:16-24 | one row extends the as-written invariant |
| Resize.AsWrittenLeavesChannels | src/resize/resize.cpp:20-22 | an 8×8 source of grey 200 into a 4×4 destination, which meets the assert, leaves the green byte of the first destination pixel at 0 as written, while the box filter gives 200 |
| Resize.UnassertedReadsDestination | src/resize/resize.cpp:16-18 | without the assert, the two levels of a 2×2 image (both padded to 4×4) make the loop read source row 7, whose first byte lies inside the destination level |
| Png.FlipRow | src/png/png.cpp:97 | decoder row r goes to row r, or to height − 1 − r when flipping; always a row of the image |
| Png.FlipRowBijective | src/png/png.cpp:97 | the row mapping is its own inverse and injective, so a bijection on [0, height); flipped rows are mirror images |
| Png.RowStatus | src/png/png.cpp:98 | spng_decode_row refuses a row longer than the buffer width it is given (SPNG_EBUFSIZ) and otherwise reports the library's status |
| Png.RowFits | src/png/png.cpp:98 | a row starting at row_start lies within the first level |
| Png.WriteRow | src/png/png.cpp:98 | writing one decoded row changes nothing outside the level |
| Png.WriteRowBytes | src/png/png.cpp:98 | the row's bytes land from row_start(row) on and every other byte is kept |
| Png.RowsOrdered | src/png/png.cpp:98 | an earlier row ends before a later one starts |
| Png.WriteRowPixel | src/png/png.cpp:98 | after a row of width·4 bytes, the real pixels of that row hold its bytes and all other pixels are unchanged |
| Png.DecodeRows | src/png/png.cpp:94-100 | the do/while row loop changes nothing outside the first level |
| Png.FirstLevel | src/png/png.cpp:68-70 | the first level starts at 0 with the header's dimensions |
| Png.ReportedSize | src/png/png.cpp:44-67 | the width/height out-parameters are 0 until the header is read, then the header's 32-bit dimensions |
| Png.Zeros | src/image/mipmap_image.cpp:34 | the freshly allocated, zeroed buffer |
| Png.StatusIndependent | src/png/png.cpp:94-100 | the final row status does not depend on the buffer contents |
| Png.LibraryRowsFit | src/png/png.cpp:80-83 | once the size check passes, every row the library returns fits its row of the first level |
| Png.CopyInto | src/png/png.cpp:98 | the byte copy of one decoded row into the buffer, and nothing else |
| Png.DecodeRow | src/png/png.cpp:98 | spng_decode_row into the row: its status, and the row written exactly when it succeeds or ends the image |
| Png.Decode | src/png/png.cpp:42-131 | the out-parameters are the reported size; decode fails iff Outcome reports a failure (buffer, header, size, a decoded size above the first level's buffer, decode start, or a final row status other than end-of-image or the tolerated IDAT-stream error), and then with that failure; on success a fresh mipmap image whose first level holds the decoded rows (flipped as asked) and its border padding |
| Png.DecodeFirstLevel | src/png/png.cpp:75-128 | the part after allocation reports exactly Outcome, and on success leaves the padded decoded rows in the buffer |
| Png.DecodeChecked | src/png/png.cpp:90-128 | the row loop, the status check and the padding, once the checks have passed |
| Png.LoopOutcome | src/png/png.cpp:103-105 | decoding succeeds iff the loop's final status is SPNG_EOI or SPNG_EIDAT_STREAM |
| Png.FirstLevelInside | src/png/png.cpp:68-70 | the first level of the allocated image starts the buffer and has the padded width |
| Png.RowLoop | src/png/png.cpp:94-100 | the imperative do/while loop computes the function DecodeRows: the same buffer and final status |
| Png.RowContinues | src/png/png.cpp:94-100 | a row that succeeds is written at its (possibly flipped) row and the loop goes on |
| Png.RowDecoded | src/png/png.cpp:97-98 | writing decoded row j keeps the rows-decoded invariant |
| Png.SequentialRows | src/png/png.cpp:94-100 | for a plain row-by-row image the loop ends with end-of-image and every row holds its decoded bytes |
| Png.SequentialStep | src/png/png.cpp:94-100 | one step of that argument |
| Png.SequentialImage | src/png/png.cpp:94-128 | for such an image with passing checks decoding succeeds, and each pixel of the padded first level is the pixel of the (flipped) clamped row and column of the decoded image |
| Png.ExactSizeFits | src/png/png.cpp:80-92 | the exact RGBA size always fits the padded first level, and the loop's row width is then width·4 |
| Png.RowBytesFit | src/png/png.cpp:80 | the real pixel bytes never exceed the padded ones |
| DecodePngFilter.Step | src/pipeline/filter_decode_png.cpp:51-53 | the step for level k (downscale level k−1 into k, then pad k) changes only level k |
| DecodePngFilter.Remaining | src/pipeline/filter_decode_png.cpp:48-54 | the rest of the level loop from level k keeps the length |
| DecodePngFilter.Processed | src/pipeline/filter_decode_png.cpp:45-55 | the buffer after process_image keeps the length |
| DecodePngFilter.ProcessImage | src/pipeline/filter_decode_png.cpp:45-55 | process_image with the corrected box filter, in place, yields exactly Processed of the old buffer, and the image stays valid |
| DecodePngFilter.ProcessLevels | src/pipeline/filter_decode_png.cpp:45-55 | pads level 0, then for i = 1, 2, … in order downsamples level i−1 into level i with the corrected box filter and pads level i, in place, yielding Processed |
| DecodePngFilter.RemainingKeeps | src/pipeline/filter_decode_png.cpp:48-54 | bytes outside the remaining levels are not touched |
| DecodePngFilter.SourceAverageKept | src/pipeline/filter_decode_png.cpp:51 | a downscale reads only its source level |
| DecodePngFilter.RemainingPixel | src/pipeline/filter_decode_png.cpp:51-53 | with the corrected box filter, each pixel of a processed level is the 2×2 mean of the previous processed level at its clamped coordinates |
| DecodePngFilter.ProcessedUnique | src/pipeline/filter_decode_png.cpp:45-55 | with the corrected box filter, the result is the only buffer where nothing outside the levels changes, level 0 is the padded decoding, and each level i ≥ 1 is the padded 2×2 mean of level i−1 |
| DecodePngFilter.LevelAgrees | src/pipeline/filter_decode_png.cpp:45-55 | two buffers meeting that description agree on every level |
| DecodePngFilter.DecodedThenProcessed | src/png/png.cpp:107-128 | png::decode already pads level 0 and process_image pads it again, which changes nothing |
| DecodePngFilter.DecodePng.constructor | src/pipeline/filter_decode_png.cpp:63-69 | the stage stores its files data, paths, flags and error queue |
| DecodePngFilter.DecodePng.Apply | src/pipeline/filter_decode_png.cpp:71-90 | an empty buffer returns the error image and touches neither files_data nor the error queue; otherwise the file's entry gets the reported width and height, and on success its mipmaps count; a runtime_error pushes exactly one message and the result keeps error_file_index; on success the result has the file's index, the chain's level count and the decoded buffer processed with the corrected box filter; no other entry changes |
| DecodePngFilter.DecodePng.DecodeFile | src/pipeline/filter_decode_png.cpp:76-86 | the try block for a non-empty buffer, with the same effects |
| DecodePngFilter.DecodePng.Finish | src/pipeline/filter_decode_png.cpp:80-86 | records the size and, for a decoded image, its level count; a failure queues one message and keeps the error image |
| DecodePngFilter.DecodeImage | src/pipeline/filter_decode_png.cpp:80-83 | png::decode followed by process_image with the corrected box filter: fails exactly as Outcome says, and on success gives a fresh image holding the processed decoding |
| DecodePngFilter.ErrorImage | src/pipeline/filter_decode_png.cpp:72 | `mipmap_image{error_file_index, 0, 0, false}`: error index, one level, no bytes |
| DecodePngFilter.ProcessDecoded | src/pipeline/filter_decode_png.cpp:83 | process_image, with the corrected box filter, on the decoded image keeps it valid and leaves the processed decoding |
| DecodePngFilter.DecodedLevels | src/pipeline/filter_decode_png.cpp:80-83 | the levels of a decoded image halve, fit in 32 bits and are laid out in its buffer |
| DecodePngFilter.EmptyImage | src/image/mipmap_image.cpp:31 | a 0×0 image without mipmaps has one level and no bytes |
| DecodePngFilter.DecodedRows | src/png/png.cpp:94-100 | the buffer of the given length after the row loop into a zeroed buffer keeps that length |
| BlockLayout.SourcePixelAtCursor | src/image/pixel_block_image.cpp:35-40 | the c-th entry copied for row oy of block (xb, yb) is pixel (4·xb + c, 4·yb + oy) |
| BlockLayout.CursorSteps | src/image/pixel_block_image.cpp:30-40 | each row copy advances the pointer by 4, a block by 16, a block row by 4·w, and the whole level ends at w·h |
| BlockLayout.CursorBounded | src/image/pixel_block_image.cpp:36-38 | every copied entry stays inside the w·h buffer |
| BlockLayout.Decompose | src/image/pixel_block_image.cpp:29-43 | every position of the buffer is written at exactly one block, row and column by the loop nest |
| BlockLayout.SourcePixelInverse | src/image/pixel_block_image.cpp:29-43 | each position holds a pixel of the image and BlockIndex sends that pixel back to the position |
| BlockLayout.BlockIndexInverse | src/image/pixel_block_image.cpp:29-43 | each pixel is placed inside the buffer and SourcePixel reads it back: the layout is a bijection |
| PixelBlocks.PackBytes | src/image/pixel_block_image.cpp:25-40 | the four RGBA bytes copied through the byte pointer are the four bytes of the uint32 entry, lowest first |
| PixelBlocks.CopiedAt | src/image/image_types.cpp:22-35 | every entry of a copied level holds the pixel the layout assigns to it |
| PixelBlocks.SegmentPosition | src/image/image_types.cpp:27-31 | get_pixel of (4·xb, 4·yb + oy) and its end 16 bytes later lie inside the level |
| PixelBlocks.ExtendCopied | src/image/image_types.cpp:32 | copying one row of a block extends the copied prefix by 4 entries |
| PixelBlocks.CopiedFrame | src/image/image_types.cpp:32 | a copy elsewhere keeps what is already copied |
| PixelBlocks.CopySegment | src/image/image_types.cpp:32 | std::copy of 16 bytes fills 4 entries with the 4 pixels and changes nothing else |
| PixelBlocks.CopyBlock | src/image/image_types.cpp:26-33 | the four rows of one block are copied, and only its 16 entries change |
| PixelBlocks.CopyBlockRow | src/image/image_types.cpp:24-34 | a block row is copied, and only its entries change |
| PixelBlocks.CopyLevel | src/image/image_types.cpp:19-35 | the whole level is copied in block layout, and only its w·h entries change |
| PixelBlocks.PixelPlaced | src/image/image_types.cpp:19-35 | pixel (x, y) of the level is the entry at BlockIndex(x, y) |
| PixelBlocks.OffsetIsFourPixels | src/image/mipmap_image.cpp:23-45 | a level's byte offset is 4 times its pixel offset |
| PixelBlocks.PixelsOrdered | src/image/mipmap_image.cpp:23-45 | pixel ranges of the levels follow one another |
| PixelBlocks.LevelInside | src/image/image_types.cpp:17-18 | each level's pixels fit both the byte and the block buffer |
| PixelBlocks.EarlierLevelsKept | src/image/image_types.cpp:17-36 | copying level k keeps levels 0..k−1 and adds level k |
| PixelBlocks.ToPixelBlocks | src/image/image_types.cpp:12-39 | a fresh buffer of data_size() entries holding every level in block layout, one after the other, and zeros after the last level |
| PixelBlocks.CopyMipmapLevel | src/image/image_types.cpp:18-35 | one iteration of the level loop extends the copied levels by one and keeps the tail zero |
| PixelBlocks.PixelBlockImage.constructor | src/image/pixel_block_image.cpp:14-45 | width and height in blocks, padded_width·padded_height entries, the image's size and file index kept, and every block holding its 4×4 pixels |
| PixelBlocks.PixelBlockImage.GetBlock | src/image/pixel_block_image.cpp:57-61 | get_block returns 16 entries |
| PixelBlocks.PixelBlockImage.BlockInside | src/image/pixel_block_image.cpp:58-60 | the span of block (x, y) lies inside the buffer |
| PixelBlocks.PixelBlockImage.BlockHoldsPixels | src/image/pixel_block_image.cpp:29-61 | row oy, column c of get_block(x, y) is pixel (4x + c, 4y + oy) of the source image |
| PixelBlocks.PixelBlockImage.EntryOfBlock | src/image/pixel_block_image.cpp:58-60 | entry 4·oy + c of the span is buffer entry index + 4·oy + c |
| PixelBlocks.PixelBlockImage.EntryPosition | src/image/pixel_block_image.cpp:29-59 | get_block's index agrees with where the construction loop put the block |
| DdsImage.FormatBlockSize | src/image/dds_image.cpp:14-22 | one 64-bit word per bc1 block, two per bc7 block |
| DdsImage.Ascii | src/image/dds_image.cpp:27-28 | ASCII characters are byte values |
| DdsImage.FourCCInFile | src/image/dds_image.cpp:24-32 | the FourCC written in the file reads "DXT1" for bc1 and "DX10" for bc7 |
| DdsImage.DescriptionWords | src/image/dds_image.cpp:35-48 | the 124-byte surface description as its 31 uint32 members |
| DdsImage.GetHeader | src/image/dds_image.cpp:50-61 | a 144-byte header: the surface description followed by bytes get_header leaves as they were |
| DdsImage.FieldOfHeader | src/image/dds_image.cpp:50-61 | each uint32 of the description reads back from its place in the header |
| DdsImage.HeaderFields | src/image/dds_image.cpp:35-58 | dwSize 124, flags caps/height/width/pixel format/linear size, height, width and linear size truncated to 32 bits, pixel format size 32, flag FOURCC, the format's FourCC, RGB bit count 0, caps TEXTURE |
| DdsImage.DdsImage.Empty | src/image/dds_image.cpp:67-74 | the default constructor: block offset 1, 0×0, no blocks, a zero header, index SIZE_MAX, format bc1 |
| DdsImage.DdsImage.constructor | src/image/dds_image.cpp:76-83 | block offset of the format, the size in blocks, width·height·offset zero words, the header for the image's real size and a linear size of 8 bytes per word, and the image's file index and format |
| DdsImage.DdsImage.Block | src/image/dds_image.cpp:91-93 | the words of block (x, y) lie inside the buffer |
| DdsImage.DdsImage.BlockInside | src/image/dds_image.cpp:91-93 | (x + y·width)·offset + offset is at most the buffer size |
| DdsImage.DdsImage.BlocksDisjoint | src/image/dds_image.cpp:91-93 | distinct blocks occupy disjoint words |
| Dds.Bc7EncodeParams | src/dds/dds.cpp:24-39 | levels 0 to 5 pick the presets from ultrafast to veryslow, level 6 and every larger level the slowest |
| Dds.Bc7ParamsOrdered | src/dds/dds.cpp:28-37 | a higher level never picks a faster preset, and levels 0 to 6 pick seven different presets |
| Dds.ChunksFromPartition | src/dds/dds.cpp:45-47 | the chunks of a block row from x on start at x, end at the row's width, are consecutive, start at multiples of 64 and hold 1 to 64 blocks |
| Dds.ChunksCover | src/dds/dds.cpp:45-47 | every block of a row is in exactly one chunk |
| Dds.ChunkStart | src/dds/dds.cpp:45-47 | chunk i exists iff 64·i is below the width, and is (64·i, min(64, width − 64·i)) |
| Dds.FromStart | src/dds/dds.cpp:45-47 | the same for the chunks from any start |
| Dds.CompressBlocks | src/dds/dds.cpp:50-51 | bc7e_compress_blocks writes the two words of each block in the chunk and nothing else |
| Dds.DoneKept | src/dds/dds.cpp:44-53 | encoding later blocks keeps the words of earlier ones |
| Dds.ChunkPlace | src/dds/dds.cpp:48-49 | dds_img.block(x, y) and get_block(x, y) point at the same block number 2·(x + y·width) and 16·(x + y·width), and a chunk from there fits both buffers |
| Dds.Bc7Encode | src/dds/dds.cpp:41-56 | a fresh valid bc7 image of the pixel-block image's size, index and header, in which every block's two words are the encoder's output on its 16 pixels |
| Dds.EncodeRow | src/dds/dds.cpp:45-52 | one block row of chunks encodes every block of that row and keeps the earlier rows |
| Dds.EncodesGetBlock | src/dds/dds.cpp:48-51 | the words at dds_img.block(x, y) are the encoding of get_block(x, y) |
| Dds.BlockAt | src/image/pixel_block_image.cpp:57-61 | the 16 pixels of block number b |
| Dds.Bc1Encode | src/pipeline/filter_encode_dds.cpp:22-68 | a fresh valid bc1 image of the pixel-block image's size, index and header whose word b is the rgbcx encoding of block b at the quality level |
| EncodeDdsFilter.ScanBelowOpaque | src/pipeline/filter_encode_dds.cpp:47-54 | the early-return loop finds a pixel whose channel byte k is below 255 iff there is one |
| EncodeDdsFilter.HasAlphaAsWritten | src/pipeline/filter_encode_dds.cpp:47-54 | has_alpha as written: true iff some pixel has `pixel % 256` below 255 |
| EncodeDdsFilter.HasAlpha | src/pipeline/filter_encode_dds.cpp:46-54 | true iff some pixel has an alpha byte below 255, and false for an empty image |
| EncodeDdsFilter.ChannelsOfPixel | src/pipeline/filter_encode_dds.cpp:49-50 | in a pixel read from RGBA bytes, `% 256` is red and byte 3 is alpha |
| EncodeDdsFilter.RedTestedForAlpha | src/pipeline/filter_encode_dds.cpp:50 | an opaque black pixel counts as transparent and a fully transparent white pixel as opaque under the test as written |
| EncodeDdsFilter.EncodeDdsFilterStage | src/pipeline/filter_encode_dds.cpp:78-93 | each format gets its own stage, holding the quality level and, for bc7 and bc1_alpha_bc7, the BC7 preset of that level |
| EncodeDdsFilter.RecordedFormats | src/pipeline/filter_encode_dds.cpp:21-65 | with the corrected alpha test, the recorded format is never bc1_alpha_bc7; bc1 and bc7 record themselves, and bc1_alpha_bc7 records bc7 iff some pixel is partly transparent |
| EncodeDdsFilter.EncodeDds.constructor | src/pipeline/filter_encode_dds.cpp:16-61 | the stage keeps the files' entries, the stage of the format and the two block encoders |
| EncodeDdsFilter.EncodeDds.Apply | src/pipeline/filter_encode_dds.cpp:20-70 | only the image's entry changes, and only its format, to the stage's format (for bc1_alpha_bc7 chosen with the corrected alpha test); the result has the same file index and is a fresh image in that format, with bc1 words the rgbcx encoding of each block or bc7 words the BC7 encoding of each block |
| ByteOrder.ValueOfLittleEndian | src/pipeline/filter_save_dds.cpp:45-48 | n little-endian bytes of v read back as v mod 256ⁿ |
| ByteOrder.ValueOfLittleEndianFits | src/pipeline/filter_save_dds.cpp:45-48 | and as v itself when v fits |
| ByteOrder.LittleEndianInjective | src/pipeline/filter_save_dds.cpp:45-48 | different values that fit have different bytes |
| ByteOrder.U32RoundTrip | src/pipeline/filter_save_dds.cpp:45 | a uint32 written as its 4 bytes reads back |
| ByteOrder.U64RoundTrip | src/pipeline/filter_save_dds.cpp:48 | a uint64 written as its 8 bytes reads back |
| ByteOrder.SplitConcat | src/pipeline/filter_save_dds.cpp:48 | splitting the concatenated n-byte values gives the values back |
| ByteOrder.ConcatAt | src/pipeline/filter_save_dds.cpp:48 | value i occupies bytes n·i to n·i + n |
| ByteOrder.DwordsOfDwordBytes | src/pipeline/filter_save_dds.cpp:45 | a sequence of uint32 written out reads back |
| ByteOrder.WordsOfWordBytes | src/pipeline/filter_save_dds.cpp:48 | a sequence of uint64 written out reads back |
| ByteOrder.DwordAt | src/pipeline/filter_save_dds.cpp:45 | uint32 number i reads back from bytes 4i to 4i + 4 |
| ByteOrder.WordAt | src/pipeline/filter_save_dds.cpp:48 | uint64 number i reads back from bytes 8i to 8i + 8 |
| SaveDdsFilter.HeaderExtension | src/pipeline/filter_save_dds.cpp:17-18 | the DX10 extension is 20 bytes |
| SaveDdsFilter.ExtensionFields | src/pipeline/filter_save_dds.cpp:18 | its members read back as DXGI_FORMAT_BC7_UNORM (98), TEXTURE2D (3), 0, array size 1 and 0 |
| SaveDdsFilter.FileReadBack | src/pipeline/filter_save_dds.cpp:38-48 | a file is the magic "DDS ", the header, the extension exactly for bc7, and then every block word, which a reader splits back out |
| SaveDdsFilter.SaveDds.constructor | src/pipeline/filter_save_dds.cpp:22-24 | the stage keeps the files' entries and paths |
| SaveDdsFilter.SaveDds.Apply | src/pipeline/filter_save_dds.cpp:26-50 | nothing is written iff the image has the error index; otherwise a file at the entry's output path with the magic, dds_header of the entry's format, real size, 8 bytes per block word (wrapped to 64 bits) and mipmaps, the extension for bc7, and the block words |
| PyText.FirstAtUnique | tools/comparedds/comparedds.py:79 | the first occurrence of a substring is unique |
| PyText.FindFrom | tools/comparedds/comparedds.py:79 | the search from k finds an occurrence at or after k with none between k and it |
| PyText.Find | tools/comparedds/comparedds.py:79 | str.find: the first occurrence, or none exactly when the text does not contain the substring |
| PyText.FindFirstAt | tools/comparedds/comparedds.py:79 | the search returns the first occurrence |
| PyText.FirstAtExtended | tools/comparedds/comparedds.py:79-80 | a first occurrence stays first when text is appended |
| PyText.SplitOnce | tools/comparedds/comparedds.py:79-80 | `s.split(sep, 1)` gives two parts iff sep occurs in s, around its first occurrence |
| PyText.Split | tools/comparedds/comparedds.py:246-253 | `s.split(sep)` gives at least one part, a single one iff sep does not occur |
| PyText.JoinSplit | tools/comparedds/comparedds.py:253 | joining the parts of a split with the separator gives the text back |
| PyText.SplitJoin | tools/comparedds/comparedds.py:253 | splitting a join of parts without the separator gives the parts back |
| PyText.HeadHoldsNoSeparator | tools/comparedds/comparedds.py:79 | the part before the first separator does not contain it |
| PyText.SplitStep | tools/comparedds/comparedds.py:253 | a split is the head followed by the split of the rest |
| PyText.SplitPieces | tools/comparedds/comparedds.py:253 | no part of a split contains the separator |
| PyText.SplitInTwo | tools/comparedds/comparedds.py:246-247 | two parts iff the separator occurs exactly once, and then the parts around it |
| PyText.CharFree | tools/comparedds/comparedds.py:247 | a text without c followed by c has its first c at the end |
| PyText.BaseNameUnique | tools/flatten.py:43 | the base name is the last component after the separator |
| PyText.BaseNameOfAppend | tools/comparedds/comparedds.py:210 | appending text without a separator appends it to the base name |
| PyText.RSplitOnce | tools/comparedds/comparedds.py:254 | `s.rsplit(c, 1)` gives two parts iff c is in s, split at its last occurrence |
| PyText.LeadingSpace | tools/comparedds/comparedds.py:98 | the leading run of whitespace |
| PyText.TrailingSpace | tools/comparedds/comparedds.py:98 | the trailing run of whitespace |
| PyText.Strip | tools/comparedds/comparedds.py:98-255 | str.strip is a slice of the text after its leading whitespace |
| PyText.StripBounds | tools/comparedds/comparedds.py:98-255 | only whitespace is dropped, the result neither starts nor ends with whitespace, and it is empty iff the text is all whitespace |
| PyText.StripIdempotent | tools/comparedds/comparedds.py:98-255 | stripping twice strips once |
| PyText.PathJoin | tools/comparedds/comparedds.py:151 | os.path.join ends with its last argument |
| PyText.BaseName | tools/flatten.py:43 | os.path.basename is the text after the last separator |
| PyText.BaseNameOfJoin | tools/flatten.py:47 | the base name of a join with a plain name is that name |
| PyText.SplitName | tools/flatten.py:43 | splitext of a name rejoins to the name |
| PyText.SplitExt | tools/flatten.py:43 | splitext of a path rejoins to the path |
| PyText.SplitNameMeaning | tools/flatten.py:43 | the extension starts at the last dot and holds no other, and is empty when every dot leads the name |
| CompareDds.ValidateArgs | tools/comparedds/comparedds.py:62-73 | valid iff every selected tool's executable is on the PATH, the input is a directory and an existing output is a directory; otherwise the message of the first failing test, missing tools in table order first |
| CompareDds.PngNames | tools/comparedds/comparedds.py:291-294 | the names kept from a listing are never more than the listing |
| CompareDds.PngNamesMembers | tools/comparedds/comparedds.py:291-294 | the kept names are exactly the listed names ending in ".png" in any case |
| CompareDds.PngNamesStep | tools/comparedds/comparedds.py:292-294 | one listed name extends the kept names by itself or by nothing |
| CompareDds.InputFiles | tools/comparedds/comparedds.py:291-294 | the loop builds the input directory joined with each kept name, in listing order |
| CompareDds.PathStem | tools/comparedds/comparedds.py:151 | pathlib's stem is a prefix of the name: the name itself, or the part before a last dot that is neither first nor last |
| CompareDds.OutputFilePath | tools/comparedds/comparedds.py:150-151 | the output base has the stem of the input file's name |
| CompareDds.ToolDirectory | tools/comparedds/comparedds.py:202-225 | each tool writes into a directory named after it |
| CompareDds.EncodedFile | tools/comparedds/comparedds.py:230 | the .dds file of an input is its stem with ".dds" |
| CompareDds.FileRunOutput | tools/comparedds/comparedds.py:232 | an encoder that takes a file path gets the .dds file, the others the tool's directory |
| CompareDds.Execute | tools/comparedds/comparedds.py:154-192 | the executable, its fixed parameters, the input and the output; texconv alone turns a directory input into "-r" and its *.png pattern and puts "-o" before the output |
| CompareDds.BatchRuns | tools/comparedds/comparedds.py:200-213 | a batch tool runs once over the input directory into its directory; another runs once per input file into that file's .dds |
| CompareDds.OnlyBc7encPerFile | tools/comparedds/comparedds.py:37-42 | bc7enc is the only encoder run per file |
| CompareDds.Between | tools/comparedds/comparedds.py:79-80 | the text between the first `open` and the next `close`, present iff both occur in that order |
| CompareDds.BetweenOfMarked | tools/comparedds/comparedds.py:79-80 | a banner a + open + v + close + b with no earlier markers yields v |
| CompareDds.MarkedVersion | tools/comparedds/comparedds.py:96-105 | the stripped text between the markers, present iff they occur |
| CompareDds.NvttVersion | tools/comparedds/comparedds.py:84-89 | the text after "Tools " in the part before the first " - ", present iff both occur |
| CompareDds.NvttVersionOfBanner | tools/comparedds/comparedds.py:87-88 | a banner a + "Tools " + v + " - " + b yields v |
| CompareDds.VersionCommand | tools/comparedds/comparedds.py:77-117 | every version query runs at least the executable |
| CompareDds.VersionMarkers | tools/comparedds/comparedds.py:96-119 | png2dds, texconv, flip and magick versions have non-empty markers |
| CompareDds.Version | tools/comparedds/comparedds.py:76-120 | bc7enc between "bc7enc " and " - ", nvtt by its banner, the others as the stripped text between their markers |
| CompareDds.GpuName | tools/comparedds/comparedds.py:126-132 | "Unknown" when nvidia-smi is missing, otherwise the text between ": " and " (" |
| CompareDds.CalculateMetric | tools/comparedds/comparedds.py:241-248 | the report itself except for RMSE, which yields the text in parentheses exactly when " (" and then ")" occur once each, and fails otherwise |
| CompareDds.RmseOfReport | tools/comparedds/comparedds.py:245-247 | a report a + " (" + v + ")" + b yields v |
| CompareDds.CalculateFlip | tools/comparedds/comparedds.py:251-255 | present iff the output has a fifth line containing a space, and then a stripped word without spaces |
| CompareDds.LastToken | tools/comparedds/comparedds.py:254 | rsplit at the last space separates the last token |
| CompareDds.FlipOfReport | tools/comparedds/comparedds.py:251-255 | an output whose fifth line ends in " " + mean yields mean |
| Flatten.ValidateArgs | tools/flatten.py:21-28 | valid iff the input is a directory and an existing output is a directory, otherwise the message of the first failing test |
| Flatten.LowerKeepsDots | tools/flatten.py:44 | lower-casing keeps dots where they are |
| Flatten.KeepsPlainName | tools/flatten.py:43-44 | a file is kept iff the lower-cased extension of its name is ".png" |
| Flatten.LastDotOfFour | tools/flatten.py:43 | a name ending in a dot and three other characters has its last dot there |
| Flatten.LowerOfSuffix | tools/flatten.py:44 | lower-casing commutes with taking a suffix |
| Flatten.KeptNameEnds | tools/flatten.py:43-44 | a kept name ends in ".png" in any case and has a character other than a dot before it |
| Flatten.PngChars | tools/flatten.py:44 | the characters of ".png" |
| Flatten.PngTail | tools/flatten.py:44 | a name ending in ".png" in any case has a dot four from the end and none after |
| Flatten.LowerTail | tools/flatten.py:44 | its last four characters lower-case to ".png" |
| Flatten.SplitAtDot | tools/flatten.py:43 | splitext splits at a last dot that has a non-dot before it |
| Flatten.PngExtension | tools/flatten.py:43-44 | such a name has the extension ".png" in any case |
| Flatten.PngNameKept | tools/flatten.py:43-44 | and is kept |
| Flatten.KeepsFileIff | tools/flatten.py:43-45 | a file is kept iff its name ends in ".png" in any case with something other than dots before it |
| Flatten.DotPngSkipped | tools/flatten.py:43-45 | the name ".png" ends in ".png" and is still skipped, since splitext sees no extension |
| Flatten.CandidatesDistinct | tools/flatten.py:47-52 | the names tried for a file are all different |
| Flatten.CandidateInOutput | tools/flatten.py:47-52 | a tried path's base name is the tried name |
| Flatten.CandidatesCounted | tools/flatten.py:50-52 | the directory holds at least as many entries as there were collisions, so the search ends |
| Flatten.FreeName | tools/flatten.py:47-52 | the while loop ends with the first candidate not in the output directory |
| Flatten.Kept | tools/flatten.py:41-45 | the kept files of the walk, in walk order |
| Flatten.KeptStep | tools/flatten.py:42-45 | one walked file extends the kept files by itself or by nothing |
| Flatten.Names | tools/flatten.py:54 | the names the copies get |
| Flatten.Files | tools/flatten.py:46 | the files the copies read |
| Flatten.PlacedFirstFree | tools/flatten.py:49-54 | a new copy under the first free candidate keeps every copy at its first free candidate |
| Flatten.PlacedApart | tools/flatten.py:49-54 | a copy under a name not in the directory keeps the copies apart from the old entries and from each other |
| Flatten.Placed | tools/flatten.py:49-54 | both together, and the copy's file is appended to the files read |
| Flatten.Run | tools/flatten.py:41-54 | the loop copies exactly the kept files, in walk order, each under the first candidate not taken by an entry or an earlier copy, so none overwrites an entry and no two share a name |
| Flatten.TargetsFresh | tools/flatten.py:47-54 | the copies write to different paths of the output directory, none of them an entry it held before |

## Left out

- libspng itself (chunk parsing, CRC checks, zlib, interlacing, colour conversion): `Png.Library` is an abstract decoder. It is given by the header dimensions, the status of each setup call and the rows it returns with their statuses.
- Threads: TBB `parallel_for`, the parallel pipeline filters and `default_concurrency()`. The stages run one file at a time, and the concurrency is a parameter of the parser. `pixel_block_image.cpp:29-44` shares one output pointer among the threads of its `parallel_for`. The model gives it the result of the sequential ascending loop.
- Message formatting by fmt, `strerror` texts and exception types: a failure is a message string, and only its presence and count are stated.
- I/O: reading PNG files, writing .dds files with `ofstream`, the Windows `\\?\` prefix, and creating folders. A saved file is modelled as the path and bytes written.
- The filesystem is an abstract tree with modification times. `fs::canonical` and the compile step of a regular expression are parameters. A `filesystem_error` from `fs::canonical` or from `fs::last_write_time` of a missing input is modelled as a failure without its message. Inside the directory walk's try block it is one pipeline error report without text. Other filesystem errors (`fs::relative`, `create_directories`, `is_directory`) are not modelled. A compiled regular expression is an abstract predicate on path strings.
- ISPC `bc7e_compress_block_init` and the encoders: the BC7 and rgbcx block encoders are functions from the preset or quality level and 16 pixels to the block's words.
- Dds.Bc7Encode: bc7e_compress_blocks is modelled as encoding each block of a chunk on its own.
- Dds.Bc1Encode: `bc1_encode` is not part of this model's sources. It stands as a sequential loop applying the rgbcx encoder to every block.
- Dds.Bc7Encode: `dds.cpp:42` calls a one-argument `dds_image` constructor that the source does not define. The model uses the (image, format) constructor with bc7.
- DdsImage.GetHeader: the last 20 bytes of `header_type`, which `get_header` leaves uninitialised, are a parameter `rest`.
- DdsImage.DdsImage.constructor: the linear size is `8 · words` before truncation to 32 bits. Because 2^32 divides 2^64, this equals the size_t product cast to uint32.
- SaveDdsFilter.SaveDds.Apply: `dds_header` of this generation is not part of this model's sources, so it is a parameter of the stage.
- Util.NextDivisibleBy4AsWritten: `src/util/include/png2dds/util.hpp` and `src/util/include/todds/util.hpp` hold the same expression, so they are modelled once.
- ToddsFilter.Value: states only that the values are OpenCV's interpolation flags as listed and distinct (lemma ValuesAndNamesDistinct), not what OpenCV does with them.
- ToddsFormat.HasAlpha: a table without a lemma of its own; it is used by no other modelled operation.
- FileRetrieval.FromArgs: in the .txt branch, `from_args` builds the state from the local vector `input` (`file_retrieval.cpp:206-211`). The member `_input` is a `const todds::vector<path>&` (:180, bound at :83), so after `from_args` returns it refers to a destroyed vector, and `process_user_input` reads it at :114. That is undefined behaviour. The model gives the state a copy of the listed lines instead, which is evidently what was meant. FileRetrieval.GetPaths and FileRetrieval.TextListInputs inherit this value semantics.
- FileRetrieval.GetPaths: after a .txt `from_args`, its pairs and reports are those of the copied lines, not of whatever the dangling reference of `_input` reads (see FileRetrieval.FromArgs).
- FileRetrieval.TextListInputs: states that the state's inputs are the listed lines. In the source they are a dangling reference to those lines (see FileRetrieval.FromArgs).
- FileRetrieval.FileRetrievalState.ProcessVisit: `file_retrieval.cpp:136` re-evaluates the match with the root directory rather than the current entry. This is modelled as written, so the flag stays that of the root.
- PathOrder: path comparison is component-wise `std::string` comparison. The native separator rules of `boost::filesystem::path::compare` beyond that are not modelled.
- size_t wrap-around: widths, heights and buffer sizes are unbounded naturals bounded by the stated preconditions. A wrap is modelled only where the finding below or a cast makes it matter.
- CompareDds: subprocess calls, `shutil.which`, `winreg`, `nvidia-smi`, timing, CSV output and `getattr` dispatch are left out. A tool's console output, the PATH and the directory checks are parameters.
- CompareDds.ValidateArgs: the check that nvdecompress, magick and flip are on the PATH (`comparedds.py:283-286`) lives in the script's main block and is not modelled.
- Flatten.Run: the order of `os.walk` is a parameter (the walk is given as a list of files). Several things `shutil.copy` can meet are not modelled:
  - an output directory inside the input;
  - case-insensitive filesystems;
  - `pathlib` normalisation.

  A copy is the name it adds to the output directory.
- DecodePngFilter.ProcessLevels: downsamples with the corrected Resize.BoxDownscale of the second finding, not with `box_downscale` as written. As written, the call at `filter_decode_png.cpp:51` fails the assert on the last two levels of every chain of two or more levels (MipmapLevels.ChainBreaksAssert). Without the assert it reads past the source level (Resize.UnassertedReadsDestination). In neither case is there a result to model.
- DecodePngFilter.ProcessImage: the level loop is that of ProcessLevels, with the corrected box filter.
- DecodePngFilter.RemainingPixel: the 2×2 mean it states is that of the corrected box filter, which `box_downscale` as written does not compute.
- DecodePngFilter.ProcessedUnique: it characterises the levels after the corrected box filter, not the row starts that `box_downscale` as written would leave.
- DecodePngFilter.DecodeImage: the processing after `png::decode` uses the corrected box filter.
- DecodePngFilter.ProcessDecoded: the processing uses the corrected box filter.
- DecodePngFilter.DecodePng.Apply: on success, the buffer is processed with the corrected box filter.
- DecodePngFilter.DecodePng.DecodeFile: on success, the buffer is processed with the corrected box filter.
- EncodeDdsFilter.EncodeDds.Apply: for bc1_alpha_bc7 it chooses the format with the corrected EncodeDdsFilter.HasAlpha of the fourth finding, not with `has_alpha` as written at `filter_encode_dds.cpp:64`, which tests the red byte. On an opaque black image the source records and encodes bc7, and the model bc1 (EncodeDdsFilter.RedTestedForAlpha).
- EncodeDdsFilter.RecordedFormats: the format it states for bc1_alpha_bc7 is the one the corrected alpha test selects.
- Image.Image.constructor: pads with the corrected Util.NextDivisibleBy4, not the 32-bit-mask `next_divisible_by_4` that `image.cpp:21-22` calls. The two agree on every size up to 2^32 − 4 (Util.AsWrittenAgreesBelow32Bits). From 2^32 − 3 up, the source's width() wraps into 32 bits (2^32 gives 0) and the model's does not.
- MipmapImage.MipmapImage.constructor: its level sizes are padded with the corrected Util.NextDivisibleBy4, with the same gap above 2^32 − 4 as the image constructor.
- Png.FirstLevel: pads the header sizes with the corrected Util.NextDivisibleBy4. It differs from the source only for header sizes 2^32 − 3 to 2^32 − 1. PNG limits both sizes to 2^31 − 1, but the model's header fields are plain 32-bit values and carry no such bound.
- PyText: the model's Lower is ASCII-only, so `str.lower` on non-ASCII text is not modelled. Paths use '/' without `ntpath` drive rules.
- Strings: `::toupper` and `::tolower` follow the locale in effect. The model uses the classic locale's ASCII mapping, and other locales are not modelled.

## Findings

| source | as written | input that shows it | evidently intended | confidence | as-written member | corrected member |
|---|---|---|---|---|---|---|
| src/util/include/png2dds/util.hpp:16 | `(value + 0b11U) & ~0b11U`: the mask is a 32-bit unsigned int, widened to size_t with its upper 32 bits zero, so every bit above bit 31 is cleared | value = 2^32 gives 0 | the smallest multiple of 4 not below value, for every size_t up to SIZE_MAX − 3 | not executed | Util.NextDivisibleBy4AsWritten, Util.AsWrittenTruncatesAt2To32 | Util.NextDivisibleBy4 |
| src/resize/resize.cpp:19-23 | the inner loop never advances `destination_byte`, `source_byte_0` or `source_byte_1`, so only the first byte of each padded destination row is written, with the mean of bytes 0 and 1 of source rows 2y and 2y + 1 | an 8×8 source with every byte 200 over a zeroed 4×4 destination leaves channel 1 of the first destination pixel at 0 instead of 200 | each channel of each destination pixel is the mean of that channel over its 2×2 source pixels | not executed | Resize.BoxDownscaleAsWritten, Resize.AsWrittenLeavesChannels | Resize.BoxDownscale |
| src/resize/resize.cpp:12-13 | asserts `source.width() >> 1 == destination.width()` and the same for heights. width() and height() are the padded sizes, and the mipmap chain pads its last two levels to 4 in a dimension it halves to 1 | any image larger than 1×1 with mipmaps, such as 2×2: levels 0 and 1 are both padded to 4×4, while 4 >> 1 is 2 | the downscale needs only that the 2×2 source pixels of every real destination pixel exist. That holds for every pair of consecutive levels | not executed | MipmapLevels.ChainBreaksAssert, Resize.UnassertedReadsDestination | MipmapLevels.LevelDownscalable |
| src/pipeline/filter_encode_dds.cpp:50 | `pixel % 256 < 255` tests the lowest byte of the little-endian uint32, which is red, not alpha | an opaque black pixel (0, 0, 0, 255) selects bc7, and a fully transparent white image selects bc1 | bc7 exactly for images with a pixel whose alpha byte is below 255 | not executed | EncodeDdsFilter.HasAlphaAsWritten, EncodeDdsFilter.RedTestedForAlpha | EncodeDdsFilter.HasAlpha |
