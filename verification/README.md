# yunetas environment setup and Kconfig-to-header compiler, in Dafny

This project models the part of the yunetas command-line tool that prepares
a build tree: `kconfig2include`, which turns a Kconfig-style `KEY=VALUE`
file into the `#define` lines of a C header; `is_file_outdated`, which
decides whether a generated file must be rebuilt; and
`setup_yuneta_environment`, which checks the base directory
(`YUNETAS_BASE`) and its two source files `YUNETA_VERSION` and `.config`,
creates `outputs/include` next to the base directory, and regenerates
`yuneta_version.h` and `yuneta_config.h` there when they are missing or
older than their sources.

The modules follow the program:

- `Wrappers`: the `Option` type.
- `Text`: the Python string operations the compiler relies on:
  - `str.strip()` and `str.strip('"')`;
  - `str.isdigit()`;
  - `str.split('=', 1)`;
  - reading a text file line by line with universal newlines.
- `Kconfig`: `kconfig2include`. The reference definition is `Compile`,
  which renders (`Render`) the settings that `Parse` reads from the lines.
  `Parse` skips the lines that yield no setting. `Qualified`, the lines
  that do yield one, is used only in lemmas: `ParseLength` and `ParseAt`
  match the settings to those lines one to one, in order.
  `Kconfig2Include` is the loop of the source, and is proved equal to
  `Compile`.
- `Paths`: `posixpath.join`, `posixpath.dirname` and `posixpath.basename`.
- `Environment`: staleness and the setup.
  - The filesystem is a map from path to node. A node is a directory, or a
    regular file with a modification time and a text.
  - `Setup(fs, base, now)` returns either `Done(fs')` or
    `Fatal(error, fs')`. `fs'` is the filesystem as the process leaves it.
  - The clock (`now`) and the base directory are parameters.
  - `Run` is `Setup` with the layout and the header generator as
    parameters. `Setup` passes `HeaderText`, the banner followed by
    `Compile` of the source's lines.

Two behaviours of the code worth knowing:

- `value.strip('"')` (yunetas/main.py:144) removes every leading and
  trailing double quote, not only one surrounding pair.
  `Kconfig.QuoteRunExample` shows `"""hi"` becoming `"hi"`.
- With a trailing slash, `dirname` returns the base directory itself,
  although yunetas/main.py:195-197 treats the result as the base's parent.
  `outputs` is then created inside the base directory, not beside it.
  `Paths.TrailingSlashParent` states this.

## Model

| member | source | states |
|---|---|---|
| Kconfig.Kconfig2Include | yunetas/main.py:123-150 | The loop builds exactly `Compile(lines)`: one `#define` per qualifying line, in input order, and nothing for any other line. |
| Kconfig.LineOutput | yunetas/main.py:128-145 | One line contributes what `Compile` makes of that line alone. |
| Kconfig.DefineOutput | yunetas/main.py:139-145 | The three branches build `#define KEY VALUE\n`, with the value text given by `ValueText`. |
| Kconfig.ParseLine | yunetas/main.py:128-136 | A line yields a setting exactly when, once stripped, it is non-empty, does not start with `#`, and contains `=`. A line without `=` is skipped, not rejected. |
| Kconfig.ParseLineAt | yunetas/main.py:133-136 | The split is at the first `=`. The key is the trimmed text before it and the value is the trimmed text after it, so later `=` stay in the value. |
| Kconfig.ParseLineHolds | yunetas/main.py:133-136 | Every parsed setting is the trimmed key and value of some split of the stripped line around an `=` that no earlier `=` precedes. |
| Kconfig.ValueTextSpec | yunetas/main.py:139-145 | Exactly `y` becomes `1` before any other test. Otherwise a run of ASCII digits is emitted unquoted. Anything else is quoted, and its inner text is the value with all leading and trailing `"` cut off. |
| Kconfig.ValueExamples | yunetas/main.py:139-145 | `y` gives `1`, `Y` gives `"Y"`, `42` gives `42`, and the empty value gives the empty string literal `""`. |
| Kconfig.QuotedYesExample | yunetas/main.py:139-145 | A quoted `"y"` is a string and not the boolean `1`: the `y` test sees the quotes. |
| Kconfig.QuoteRunExample | yunetas/main.py:144 | A run of leading quotes is removed entirely, not only one pair. |
| Kconfig.QualifiedSpec | yunetas/main.py:128-133 | Every kept line qualifies. A qualifying line is kept as many times as it occurs in the input, and a non-qualifying line never is. |
| Kconfig.QualifiedAppend | yunetas/main.py:127-133 | The kept lines of two runs of lines are those of the first followed by those of the second, so the input order is kept. |
| Kconfig.QualifiedOne | yunetas/main.py:128-133 | A single line is kept exactly when it qualifies. |
| Kconfig.QualifiedFrom | yunetas/main.py:127-133 | Every kept line is one of the input lines. |
| Kconfig.ParseLength | yunetas/main.py:127-145 | There is one setting per qualifying line. |
| Kconfig.ParseAt | yunetas/main.py:127-145 | The i-th setting is the one the i-th qualifying line holds, so the order is kept. |
| Kconfig.ParseAppend | yunetas/main.py:127-145 | Parsing a concatenation of files parses each part: lines are handled independently. |
| Kconfig.CompileAppend | yunetas/main.py:123-145 | The header text of a concatenation is the header texts of the parts, one after the other. |
| Kconfig.CompileStep | yunetas/main.py:127-145 | One more line of input appends exactly that line's contribution. |
| Kconfig.CompileOne | yunetas/main.py:128-145 | A single line gives its `#define` line when it holds a setting, and nothing otherwise. |
| Kconfig.CompileSkips | yunetas/main.py:128-133 | Removing a blank line, a comment or a line without `=` anywhere in the input does not change the output. |
| Kconfig.ParseFormat | yunetas/main.py:133-136 | Formatting a well-formed setting as `KEY=VALUE` and parsing it back gives the same setting. |
| Kconfig.ParsedWellFormed | yunetas/main.py:128-136 | Every parsed setting is well formed, and formatting then reparsing it gives it back. |
| Kconfig.StripSingleLine | yunetas/main.py:127-128 | Stripping a line as read removes its line terminator. |
| Kconfig.ParsedOnOneLine | yunetas/main.py:127-136 | Neither the key nor the value of a setting read from one line holds a newline. |
| Kconfig.DefineTerminated | yunetas/main.py:140-145 | Each `#define` line is one complete line that ends with its only newline. |
| Kconfig.DefinesTerminated | yunetas/main.py:127-145 | Every `#define` line the settings of a file produce is one complete line. |
| Kconfig.CompileAnyEol | yunetas/main.py:126-145 | A file gives the same header whether its lines end in `\n`, `\r\n` or `\r`, with or without a final line ending. |
| Kconfig.CompileLines | yunetas/main.py:123-150 | Splitting the output into lines gives back the `#define` lines. There are exactly as many as there are qualifying input lines. |
| Text.TrimLeftSpec | yunetas/main.py:128 | Left stripping removes exactly a maximal prefix of the given characters. |
| Text.TrimRightSpec | yunetas/main.py:128 | Right stripping removes exactly a maximal suffix of the given characters. |
| Text.TrimSpec | yunetas/main.py:128 | `strip` returns a middle slice whose cut-off ends are made only of the given characters. A non-empty result neither starts nor ends with one. |
| Text.TrimUnique | yunetas/main.py:128 | Any such slice is the result of `strip`, so the characterisation is complete. |
| Text.TrimInner | yunetas/main.py:128 | Given the first and last kept positions, `strip` returns the slice between them. |
| Text.TrimAllDropped | yunetas/main.py:128-130 | A line made only of whitespace strips to the empty string, so it is skipped as blank. |
| Text.TrimNoop | yunetas/main.py:135-136 | Text that neither starts nor ends with a stripped character is left as it is. |
| Text.TrimIdempotent | yunetas/main.py:128-136 | Stripping twice is stripping once. |
| Text.TrimKeepsFirst | yunetas/main.py:128-129 | If the first character is not stripped, it stays first. |
| Text.TrimWithout | yunetas/main.py:128 | Stripping adds no character that was absent. |
| Text.TrimRightAt | yunetas/main.py:128 | Right stripping stops at the last character outside the set. |
| Text.TrimLeftAt | yunetas/main.py:128 | Left stripping stops at the first character outside the set. |
| Text.IndexOf | yunetas/main.py:133-134 | The first position of a character, or None exactly when it is absent. |
| Text.LastIndexOf | yunetas/main.py:197 | The last position of a character, or None exactly when it is absent. |
| Text.SplitOnce | yunetas/main.py:133-134 | A split happens exactly when the separator occurs. The head has no separator, and head, separator and tail rebuild the line. |
| Text.SplitOnceAtFirst | yunetas/main.py:134 | A decomposition whose head has no separator is the split's result. |
| Text.ConcatAppend | yunetas/main.py:140-145 | Appending lines to a text concatenates their texts. |
| Text.TranslateNewlines | yunetas/main.py:126-127 | Reading in text mode leaves no carriage return, and leaves text without one unchanged. |
| Text.FirstLineLength | yunetas/main.py:127 | The first line ends at the first newline, or at the end of the text. |
| Text.ConsLine | yunetas/main.py:127 | A complete line in front of a line sequence keeps the sequence well shaped. |
| Text.SplitLinesShape | yunetas/main.py:127 | The lines the iterator yields concatenate back to the text. Only the last one may lack its newline. |
| Text.FirstLineOf | yunetas/main.py:127 | A text that begins with a complete line has that line first. |
| Text.SplitConcat | yunetas/main.py:127 | Complete lines joined and split again give the same lines. |
| Text.ReadLines | yunetas/main.py:126-127 | The lines read concatenate to the newline-translated text. They are non-empty, and each has at most a final newline. All but the last end in one. No line holds a carriage return. `ReadLinesUnique` shows that this fixes the lines for every text. |
| Text.FirstLineIs | yunetas/main.py:127 | A line as read, followed by more text only when it ends in a newline, is the first line of the result. |
| Text.SplitUnique | yunetas/main.py:127 | Lines shaped like those the iterator yields are the only split of their concatenation. |
| Text.ReadLinesUnique | yunetas/main.py:126-127 | Any line-shaped lines that concatenate to the translated text are exactly the lines read. |
| Text.TranslatePlain | yunetas/main.py:126-127 | Text without a carriage return passes through newline translation unchanged. |
| Text.TranslateEol | yunetas/main.py:126-127 | `\r\n`, a lone `\r` and `\n` each translate to one `\n`. |
| Text.TerminateStart | yunetas/main.py:126-127 | A text of bare lines with `\r` or `\r\n` endings never starts with `\n`, so a lone `\r` is not merged with what follows. |
| Text.TranslateTerminate | yunetas/main.py:126-127 | Bare lines with `\r\n`, `\r` or `\n` endings, then a last line without one, translate to the same lines with `\n` endings followed by that last line. |
| Text.TerminateThenStart | yunetas/main.py:126-127 | Such a text, with `\r` or `\r\n` endings and an unterminated last line, never starts with `\n`. |
| Text.TerminateConcat | yunetas/main.py:126-127 | Bare lines each followed by `\n` form the concatenation of those complete lines. |
| Text.ReadTerminate | yunetas/main.py:126-127 | A file of bare lines reads as those lines, each ending in `\n`, whichever line ending it uses. A last line without an ending is read as it is. |
| Text.LfShaped | yunetas/main.py:127 | Bare lines ending in `\n`, then an unterminated last line, are shaped like lines read from a file. |
| Text.NotInParts | yunetas/main.py:127 | A character absent from a text is absent from each of its lines. |
| Paths.Join | yunetas/main.py:183-184 | `join` ends with its second argument, and starts with the first when the second is relative. |
| Paths.HeadLength | yunetas/main.py:197 | The head ends just after the last slash. |
| Paths.Basename | yunetas/main.py:183-184 | The basename has no slash and is a suffix of the path. |
| Paths.Dirname | yunetas/main.py:197 | `dirname` is a prefix of the path. It is empty, the root, or does not end with a slash. |
| Paths.HeadLengthAt | yunetas/main.py:197 | A slash that no later slash follows ends the head. |
| Paths.DirnameJoin | yunetas/main.py:197-199 | The `dirname` of a directory joined with a slash-free name is that directory. |
| Paths.BasenameJoin | yunetas/main.py:183-184 | The basename of a directory joined with a slash-free name is that name. |
| Paths.DefaultBaseParent | yunetas/main.py:197 | The default base `/yuneta/development/yunetas` has parent `/yuneta/development`. |
| Paths.TrailingSlashParent | yunetas/main.py:197 | Any directory that does not end in a slash, written with one trailing slash, is its own parent: `dirname` returns it unchanged. |
| Environment.NamesWithoutSlash | yunetas/main.py:183-184 | The source and header file names are plain names. |
| Environment.OutputsLayout | yunetas/main.py:197-198 | The outputs directory is named `outputs` and sits in the base directory's parent. |
| Environment.IncludeLayout | yunetas/main.py:199 | The include directory is named `include` and sits in the outputs directory. |
| Environment.HeaderLayout | yunetas/main.py:211 | `yuneta_version.h` and `yuneta_config.h` sit in the include directory. |
| Environment.SourceLayout | yunetas/main.py:183-184 | `YUNETA_VERSION` and `.config` sit in the base directory. |
| Environment.JoinEnd | yunetas/main.py:183-184 | A joined path ends with the name joined last. |
| Environment.Basenames | yunetas/main.py:183-238 | Each of the six paths has the expected basename. |
| Environment.PathsDistinct | yunetas/main.py:183-238 | For any base directory, the two sources, the two directories and the two headers are six different paths. |
| Environment.OutdatedRules | yunetas/main.py:152-165 | A missing target is outdated. With both files present, the target is outdated exactly when the source's time is strictly greater, so equal times mean up to date. |
| Environment.FreshAfterWrite | yunetas/main.py:152-165 | A target written no earlier than its source was modified is up to date. |
| Environment.MakeIncludeDirSpec | yunetas/main.py:201-206 | Creating `outputs/include` succeeds exactly when it can, and then leaves a directory there. Only those two paths change, and no directory is lost. |
| Environment.MakeIncludeDirFrame | yunetas/main.py:201-206 | Creating the include directory changes no path other than those two. |
| Environment.RegenerateSpec | yunetas/main.py:211-233 | Regeneration succeeds exactly when the header is up to date or can be written. On success the header holds the generated text if it was outdated and is unchanged otherwise. On failure nothing changes, the header included. Only the header's path can change. |
| Environment.RegenerateFrame | yunetas/main.py:211-260 | Regenerating a header changes no path other than that header. |
| Environment.DecisionFrame | yunetas/main.py:212-239 | Changes elsewhere do not alter a header's staleness decision or whether it can be written. |
| Environment.RunFrame | yunetas/main.py:167-260 | A run changes only the outputs directory, the include directory and the two headers, whether it succeeds or fails. |
| Environment.RunChecks | yunetas/main.py:176-192 | The checks run in order: base directory, then `YUNETA_VERSION`, then `.config`. The first that fails gives its own error and leaves the filesystem unchanged. Only those conditions give those errors. |
| Environment.RunStops | yunetas/main.py:201-260 | After the checks pass, a run stops at the include directory, the version header or the configuration header exactly as each fails. Nothing is rolled back, so a version header written before the configuration header fails stays written. The failed configuration header, and every path other than `outputs`, `outputs/include` and the version header, is left as it was. |
| Environment.RunSucceeds | yunetas/main.py:167-260 | A run succeeds exactly when the checks pass, the include directory can be made, and each header is up to date or writable. |
| Environment.RunDirs | yunetas/main.py:197-206 | After a successful run the include directory exists, the outputs path exists, and no directory was lost. |
| Environment.RunWrites | yunetas/main.py:209-260 | After a successful run, each header was rewritten exactly when it was outdated beforehand, independently of the other one. |
| Environment.WrittenBefore | yunetas/main.py:209-260 | A header's write is judged against the state before the run, as long as only other paths changed in between. |
| Environment.WrittenAfter | yunetas/main.py:209-260 | A header's write survives later steps that touch other paths. |
| Environment.FreshHeader | yunetas/main.py:152-165 | A header written at `now` from a source not newer than `now` is up to date. |
| Environment.RunIdempotent | yunetas/main.py:167-260 | Running again after a successful run whose sources are no newer than its clock changes nothing and succeeds. |
| Environment.SetupFrame | yunetas/main.py:167-260 | The setup changes only `outputs`, `outputs/include` and the two headers. |
| Environment.SetupChecks | yunetas/main.py:176-192 | The three existence checks run in order, are fatal before any effect, and each gives its own error. |
| Environment.SetupStops | yunetas/main.py:224-260 | When only the configuration header cannot be written, the setup stops with that error, and the version header is left as the setup wrote it. The configuration header, and every path other than `outputs`, `outputs/include` and the version header, is left as it was. |
| Environment.SetupSucceeds | yunetas/main.py:167-260 | The setup succeeds exactly when the checks pass, the include directory can be made, and each header is up to date or writable. |
| Environment.SetupWrites | yunetas/main.py:209-260 | Each header is rewritten exactly when its own source made it outdated. A rewritten header holds its banner followed by `kconfig2include` of its source, with time `now`. |
| Environment.SetupIdempotent | yunetas/main.py:167-260 | A second setup after a successful one finds both headers up to date and changes nothing. |

## Left out

- The Typer command-line interface, the other commands, and the virtual
  environment helper. They are outside this core.
- The `print` messages and the process exit. The exit status 1 is the
  `Fatal` outcome, and the message is its `SetupError`.
- Reading the `YUNETAS_BASE` environment variable and its default: the
  base directory is a parameter of `Setup`.
- The clock is the `now` parameter. Every header written in one run gets
  that time, and the times are plain integers, not floating-point seconds.
- Input/output errors other than the ones modelled. These include
  permissions, a full disk, and a text that cannot be decoded. The
  `RuntimeError` wrapper of `kconfig2include` (lines 147-148) is left out
  with them: a file is modelled by its already-decoded text.
- Python's Unicode-wide `str.strip()` whitespace and `str.isdigit()`
  digits. The model uses the ASCII whitespace set (space, 9-13 and 28-31)
  and the ASCII digits.
- Environment.IsFileOutdated: a directory where a source file should be is
  treated like a missing source. `os.path.getmtime` would succeed on it. This
  only matters when the existence checks have already failed.
- Environment.RegenerateSpec: the error from `getmtime` when the source
  vanished under an existing header is not caught by the source code. It is
  modelled as the header's own `HeaderFailed` error, since both stop the
  program.
- Environment.MakeIncludeDir: `os.makedirs` is modelled for the last two
  levels only (`outputs` and `include`). The parent of the base directory is
  taken to exist, as it must when the base directory does.
- Symbolic links, and paths that name the same file through different
  spellings. The filesystem map compares paths as strings.
- Concurrency: another process changing the tree during the setup.
