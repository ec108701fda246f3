# cssh core in Dafny

A model of the command-language front end and the string-based executor of `cssh`, a
cross-platform shell written in C#. It also covers the dispatch layer and the small helpers
they rely on.

The parts:

- **Parser.** `CommandParser` turns a typed line into a `Sequence` of `Pipeline`s of
  `CommandNode`s:
  - a quote-aware `;` splitter (and the unused `|` splitter);
  - a tokenizer with two quote flags, the operators `|`, `>`, `>>`, `<`, `<<`, and `$NAME`
    expansion;
  - the token-stream parser that builds the tree;
  - the legacy white-space splitter `Parse` that `CommandRunner` uses.
- **Executor.** `CommandExecutor` runs a sequence pipeline by pipeline and a pipeline stage by
  stage. Each stage's output is appended to the next stage's arguments, and the text of a
  redirect's file is appended after that. An output redirect writes the stage's output to its
  file and shows nothing.
- **Dispatch.** This covers:
  - `CommandRegistry`, two dictionaries keyed by command name;
  - `AliasCommand`, which looks its target up on every run;
  - `CommandRunner.Run`;
  - `ShellState`, whose directory setters normalise;
  - the `echo` and `cd` commands.
- **Helpers.** `PathNormalizer.Normalize`, `ParsedCommand.HasOption`, the argument store and
  the `printf` format rewrite of the script runtime `ScriptStd`, and the CS+ to C# line
  translator `CSPlus.Translate` with `TransformExpr` and `TransformTarget`.

The model takes the source's own form:
- Code that loops and mutates is a Dafny `method` proved against a specification function:
  - the tokenizer, the splitters, `ParsePipeline`, `ParseSequence` and legacy `Parse`;
  - the executor's loops;
  - `Translate`.
- A class whose fields change is a Dafny `class` with `modifies` clauses: `CommandRegistry`,
  `ShellState`, the file system, and the `ScriptStd` argument store.
- Pure code is a function with lemmas: `Normalize`, `HasOption`, `echo`, aliases, the
  `printf` rewrite, `TransformExpr` and `TransformTarget`.

Host services become parameters:
- the process environment is a map from names to values;
- `char.IsLetterOrDigit` is a predicate passed to the tokenizer;
- `Environment.NewLine` is the `newline` argument of `Translate`;
- the start-up working directory is a constructor argument of `ShellState`;
- the files are a `FileStore`: a map from paths to texts, plus the paths where the host raises
  an error on reading and those where it raises one on writing, with the error's message;
- the home directory, `Path.IsPathRooted`, `Path.Combine`, `Path.GetFullPath`,
  `Directory.Exists` and the output of the built-ins that are not modelled (a function of
  their name, their arguments, the current directory and the files) are the fields of a
  `Host` value.

An exception a command lets escape is the outcome `Crash`. There are two: `cd`'s index error
and an alias loop's stack overflow. A `Crash` ends the run, as in the source.

What the executor does, in the code's own terms:

- `ExecuteSequence` returns only the output of the last pipeline. The outputs of the
  earlier pipelines are dropped.
- No command is wrapped in a `try`. An exception a command throws ends the whole run.
- A stage's arguments are its own words, then the previous stage's output (when not
  empty), then the text of its redirect's file. The piped text has no marker in front.
- `>>` appends the output exactly as it is. No line break is added before or after it.
- Every stage's redirect is applied, not only the last stage's. A stage whose output goes to
  a file shows nothing, so the next stage gets no piped input.
- An unreadable or missing input file does not stop the command. Its place among the
  arguments holds `[cssh: failed to read '<path>': <message>]`.
- The file of any redirect with a non-blank path is read in as an argument, whatever the
  redirect type. For every type but `>>` the file is then overwritten with the output. So
  `echo new > f` leaves `f` holding `new` followed by the old text. An input redirect also
  writes the output to its file; when that write fails, a read-only file for instance, the
  stage shows `cssh: redirect failed: <message>`.
- `CommandRunner.Run` never reaches the parser's tree or the executor. It uses the legacy
  `Parse`, so `|`, `>`, `<` and `;` reach the command as plain words.

Several of the repository's tests expect what a usual shell does:

- cssh.Tests/ShellOperatorsTests.cs:110-117 expects `echo new > f` to leave `f` holding `new`.
- cssh.Tests/ShellOperatorsTests.cs:155-165 expects `>>` to add to the file's old text.
- cssh.Tests/ShellOperatorsTests.cs:207-215 expects `cat < f` to show `f`'s text.
- cssh.Tests/ShellOperatorsTests.cs:221-226 expects an error for a missing input file.
- cssh.Tests/ShellOperatorsTests.cs:236-241 expects `echo hello | cat` to show `hello`.

These tests drive `CommandRunner.Run`, which hands the operators to the command as words,
and the executor behaves as listed above, so the code does not meet all of these
expectations. The model follows the code.

## Model

| member | source | states |
|---|---|---|
| Tokenizer.NameEnd | cssh.Core/CommandParser.cs:181-183 | the scan after `$` stops at the first character that is neither a letter or digit nor `_`; every character before it is one |
| Tokenizer.ScanName | cssh.Core/CommandParser.cs:181-183 | the inner `while` loop ends at `NameEnd` |
| Tokenizer.ScanAt | cssh.Core/CommandParser.cs:113-202 | one pass of the loop body equals the scanner step `Step`, including the extra index advance for `>>`, `<<` and `$NAME` |
| Tokenizer.TokenizeWithRedirects | cssh.Core/CommandParser.cs:104-209 | the loop yields exactly the tokens of the scanner specification `Tokenize` |
| Tokenizer.TokenizeNonEmpty | cssh.Core/CommandParser.cs:130-173 | no token of any input is empty: pending text is flushed only when non-empty |
| Tokenizer.TokenizeKept | cssh.Core/CommandParser.cs:115-125 | the tokens run together are the input with the toggling quotes and unquoted white space removed and every `$NAME` expanded, in input order |
| Tokenizer.TokenizeQuoteFree | cssh.Core/CommandParser.cs:128-174 | without quotes in the input, each token is a lone `|`, `>`, `>>`, `<`, `<<` or holds no white space and no operator character |
| Tokenizer.LexExpands | cssh.Core/CommandParser.cs:178-192 | outside single quotes, double quotes included, `$NAME` appends the variable's value (empty when unset) to the pending text, and the value is not scanned again |
| Tokenizer.LexDollarLiteral | cssh.Core/CommandParser.cs:193-198 | a `$` not followed by a letter, digit or `_` is kept literally |
| Tokenizer.LexDollarQuoted | cssh.Core/CommandParser.cs:178-201 | inside single quotes `$` is an ordinary character |
| Tokenizer.TokenizeVariable | cssh.Core/CommandParser.cs:185-206 | a line that is a single `$NAME` gives the value as one token, or no token when the value is empty |
| Tokenizer.LexSingleRun | cssh.Core/CommandParser.cs:121-174 | inside single quotes every character but `'` (white space, operators, `"` and `$`) joins the pending text |
| Tokenizer.LexDoubleRun | cssh.Core/CommandParser.cs:115-174 | inside double quotes every character but `"` and `$` (white space, operators and `'`) joins the pending text |
| Tokenizer.TokenizeRendered | cssh.Core/CommandParser.cs:111-206 | words, operators and quoted texts written with single spaces tokenize back to their texts, one token each |
| Splitter.SplitOutsideQuotes | cssh.Core/CommandParser.cs:257-297 | the quote-aware loop yields exactly the pieces of the specification `SplitOutside` |
| Splitter.SplitBySemicolons | cssh.Core/CommandParser.cs:257-297 | cuts at every `;` outside quotes, as specified by `SplitOutside` |
| Splitter.SplitByPipes | cssh.Core/CommandParser.cs:214-252 | cuts at every `\|` outside quotes, as specified by `SplitOutside` |
| Splitter.SplitNonEmpty | cssh.Core/CommandParser.cs:282-294 | no piece is empty |
| Splitter.SplitKept | cssh.Core/CommandParser.cs:264-296 | the pieces run together are the input with exactly the unquoted separators deleted |
| Splitter.SplitKeepsOthers | cssh.Core/CommandParser.cs:268-290 | every other character, quote characters included, occurs in the pieces as often as in the input |
| Splitter.SplitSeparatorFree | cssh.Core/CommandParser.cs:282-288 | with no quotes in the input, no piece holds the separator |
| CommandParser.RedirectTypeOf | cssh.Core/CommandParser.cs:78-84 | each redirect operator gets the type it stands for (`>` OutputTruncate, `>>` OutputAppend, `<` Input, `<<` None), so the type gives its operator back; a type other than None comes only from its own operator |
| CommandParser.ArgEnd | cssh.Core/CommandParser.cs:59-63 | argument collection stops at the first `\|` or redirect operator, and every token before it is a word |
| CommandParser.ParseStage | cssh.Core/CommandParser.cs:55-88 | one stage of the outer loop gives the command and next index of `StageAt`, or the stop of a dangling redirect |
| CommandParser.ParsePipeline | cssh.Core/CommandParser.cs:38-99 | the nested loops build exactly the commands of the specification `Stages` over the tokens |
| CommandParser.ParseSequence | cssh.Core/CommandParser.cs:17-33 | the loop keeps the pipelines of the `;`-parts that give a command, in order, or one empty pipeline |
| CommandParser.SequenceShape | cssh.Core/CommandParser.cs:17-33 | a sequence is never empty; it is the single empty pipeline exactly when no part gives a command, otherwise every pipeline has a command |
| CommandParser.PipelineWordNodes | cssh.Core/CommandParser.cs:59-95 | every command's name is non-empty; no name or argument is `\|`, `>`, `>>`, `<` or `<<`; a set redirect carries its file path |
| CommandParser.StagesOfWords | cssh.Core/CommandParser.cs:90-95 | plain words give one command, the first word as name, with no redirect |
| CommandParser.StagesPipe | cssh.Core/CommandParser.cs:44-63 | `\|` ends the command before it |
| CommandParser.StagesRedirect | cssh.Core/CommandParser.cs:66-88 | a redirect operator takes the next token as its file path and ends the command; later tokens start a new command without `\|` |
| CommandParser.StagesDangling | cssh.Core/CommandParser.cs:71-75 | a redirect operator as the last token drops the command it ends, so no stage is produced |
| CommandParser.PipelineRoundTrip | cssh.Core/CommandParser.cs:38-99 | parsing the tokens of printable commands joined by `\|` gives those commands back |
| LegacyParser.Parse | cssh.Core/CommandParser.cs:316-359 | the loop over the trimmed input yields exactly the words of the specification `LegacyParse` |
| LegacyParser.ParseNonEmpty | cssh.Core/CommandParser.cs:340-355 | no word is empty; the command is `""` exactly when there are no words |
| LegacyParser.ParseBlank | cssh.Core/CommandParser.cs:324-358 | white space only gives command `""` with no arguments |
| LegacyParser.ParseKept | cssh.Core/CommandParser.cs:324-350 | the words run together are the trimmed input without toggling quotes and unquoted white space |
| LegacyParser.ParseJoin | cssh.Core/CommandParser.cs:316-359 | words joined by single spaces parse back: first as command, rest as arguments, operators and `;` as plain text |
| Files.WriteThenRead | cssh.Core/Execution/CommandExecuter.cs:160 | a successful overwrite is read back as written (unless the host refuses to read the file) and touches no other file |
| Files.AppendThenRead | cssh.Core/Execution/CommandExecuter.cs:156 | a successful append reads back as old text (empty for a new file) plus new text, nothing between (unless the host refuses to read the file) |
| Files.WriteFailures | cssh.Core/Execution/CommandExecuter.cs:120-166 | writing and appending fail exactly at the paths where the host refuses writes; reading fails exactly where it refuses reads or the file is missing |
| Executor.Arguments | cssh.Core/Execution/CommandExecuter.cs:105-135 | the arguments are the parsed ones, then the piped input if non-empty, then the redirect file's text (or the failure notice) if the path is non-blank |
| Executor.Redirect | cssh.Core/Execution/CommandExecuter.cs:142-171 | a blank or missing path keeps the output; a host write error gives `cssh: redirect failed: <message>` and changes nothing; otherwise nothing is shown and the file holds old text plus output for OutputAppend, the output for every other type |
| Executor.CommandExecutor.constructor | cssh.Core/Execution/CommandExecuter.cs:20-23 | the executor keeps the registry it is given |
| Executor.CommandExecutor.BuildArgumentsWithInput | cssh.Core/Execution/CommandExecuter.cs:105-135 | the list it builds is `Arguments` |
| Executor.CommandExecutor.ApplyOutputRedirects | cssh.Core/Execution/CommandExecuter.cs:142-171 | the shown text and the new file system are those of `Redirect` |
| Executor.CommandExecutor.ExecuteCommandNode | cssh.Core/Execution/CommandExecuter.cs:67-91 | an unregistered name gives `cssh: command not found: <name>`; otherwise the command runs on `Arguments` and its output goes through `Redirect` (`NodeRun`); the mode is unchanged |
| Executor.CommandExecutor.ExecutePipeline | cssh.Core/Execution/CommandExecuter.cs:48-62 | the stages run in order, each stage's output is the next one's piped input, and the last output is the result (`PipeRun`) |
| Executor.CommandExecutor.ExecuteSequence | cssh.Core/Execution/CommandExecuter.cs:29-42 | the pipelines run in order and the last one's output is the result, `""` for none (`SeqRun`) |
| Executor.PipeCrashStays | cssh.Core/Execution/CommandExecuter.cs:55-59 | once a stage's command throws, no later stage runs |
| Executor.SeqCrashStays | cssh.Core/Execution/CommandExecuter.cs:36-39 | once a pipeline throws, no later pipeline runs |
| Executor.PipeAppend | cssh.Core/Execution/CommandExecuter.cs:52-61 | running stages in two parts: the second starts from the first part's output and world |
| Executor.SeqAppend | cssh.Core/Execution/CommandExecuter.cs:34-41 | running pipelines in two parts: the second starts from the world the first leaves; earlier output is dropped |
| Executor.LastOutputOnly | cssh.Core/Execution/CommandExecuter.cs:34-41 | the result of a sequence is the last pipeline's output; what earlier pipelines showed is lost |
| Executor.NotFoundPipedOn | cssh.Core/Execution/CommandExecuter.cs:75-79 | an unregistered stage shows the not-found message, changes nothing, and that message is the next stage's piped input |
| Executor.RedirectedStagePipesNothing | cssh.Core/Execution/CommandExecuter.cs:150-164 | a stage whose output is redirected successfully shows `""`, so the next stage gets no piped input |
| Executor.EchoPipe | cssh.Core/Execution/CommandExecuter.cs:109-115 | piped input is appended even after explicit arguments: `echo xs \| echo ys` shows `ys` then the first output |
| Executor.EchoRedirectReadsTarget | cssh.Core/Execution/CommandExecuter.cs:118-161 | with `<` or `>`, the file is read in as an argument and then overwritten: `echo ys > f` leaves `ys` followed by the old text |
| Executor.ReadOnlyInput | cssh.Core/Execution/CommandExecuter.cs:118-171 | `cmd < f` with a readable but unwritable `f` runs `cmd` with `f`'s text as its last argument, then shows `cssh: redirect failed: <message>` and leaves the files unchanged |
| Executor.RedirectReadBack | cssh.Core/Execution/CommandExecuter.cs:154-161 | append adds exactly the output's length to the old text (no newline), overwrite leaves exactly the output, other files are unchanged |
| Handlers.EchoText | cssh.Core/Commands/EchoCommand.cs:14-21 | no arguments give `""`; a single argument is returned unchanged |
| Handlers.EchoSplit | cssh.Core/Commands/EchoCommand.cs:20 | when no argument holds a space, splitting the output at spaces gives the arguments back |
| Handlers.EchoKeepsState | cssh.Core/Commands/EchoCommand.cs:14-21 | echo's output is the joined arguments and the directories stay as they were |
| Handlers.AliasDescriptionTarget | cssh.Core/Commands/AliasCommands.cs:16 | the description is `Alias for '<target>'.` and the target can be read back from it |
| Handlers.CdEffect | cssh.Core/Commands/CdCommand.cs:17-51 | success exactly when the resolved target exists: then current is the normalised target and previous the old current; otherwise nothing changes; the index error escapes exactly when there are no arguments and the resolved home directory does not exist |
| Handlers.ExecuteCd | cssh.Core/Commands/CdCommand.cs:17-51 | updating the shell state through its setters follows `CdEffect` and keeps the state valid |
| Handlers.Execute | cssh.Core/Commands/AliasCommands.cs:18-28 | running a command on the shell state follows the value specification `Run`; an alias runs its target from the state's registry with the same arguments |
| Handlers.RunFuel | cssh.Core/Commands/AliasCommands.cs:22-27 | the fuel bound matters only when it runs out: a run that does not overflow gives the same result with more fuel |
| Handlers.AliasLoop | cssh.Core/Commands/AliasCommands.cs:22-27 | an alias whose target is itself overflows the stack, whatever the bound |
| Handlers.AliasCycle | cssh.Core/Commands/AliasCommands.cs:22-27 | two aliases that name each other overflow the stack from either one, whatever the bound |
| Handlers.AliasDelegates | cssh.Core/Commands/AliasCommands.cs:21-27 | an alias does what its target in the current registry does, with identical arguments, or reports `alias: target command not found: <target>` |
| Handlers.CdThenBack | cssh.Core/Commands/CdCommand.cs:27-47 | `cd path` then `cd -` restores the current directory, and the previous one is the directory left |
| Registry.CommandRegistry.constructor | cssh.Core/Commands/CommandRegistry.cs:8-9 | a new registry is empty |
| Registry.CommandRegistry.Register | cssh.Core/Commands/CommandRegistry.cs:14-18 | the command and description are stored under the command's name, replacing an earlier entry; every other name is unchanged; the name set grows by that name; registering the same pair again changes nothing |
| Registry.CommandRegistry.Resolve | cssh.Core/Commands/CommandRegistry.cs:23-26 | a command exactly for registered names (null otherwise), stored under its own name |
| Registry.CommandRegistry.GetDescription | cssh.Core/Commands/CommandRegistry.cs:31-34 | a description exactly for registered names |
| Registry.CommandRegistry.GetAllCommandNames | cssh.Core/Commands/CommandRegistry.cs:39-42 | exactly the names `Resolve` finds, each once |
| Shell.ShellState.constructor | cssh.Core/ShellState.cs:7-30 | the current directory is the normalised start directory; the previous one is the raw start directory; mode Normal; the registry is the one given |
| Shell.ShellState.SetCurrentDirectory | cssh.Core/ShellState.cs:10-14 | stores `Normalize(value)` and leaves the previous directory and the mode alone |
| Shell.ShellState.SetPreviousDirectory | cssh.Core/ShellState.cs:16-20 | stores `Normalize(value)` and leaves the current directory and the mode alone |
| PathNormalizer.SlashesToBackslashes | cssh.Core/PathNormalizer.cs:18 | every `/` becomes `\` and every other character stays in place |
| PathNormalizer.Normalize | cssh.Core/PathNormalizer.cs:13-19 | blank paths are returned unchanged; otherwise every `/` becomes `\`, nothing else changes and no `/` is left; length and blankness are kept |
| PathNormalizer.NormalizeIdempotent | cssh.Core/PathNormalizer.cs:13-19 | normalising twice is normalising once |
| ParsedCommands.HasOptionExists | cssh.Core/ParsedCommand.cs:14-25 | true exactly when some argument starts with `-` and contains the option text |
| ParsedCommands.HasOptionEmpty | cssh.Core/ParsedCommand.cs:16-24 | no arguments give false, whatever the command |
| ParsedCommands.HasOptionMonotone | cssh.Core/ParsedCommand.cs:16-24 | adding arguments never turns true into false |
| ParsedCommands.HasOptionIgnoresPlain | cssh.Core/ParsedCommand.cs:18-19 | an argument not starting with `-` plays no part, wherever it stands |
| ParsedCommands.CombinedFlags | cssh.Core/ParsedCommand.cs:12-22 | a combined group such as `-la` has each of its letters |
| Runner.CommandRunner.constructor | cssh.Core/CommandRunner.cs:19-23 | the runner keeps the registry it is given |
| Runner.CommandRunner.Run | cssh.Core/CommandRunner.cs:31-40 | legacy parse, look up in the runner's registry, then run with the parsed arguments (`RunLine`); the mode is unchanged |
| Runner.UnknownLeavesState | cssh.Core/CommandRunner.cs:36-37 | an unregistered first word gives `Unknown command: <word>` and changes no directory |
| Runner.BlankLine | cssh.Core/CommandRunner.cs:33-37 | a blank line gives `Unknown command: ` unless the empty name is registered |
| Runner.WordsReachCommand | cssh.Core/CommandRunner.cs:33-39 | the command receives exactly the other words, operators included |
| Runner.EchoKeepsPipe | cssh.Core/CommandRunner.cs:33-39 | `echo a \| b` prints `a \| b` |
| ScriptStd.ScriptArgs.constructor | cssh.Std/ScriptStd.cs:13 | the argument store starts empty |
| ScriptStd.ScriptArgs.SetArgs | cssh.Std/ScriptStd.cs:15-18 | null stores no arguments; any other list replaces the old one completely; `argc` and `args` then report it |
| ScriptStd.ScriptArgs.Argc | cssh.Std/ScriptStd.cs:20-23 | the stored count, zero exactly when nothing is stored |
| ScriptStd.ScriptArgs.Arg | cssh.Std/ScriptStd.cs:25-30 | null exactly outside `0 <= index < argc()`, else the stored element |
| ScriptStd.RewriteFormat | cssh.Std/ScriptStd.cs:48-51 | no `%d`, `%s` or `%f` is left in the rewritten format |
| ScriptStd.RewriteUntouched | cssh.Std/ScriptStd.cs:48-51 | a format without the three specifiers passes unchanged, other `%` signs included |
| ScriptStd.RewriteByLetter | cssh.Std/ScriptStd.cs:48-51 | the placeholder follows the letter, not the position: `%d` alone becomes `{0}`, `%s` alone `{1}`, `%f` alone `{2}` |
| ScriptStd.RewriteAround | cssh.Std/ScriptStd.cs:48-51 | the rewrite of a format is the rewrite of its pieces around a middle piece whose ends complete no specifier |
| ScriptStd.RewriteSplit | cssh.Std/ScriptStd.cs:48-51 | for all texts `a` and `b`, `a%db` becomes the rewrite of `a`, then `{0}`, then the rewrite of `b`; likewise `%s` with `{1}` and `%f` with `{2}` |
| Strings.ReplaceConcat | cssh.Std/ScriptStd.cs:49-51 | replacing a two-character text in `u + v` replaces it in `u` and in `v` separately when no occurrence straddles them |
| CSPlus.DefMatch | CSP/csp.Csplus/CSPlus.cs:22 | a match is `def`, white space, a name (a letter or `_`, then word characters), white space, `=` and at least one more character, at the positions it returns; with `DefAt` this is an if-and-only-if |
| CSPlus.PrintlnMatch | CSP/csp.Csplus/CSPlus.cs:32 | a match is `println`, white space, `(` at the returned opening, and `)` at the returned closing with only white space after it; with `PrintlnAt` this is an if-and-only-if |
| CSPlus.LastArrow | CSP/csp.Csplus/CSPlus.cs:41 | the greedy `(.*)=>` splits at the last `=>` |
| CSPlus.RouteMatch | CSP/csp.Csplus/CSPlus.cs:41 | a match has `=>` at the returned position and none after it, then white space, `$` and a run of at least one word character, then only white space; with `RouteAt` this is an if-and-only-if |
| CSPlus.TransformTarget | CSP/csp.Csplus/CSPlus.cs:71-80 | `$stdout`, `$stderr`, `$stdin` become `Console.Out`, `Console.Error`, `Console.In`; every other target is kept, and only those three are changed |
| CSPlus.SpecialVariablesCleared | CSP/csp.Csplus/CSPlus.cs:60-62 | after the special-variable rewrite no `$stdout`, `$stderr` or `$stdin` is left |
| CSPlus.DefAt | CSP/csp.Csplus/CSPlus.cs:22 | every line with the parts of the `def` form at the given positions matches, with exactly those positions |
| CSPlus.PrintlnAt | CSP/csp.Csplus/CSPlus.cs:32 | every line with the parts of the `println` form at the given positions matches, with exactly those positions |
| CSPlus.RouteAt | CSP/csp.Csplus/CSPlus.cs:41 | every line with a last `=>` followed by a `$word` target and white space matches, with exactly those positions |
| CSPlus.DefShape | CSP/csp.Csplus/CSPlus.cs:22 | `def NAME = rest` matches for every name and non-empty rest, the name being the whole word run and the expression being `rest` |
| CSPlus.DefLine | CSP/csp.Csplus/CSPlus.cs:22-29 | `def NAME = rest` becomes the declaration of `NAME` with the trimmed, transformed `rest` |
| CSPlus.PrintlnShape | CSP/csp.Csplus/CSPlus.cs:22-32 | `println(body)` followed by white space is not a `def` line and matches with `body` as its argument, whatever `body` holds |
| CSPlus.PrintlnLine | CSP/csp.Csplus/CSPlus.cs:22-38 | `println(body)` becomes `Console.Out.WriteLine` of the trimmed, transformed `body` |
| CSPlus.RouteShape | CSP/csp.Csplus/CSPlus.cs:32-41 | `expr => $word` matches at its last `=>`, with `expr` and `$word` as its parts, and is not a `println` line |
| CSPlus.RouteLine | CSP/csp.Csplus/CSPlus.cs:22-48 | an `expr => $word` line that is not a `def` line becomes a `Write` of the trimmed `expr` on `$word`'s target |
| CSPlus.PlainLine | CSP/csp.Csplus/CSPlus.cs:22-51 | a line without `=` that does not start with `println` becomes an expression statement |
| CSPlus.EmitDef | CSP/csp.Csplus/CSPlus.cs:22-29 | a `def` line becomes `dynamic NAME = <expr>;` with the transformed expression |
| CSPlus.EmitPrintln | CSP/csp.Csplus/CSPlus.cs:32-38 | a `println` line that is not a `def` becomes `Console.Out.WriteLine(<expr>);` |
| CSPlus.EmitRoute | CSP/csp.Csplus/CSPlus.cs:41-48 | a route line of neither earlier form becomes `<target>.Write(<expr>);` |
| CSPlus.EmitExpr | CSP/csp.Csplus/CSPlus.cs:51 | any other line becomes its transformed text followed by `;` |
| CSPlus.StatementsCons | CSP/csp.Csplus/CSPlus.cs:16-19 | a blank or `#` line adds no statement; any other line adds exactly one |
| CSPlus.LineStatement | CSP/csp.Csplus/CSPlus.cs:16-51 | one pass of the loop body gives nothing exactly for a skipped line, otherwise the line's statement |
| CSPlus.Translate | CSP/csp.Csplus/CSPlus.cs:9-55 | the builder loop yields exactly `Translation`: each statement followed by the line separator |
| CSPlus.TranslationLines | CSP/csp.Csplus/CSPlus.cs:12-54 | with `\n` as separator, the output lines are the statements of the non-skipped lines in input order, then the empty text |
| CSPlus.TranslationSemicolons | CSP/csp.Csplus/CSPlus.cs:27-51 | every output line but the final empty one ends with `;` |
| CSPlus.LinesJoin | CSP/csp.Csplus/CSPlus.cs:54 | with `\n` as separator, the output is the statements joined by `\n` and ending in one |
| CSPlus.EmitFree | CSP/csp.Csplus/CSPlus.cs:22-51 | a statement holds no `\n` when its line holds none |
| CSPlus.TransformFree | CSP/csp.Csplus/CSPlus.cs:57-69 | the expression rewrite adds no `\n` |

## Left out

- I/O and the host: the console, processes, UTF-8 encoding, and the contents of `Environment`,
  `Directory` and `Path`. These are the `Host` fields, the environment map and the
  `FileStore`. The host's results are taken as given and not modelled further.
- Null values: the `ArgumentNullException` guards of `CommandExecutor` are not modelled.
  Dafny values are never null.
- Executor.CommandExecutor.BuildArgumentsWithInput: a missing piped input (`null` before the
  first stage) and the empty text are both `""`. The source consults only `IsNullOrEmpty`, so
  they behave alike.
- Files.FileStore: exception messages come from the host's error map. The not-found message
  uses the path as given rather than the full path.
- Handlers.Run: each alias call uses one unit of `fuel`, and running out is the stack overflow
  the source would hit. `RunFuel` shows the bound matters only then. The depth at which .NET
  really overflows is not modelled.
- Handlers.Run: built-ins other than `echo`, `cd` and aliases are `Other` commands. Their
  output comes from `Host.external`, which sees the command's name and arguments, the current
  directory (what `pwd` prints) and the file store (what `cat` reads). The model lets them
  change neither the directories nor the files. That holds for `pwd`, `ls`, `help`, `which` and `clear`, but not for `touch`,
  `rm`, `mkdir` and `rmdir`, whose file effects are not modelled.
- Shell.ShellState: `Mode` is a plain read-write field with no logic. The model never changes
  it and nothing else is stated about it.
- Tokenizer.TokenizeQuoteFree: proved only for inputs with no quote characters and variables
  whose values hold no separator. For quoted input, `TokenizeKept`, `LexSingleRun`,
  `LexDoubleRun` and `TokenizeRendered` describe the tokens.
- CSPlus.Emit: has no ensures of its own. Its meaning is given by `EmitDef`, `EmitPrintln`,
  `EmitRoute`, `EmitExpr`, `EmitFree` and `TranslationSemicolons`.
- CSPlus.IsRegexWordChar: `\w` is taken as the ASCII letters, digits and `_`. .NET's `\w` also
  matches other Unicode letters and digits. `\s` is `char.IsWhiteSpace`'s table.
- CSPlus.TransformExpr: the `cos(` and `PI` rewrites are written out but proved only to add no
  line break. No further property of them is stated.
- ParsedCommands.IsOptionWith: the source's `arg.StartsWith("-")` compares with the current
  culture, under which an ignorable character such as U+00AD before the `-` still matches.
  The model compares ordinally: the argument's first character must be `-`.
- CSPlus.Skipped: the source's `line.StartsWith("#")` is culture-sensitive in the same way.
  The model takes a line as a comment only when its first character is `#`.
- Strings.IsWhiteSpace: `char.IsWhiteSpace` is written out as .NET's fixed table rather than
  taken as a parameter. `char.IsLetterOrDigit` is a parameter of the tokenizer.
- `printf` itself: `string.Format` and `Console.Write` are left out. Only the format rewrite is
  modelled. The rest of `ScriptStd` is console, process, clock, regular-expression and file I/O.
- History expansion, edit mode, the runtime `alias` built-in, `.csx` execution and the `PATH`
  fallback for external programs are not part of this model. No code for them is among the
  modelled files.
- The application's REPL loop and the CS+ launcher front end: console and process work only.
- No concurrency is modelled: the shell is single-threaded.
