# nuget-update, modelled in Dafny

`nuget-update.py` is a maintenance script for a .NET solution. It runs these steps in order:

- It asks `dotnet list package --outdated` which NuGet packages are out of date.
- It reads that listing line by line and builds one update record per package line. Each record holds the project, the package name, the current version and the latest version.
- It runs `dotnet add <project> package <name> --version <latest>` for every record. It collects an error for each command that fails, and it never stops early.
- If every update succeeded, it lists the solution's `.csproj` startup projects. It takes the only one, or asks the user to pick one by number.
- It restores the chosen project, and builds it only when the restore succeeded.

The model has six modules, one file each:

| file | module | models |
|---|---|---|
| `py_text.dfy` | `PyText` | `None`-or-value, truthiness, `str.isspace()`, and the `str` methods the script uses: `startswith`, `endswith`, `split(c)`, `split()` and `strip()`; `strip()` is defined through two helpers, `TrimStart` and `TrimEnd`, which behave like `lstrip()` and `rstrip()` |
| `toolchain.dfy` | `Toolchain` | the five `dotnet` commands, what a finished process reports, and the observable events (a command started, the menu shown) |
| `outdated.dfy` | `Outdated` | `parse_outdated_output`, as a loop and as a recursive scan, with a line-by-line reference description |
| `updater.dfy` | `Updater` | `update_packages` |
| `projects.dfy` | `ProjectSelection` | the `.csproj` filter of `list_startup_projects`, and the bounds check of `ask_for_project` |
| `driver.dfy` | `Driver` | `restore_and_build` and the `__main__` block |

The external toolchain is a total function `Tool = Command -> Outcome`. Each outcome is either success with the process's standard output, already split into lines, or failure with its standard error. Every operation that runs commands also returns the events it caused, in order. This lets the properties state which steps run and in what order. The number the user would type at the menu is a parameter of the run.

Where the source mutates local state, the model does the same:

- `parse_outdated_output` reassigns the current project and appends records in a loop.
- `update_packages` appends to its error list in a loop.
- `restore_and_build` and the main block are sequences of steps with early returns.

Each of these is a `method`, and its `ensures` ties it to a specification function: `Parse`, `UpdateEvents`/`FailedUpdates`, `RestoreBuild` and `Script`. The properties are proved as lemmas about those functions.

Under a non-empty current project, a data line with fewer than five whitespace tokens makes the Python code raise `IndexError` at `parts[1]`, `parts[2]` or `parts[4]`. Nothing catches it, so the script dies. The model makes this outcome explicit: `Parse` returns `TooFewTokens(k)`, where `k` is the index of the first offending line, and the run ends with the report `ParseCrashed(k)`. The model does not treat this as a precondition, and it does not skip the line. With no project in force, or under a header whose identifier is empty, such a line is skipped like any other data line, because the `project and` guard at nuget-update.py:23 comes first.

## Model

| member | source | states |
|---|---|---|
| PyText.Truthy | nuget-update.py:23 | Python truthiness of a string that may be `None`: neither `None` nor empty; it is the `project and` test here and the tests on the startup project at nuget-update.py:72 and :122 (`ChosenProjectIsTruthy`, `RestoreBuild`) |
| PyText.StartsWith | nuget-update.py:21-23 | `str.startswith`: the prefix is at most as long as the string and equals its first characters; used by `IsHeader` and `DataLineTest` |
| PyText.EndsWith | nuget-update.py:56 | `str.endswith`: the suffix is at most as long as the string and equals its last characters; used by the `.csproj` filter |
| PyText.Find | nuget-update.py:22 | the index of the first occurrence of the separator, or the length when there is none; the separator does not occur before it |
| PyText.Split | nuget-update.py:22 | `split(c)` has at least one piece; the first piece is the text before the first `c`; there is exactly one piece iff `c` does not occur; no piece contains `c` |
| PyText.JoinSplit | nuget-update.py:22 | joining the pieces of `split(c)` with `c` gives back the string |
| PyText.SplitJoin | nuget-update.py:22 | splitting a join of pieces that do not contain `c` gives back the pieces |
| PyText.SplitSecond | nuget-update.py:22 | when `c` occurs, there is a second piece, and it is the text between the first and the second `c` |
| PyText.WordLen | nuget-update.py:24 | the length of the run of non-whitespace characters at the front, followed by whitespace or the end |
| PyText.WordLenUnique | nuget-update.py:24 | that length is the only one with those two properties |
| PyText.IsSpace | nuget-update.py:23-24 | the character set of `str.isspace()`, which `split()` separates on and `strip()` removes |
| PyText.SplitWs | nuget-update.py:24 | every token of `split()` is non-empty and contains no whitespace; `SplitWsWordSep`, `SplitWsWord` and `SplitWsSkipSpace` fix where tokens start and end |
| PyText.SplitWsKeepsText | nuget-update.py:24 | the tokens of `split()`, concatenated, are exactly the non-whitespace characters of the string, in order |
| PyText.SplitWsEmpty | nuget-update.py:24 | `split()` yields no token iff the string is all whitespace |
| PyText.SplitWsJoin | nuget-update.py:24 | `split()` of non-empty whitespace-free tokens joined by single spaces gives back the tokens |
| PyText.SplitWsSkipSpace | nuget-update.py:24 | leading whitespace of any length contributes no token |
| PyText.SplitWsWordSep | nuget-update.py:24 | a word followed by a non-empty run of whitespace of any length is one token, and `split()` continues after that run |
| PyText.SplitWsWord | nuget-update.py:24 | a word with no whitespace, alone, is a single token |
| PyText.SplitWsSpaced | nuget-update.py:24 | `split()` of a column layout (leading whitespace, tokens separated by whitespace gaps of any non-zero width, optional trailing whitespace) gives back exactly the tokens |
| PyText.TrimStart | nuget-update.py:23 | the leading half of the `strip()` at this line (see `StripTrims`): it removes an all-whitespace prefix, and what it keeps does not start with whitespace |
| PyText.TrimEnd | nuget-update.py:23 | the trailing half of the `strip()` at this line (see `StripTrims`): it removes an all-whitespace suffix, and what it keeps does not end with whitespace |
| PyText.TrimStartSuffix | nuget-update.py:23 | what the leading half of `strip()` keeps is a suffix of the string |
| PyText.TrimEndPrefix | nuget-update.py:23 | what the trailing half of `strip()` keeps is a prefix of the string |
| PyText.Strip | nuget-update.py:23 | the result of `strip()` neither starts nor ends with whitespace |
| PyText.StripTrims | nuget-update.py:23 | `strip()` equals trimming the trailing whitespace after trimming the leading whitespace (`TrimEnd` after `TrimStart`) |
| PyText.StripIsMiddle | nuget-update.py:56 | the stripped string is a contiguous part of the original |
| PyText.StripMiddleAt | nuget-update.py:56 | the stripped string starts where `TrimStart` stops; what precedes and what follows it are all whitespace |
| PyText.StripUnique | nuget-update.py:56 | for whitespace `a` and `b` and an `m` with no whitespace at either end, `strip(a + m + b) == m` |
| PyText.StripIdempotent | nuget-update.py:56 | stripping twice is stripping once, so the already-stripped entry the filter returns is its own stripped form |
| PyText.StripKeepsTokens | nuget-update.py:23-24 | `split()` of the stripped line has the same tokens as `split()` of the line |
| PyText.StripStartsWith | nuget-update.py:23 | for a non-whitespace `c`, `strip().startswith(c)` iff the first non-whitespace character is `c` |
| PyText.StripStartsLikeFirstToken | nuget-update.py:23-24 | a stripped line starts with `>` iff the first whitespace token of the line starts with `>` |
| Toolchain.Argv | nuget-update.py:39-42 | every command is a `dotnet` invocation with at least a sub-command and one argument |
| Toolchain.ArgvInjective | nuget-update.py:39-42 | distinct commands have distinct argument vectors, so keying outcomes on the command loses nothing |
| Toolchain.HasOutput | nuget-update.py:55 | the truth test on what `run_command` returns (here and at nuget-update.py:98): the command succeeded and printed something; a non-empty output is one with at least one line, as `splitlines()` gives |
| Outdated.IsHeader | nuget-update.py:21 | a header is a line that starts with the nine characters of ``Project ` ``; `HeaderSplit`, `HeaderProject` and `ClassifyProject` characterise what it does |
| Outdated.IsDataLine | nuget-update.py:23 | a data line is one whose first non-whitespace character is `>`; `DataLineTest` shows that this is the source's stripped `startswith` test |
| Outdated.DataLineTest | nuget-update.py:23 | the test `line.strip().startswith(">")` holds iff the first non-whitespace character of the line is `>` |
| Outdated.HeaderSplit | nuget-update.py:21-22 | on a header line, `split('`')` has at least two pieces, and the second is the text after the opening backtick, up to the next backtick |
| Outdated.HeaderSegment | nuget-update.py:21-22 | the header expression is always defined, and it is a run of the line starting right after the opening backtick |
| Outdated.HeaderProject | nuget-update.py:21-22 | the project of a header is the longest run after the first backtick that contains neither a backtick nor a space; it is followed by one of those or by the end of the line |
| Outdated.NextProject | nuget-update.py:21-22 | the reassignment of the current project: a header replaces it with its identifier, any other line leaves it; `ClassifyProject`, `ProjectAfterHeader` and `NoHeaderNoProject` characterise it |
| Outdated.ClassifyProject | nuget-update.py:21-23 | exactly the header lines change the current project, and they change it to their identifier |
| Outdated.RecordOf | nuget-update.py:25-30 | the record of a data line: the current project and whitespace tokens 1, 2 and 4, as name, current and latest version; `ExpectedOrigin` and `HeaderThenColumns` state it for the whole scan |
| Outdated.Classify | nuget-update.py:21-31 | what one line does: a header sets the project, a data line under a non-empty project yields a record or, with fewer than five tokens, the `IndexError` stop, and anything else is ignored; `ClassifyProject` characterises its project changes |
| Outdated.ParseFrom | nuget-update.py:20-31 | the scan of the remaining lines from a given project and line index; `ParseAppend` and `NoProjectNoRecords` characterise it |
| Outdated.Parse | nuget-update.py:15-33 | the scan from the first line with no project; `ParseMatchesReference` relates it to the line-by-line description |
| Outdated.ParseOutdatedOutput | nuget-update.py:15-33 | the loop that reassigns the project and appends records returns what the scan `Parse` describes, including the stop at a data line that is too short |
| Outdated.ParseAppend | nuget-update.py:20-31 | the scan is compositional: reading `a` then `b` is reading `a`, then reading `b` with the project `a` left in force; the records of `a` come first |
| Outdated.NoProjectNoRecords | nuget-update.py:18-23 | with no project in force and no header, nothing is produced and nothing fails, even on malformed data lines |
| Outdated.ParseMatchesReference | nuget-update.py:15-33 | the scan succeeds iff every producing line has five tokens; it then yields exactly one record per producing line, in line order, each carrying the most recent header's project and tokens 1, 2 and 4; otherwise it stops at the first too-short producing line |
| Outdated.ExpectedOrigin | nuget-update.py:22-29 | every record comes from a data line under a non-empty project, carries the most recent header's project, and holds tokens 1, 2 and 4 of that line |
| Outdated.ExpectedCount | nuget-update.py:20-31 | there are never more records than data lines; headers and other lines contribute none |
| Outdated.NoHeaderNoProject | nuget-update.py:18-21 | without a header among the lines read, the current project stays as it was |
| Outdated.ProjectAfterHeader | nuget-update.py:22-26 | between a header and the next header, the project in force is the one that header names |
| Outdated.ProjectAfterAppend | nuget-update.py:20-22 | the project in force after `a + b` is the one after reading `b` from the state `a` left |
| Outdated.DataAfterEmptyHeader | nuget-update.py:22-23 | a data line after a header whose identifier is empty, with no other header in between, yields no record |
| Outdated.DataBeforeHeader | nuget-update.py:18-23 | a data line with no header before it yields no record |
| Outdated.ColumnsLine | nuget-update.py:21-24 | a line laid out in columns whose first column is `>` is a data line, not a header, and its `split()` tokens are the columns |
| Outdated.HeaderThenColumns | nuget-update.py:15-33 | a header with a non-empty identifier followed by a column-layout data line, with gaps of any width, yields exactly the one record with that project and columns 1, 2 and 4 |
| Updater.AddCommand | nuget-update.py:39-42 | the update of one record is the process `dotnet add <project> package <name> --version <latest>` |
| Updater.UpdateEvents | nuget-update.py:38-45 | one command per package; `UpdateEventsAt` fixes each of them |
| Updater.FailedUpdates | nuget-update.py:37-48 | at most one entry per package; `FailedUpdatesNone`, `FailedUpdatesOrigin`, `FailedUpdatesAppend` and `FailedUpdatesSingle` characterise it |
| Updater.UpdatePackages | nuget-update.py:35-50 | the loop runs one `dotnet add` per record in order, and returns exactly the errors `FailedUpdates` describes |
| Updater.UpdateEventsAt | nuget-update.py:38-45 | every package is attempted exactly once, and the i-th command is the update of the i-th package |
| Updater.FailedUpdatesAppend | nuget-update.py:38-48 | errors are in package order: those of earlier packages come first |
| Updater.FailedUpdatesSingle | nuget-update.py:46-48 | one update contributes an entry, its name and standard error, exactly when its command fails |
| Updater.FailedUpdatesNone | nuget-update.py:37-50 | the error list is empty iff every update succeeded |
| Updater.FailedUpdatesOrigin | nuget-update.py:46-48 | there are at most as many errors as packages, and every entry is the name and standard error of a package whose update failed |
| ProjectSelection.CsprojLines | nuget-update.py:56 | the filter keeps at most as many lines as it is given, and each kept entry ends in `.csproj` |
| ProjectSelection.StartupProjects | nuget-update.py:52-58 | a failed or empty listing gives no projects; otherwise the result is the `.csproj` filter of the listing's lines |
| ProjectSelection.CsprojLinesAppend | nuget-update.py:56 | the filter distributes over concatenation, so it keeps the order of the lines |
| ProjectSelection.CsprojLinesSingle | nuget-update.py:56 | one line contributes its stripped form exactly when that form ends in `.csproj` |
| ProjectSelection.CsprojLinesComplete | nuget-update.py:56 | every line whose stripped form ends in `.csproj` is selected |
| ProjectSelection.CsprojLinesSound | nuget-update.py:56 | every selected entry is the stripped form of some line of the listing |
| ProjectSelection.AskForProject | nuget-update.py:66-68 | a project is chosen iff `1 <= selection <= len(projects)`, and it is then `projects[selection - 1]`; 0 and every other number choose none |
| ProjectSelection.ChosenProjectIsTruthy | nuget-update.py:66-68 | a chosen project is never the empty string, so the caller's truth test equals "a project was chosen" |
| Driver.RestoreBuild | nuget-update.py:70-91 | an absent project runs nothing and gives false; otherwise restore runs first, build runs iff restore succeeded, and the result is true iff both succeeded |
| Driver.RestoreAndBuild | nuget-update.py:70-91 | the sequential steps with early returns give exactly what `RestoreBuild` describes |
| Driver.Choose | nuget-update.py:118-121 | the sole project without a menu, otherwise the menu and the numbered choice; `SoleProjectChosenWithoutAsking`, `InRangeChoiceRestores` and `OutOfRangeChoiceSkips` state its effect on a run |
| Driver.Script | nuget-update.py:93-130 | every run starts with the outdated listing; `EarlyStops`, `CleanRun` and the lemmas below characterise the rest |
| Driver.AfterListing | nuget-update.py:98-116 | the run after the outdated listing was read: a parse crash, no packages, failed updates, or the solution listing; `EarlyStops` and `CleanRun` characterise it |
| Driver.Deploy | nuget-update.py:116-124 | the run after the solution listing; `DeployExtends` and `DeployPrompts` characterise it |
| Driver.RunScript | nuget-update.py:93-130 | the main block, step by step, gives exactly the report and events of `Script` |
| Driver.PreambleRunsCommands | nuget-update.py:96-116 | before the solution listing only commands run, one per package plus the two listings |
| Driver.DeployExtends | nuget-update.py:116-124 | the steps after the solution listing only add to what already ran |
| Driver.DeployPrompts | nuget-update.py:117-121 | the menu is shown only for two or more projects; it comes first, lists exactly those projects, and is shown only once |
| Driver.CleanRun | nuget-update.py:105-116 | once every update succeeded, the run goes on to the solution listing |
| Driver.EarlyStops | nuget-update.py:96-130 | a failed or empty listing, a crashing parse, no outdated packages, and a failed update each stop the run, and each names the commands it ran |
| Driver.BuildOnlyAfterCleanUpdates | nuget-update.py:105-123 | restore and build are reached only when every update succeeded; the events then start with the outdated listing, each update in order, and the solution listing |
| Driver.FailedUpdateSkipsBuild | nuget-update.py:105-111 | a failed update reports all the collected errors after every update was still attempted, and nothing further runs |
| Driver.SoleProjectChosenWithoutAsking | nuget-update.py:117-123 | with clean updates and exactly one project, that project is restored without a menu, whatever number would be typed |
| Driver.PromptListsSeveralProjects | nuget-update.py:117-121 | a menu in a run implies that every update succeeded and there are two or more projects; it comes right after the solution listing and lists exactly those projects |
| Driver.OutOfRangeChoiceSkips | nuget-update.py:117-122 | with several projects, 0 or any number out of range shows the menu and then skips restore and build |
| Driver.InRangeChoiceRestores | nuget-update.py:117-123 | with clean updates and several projects, a number in 1..n shows the menu and then restores, and builds when the restore succeeded, the project with that number |
| Driver.NoProjectsStops | nuget-update.py:116-126 | with clean updates and no `.csproj` in the solution, the run stops right after the solution listing |
| Driver.OnePackagePreamble | nuget-update.py:96-116 | the preamble for one record is the outdated listing, that record's update, and the solution listing |
| Driver.OnePackageOneProject | nuget-update.py:93-124 | with one outdated package and one startup project, and a successful update and restore, the run is: listing, update to the latest version, solution listing, restore, build; it reports the build's success |

## Left out

- Process execution (`subprocess.run` and the plumbing of `run_command`, nuget-update.py:6-13, 45, 78, 86) is replaced by the `Tool` oracle. A command that cannot be started at all (for example, when `dotnet` is missing) raises an exception in Python, and the model does not represent that.
- The `Tool` oracle is a function of the command alone. Two runs of the same command therefore get the same outcome. The script runs every command at most once per run, except that two records with the same project, name and latest version would repeat one `dotnet add`.
- Printed messages and ANSI colour codes are not modelled; they carry no decisions. That includes the error messages of `run_command`, the package count, the error report, and the menu's text. The menu appears only as the `Prompt(projects)` event.
- `input()` and `int(...)` at nuget-update.py:65 are replaced by the selection, given as an `int`. Non-numeric input, which raises `ValueError`, is not modelled.
- `str.splitlines()` is not modelled; command output arrives as a sequence of lines. A non-empty output string is represented as a non-empty list of lines, which matches `splitlines()`.
- The unused `json` import (nuget-update.py:4) is not modelled.
- Strings are sequences of Unicode scalar values. `str.isspace()` is written out as its fixed character set.
