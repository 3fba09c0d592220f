# dazpycheck, modelled in Dafny

dazpycheck is a local code-quality gate for Python trees. `main` optionally
runs the Black formatter. It then runs four checks in a fixed order:

- a scan for banned words ("mock", "fallback", "simulate", "pretend", "fake");
- flake8;
- pyright;
- a `py_compile` pass over every `.py` file.

It reduces each check's return value to a bool with `run_check` and exits
with 0 when all of them pass and 1 otherwise. A separate `run_tests` entry
point finds test files, classifies them as pytest or unittest by their
imports, runs them and folds their exit codes into 0 or 1.

This project models those decision and accumulation rules and proves what
they promise. The filesystem and the child processes are inputs:

- **The walk** is a sequence of `FileEntry(root, name, content)` values in
  the order `os.walk` yields the files. `content` is `Readable(lines)` or
  `Unreadable`.
- **The child processes** are a function `run` from a command line to a
  `ChildResult(exitCode, stdout, stderr)`.

| file | module | models |
|---|---|---|
| `py_strings.dfy` | `PyStrings` | the Python built-ins used: `in` on strings, `startswith`, `endswith`, `split` on one character, `posixpath.join`, `str(n)` |
| `outcomes.dfy` | `Outcomes` | the outcome tuple `run_command` shapes from a finished child, and the `run_check` reduction |
| `banned_words.dfy` | `BannedWords` | `BANNED_WORDS` and `find_banned_words` |
| `py_compile.dfy` | `PyCompile` | `py_compile_check` |
| `test_runner.dfy` | `TestRunner` | `run_tests` |
| `dazpycheck.dfy` | `Dazpycheck` | `main` in its sequential branch |

**The scanner's specification.** `HitsFrom(walk, words, i, n, w)` is every
match still to be found from scan position (file `i`, line `n + 1`, word
`w`). `Findings` renders `Hits = HitsFrom(.., 0, 0, 0)` into finding
strings.

The scanner itself is three methods, one for each level of iteration:

- `FindBannedWords` goes over the files. The flat walk stands for the two
  loops of main.py:39-40.
- `ScanFile` goes over the lines of one file.
- `ScanLine` goes over the words for one line.

Each keeps "what is found plus what is still to find" unchanged. So what
`FindBannedWords` returns is exactly `Findings(walk, Banned)`.

The lemmas then prove four things about `Hits`, for any list of words:

- it lists exactly the real (file, line, word) matches (`HitsExact`);
- it lists them in walk, line and word order (`HitsOrdered`);
- it lists each match once (`HitsDistinct`);
- it leaves out files under `.git` and unreadable files without stopping the
  walk (`SkippedEntry`, `ExcludedFileSilent`).

Behaviour of the code worth noting:

- **Failed command diagnostic.** The diagnostic of a failed command is
  `"<description> failed.\n" + stdout + "\n" + stderr` (main.py:33).
- **Spawn failures.** Only `CalledProcessError` is caught (main.py:32,
  101). A binary that cannot be started therefore raises out of the check
  instead of becoming a failed outcome. This is not modelled.
- **Compile gate diagnostic.** On failure the compile gate returns the fixed
  text `"Failed to compile some python files."` (main.py:110). It only
  prints the failing paths (main.py:102-104).
- **`.git` in the compile gate.** The compile gate does not skip `.git`
  (main.py:95-98); only the scanner does (main.py:41-42).

## Model

| member | source | states |
|---|---|---|
| PyStrings.ContainsIff | src/dazpycheck/main.py:48 | `word in line` holds exactly when the word occurs in the line at some position (case-sensitive substring) |
| PyStrings.SplitIff | src/dazpycheck/main.py:41 | `root.split('/')` is the one list of `/`-free parts whose `/`-join is `root` |
| PyStrings.JoinSplit | src/dazpycheck/main.py:41 | joining the parts of a split with the separator gives the string back |
| PyStrings.SplitJoin | src/dazpycheck/main.py:41 | separator-free parts, joined and split again, come back unchanged |
| PyStrings.DecimalRoundTrip | src/dazpycheck/main.py:49 | the line number written by `str(n)` reads back as `n` |
| PyStrings.NatToStringInjective | src/dazpycheck/main.py:49 | different line numbers are written differently |
| PyStrings.NoLeadingZero | src/dazpycheck/main.py:49 | the line number written for a positive `n` does not start with `0`, as Python's `str(n)` |
| PyStrings.JoinAddsComponent | src/dazpycheck/main.py:43 | `os.path.join(root, file)` of a non-empty directory not ending in `/` and a `/`-free name is `root + "/" + name`, whose components are those of `root` followed by the name |
| Outcomes.RunCommand | src/dazpycheck/main.py:22-35 | passes exactly on exit status 0 with an empty diagnostic; otherwise the diagnostic starts with `"<description> failed.\n"` and ends with the child's stderr |
| Outcomes.FailedCommandReportsOutput | src/dazpycheck/main.py:32-35 | a failed command's diagnostic is non-empty and contains the description, the child's stdout and its stderr |
| Outcomes.CommandCheckPasses | src/dazpycheck/main.py:54-62 | `run_check` on a command outcome passes exactly when the child exited 0 |
| BannedWords.FindBannedWords | src/dazpycheck/main.py:37-52 | the scanner returns exactly `Findings(walk, Banned)` |
| BannedWords.ScanFile | src/dazpycheck/main.py:40-51 | one file adds exactly its own findings, and none for a file under `.git` or one that cannot be read |
| BannedWords.ScanLine | src/dazpycheck/main.py:46-49 | one line adds exactly its own findings, word by word in `BANNED_WORDS` order |
| BannedWords.WordStep | src/dazpycheck/main.py:47-49 | testing one word appends its finding exactly when the line contains it |
| BannedWords.HitsFromIff | src/dazpycheck/main.py:39-49 | from any scan position, the scan lists exactly the real matches at or after it |
| BannedWords.HitsExact | src/dazpycheck/main.py:39-49 | a (file, line, word) triple is found exactly when that line of a scanned file contains that word |
| BannedWords.HitsOrdered | src/dazpycheck/main.py:39-49 | matches come in walk order, then line order, then word order |
| BannedWords.HitsFromChained | src/dazpycheck/main.py:39-49 | from any scan position, each match found comes before the next |
| BannedWords.ChainedOrdered | src/dazpycheck/main.py:39-49 | a list where each match precedes the next is ordered pairwise |
| BannedWords.HitsDistinct | src/dazpycheck/main.py:46-49 | no triple is found twice, however often the word occurs on the line |
| BannedWords.FindingsAt | src/dazpycheck/main.py:49 | there is one finding per match, and finding `k` is the text of match `k` |
| BannedWords.FindingsExact | src/dazpycheck/main.py:39-49 | a string is a finding exactly when it is the text of some real match |
| BannedWords.FindingFormat | src/dazpycheck/main.py:49 | a finding reads `<path>:<line>: Banned word '<word>' found.` |
| BannedWords.NoFindingsIff | src/dazpycheck/main.py:37-52 | the scan reports nothing exactly when no scanned line contains a word |
| BannedWords.SkippedEntry | src/dazpycheck/main.py:44-51 | replacing a file by an unreadable one removes exactly that file's matches; later files are still scanned |
| BannedWords.ExcludedFileSilent | src/dazpycheck/main.py:41-42 | a file under `.git`, or one that cannot be read, contributes no match |
| BannedWords.GitDirIff | src/dazpycheck/main.py:41-42 | for a directory of `/`-free components, the file is excluded exactly when one component is `.git` |
| BannedWords.GitDirExcluded | src/dazpycheck/main.py:41-42 | `repo/.git/objects` is excluded |
| BannedWords.GitHubNotExcluded | src/dazpycheck/main.py:41-42 | `repo/.github` is not excluded |
| BannedWords.DotGitSuffixNotExcluded | src/dazpycheck/main.py:41-42 | `repo/x.git` is not excluded |
| BannedWords.ExamplePath | src/dazpycheck/main.py:43 | `os.path.join("src", "app.py")` is `src/app.py` |
| BannedWords.ExampleHits | src/dazpycheck/main.py:39-49 | in a three-line file whose third line is "this is a mock response", the only match is "mock" on line 3 |
| BannedWords.ExampleFindings | src/dazpycheck/main.py:37-52 | that file yields exactly one finding, for `src/app.py` line 3 and "mock" |
| PyCompile.PyCompileCheck | src/dazpycheck/main.py:92-110 | returns the gate's outcome, and runs one compile command per `.py` file, in walk order, whatever failed before |
| PyCompile.GateStep | src/dazpycheck/main.py:97-105 | after each file the flag is still true exactly when everything so far compiled |
| PyCompile.PyFilesIff | src/dazpycheck/main.py:95-98 | a path is compiled exactly when some file of the walk with a `.py` name has it |
| PyCompile.CompileOutcomeIff | src/dazpycheck/main.py:106-110 | the gate passes with an empty diagnostic exactly when every `.py` file compiles; otherwise its diagnostic is `"Failed to compile some python files."` |
| PyCompile.NoPythonPasses | src/dazpycheck/main.py:94-108 | a walk without `.py` files passes |
| PyCompile.OneFailureFails | src/dazpycheck/main.py:101-110 | one file that fails to compile fails the gate |
| PyCompile.CommandAt | src/dazpycheck/main.py:100 | the k-th command run is `python -m py_compile <k-th .py path>` |
| TestRunner.CollectTestFiles | src/dazpycheck/main.py:114-118 | the files collected are the test files of the walk, in walk order |
| TestRunner.TestFilesIff | src/dazpycheck/main.py:117 | a file is collected exactly when it is in the walk and its name ends in `_test.py` or starts with `test_` |
| TestRunner.RunTests | src/dazpycheck/main.py:112-151 | returns `RunTestsResult`, and runs every classified test file before the first unreadable one, in order, whatever failed before |
| TestRunner.FirstUnreadable | src/dazpycheck/main.py:127 | the index found is that of an unreadable file, or the end of the list |
| TestRunner.UnreadableAt | src/dazpycheck/main.py:125-128 | the file at which the loop stops is the first that cannot be opened |
| TestRunner.AllPassIff | src/dazpycheck/main.py:124-146 | the run passes exactly when no file run exits non-zero |
| TestRunner.RunTestsIff | src/dazpycheck/main.py:120-151 | the result is 0 exactly when no test file is found, or all can be read and none fails; it is 1 exactly when all can be read and one fails |
| TestRunner.UnmarkedNeverFails | src/dazpycheck/main.py:143-144 | a file with neither import is skipped and never fails |
| TestRunner.PytestFirst | src/dazpycheck/main.py:129-136 | a file containing `import pytest` is run with pytest |
| TestRunner.BothImportsExample | src/dazpycheck/main.py:129-137 | a file with both imports is run with pytest |
| Dazpycheck.Execute | src/dazpycheck/main.py:70-75 | calling a check entry returns the findings list or the outcome tuple of that check |
| Dazpycheck.RunCheck | src/dazpycheck/main.py:54-62 | `run_check` passes a findings list exactly when it is empty, and a tuple exactly when its first element is true |
| Dazpycheck.Run | src/dazpycheck/main.py:64-90 | the exit status is `Status(directory, walk, run)`, whatever the fix flag |
| Dazpycheck.ChecksResults | src/dazpycheck/main.py:70-80 | the results list is, in order: no banned word found, flake8 exited 0, pyright exited 0, every `.py` file compiled |
| Dazpycheck.AllIff | src/dazpycheck/main.py:85 | `all(results)` holds exactly when every result is true; it holds for an empty list |
| Dazpycheck.ExitStatusIff | src/dazpycheck/main.py:85-90 | the status is 0 or 1, and 0 exactly when every result is true |
| Dazpycheck.StatusIff | src/dazpycheck/main.py:64-90 | `main` returns 0 exactly when no banned word is found, flake8 and pyright exit 0 and every `.py` file compiles; otherwise 1 |

## Left out

- Child processes are not spawned. `subprocess.run` is replaced by the
  input `run`, a function from a command line to its child's result. It
  gives the same result to the same command line. `run` keeps no record of
  earlier commands, so Black's changes to the files show only through the
  walk, which describes the tree after formatting.
- Spawn errors are not modelled. Only `CalledProcessError` is caught
  (main.py:32, 101), so a missing binary raises out of `run_command` and
  `py_compile_check`.
- The filesystem is an input. `os.walk` order, the directory tree and
  decoding are not modelled: the walk is given as a flat sequence, and a
  file's content as its decoded lines.
- Paths are POSIX: `os.path.sep` is `/`, and `os.path.join` is modelled for
  two components.
- Lines carry no terminators. No banned word contains a newline, and
  neither does an import marker. For `run_tests`, `f.read()` is modelled as
  the lines joined with `\n`.
- BannedWords.Content: a file that fails to read partway through is modelled
  as wholly unreadable. The source keeps the findings of the lines it read
  before the error.
- Decoding differs between the two readers and is not modelled. The scanner
  opens files with `errors="ignore"`, while `run_tests` uses the default
  decoding. The model gives one content per file to both.
- TestRunner.RunTests: the `directory` argument is only printed and is
  omitted. The walk stands for the hard-coded `src` tree (main.py:115).
- TestRunner.RunTests: an unreadable test file ends the run with
  `ReadError`, because the exception from `open` is not caught.
- Printing and colour (`print_error`, `print_success`, `print_info`,
  colorama) are not modelled. They only write messages.
- Parallel mode (`Pool.starmap`, main.py:82-83) is not modelled. `starmap`
  returns results in input order, so `Dazpycheck.Run` models the sequential
  loop and takes no `single_thread` flag.
- `src/dazpycheck/init_test.py` is not part of this model. It checks the
  version string and that `main` and `cli` can be called, using objects
  from modules that are not shown.
- BannedWords.FindingText is not proved injective. A path may itself
  contain `:`, so two different matches could render the same text. "One
  finding per triple" is stated on the matches instead (`HitsDistinct`,
  `FindingsAt`).
- The scanner's lemmas are stated for any list of words.
  `BannedWords.FindBannedWords` uses `Banned`, the source's `BANNED_WORDS`.
