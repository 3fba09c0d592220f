/**
 * The driver (`main`): in fix mode the formatter runs first and its outcome
 * is dropped; then the four checks run in the order they are listed, each
 * reduced to a bool by `run_check`, and `all(results)` decides the exit
 * status, 0 or 1.
 *
 * The tree is an input (its walk, as it stands once the formatter, if any,
 * has run), and so are the child processes (`run`).
 */
module Dazpycheck {
  import opened PyStrings
  import opened Outcomes
  import opened BannedWords
  import opened PyCompile

  /** One entry of `checks`: a check function together with its arguments. */
  datatype Check =
    | BannedWordScan
    | Command(argv: seq<string>, description: string)
    | CompileGate

  function Flake8(directory: string): seq<string> {
    ["python3", "-m", "flake8", directory]
  }

  function Pyright(directory: string): seq<string> {
    ["python3", "-m", "pyright", directory]
  }

  function Black(directory: string): seq<string> {
    ["python3", "-m", "black", directory]
  }

  /** `checks`, in declaration order. */
  function Checks(directory: string): seq<Check> {
    [ BannedWordScan,
      Command(Flake8(directory), "Flake8 linting"),
      Command(Pyright(directory), "Pyright type check"),
      CompileGate ]
  }

  /** What the check function returns when called with its arguments. */
  function Returned(check: Check, walk: seq<FileEntry>, run: seq<string> -> ChildResult): CheckReturn {
    match check
    case BannedWordScan => FindingList(Findings(walk, Banned))
    case Command(argv, description) => Tuple(RunCommand(description, run(argv)))
    case CompileGate => Tuple(CompileOutcome(walk, run))
  }

  /** Calling the check function of one entry. */
  method Execute(check: Check, walk: seq<FileEntry>, run: seq<string> -> ChildResult) returns (r: CheckReturn)
    ensures r == Returned(check, walk, run)
  {
    match check
    case BannedWordScan =>
      var found := FindBannedWords(walk);
      r := FindingList(found);
    case Command(argv, description) =>
      r := Tuple(RunCommand(description, run(argv)));
    case CompileGate =>
      ghost var attempted;
      var o;
      o, attempted := PyCompileCheck(walk, run);
      r := Tuple(o);
  }

  /** `run_check`: call the check, then reduce what it returned to pass or fail. */
  method RunCheck(check: Check, walk: seq<FileEntry>, run: seq<string> -> ChildResult) returns (passed: bool)
    ensures passed == Passes(Returned(check, walk, run))
  {
    var result := Execute(check, walk, run);
    match result
    case FindingList(findings) =>
      passed := findings == [];
    case Tuple(outcome) =>
      passed := outcome.passed;
  }

  /** The results list, one bool per check, in the order of `checks`. */
  function Results(checks: seq<Check>, walk: seq<FileEntry>, run: seq<string> -> ChildResult): (rs: seq<bool>)
    ensures |rs| == |checks|
  {
    if checks == [] then []
    else Results(checks[..|checks| - 1], walk, run) + [Passes(Returned(checks[|checks| - 1], walk, run))]
  }

  /** Python's `all(bs)`. */
  function All(bs: seq<bool>): bool {
    bs == [] || (All(bs[..|bs| - 1]) && bs[|bs| - 1])
  }

  /** `0 if all(results) else 1`. */
  function ExitStatus(results: seq<bool>): int {
    if All(results) then 0 else 1
  }

  /** The status `main` returns for a tree and the children's behaviour. */
  function Status(directory: string, walk: seq<FileEntry>, run: seq<string> -> ChildResult): int {
    ExitStatus(Results(Checks(directory), walk, run))
  }

  /** The results for one more check. */
  lemma ResultsStep(checks: seq<Check>, walk: seq<FileEntry>, run: seq<string> -> ChildResult, i: nat)
    requires i < |checks|
    ensures Results(checks[..i + 1], walk, run) == Results(checks[..i], walk, run) + [Passes(Returned(checks[i], walk, run))]
  {
    assert checks[..i + 1][..i] == checks[..i];
  }

  /**
   * `main` with `single_thread` set. The formatter's outcome in fix mode is
   * discarded, so the status does not depend on `fix`.
   */
  method Run(directory: string, walk: seq<FileEntry>, fix: bool, run: seq<string> -> ChildResult) returns (status: int)
    ensures status == Status(directory, walk, run)
  {
    if fix {
      var _ := RunCommand("Black formatting", run(Black(directory)));
    }
    var checks := Checks(directory);
    var results: seq<bool> := [];
    var i := 0;
    while i < |checks|
      invariant i <= |checks|
      invariant results == Results(checks[..i], walk, run)
    {
      ResultsStep(checks, walk, run, i);
      var passed := RunCheck(checks[i], walk, run);
      results := results + [passed];
      i := i + 1;
    }
    assert checks[..i] == checks;
    if All(results) {
      status := 0;
    } else {
      status := 1;
    }
  }

  // What the exit status means.

  /** `all` holds exactly when every element holds; in particular it holds of `[]`. */
  lemma {:induction false} AllIff(bs: seq<bool>)
    ensures All(bs) <==> forall k :: 0 <= k < |bs| ==> bs[k]
  {
    if bs != [] {
      var init := bs[..|bs| - 1];
      AllIff(init);
      forall k | 0 <= k < |init| ensures init[k] == bs[k] { }
    }
  }

  /** The exit status is 0 or 1, and 0 exactly when every result is true. */
  lemma ExitStatusIff(results: seq<bool>)
    ensures ExitStatus(results) == 0 || ExitStatus(results) == 1
    ensures ExitStatus(results) == 0 <==> forall k :: 0 <= k < |results| ==> results[k]
  {
    AllIff(results);
  }

  /** The results of the four checks, in order. */
  lemma ChecksResults(directory: string, walk: seq<FileEntry>, run: seq<string> -> ChildResult)
    ensures Results(Checks(directory), walk, run) == [
      Findings(walk, Banned) == [],
      run(Flake8(directory)).exitCode == 0,
      run(Pyright(directory)).exitCode == 0,
      CompileOutcome(walk, run).passed ]
  {
    var cs := Checks(directory);
    assert cs[..0] == [];
    ResultsStep(cs, walk, run, 0);
    ResultsStep(cs, walk, run, 1);
    ResultsStep(cs, walk, run, 2);
    ResultsStep(cs, walk, run, 3);
    assert cs[..4] == cs;
    CommandCheckPasses("Flake8 linting", run(Flake8(directory)));
    CommandCheckPasses("Pyright type check", run(Pyright(directory)));
  }

  /**
   * `main` returns 0 exactly when the scan finds no banned word, flake8 and
   * pyright both exit 0, and every `.py` file compiles; otherwise it returns 1.
   */
  lemma StatusIff(directory: string, walk: seq<FileEntry>, run: seq<string> -> ChildResult)
    ensures Status(directory, walk, run) == 0 || Status(directory, walk, run) == 1
    ensures Status(directory, walk, run) == 0 <==>
      Findings(walk, Banned) == []
      && run(Flake8(directory)).exitCode == 0
      && run(Pyright(directory)).exitCode == 0
      && forall k :: 0 <= k < |walk| && IsPy(walk[k]) ==> Compiles(run, PathOf(walk[k]))
  {
    var rs := Results(Checks(directory), walk, run);
    ChecksResults(directory, walk, run);
    ExitStatusIff(rs);
    assert (forall k :: 0 <= k < |rs| ==> rs[k]) <==> rs[0] && rs[1] && rs[2] && rs[3];
    CompileOutcomeIff(walk, run);
  }
}
