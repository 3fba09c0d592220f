/**
 * How the checker turns what a check function returns into a pass/fail bit:
 * the outcome tuple that `run_command` shapes from a finished child process,
 * and the reduction `run_check` applies to either kind of return value.
 */
module Outcomes {
  import opened PyStrings

  /**
   * What a child process left behind once it exited: its exit status and
   * the text it wrote to its standard output and standard error.
   */
  datatype ChildResult = ChildResult(exitCode: int, stdout: string, stderr: string)

  /** The `(passed, diagnostic)` tuple a process-backed check returns. */
  datatype Outcome = Outcome(passed: bool, diagnostic: string)

  /**
   * What a check function hands back to `run_check`: either a list of
   * findings (the banned-word scan) or an outcome tuple (every other check).
   */
  datatype CheckReturn = FindingList(findings: seq<string>) | Tuple(outcome: Outcome)

  /**
   * `run_command` once its child has exited. `subprocess.run(..., check=True)`
   * raises `CalledProcessError` exactly when the exit status is non-zero; the
   * handler turns that into a failed outcome whose diagnostic is the check's
   * description, the word "failed.", and both captured streams.
   */
  function RunCommand(description: string, child: ChildResult): (o: Outcome)
    ensures o.passed <==> child.exitCode == 0
    ensures o.passed ==> o.diagnostic == ""
    ensures !o.passed ==> StartsWith(o.diagnostic, description + " failed.\n")
    ensures !o.passed ==> EndsWith(o.diagnostic, child.stderr)
  {
    if child.exitCode == 0 then Outcome(true, "")
    else Outcome(false, description + " failed.\n" + child.stdout + "\n" + child.stderr)
  }

  /**
   * A failed command never has an empty diagnostic, and the diagnostic
   * carries the description and both captured streams.
   */
  lemma FailedCommandReportsOutput(description: string, child: ChildResult)
    requires child.exitCode != 0
    ensures RunCommand(description, child).diagnostic != ""
    ensures Contains(RunCommand(description, child).diagnostic, description)
    ensures Contains(RunCommand(description, child).diagnostic, child.stdout)
    ensures Contains(RunCommand(description, child).diagnostic, child.stderr)
  {
    var failed := description + " failed.\n";
    ContainsIff(description, description);
    assert OccursAt(description, description, 0);
    ContainsExtend(description, description, " failed.\n");
    ContainsSuffix(failed, child.stdout);
    ContainsExtend(failed, description, child.stdout);
    ContainsExtend(failed + child.stdout, description, "\n");
    ContainsExtend(failed + child.stdout, child.stdout, "\n");
    ContainsExtend(failed + child.stdout + "\n", description, child.stderr);
    ContainsExtend(failed + child.stdout + "\n", child.stdout, child.stderr);
    ContainsSuffix(failed + child.stdout + "\n", child.stderr);
  }

  /**
   * `run_check`'s reduction: a list of findings passes when it is empty, an
   * outcome tuple passes when its first element is true.
   */
  function Passes(r: CheckReturn): bool {
    match r
    case FindingList(findings) => findings == []
    case Tuple(outcome) => outcome.passed
  }

  /** A command check, reduced by `run_check`, passes exactly on a zero exit. */
  lemma CommandCheckPasses(description: string, child: ChildResult)
    ensures Passes(Tuple(RunCommand(description, child))) <==> child.exitCode == 0
  {
  }
}
