/**
 * The compile gate (`py_compile_check`): every file of the walk whose name
 * ends in `.py` is handed to `python -m py_compile`, one after another; a
 * failure clears a flag but does not stop the loop, and the flag decides the
 * outcome tuple.
 *
 * Child processes are an input: `run` maps a command line to what the child
 * left behind once it exited.
 */
module PyCompile {
  import opened PyStrings
  import opened Outcomes
  import opened BannedWords

  /** The file is one the gate compiles: `file.endswith('.py')`. */
  predicate IsPy(e: FileEntry) {
    EndsWith(e.name, ".py")
  }

  /** The command line that compiles one file. */
  function CompileCommand(path: string): seq<string> {
    ["python", "-m", "py_compile", path]
  }

  /** `subprocess.run(..., check=True)` returns without raising: the file compiled. */
  predicate Compiles(run: seq<string> -> ChildResult, path: string) {
    run(CompileCommand(path)).exitCode == 0
  }

  /** The paths the gate compiles, in walk order. */
  function PyFiles(walk: seq<FileEntry>): (paths: seq<string>)
    ensures |paths| <= |walk|
  {
    if walk == [] then []
    else
      var e := walk[|walk| - 1];
      PyFiles(walk[..|walk| - 1]) + (if IsPy(e) then [PathOf(e)] else [])
  }

  /** The command lines the gate runs, one per path, in order. */
  function CompileCommands(paths: seq<string>): (cmds: seq<seq<string>>)
    ensures |cmds| == |paths|
  {
    if paths == [] then []
    else CompileCommands(paths[..|paths| - 1]) + [CompileCommand(paths[|paths| - 1])]
  }

  /** Every path in `paths` compiles. */
  predicate AllCompile(run: seq<string> -> ChildResult, paths: seq<string>) {
    forall p :: p in paths ==> Compiles(run, p)
  }

  /** The diagnostic of a failed gate. */
  const CompileFailure: string := "Failed to compile some python files."

  /** The tuple `py_compile_check` returns. */
  function CompileOutcome(walk: seq<FileEntry>, run: seq<string> -> ChildResult): Outcome {
    if AllCompile(run, PyFiles(walk)) then Outcome(true, "") else Outcome(false, CompileFailure)
  }

  /** The `.py` paths of a longer prefix of the walk. */
  lemma PyFilesStep(walk: seq<FileEntry>, i: nat)
    requires i < |walk|
    ensures PyFiles(walk[..i + 1]) == PyFiles(walk[..i]) + (if IsPy(walk[i]) then [PathOf(walk[i])] else [])
  {
    assert walk[..i + 1][..i] == walk[..i];
  }

  /** Compiling one more file of the walk: the flag survives only if that file compiles. */
  lemma GateStep(walk: seq<FileEntry>, run: seq<string> -> ChildResult, i: nat)
    requires i < |walk|
    ensures AllCompile(run, PyFiles(walk[..i + 1])) <==>
      AllCompile(run, PyFiles(walk[..i])) && (IsPy(walk[i]) ==> Compiles(run, PathOf(walk[i])))
  {
    PyFilesStep(walk, i);
  }

  /** The commands run for one more file of the walk. */
  lemma CommandsStep(walk: seq<FileEntry>, i: nat)
    requires i < |walk|
    ensures CompileCommands(PyFiles(walk[..i + 1])) ==
      CompileCommands(PyFiles(walk[..i])) + (if IsPy(walk[i]) then [CompileCommand(PathOf(walk[i]))] else [])
  {
    var before := PyFiles(walk[..i]);
    PyFilesStep(walk, i);
    if IsPy(walk[i]) {
      assert (before + [PathOf(walk[i])])[..|before|] == before;
    } else {
      assert before + [] == before;
    }
  }

  /**
   * `py_compile_check`: the flag starts true and only ever goes false; every
   * `.py` file is attempted whatever happened before. `attempted` records the
   * command lines run, in order.
   */
  method PyCompileCheck(walk: seq<FileEntry>, run: seq<string> -> ChildResult)
    returns (o: Outcome, ghost attempted: seq<seq<string>>)
    ensures o == CompileOutcome(walk, run)
    ensures attempted == CompileCommands(PyFiles(walk))
  {
    var compiledSuccessfully := true;
    attempted := [];
    var i := 0;
    while i < |walk|
      invariant i <= |walk|
      invariant compiledSuccessfully <==> AllCompile(run, PyFiles(walk[..i]))
      invariant attempted == CompileCommands(PyFiles(walk[..i]))
    {
      var e := walk[i];
      GateStep(walk, run, i);
      CommandsStep(walk, i);
      if IsPy(e) {
        var filePath := PathOf(e);
        var child := run(CompileCommand(filePath));
        attempted := attempted + [CompileCommand(filePath)];
        if child.exitCode != 0 {
          compiledSuccessfully := false;
        }
      }
      i := i + 1;
    }
    assert walk[..i] == walk;
    if compiledSuccessfully {
      o := Outcome(true, "");
    } else {
      o := Outcome(false, CompileFailure);
    }
  }

  /** File `k` of the walk is a `.py` file with path `p`. */
  predicate PyAt(walk: seq<FileEntry>, k: int, p: string) {
    0 <= k < |walk| && IsPy(walk[k]) && PathOf(walk[k]) == p
  }

  /** The `.py` files of a walk are those of all but its last file, and possibly that one. */
  lemma PyAtLast(walk: seq<FileEntry>, init: seq<FileEntry>, p: string)
    requires walk != [] && init == walk[..|walk| - 1]
    ensures (exists k :: PyAt(walk, k, p)) <==> (exists k :: PyAt(init, k, p)) || PyAt(walk, |walk| - 1, p)
  {
    if exists k :: PyAt(init, k, p) {
      var k :| PyAt(init, k, p);
      assert PyAt(walk, k, p);
    }
    if exists k :: PyAt(walk, k, p) {
      var k :| PyAt(walk, k, p);
      if k < |init| {
        assert PyAt(init, k, p);
      }
    }
  }

  /** A path is compiled exactly when some `.py` file of the walk has it. */
  lemma {:induction false} PyFilesIff(walk: seq<FileEntry>, p: string)
    ensures p in PyFiles(walk) <==> exists k :: PyAt(walk, k, p)
  {
    if walk != [] {
      var init := walk[..|walk| - 1];
      PyFilesIff(init, p);
      PyAtLast(walk, init, p);
    }
  }

  /**
   * The gate passes, with an empty diagnostic, exactly when every `.py` file
   * of the walk compiles; otherwise it fails with its fixed diagnostic.
   */
  lemma CompileOutcomeIff(walk: seq<FileEntry>, run: seq<string> -> ChildResult)
    ensures CompileOutcome(walk, run).passed <==>
      forall k :: 0 <= k < |walk| && IsPy(walk[k]) ==> Compiles(run, PathOf(walk[k]))
    ensures CompileOutcome(walk, run).passed ==> CompileOutcome(walk, run).diagnostic == ""
    ensures !CompileOutcome(walk, run).passed ==> CompileOutcome(walk, run).diagnostic == CompileFailure
  {
    forall p | p in PyFiles(walk) ensures exists k :: PyAt(walk, k, p) {
      PyFilesIff(walk, p);
    }
    forall k | 0 <= k < |walk| && IsPy(walk[k]) ensures PathOf(walk[k]) in PyFiles(walk) {
      assert PyAt(walk, k, PathOf(walk[k]));
      PyFilesIff(walk, PathOf(walk[k]));
    }
  }

  /** A walk without `.py` files passes the gate. */
  lemma NoPythonPasses(walk: seq<FileEntry>, run: seq<string> -> ChildResult)
    requires forall k :: 0 <= k < |walk| ==> !IsPy(walk[k])
    ensures CompileOutcome(walk, run) == Outcome(true, "")
  {
    CompileOutcomeIff(walk, run);
  }

  /** One file that does not compile fails the gate, whatever the others do. */
  lemma OneFailureFails(walk: seq<FileEntry>, run: seq<string> -> ChildResult, k: nat)
    requires k < |walk| && IsPy(walk[k]) && !Compiles(run, PathOf(walk[k]))
    ensures CompileOutcome(walk, run) == Outcome(false, CompileFailure)
  {
    CompileOutcomeIff(walk, run);
  }

  /** The `k`-th command the gate runs compiles the `k`-th `.py` path. */
  lemma {:induction false} CommandAt(paths: seq<string>, k: nat)
    requires k < |paths|
    ensures CompileCommands(paths)[k] == CompileCommand(paths[k])
    decreases |paths|
  {
    if k < |paths| - 1 {
      var init := paths[..|paths| - 1];
      CommandAt(init, k);
      assert init[k] == paths[k];
    }
  }
}
