/**
 * The test runner (`run_tests`): test files are picked by name from the
 * walk, each is read and classified by the import it contains, pytest and
 * unittest files are run one after another, and the exit codes are folded
 * into 0 or 1. A file with neither import is skipped and counts as passing.
 *
 * The walk of the test tree and the child processes are inputs, as for the
 * other checks. `open` raising on a file that cannot be read is not caught
 * by the source, so such a file ends the run with `ReadError`.
 */
module TestRunner {
  import opened PyStrings
  import opened Outcomes
  import opened BannedWords

  /** `file.endswith("_test.py") or file.startswith("test_")`. */
  predicate IsTestName(name: string) {
    EndsWith(name, "_test.py") || StartsWith(name, "test_")
  }

  /** The test files, in walk order. */
  function TestFiles(walk: seq<FileEntry>): (files: seq<FileEntry>)
    ensures |files| <= |walk|
  {
    if walk == [] then []
    else
      var e := walk[|walk| - 1];
      TestFiles(walk[..|walk| - 1]) + (if IsTestName(e.name) then [e] else [])
  }

  /** What `f.read()` returns for a file read as `lines`. */
  function Text(lines: seq<string>): string {
    if lines == [] then "" else JoinWith(lines, '\n')
  }

  /** How a test file is run, decided by its first matching import. */
  datatype Kind = Pytest | Unittest | Unmarked

  function Classify(text: string): Kind {
    if Contains(text, "import pytest") then Pytest
    else if Contains(text, "import unittest") then Unittest
    else Unmarked
  }

  /** The kind of a readable file. */
  function KindOf(e: FileEntry): Kind
    requires e.content.Readable?
  {
    Classify(Text(e.content.lines))
  }

  /** The command line that runs one test file. */
  function TestCommand(kind: Kind, path: string): seq<string>
    requires kind != Unmarked
  {
    ["python3", "-m", if kind == Pytest then "pytest" else "unittest", path]
  }

  /** A readable test file that is run and exits non-zero. */
  predicate Fails(run: seq<string> -> ChildResult, e: FileEntry) {
    e.content.Readable? && KindOf(e) != Unmarked && run(TestCommand(KindOf(e), PathOf(e))).exitCode != 0
  }

  /** No file of `files` fails. */
  predicate AllPass(run: seq<string> -> ChildResult, files: seq<FileEntry>) {
    files == [] || (AllPass(run, files[..|files| - 1]) && !Fails(run, files[|files| - 1]))
  }

  /** The command lines the runner starts for `files`, in order. */
  function TestCommands(files: seq<FileEntry>): seq<seq<string>> {
    if files == [] then []
    else
      var e := files[|files| - 1];
      TestCommands(files[..|files| - 1])
      + (if e.content.Readable? && KindOf(e) != Unmarked then [TestCommand(KindOf(e), PathOf(e))] else [])
  }

  /** The index of the first file that cannot be read, or `|files|` when all can. */
  function FirstUnreadable(files: seq<FileEntry>): (u: nat)
    ensures u <= |files|
    ensures u < |files| ==> files[u].content.Unreadable?
  {
    if files == [] then 0
    else if files[0].content.Unreadable? then 0
    else 1 + FirstUnreadable(files[1..])
  }

  /** Every file before `FirstUnreadable` can be read. */
  lemma {:induction false} BeforeUnreadable(files: seq<FileEntry>, k: nat)
    requires k < FirstUnreadable(files)
    ensures files[k].content.Readable?
  {
    if k > 0 {
      BeforeUnreadable(files[1..], k - 1);
    }
  }

  /** What `run_tests` ends with: an exit status, or the error of a file it could not open. */
  datatype TestsResult = Exit(code: int) | ReadError(path: string)

  /** The result of `run_tests` for a walk of the test tree. */
  function RunTestsResult(walk: seq<FileEntry>, run: seq<string> -> ChildResult): TestsResult {
    var files := TestFiles(walk);
    if files == [] then Exit(0)
    else if FirstUnreadable(files) < |files| then ReadError(PathOf(files[FirstUnreadable(files)]))
    else if AllPass(run, files) then Exit(0)
    else Exit(1)
  }

  /** The test files of a longer prefix of the walk. */
  lemma TestFilesStep(walk: seq<FileEntry>, i: nat)
    requires i < |walk|
    ensures TestFiles(walk[..i + 1]) == TestFiles(walk[..i]) + (if IsTestName(walk[i].name) then [walk[i]] else [])
  {
    assert walk[..i + 1][..i] == walk[..i];
  }

  /** The verdict and commands over one more test file. */
  lemma RunStep(run: seq<string> -> ChildResult, files: seq<FileEntry>, j: nat)
    requires j < |files|
    ensures AllPass(run, files[..j + 1]) <==> AllPass(run, files[..j]) && !Fails(run, files[j])
    ensures TestCommands(files[..j + 1]) == TestCommands(files[..j])
      + (if files[j].content.Readable? && KindOf(files[j]) != Unmarked
         then [TestCommand(KindOf(files[j]), PathOf(files[j]))] else [])
  {
    assert files[..j + 1][..j] == files[..j];
  }

  /** The first file that cannot be read is the one at `j`, when all before it can. */
  lemma UnreadableAt(files: seq<FileEntry>, j: nat)
    requires j <= FirstUnreadable(files) && j < |files| && files[j].content.Unreadable?
    ensures FirstUnreadable(files) == j
  {
    if FirstUnreadable(files) > j {
      BeforeUnreadable(files, j);
    }
  }

  /** Collecting the test files: the first loop of `run_tests`. */
  method CollectTestFiles(walk: seq<FileEntry>) returns (testFiles: seq<FileEntry>)
    ensures testFiles == TestFiles(walk)
  {
    testFiles := [];
    var i := 0;
    while i < |walk|
      invariant i <= |walk|
      invariant testFiles == TestFiles(walk[..i])
    {
      TestFilesStep(walk, i);
      if IsTestName(walk[i].name) {
        testFiles := testFiles + [walk[i]];
      }
      i := i + 1;
    }
    assert walk[..i] == walk;
  }

  /**
   * `run_tests`: every test file is run in turn, and one failure does not
   * stop the rest; `ran` records the command lines started, in order.
   */
  method RunTests(walk: seq<FileEntry>, run: seq<string> -> ChildResult)
    returns (r: TestsResult, ghost ran: seq<seq<string>>)
    ensures r == RunTestsResult(walk, run)
    ensures ran == TestCommands(TestFiles(walk)[..FirstUnreadable(TestFiles(walk))])
  {
    var testFiles := CollectTestFiles(walk);
    ran := [];
    if testFiles == [] {
      return Exit(0), ran;
    }
    var allTestsPassed := true;
    var j := 0;
    while j < |testFiles|
      invariant j <= |testFiles| && j <= FirstUnreadable(testFiles)
      invariant allTestsPassed <==> AllPass(run, testFiles[..j])
      invariant ran == TestCommands(testFiles[..j])
    {
      var e := testFiles[j];
      RunStep(run, testFiles, j);
      if e.content.Unreadable? {
        UnreadableAt(testFiles, j);
        return ReadError(PathOf(e)), ran;
      }
      var content := Text(e.content.lines);
      if Contains(content, "import pytest") {
        var result := run(["python3", "-m", "pytest", PathOf(e)]);
        ran := ran + [["python3", "-m", "pytest", PathOf(e)]];
        if result.exitCode != 0 {
          allTestsPassed := false;
        }
      } else if Contains(content, "import unittest") {
        var result := run(["python3", "-m", "unittest", PathOf(e)]);
        ran := ran + [["python3", "-m", "unittest", PathOf(e)]];
        if result.exitCode != 0 {
          allTestsPassed := false;
        }
      } else {
        assert ran + [] == ran;
      }
      j := j + 1;
    }
    assert testFiles[..j] == testFiles;
    if allTestsPassed {
      r := Exit(0);
    } else {
      r := Exit(1);
    }
  }

  // What the runner promises.

  /** A file is a test file exactly when it is in the walk and its name is a test name. */
  lemma {:induction false} TestFilesIff(walk: seq<FileEntry>, e: FileEntry)
    ensures e in TestFiles(walk) <==> e in walk && IsTestName(e.name)
  {
    if walk != [] {
      var init := walk[..|walk| - 1];
      TestFilesIff(init, e);
      assert walk == init + [walk[|walk| - 1]];
    }
  }

  /** The files run pass exactly when none of them, at any position, fails. */
  lemma {:induction false} AllPassIff(run: seq<string> -> ChildResult, files: seq<FileEntry>)
    ensures AllPass(run, files) <==> forall k :: 0 <= k < |files| ==> !Fails(run, files[k])
  {
    if files != [] {
      var init := files[..|files| - 1];
      AllPassIff(run, init);
      forall k | 0 <= k < |init| ensures init[k] == files[k] { }
    }
  }

  /** A file with neither import is never a failure. */
  lemma UnmarkedNeverFails(run: seq<string> -> ChildResult, e: FileEntry)
    requires e.content.Readable?
    requires !Contains(Text(e.content.lines), "import pytest") && !Contains(Text(e.content.lines), "import unittest")
    ensures !Fails(run, e)
  {
  }

  /**
   * `run_tests` returns 0 exactly when no test file is found, or every test
   * file can be read and none that is run exits non-zero; it returns 1 when
   * they can all be read and one fails.
   */
  lemma RunTestsIff(walk: seq<FileEntry>, run: seq<string> -> ChildResult)
    ensures RunTestsResult(walk, run) == Exit(0) <==>
      TestFiles(walk) == []
      || (FirstUnreadable(TestFiles(walk)) == |TestFiles(walk)|
          && forall k :: 0 <= k < |TestFiles(walk)| ==> !Fails(run, TestFiles(walk)[k]))
    ensures RunTestsResult(walk, run) == Exit(1) <==>
      TestFiles(walk) != [] && FirstUnreadable(TestFiles(walk)) == |TestFiles(walk)|
      && exists k :: 0 <= k < |TestFiles(walk)| && Fails(run, TestFiles(walk)[k])
  {
    AllPassIff(run, TestFiles(walk));
  }

  /** A pytest import decides the kind even when a unittest import is there too. */
  lemma PytestFirst(text: string)
    requires Contains(text, "import pytest")
    ensures Classify(text) == Pytest
  {
  }

  /** A file with both imports is run with pytest. */
  lemma BothImportsExample()
    ensures Classify("import unittest\nimport pytest") == Pytest
  {
    ContainsSuffix("import unittest\n", "import pytest");
    assert "import unittest\n" + "import pytest" == "import unittest\nimport pytest";
  }
}
