/**
 * The two test-runner scripts, rbf/run_test.py and rm/run_test.py. Each
 * cleans and builds with `make`, then starts the test programs of its list
 * one after the other and stops at the first nonzero exit status; the rbf
 * script also cleans again in a `finally` block once the build has
 * succeeded. The processes are not modelled: an oracle gives the exit
 * status of the n-th process the script starts, and a nonzero status from
 * `check_output` or `check_returncode` raises, which ends the script.
 */
module TestRun {
  import opened Wrappers

  /** A process the scripts start: a shell command line or a program path. */
  datatype Command = Shell(line: string) | Program(path: string)

  const CLEAN: Command := Shell("make clean")
  const MAKE_PARALLEL: Command := Shell("make -j")
  const MAKE: Command := Shell("make")

  /** `test_list` of rbf/run_test.py. */
  const RBF_TESTS: seq<Command> := [
    Program("./rbftest_01"), Program("./rbftest_02"), Program("./rbftest_03"),
    Program("./rbftest_04"), Program("./rbftest_05"), Program("./rbftest_06"),
    Program("./rbftest_07"), Program("./rbftest_08"), Program("./rbftest_08b"),
    Program("./rbftest_09"), Program("./rbftest_10"), Program("./rbftest_11"),
    Program("./rbftest_12"), Program("./rbftest_update"), Program("./rbftest_delete")]

  /** `test_list` of rm/run_test.py. */
  const RM_TESTS: seq<Command> := [
    Program("./rmtest_create_tables"), Program("./rmtest_delete_tables"), Program("./rmtest_create_tables"),
    Program("./rmtest_00"), Program("./rmtest_01"), Program("./rmtest_02"), Program("./rmtest_03"),
    Program("./rmtest_04"), Program("./rmtest_05"), Program("./rmtest_06"), Program("./rmtest_07"),
    Program("./rmtest_08"), Program("./rmtest_09"), Program("./rmtest_10"), Program("./rmtest_11"),
    Program("./rmtest_12"), Program("./rmtest_13"), Program("./rmtest_13b"), Program("./rmtest_14"),
    Program("./rmtest_15")]

  /** The exit status of the process started at a given position of the run. */
  type Oracle = (nat, Command) -> int

  /**
   * The test loop `for task in test_list: subprocess.run(task).check_returncode()`
   * with its first process at position `base`: the programs started and
   * the one whose failure raises, if any.
   */
  function TestPhase(status: Oracle, base: nat, tests: seq<Command>): (seq<Command>, Option<Command>)
    decreases |tests|
  {
    if |tests| == 0 then ([], None)
    else if status(base, tests[0]) != 0 then ([tests[0]], Some(tests[0]))
    else
      var rest := TestPhase(status, base + 1, tests[1..]);
      ([tests[0]] + rest.0, rest.1)
  }

  /** Tests start in list order: those started are a prefix of the list, all of it when none fails. */
  lemma {:induction false} TestPhasePrefix(status: Oracle, base: nat, tests: seq<Command>)
    ensures var r := TestPhase(status, base, tests);
      |r.0| <= |tests| && r.0 == tests[..|r.0|] && (r.1.None? ==> r.0 == tests)
    decreases |tests|
  {
    if |tests| > 0 && status(base, tests[0]) == 0 {
      var rest := TestPhase(status, base + 1, tests[1..]);
      TestPhasePrefix(status, base + 1, tests[1..]);
      assert tests[..|rest.0| + 1] == [tests[0]] + tests[1..][..|rest.0|];
    }
  }

  /** Fail-fast: every test started before the last one passed, and a raise names the last one, which failed. */
  lemma {:induction false} TestPhaseStopsAtFailure(status: Oracle, base: nat, tests: seq<Command>)
    ensures var r := TestPhase(status, base, tests);
      |r.0| <= |tests| &&
      (forall j | 0 <= j < |r.0| - 1 :: status(base + j, tests[j]) == 0) &&
      (r.1.Some? ==> |r.0| > 0 && r.1.value == tests[|r.0| - 1] && status(base + |r.0| - 1, r.1.value) != 0)
    decreases |tests|
  {
    if |tests| > 0 && status(base, tests[0]) == 0 {
      var rest := TestPhase(status, base + 1, tests[1..]);
      TestPhaseStopsAtFailure(status, base + 1, tests[1..]);
      assert forall j | 1 <= j < |rest.0| + 1 :: tests[1..][j - 1] == tests[j] && (base + 1) + (j - 1) == base + j;
      if rest.1.Some? {
        var k := |rest.0|;
        assert (base + 1) + k - 1 == base + (k + 1) - 1;
        assert rest.1.value == tests[k] && status(base + k, tests[k]) != 0;
      }
    }
  }

  /** The loop raises exactly when some test of the list fails. */
  lemma {:induction false} TestPhaseRaisesIffFailure(status: Oracle, base: nat, tests: seq<Command>)
    ensures TestPhase(status, base, tests).1.None? <==> forall j | 0 <= j < |tests| :: status(base + j, tests[j]) == 0
    decreases |tests|
  {
    if |tests| > 0 && status(base, tests[0]) == 0 {
      TestPhaseRaisesIffFailure(status, base + 1, tests[1..]);
      assert forall j | 1 <= j < |tests| :: tests[1..][j - 1] == tests[j] && (base + 1) + (j - 1) == base + j;
      if forall j | 0 <= j < |tests[1..]| :: status(base + 1 + j, tests[1..][j]) == 0 {
        assert forall j | 0 <= j < |tests| :: status(base + j, tests[j]) == 0 by {
          forall j | 0 <= j < |tests|
            ensures status(base + j, tests[j]) == 0
          {
            if j > 0 {
              assert status(base + 1 + (j - 1), tests[1..][j - 1]) == 0;
            }
          }
        }
      } else {
        var j :| 0 <= j < |tests[1..]| && status(base + 1 + j, tests[1..][j]) != 0;
        assert status(base + (j + 1), tests[j + 1]) != 0;
      }
    }
  }

  /** What a whole script run does: the processes started, in order, and the command whose failure ended it. */
  datatype ScriptRun = ScriptRun(started: seq<Command>, raised: Option<Command>)

  /**
   * rbf/run_test.py over the list `tests`: clean, parallel build, the test
   * loop, and in its `finally` a second clean. A failing final clean
   * raises in place of a failed test.
   */
  function RbfScript(status: Oracle, tests: seq<Command>): ScriptRun
  {
    if status(0, CLEAN) != 0 then ScriptRun([CLEAN], Some(CLEAN))
    else if status(1, MAKE_PARALLEL) != 0 then ScriptRun([CLEAN, MAKE_PARALLEL], Some(MAKE_PARALLEL))
    else
      var phase := TestPhase(status, 2, tests);
      var last := 2 + |phase.0|;
      ScriptRun([CLEAN, MAKE_PARALLEL] + phase.0 + [CLEAN],
                if status(last, CLEAN) != 0 then Some(CLEAN) else phase.1)
  }

  /** rm/run_test.py over the list `tests`: clean, build, then the test loop, with nothing after it. */
  function RmScript(status: Oracle, tests: seq<Command>): ScriptRun
  {
    if status(0, CLEAN) != 0 then ScriptRun([CLEAN], Some(CLEAN))
    else if status(1, MAKE) != 0 then ScriptRun([CLEAN, MAKE], Some(MAKE))
    else
      var phase := TestPhase(status, 2, tests);
      ScriptRun([CLEAN, MAKE] + phase.0, phase.1)
  }

  /** The shell the scripts run in: the processes started so far and the oracle for their statuses. */
  class Processes {
    const status: Oracle
    var started: seq<Command>

    constructor(oracle: Oracle)
      ensures status == oracle && started == []
    {
      status := oracle;
      started := [];
    }

    /** Starts `c` and returns its exit status. */
    method Run(c: Command) returns (code: int)
      modifies this
      ensures started == old(started) + [c]
      ensures code == status(|old(started)|, c)
    {
      code := status(|started|, c);
      started := started + [c];
    }
  }

  /** The test loop of both scripts (rbf/run_test.py:23-24, rm/run_test.py:26-27). */
  method RunTests(p: Processes, tests: seq<Command>) returns (failed: Option<Command>)
    modifies p
    ensures var r := TestPhase(p.status, |old(p.started)|, tests);
      p.started == old(p.started) + r.0 && failed == r.1
  {
    ghost var s0 := p.started;
    var i := 0;
    assert tests[..0] + TestPhase(p.status, |s0|, tests[0..]).0 == TestPhase(p.status, |s0|, tests).0 by {
      assert tests[0..] == tests;
    }
    while i < |tests|
      invariant 0 <= i <= |tests|
      invariant p.started == s0 + tests[..i]
      invariant var rest := TestPhase(p.status, |s0| + i, tests[i..]);
        TestPhase(p.status, |s0|, tests) == (tests[..i] + rest.0, rest.1)
    {
      assert tests[i..][1..] == tests[i + 1..];
      ghost var rest := TestPhase(p.status, |s0| + i, tests[i..]);
      ghost var next := TestPhase(p.status, |s0| + i + 1, tests[i + 1..]);
      var code := p.Run(tests[i]);
      if code != 0 {
        assert rest == ([tests[i]], Some(tests[i]));
        assert p.started == s0 + (tests[..i] + rest.0);
        return Some(tests[i]);
      }
      assert rest == ([tests[i]] + next.0, next.1);
      assert tests[..i] + rest.0 == tests[..i + 1] + next.0;
      i := i + 1;
    }
    assert tests[i..] == [] && tests[..i] == tests;
    assert TestPhase(p.status, |s0| + i, tests[i..]) == ([], None);
    assert tests[..i] + [] == tests;
    assert TestPhase(p.status, |s0|, tests) == (tests, None);
    return None;
  }

  /** rbf/run_test.py:19-26, from a shell that has started nothing yet. */
  method RunRbf(p: Processes) returns (raised: Option<Command>)
    requires p.started == []
    modifies p
    ensures ScriptRun(p.started, raised) == RbfScript(p.status, RBF_TESTS)
  {
    raised := RunRbfList(p, RBF_TESTS);
  }

  /** The steps of rbf/run_test.py for a given list; the last clean is the `finally` block. */
  method RunRbfList(p: Processes, tests: seq<Command>) returns (raised: Option<Command>)
    requires p.started == []
    modifies p
    ensures ScriptRun(p.started, raised) == RbfScript(p.status, tests)
  {
    var code := p.Run(CLEAN);
    if code != 0 {
      return Some(CLEAN);
    }
    code := p.Run(MAKE_PARALLEL);
    if code != 0 {
      return Some(MAKE_PARALLEL);
    }
    var failed := RunTests(p, tests);
    code := p.Run(CLEAN);
    if code != 0 {
      return Some(CLEAN);
    }
    return failed;
  }

  /** rm/run_test.py:23-27, from a shell that has started nothing yet. */
  method RunRm(p: Processes) returns (raised: Option<Command>)
    requires p.started == []
    modifies p
    ensures ScriptRun(p.started, raised) == RmScript(p.status, RM_TESTS)
  {
    raised := RunRmList(p, RM_TESTS);
  }

  /** The steps of rm/run_test.py for a given list. */
  method RunRmList(p: Processes, tests: seq<Command>) returns (raised: Option<Command>)
    requires p.started == []
    modifies p
    ensures ScriptRun(p.started, raised) == RmScript(p.status, tests)
  {
    var code := p.Run(CLEAN);
    if code != 0 {
      return Some(CLEAN);
    }
    code := p.Run(MAKE);
    if code != 0 {
      return Some(MAKE);
    }
    raised := RunTests(p, tests);
  }

  /** A build step passes and no test of the list fails. */
  predicate BuildAndTestsPass(status: Oracle, build: Command, tests: seq<Command>)
  {
    status(0, CLEAN) == 0 && status(1, build) == 0 &&
    forall j | 0 <= j < |tests| :: status(2 + j, tests[j]) == 0
  }

  /** Every entry of the list is a test program, not a shell command. */
  predicate AllPrograms(tests: seq<Command>)
  {
    forall j | 0 <= j < |tests| :: tests[j].Program?
  }

  /** The two lists as the scripts write them. */
  lemma TestLists()
    ensures |RBF_TESTS| == 15 && AllPrograms(RBF_TESTS)
    ensures |RM_TESTS| == 20 && AllPrograms(RM_TESTS)
    ensures RM_TESTS[0] == RM_TESTS[2] == Program("./rmtest_create_tables")
    ensures RM_TESTS[1] == Program("./rmtest_delete_tables")
  {
  }

  /** Both scripts clean and then build before any test starts, and a failing build step raises. */
  lemma BuildBeforeTests(status: Oracle, tests: seq<Command>)
    ensures var r := RbfScript(status, tests);
      r.started[0] == CLEAN && (|r.started| > 1 ==> r.started[1] == MAKE_PARALLEL) &&
      (status(0, CLEAN) != 0 ==> r.raised == Some(CLEAN)) &&
      (status(0, CLEAN) == 0 && status(1, MAKE_PARALLEL) != 0 ==> r.raised == Some(MAKE_PARALLEL))
    ensures var r := RmScript(status, tests);
      r.started[0] == CLEAN && (|r.started| > 1 ==> r.started[1] == MAKE) &&
      (status(0, CLEAN) != 0 ==> r.raised == Some(CLEAN)) &&
      (status(0, CLEAN) == 0 && status(1, MAKE) != 0 ==> r.raised == Some(MAKE))
  {
  }

  /** A failed rbf build comes before the `try`: no test starts and no final clean runs. */
  lemma RbfBuildFailureStopsEarly(status: Oracle, tests: seq<Command>)
    ensures status(0, CLEAN) != 0 || status(1, MAKE_PARALLEL) != 0 ==>
      var s := RbfScript(status, tests).started;
      |s| <= 2 && forall i | 0 <= i < |s| :: s[i].Shell?
  {
  }

  /**
   * Once the rbf build succeeds, the final clean runs exactly once, as the
   * last process, whether the tests pass or fail: every process between the
   * build and it is a test program of the list.
   */
  lemma RbfCleansOnceAfterBuild(status: Oracle, tests: seq<Command>)
    requires AllPrograms(tests)
    ensures status(0, CLEAN) == 0 && status(1, MAKE_PARALLEL) == 0 ==>
      var s := RbfScript(status, tests).started;
      |s| >= 3 && s[|s| - 1] == CLEAN && forall i | 2 <= i < |s| - 1 :: s[i].Program?
  {
    if status(0, CLEAN) == 0 && status(1, MAKE_PARALLEL) == 0 {
      TestPhasePrefix(status, 2, tests);
      var t := TestPhase(status, 2, tests).0;
      var s := RbfScript(status, tests).started;
      assert forall i | 2 <= i < |s| - 1 :: s[i] == t[i - 2] == tests[i - 2];
    }
  }

  /** When the build and every test pass, the rbf run is the build, each test once in list order, then the clean. */
  lemma RbfAllPass(status: Oracle, tests: seq<Command>)
    requires BuildAndTestsPass(status, MAKE_PARALLEL, tests)
    ensures RbfScript(status, tests).started == [CLEAN, MAKE_PARALLEL] + tests + [CLEAN]
    ensures RbfScript(status, tests).raised == if status(2 + |tests|, CLEAN) != 0 then Some(CLEAN) else None
  {
    TestPhaseRaisesIffFailure(status, 2, tests);
    TestPhasePrefix(status, 2, tests);
  }

  /**
   * Fail-fast in the rbf script: after a successful build, the tests
   * started are the list up to and including the first failing one, and
   * the final clean follows them.
   */
  lemma RbfFailFast(status: Oracle, tests: seq<Command>, k: nat)
    requires status(0, CLEAN) == 0 && status(1, MAKE_PARALLEL) == 0
    requires k < |tests| && status(2 + k, tests[k]) != 0
    requires forall j | 0 <= j < k :: status(2 + j, tests[j]) == 0
    ensures RbfScript(status, tests).started == [CLEAN, MAKE_PARALLEL] + tests[..k + 1] + [CLEAN]
    ensures RbfScript(status, tests).raised == if status(3 + k, CLEAN) != 0 then Some(CLEAN) else Some(tests[k])
  {
    FirstFailureStops(status, tests, k);
  }

  /** No clean follows the rm test phase: the only clean is the first process. */
  lemma RmNoFinalClean(status: Oracle, tests: seq<Command>)
    requires AllPrograms(tests)
    ensures var s := RmScript(status, tests).started;
      forall i | 1 <= i < |s| :: s[i] != CLEAN
  {
    if status(0, CLEAN) == 0 && status(1, MAKE) == 0 {
      TestPhasePrefix(status, 2, tests);
      var t := TestPhase(status, 2, tests).0;
      var s := RmScript(status, tests).started;
      assert forall i | 2 <= i < |s| :: s[i] == t[i - 2] == tests[i - 2];
    }
  }

  /** When the build and every test pass, every rm entry runs once per occurrence, in list order, and nothing raises. */
  lemma RmAllPass(status: Oracle, tests: seq<Command>)
    requires BuildAndTestsPass(status, MAKE, tests)
    ensures RmScript(status, tests).started == [CLEAN, MAKE] + tests
    ensures RmScript(status, tests).raised == None
  {
    TestPhaseRaisesIffFailure(status, 2, tests);
    TestPhasePrefix(status, 2, tests);
  }

  /** The test loop started at position 2 stops right after the first failing test `k`. */
  lemma FirstFailureStops(status: Oracle, tests: seq<Command>, k: nat)
    requires k < |tests| && status(2 + k, tests[k]) != 0
    requires forall j | 0 <= j < k :: status(2 + j, tests[j]) == 0
    ensures TestPhase(status, 2, tests) == (tests[..k + 1], Some(tests[k]))
  {
    TestPhasePrefix(status, 2, tests);
    TestPhaseStopsAtFailure(status, 2, tests);
    TestPhaseRaisesIffFailure(status, 2, tests);
  }

  /** Fail-fast in the rm script: after a successful build, the tests started are the list up to the first failing one. */
  lemma RmFailFast(status: Oracle, tests: seq<Command>, k: nat)
    requires status(0, CLEAN) == 0 && status(1, MAKE) == 0
    requires k < |tests| && status(2 + k, tests[k]) != 0
    requires forall j | 0 <= j < k :: status(2 + j, tests[j]) == 0
    ensures RmScript(status, tests).started == [CLEAN, MAKE] + tests[..k + 1]
    ensures RmScript(status, tests).raised == Some(tests[k])
  {
    FirstFailureStops(status, tests, k);
  }
}
