/**
 pkg/building/boards.go: `BuildBoards` starts one goroutine per board; they share `tmpErr`,
 `err`, a mutex and a WaitGroup. A schedule is the list of steps taken, in order, by the
 goroutines and by the caller waiting for them; every schedule is considered.
 */
module BoardBuild {
  import opened Wrappers
  import opened Counting

  type Error = string

  /** Where a goroutine stands; each name is the step it takes next. */
  datatype PC =
    | Lock1     // mu.Lock()
    | Test      // if tmpErr == nil && err == nil
    | Build     // tmpErr = buildBoard(board, true), running
    | Unlock1   // mu.Unlock()
    | Check     // if tmpErr == nil && logWhenDone, without the lock
    | Log       // "Built board successfully"
    | Lock2     // mu.Lock()
    | Propagate // if err == nil && tmpErr != nil { err = tmpErr }
    | Unlock2   // mu.Unlock()
    | Finish    // wg.Done()
    | Done

  /** `builds` records the finished calls of `buildBoard` in order, `log` the lines logged. */
  datatype State = State(
    pcs: seq<PC>, tmpErr: Option<Error>, err: Option<Error>, lock: Option<nat>, wg: int,
    builds: seq<(nat, Option<Error>)>, log: seq<nat>, result: Option<Option<Error>>)

  /** A step: goroutine `i` moves (its build, if it ends one, ends with `outcome`), or the caller returns. */
  datatype Step = Go(i: nat, outcome: Option<Error>) | Return

  function Init(n: nat): State {
    State(seq(n, _ => Lock1), None, None, None, n, [], [], None)
  }

  predicate Enabled(s: State, step: Step) {
    match step
    case Go(i, _) =>
      i < |s.pcs| && s.pcs[i] != Done && (s.pcs[i].Lock1? || s.pcs[i].Lock2? ==> s.lock.None?)
    case Return => s.wg == 0 && s.result.None?
  }

  /** Where goroutine `i` stands after its next step. */
  function NextPC(s: State, i: nat, logWhenDone: bool): PC
    requires i < |s.pcs|
  {
    match s.pcs[i]
    case Lock1 => Test
    case Test => if s.tmpErr.None? && s.err.None? then Build else Unlock1
    case Build => Unlock1
    case Unlock1 => Check
    case Check => if s.tmpErr.None? && logWhenDone then Log else Lock2
    case Log => Lock2
    case Lock2 => Propagate
    case Propagate => Unlock2
    case Unlock2 => Finish
    case Finish => Done
    case Done => Done
  }

  function Apply(s: State, step: Step, logWhenDone: bool): State
    requires Enabled(s, step)
  {
    match step
    case Return => s.(result := Some(s.err))
    case Go(i, outcome) =>
      var pc := s.pcs[i];
      State(
        s.pcs[i := NextPC(s, i, logWhenDone)],
        if pc.Build? then outcome else s.tmpErr,
        if pc.Propagate? && s.err.None? && s.tmpErr.Some? then s.tmpErr else s.err,
        if pc.Lock1? || pc.Lock2? then Some(i) else if pc.Unlock1? || pc.Unlock2? then None else s.lock,
        if pc.Finish? then s.wg - 1 else s.wg,
        if pc.Build? then s.builds + [(i, outcome)] else s.builds,
        if pc.Log? then s.log + [i] else s.log,
        s.result)
  }

  /** The state a schedule of steps leads to; `None` when it takes a step that is not enabled. */
  function After(n: nat, logWhenDone: bool, schedule: seq<Step>): Option<State> {
    if |schedule| == 0 then Some(Init(n))
    else
      var last := |schedule| - 1;
      var before := After(n, logWhenDone, schedule[..last]);
      if before.Some? && Enabled(before.value, schedule[last])
      then Some(Apply(before.value, schedule[last], logWhenDone))
      else None
  }

  // ---------------------------------------------------------------- the invariant

  predicate HoldsLock(pc: PC) {
    pc.Test? || pc.Build? || pc.Unlock1? || pc.Propagate? || pc.Unlock2?
  }

  predicate PastBuild(pc: PC) {
    !(pc.Lock1? || pc.Test? || pc.Build?)
  }

  predicate PastPropagate(pc: PC) {
    pc.Unlock2? || pc.Finish? || pc.Done?
  }

  function Live(pcs: seq<PC>): (r: seq<bool>)
    ensures |r| == |pcs|
  {
    seq(|pcs|, i requires 0 <= i < |pcs| => pcs[i] != Done)
  }

  ghost predicate WasBuilt(builds: seq<(nat, Option<Error>)>, i: nat) {
    exists k :: 0 <= k < |builds| && builds[k].0 == i
  }

  /** The builds ran one after another, each board at most once, stopping at the first failure. */
  ghost predicate SequentialBuilds(builds: seq<(nat, Option<Error>)>, n: nat) {
    && (forall k :: 0 <= k < |builds| ==> builds[k].0 < n)
    && (forall j, k :: 0 <= j < k < |builds| ==> builds[j].0 != builds[k].0)
    && (forall k :: 0 <= k < |builds| - 1 ==> builds[k].1.None?)
  }

  ghost predicate CountInv(s: State) {
    s.wg == Count(Live(s.pcs)) && (s.result.Some? ==> s.wg == 0 && s.result.value == s.err)
  }

  ghost predicate LockInv(s: State) {
    && (forall i :: 0 <= i < |s.pcs| ==> (HoldsLock(s.pcs[i]) <==> s.lock == Some(i)))
    && (s.lock.Some? ==> s.lock.value < |s.pcs|)
  }

  /** `tmpErr` is the outcome of the last build, and only its owner can be about to build again. */
  ghost predicate BuildInv(s: State) {
    && SequentialBuilds(s.builds, |s.pcs|)
    && s.tmpErr == (if |s.builds| == 0 then None else s.builds[|s.builds| - 1].1)
    && (s.err.Some? ==> s.err == s.tmpErr)
    && (forall k :: 0 <= k < |s.builds| ==> PastBuild(s.pcs[s.builds[k].0]))
    && (forall i :: 0 <= i < |s.pcs| && s.pcs[i].Build? ==> s.tmpErr.None?)
  }

  /** A board is skipped only after a failure, and the board that failed propagates its error. */
  ghost predicate SkipInv(s: State) {
    && (forall i :: 0 <= i < |s.pcs| && PastBuild(s.pcs[i]) ==> s.tmpErr.Some? || WasBuilt(s.builds, i))
    && (forall k :: 0 <= k < |s.builds| && s.builds[k].0 < |s.pcs| && s.builds[k].1.Some? ==>
                      PastPropagate(s.pcs[s.builds[k].0]) ==> s.err.Some?)
  }

  ghost predicate LogInv(s: State) {
    && (forall i :: 0 <= i < |s.pcs| && s.pcs[i].Log? ==> (i, None) in s.builds)
    && (forall i :: i in s.log ==> (i, None) in s.builds)
  }

  predicate PastLog(pc: PC) {
    pc.Lock2? || pc.Propagate? || pc.Unlock2? || pc.Finish? || pc.Done?
  }

  /** Each board is logged at most once, and none without `logWhenDone`. */
  ghost predicate LoggedOnce(s: State, logWhenDone: bool) {
    && (!logWhenDone ==> s.log == [] && forall i :: 0 <= i < |s.pcs| ==> !s.pcs[i].Log?)
    && (forall k :: 0 <= k < |s.log| ==> s.log[k] < |s.pcs| && PastLog(s.pcs[s.log[k]]))
    && (forall j, k :: 0 <= j < k < |s.log| ==> s.log[j] != s.log[k])
  }

  /** With `logWhenDone` each board is logged while nothing has failed. */
  ghost predicate LoggedAll(s: State, logWhenDone: bool) {
    logWhenDone && s.tmpErr.None? ==> forall i :: 0 <= i < |s.pcs| && PastLog(s.pcs[i]) ==> i in s.log
  }

  lemma CountStep(s: State, step: Step, logWhenDone: bool)
    requires CountInv(s) && Enabled(s, step)
    ensures CountInv(Apply(s, step, logWhenDone))
  {
    if step.Go? {
      var live := NextPC(s, step.i, logWhenDone) != Done;
      CountUpdate(Live(s.pcs), step.i, live);
      assert Live(Apply(s, step, logWhenDone).pcs) == Live(s.pcs)[step.i := live];
      CountZero(Live(s.pcs));
      assert Live(s.pcs)[step.i];
    }
  }

  lemma LockStep(s: State, step: Step, logWhenDone: bool)
    requires LockInv(s) && Enabled(s, step)
    ensures LockInv(Apply(s, step, logWhenDone))
  {
  }

  lemma FinishedBuild(s: State, i: nat, outcome: Option<Error>)
    requires BuildInv(s) && i < |s.pcs| && s.pcs[i].Build?
    ensures SequentialBuilds(s.builds + [(i, outcome)], |s.pcs|)
  {
    var builds := s.builds + [(i, outcome)];
    forall k | 0 <= k < |s.builds| ensures builds[k].0 != i && builds[k].1.None? {
      assert PastBuild(s.pcs[s.builds[k].0]);
    }
  }

  lemma BuildStep(s: State, step: Step, logWhenDone: bool)
    requires LockInv(s) && BuildInv(s) && Enabled(s, step)
    ensures BuildInv(Apply(s, step, logWhenDone))
  {
    var s' := Apply(s, step, logWhenDone);
    if step.Go? {
      var pc := s.pcs[step.i];
      if pc.Build? {
        FinishedBuild(s, step.i, step.outcome);
        assert s.err.None?;
      } else {
        assert s'.builds == s.builds && s'.tmpErr == s.tmpErr;
      }
      forall k | 0 <= k < |s'.builds| ensures PastBuild(s'.pcs[s'.builds[k].0]) {
        assert k < |s.builds| ==> PastBuild(s.pcs[s.builds[k].0]);
      }
      forall i | 0 <= i < |s'.pcs| && s'.pcs[i].Build? ensures s'.tmpErr.None? {
        assert i != step.i ==> s.pcs[i].Build?;
      }
    }
  }

  lemma BuiltOrFailed(s: State, step: Step, logWhenDone: bool, i: nat)
    requires BuildInv(s) && SkipInv(s) && Enabled(s, step)
    requires i < |s.pcs| && PastBuild(Apply(s, step, logWhenDone).pcs[i])
    ensures var s' := Apply(s, step, logWhenDone); s'.tmpErr.Some? || WasBuilt(s'.builds, i)
  {
    var s' := Apply(s, step, logWhenDone);
    if WasBuilt(s.builds, i) {
      var k :| 0 <= k < |s.builds| && s.builds[k].0 == i;
      assert s'.builds[k].0 == i;
    } else if step.Go? && i == step.i && s.pcs[i].Build? {
      assert s'.builds[|s.builds|].0 == i;
    }
  }

  lemma SkipStep(s: State, step: Step, logWhenDone: bool)
    requires LockInv(s) && BuildInv(s) && SkipInv(s) && Enabled(s, step)
    ensures SkipInv(Apply(s, step, logWhenDone))
  {
    var s' := Apply(s, step, logWhenDone);
    forall i | 0 <= i < |s'.pcs| && PastBuild(s'.pcs[i]) ensures s'.tmpErr.Some? || WasBuilt(s'.builds, i) {
      BuiltOrFailed(s, step, logWhenDone, i);
    }
  }

  lemma OwnBuildSucceeded(s: State, i: nat)
    requires BuildInv(s) && SkipInv(s) && i < |s.pcs|
    requires PastBuild(s.pcs[i]) && s.tmpErr.None?
    ensures (i, None) in s.builds
  {
    var k :| 0 <= k < |s.builds| && s.builds[k].0 == i;
    assert s.builds[k] == (i, None);
  }

  lemma LogStep(s: State, step: Step, logWhenDone: bool)
    requires BuildInv(s) && SkipInv(s) && LogInv(s) && Enabled(s, step)
    ensures LogInv(Apply(s, step, logWhenDone))
  {
    if step.Go? {
      var s' := Apply(s, step, logWhenDone);
      if s'.pcs[step.i].Log? {
        OwnBuildSucceeded(s, step.i);
      }
      assert forall b :: b in s.builds ==> b in s'.builds;
    }
  }

  lemma LoggedOnceStep(s: State, step: Step, logWhenDone: bool)
    requires LoggedOnce(s, logWhenDone) && Enabled(s, step)
    ensures LoggedOnce(Apply(s, step, logWhenDone), logWhenDone)
  {
    if step.Go? && s.pcs[step.i].Log? {
      assert forall k :: 0 <= k < |s.log| ==> s.log[k] != step.i;
    }
  }

  lemma LoggedAllStep(s: State, step: Step, logWhenDone: bool)
    requires BuildInv(s) && LoggedAll(s, logWhenDone) && Enabled(s, step)
    ensures LoggedAll(Apply(s, step, logWhenDone), logWhenDone)
  {
    var s' := Apply(s, step, logWhenDone);
    if step.Go? && s'.tmpErr.None? && logWhenDone {
      assert s.tmpErr.None?;
      if s.pcs[step.i].Log? {
        assert s'.log[|s.log|] == step.i;
      }
      forall i | 0 <= i < |s'.pcs| && PastLog(s'.pcs[i]) ensures i in s'.log {
        assert i in s.log ==> i in s'.log;
      }
    }
  }

  ghost predicate Inv(s: State, n: nat, logWhenDone: bool) {
    && |s.pcs| == n && CountInv(s) && LockInv(s) && BuildInv(s) && SkipInv(s) && LogInv(s)
    && LoggedOnce(s, logWhenDone) && LoggedAll(s, logWhenDone)
  }

  lemma {:induction false} InvariantHolds(n: nat, logWhenDone: bool, schedule: seq<Step>)
    requires After(n, logWhenDone, schedule).Some?
    ensures Inv(After(n, logWhenDone, schedule).value, n, logWhenDone)
  {
    if |schedule| == 0 {
      InitialInv(n, logWhenDone);
    } else {
      var last := |schedule| - 1;
      InvariantHolds(n, logWhenDone, schedule[..last]);
      StepInv(After(n, logWhenDone, schedule[..last]).value, n, schedule[last], logWhenDone);
    }
  }

  lemma InitialInv(n: nat, logWhenDone: bool)
    ensures Inv(Init(n), n, logWhenDone)
  {
    CountZero(Live(Init(n).pcs));
  }

  lemma StepInv(s: State, n: nat, step: Step, logWhenDone: bool)
    requires Inv(s, n, logWhenDone) && Enabled(s, step)
    ensures Inv(Apply(s, step, logWhenDone), n, logWhenDone)
  {
    CountStep(s, step, logWhenDone);
    LockStep(s, step, logWhenDone);
    BuildStep(s, step, logWhenDone);
    SkipStep(s, step, logWhenDone);
    LogStep(s, step, logWhenDone);
    LoggedOnceStep(s, step, logWhenDone);
    LoggedAllStep(s, step, logWhenDone);
  }

  // ---------------------------------------------------------------- results

  /** A build that ends is recorded with the outcome it ended with. */
  lemma BuildRecorded(n: nat, logWhenDone: bool, schedule: seq<Step>, i: nat, outcome: Option<Error>)
    requires After(n, logWhenDone, schedule).Some? && i < |After(n, logWhenDone, schedule).value.pcs|
    requires After(n, logWhenDone, schedule).value.pcs[i].Build?
    ensures var s := After(n, logWhenDone, schedule).value;
            var s' := After(n, logWhenDone, schedule + [Go(i, outcome)]);
            s'.Some? && s'.value.builds == s.builds + [(i, outcome)] && s'.value.tmpErr == outcome
  {
    assert (schedule + [Go(i, outcome)])[..|schedule|] == schedule;
  }

  /** In every reachable state at most one board is being built, and none once a build has failed. */
  lemma BuildsNeverOverlap(n: nat, logWhenDone: bool, schedule: seq<Step>, i: nat, j: nat)
    requires After(n, logWhenDone, schedule).Some?
    requires i < n && j < n
    ensures var s := After(n, logWhenDone, schedule).value;
            && |s.pcs| == n && 0 <= s.wg
            && (s.pcs[i].Build? && s.pcs[j].Build? ==> i == j)
            && ((exists b :: b in s.builds && b.1.Some?) ==> !s.pcs[i].Build?)
  {
    InvariantHolds(n, logWhenDone, schedule);
  }

  /** After a failure no schedule, however long, starts or finishes another build. */
  lemma {:induction false} FailureStopsBuilding(n: nat, logWhenDone: bool, schedule: seq<Step>, more: seq<Step>,
      b: (nat, Option<Error>))
    requires After(n, logWhenDone, schedule + more).Some?
    requires After(n, logWhenDone, schedule).Some?
    requires b in After(n, logWhenDone, schedule).value.builds && b.1.Some?
    ensures After(n, logWhenDone, schedule + more).value.builds == After(n, logWhenDone, schedule).value.builds
  {
    if |more| == 0 {
      assert schedule + more == schedule;
    } else {
      var rest := more[..|more| - 1];
      assert (schedule + more)[..|schedule + more| - 1] == schedule + rest;
      FailureStopsBuilding(n, logWhenDone, schedule, rest, b);
      InvariantHolds(n, logWhenDone, schedule + rest);
    }
  }

  lemma AllDone(s: State, n: nat, logWhenDone: bool, i: nat)
    requires Inv(s, n, logWhenDone) && s.result.Some? && i < n
    ensures s.pcs[i] == Done
  {
    CountZero(Live(s.pcs));
    assert !Live(s.pcs)[i];
  }

  lemma ReturnedError(s: State, n: nat, logWhenDone: bool)
    requires Inv(s, n, logWhenDone) && s.result.Some?
    ensures s.result.value == (if |s.builds| == 0 then None else s.builds[|s.builds| - 1].1)
  {
    if |s.builds| > 0 {
      AllDone(s, n, logWhenDone, s.builds[|s.builds| - 1].0);
    }
  }

  /** What `returned` says about the builds: nil is for all boards built, an error for the one that failed. */
  ghost predicate Reports(returned: Option<Error>, builds: seq<(nat, Option<Error>)>, n: nat) {
    && SequentialBuilds(builds, n)
    && (returned.None? <==> (forall i :: 0 <= i < n ==> WasBuilt(builds, i)) && forall b :: b in builds ==> b.1.None?)
    && (returned.Some? ==> |builds| > 0 && builds[|builds| - 1].1 == returned)
    && (forall b :: b in builds && b.1.Some? ==> b.1 == returned)
  }

  /**
   Every run of `BuildBoards` is a sequential run in some order of the boards. It returns nil
   exactly when every board was built once without error; otherwise it returns the one failure
   that occurred, which was the last build. A board is logged only if its own build succeeded, and
   at most once; without `logWhenDone` none is, and with it all are when nil is returned.
   */
  lemma OutcomeOfRun(n: nat, logWhenDone: bool, schedule: seq<Step>)
    requires After(n, logWhenDone, schedule).Some? && After(n, logWhenDone, schedule).value.result.Some?
    ensures var s := After(n, logWhenDone, schedule).value;
            && Reports(s.result.value, s.builds, n)
            && (forall i :: i in s.log ==> (i, None) in s.builds)
            && (forall j, k :: 0 <= j < k < |s.log| ==> s.log[j] != s.log[k])
            && (!logWhenDone ==> s.log == [])
            && (logWhenDone && s.result.value.None? ==> forall i :: 0 <= i < n ==> i in s.log)
            && |s.pcs| == n && forall i :: 0 <= i < n ==> s.pcs[i] == Done
  {
    InvariantHolds(n, logWhenDone, schedule);
    OutcomeOfState(After(n, logWhenDone, schedule).value, n, logWhenDone);
  }

  lemma OutcomeOfState(s: State, n: nat, logWhenDone: bool)
    requires Inv(s, n, logWhenDone) && s.result.Some?
    ensures Reports(s.result.value, s.builds, n) && forall i :: 0 <= i < n ==> s.pcs[i] == Done
    ensures logWhenDone && s.result.value.None? ==> forall i :: 0 <= i < n ==> i in s.log
  {
    ReturnedError(s, n, logWhenDone);
    forall i | 0 <= i < n ensures s.pcs[i] == Done {
      AllDone(s, n, logWhenDone, i);
    }
    forall b | b in s.builds ensures b.1 == s.result.value || b.1.None? {
      var k :| 0 <= k < |s.builds| && s.builds[k] == b;
      assert k < |s.builds| - 1 ==> s.builds[k].1.None?;
    }
    if s.result.value.None? {
      forall i | 0 <= i < n ensures WasBuilt(s.builds, i) {
        assert PastBuild(s.pcs[i]);
      }
    } else {
      assert s.builds[|s.builds| - 1] in s.builds;
    }
  }

  // ---------------------------------------------------------------- progress

  function Rank(pc: PC): nat {
    match pc
    case Lock1 => 10
    case Test => 9
    case Build => 8
    case Unlock1 => 7
    case Check => 6
    case Log => 5
    case Lock2 => 4
    case Propagate => 3
    case Unlock2 => 2
    case Finish => 1
    case Done => 0
  }

  function Ranks(pcs: seq<PC>): (r: seq<nat>)
    ensures |r| == |pcs|
  {
    seq(|pcs|, i requires 0 <= i < |pcs| => Rank(pcs[i]))
  }

  function Remaining(s: State): nat {
    Sum(Ranks(s.pcs)) + (if s.result.None? then 1 else 0)
  }

  lemma StepsRunOut(s: State, step: Step, logWhenDone: bool)
    requires Enabled(s, step)
    ensures Remaining(Apply(s, step, logWhenDone)) < Remaining(s)
  {
    var s' := Apply(s, step, logWhenDone);
    if step.Go? {
      assert Ranks(s'.pcs) == Ranks(s.pcs)[step.i := Rank(s'.pcs[step.i])];
      SumUpdate(Ranks(s.pcs), step.i, Rank(s'.pcs[step.i]));
    }
  }

  lemma {:induction false} InitialRank(n: nat)
    ensures Remaining(Init(n)) == 10 * n + 1
  {
    if n > 0 {
      InitialRank(n - 1);
      assert Ranks(Init(n).pcs)[..n - 1] == Ranks(Init(n - 1).pcs);
    }
  }

  /** No schedule is longer than ten steps a board and one for the caller. */
  lemma {:induction false} SchedulesAreFinite(n: nat, logWhenDone: bool, schedule: seq<Step>)
    requires After(n, logWhenDone, schedule).Some?
    ensures |schedule| + Remaining(After(n, logWhenDone, schedule).value) <= 10 * n + 1
  {
    if |schedule| == 0 {
      InitialRank(n);
    } else {
      var last := |schedule| - 1;
      SchedulesAreFinite(n, logWhenDone, schedule[..last]);
      StepsRunOut(After(n, logWhenDone, schedule[..last]).value, schedule[last], logWhenDone);
    }
  }

  /** There is no deadlock: until the caller has returned, some step can be taken. */
  lemma NoDeadlock(n: nat, logWhenDone: bool, schedule: seq<Step>)
    requires After(n, logWhenDone, schedule).Some?
    requires After(n, logWhenDone, schedule).value.result.None?
    ensures exists step :: After(n, logWhenDone, schedule + [step]).Some?
  {
    InvariantHolds(n, logWhenDone, schedule);
    var s := After(n, logWhenDone, schedule).value;
    CountZero(Live(s.pcs));
    var step :=
      if s.wg == 0 then Return
      else if s.lock.Some? then Go(s.lock.value, None)
      else
        var i :| 0 <= i < n && Live(s.pcs)[i];
        Go(i, None);
    assert Enabled(s, step);
    assert (schedule + [step])[..|schedule|] == schedule;
    assert After(n, logWhenDone, schedule + [step]).Some?;
  }
}
