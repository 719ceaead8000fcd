/**
 cmd/gochan/deleteposts.go: `deleteFile` starts up to five removals, each in a goroutine of its
 own that may run while the caller is still starting others, and waits for them.
 */
module FileRemoval {
  import opened Wrappers
  import opened Counting

  type Error = string

  /** The removals, numbered in the order in which `coalesceErrors` is given their errors. */
  const THREAD := 0
  const JSON := 1
  const CATALOG := 2
  const THUMB := 3
  const FILE := 4

  datatype Instr = Add(n: nat) | Start(job: nat) | Wait | Finish

  /** The calls of `deleteFile` on the WaitGroup and its `go` statements, in order. */
  function Program(hasFile: bool, isOP: bool, delThread: bool): seq<Instr> {
    if !hasFile then [Finish]
    else
      [Add(2)]
      + (if isOP then [Add(1), Start(CATALOG)] + (if delThread then [Add(2), Start(THREAD), Start(JSON)] else [])
        else [])
      + [Start(THUMB), Start(FILE), Wait, Finish]
  }

  /** The removals a call selects. */
  predicate Selected(hasFile: bool, isOP: bool, delThread: bool, job: nat) {
    hasFile && (job == THUMB || job == FILE || (isOP && (job == CATALOG
        || (delThread && (job == THREAD || job == JSON)))))
  }

  datatype Status = NotStarted | Removing | Removed | Done

  /** `outcomes` records how each finished `os.Remove` ended, `errs` the five error variables. */
  datatype State = State(pc: nat, jobs: seq<Status>, errs: seq<Option<Error>>, outcomes: seq<Option<Error>>,
                         wg: int, result: Option<Option<Error>>)

  /** A step of the caller, or of the goroutine of a job; if it ends a removal, with `outcome`. */
  datatype Step = Call | Go(job: nat, outcome: Option<Error>)

  function Init(): State {
    State(0, [NotStarted, NotStarted, NotStarted, NotStarted, NotStarted], [None, None, None, None, None],
          [None, None, None, None, None], 0, None)
  }

  predicate Enabled(program: seq<Instr>, s: State, step: Step) {
    match step
    case Call => s.pc < |program| && (program[s.pc].Wait? ==> s.wg == 0)
                 && (program[s.pc].Start? ==> program[s.pc].job < |s.jobs|)
    case Go(job, _) => job < |s.jobs| == |s.errs| == |s.outcomes| && (s.jobs[job].Removing? || s.jobs[job].Removed?)
  }

  function Apply(program: seq<Instr>, s: State, step: Step): State
    requires Enabled(program, s, step)
  {
    match step
    case Call =>
      var next := s.(pc := s.pc + 1);
      (match program[s.pc]
       case Add(n) => next.(wg := s.wg + n)
       case Start(job) => next.(jobs := s.jobs[job := Removing])
       case Wait => next
       case Finish => next.(result := Some(FirstError(s.errs))))
    case Go(job, outcome) =>
      if s.jobs[job].Removing?
      then s.(errs := s.errs[job := outcome], outcomes := s.outcomes[job := outcome], jobs := s.jobs[job := Removed])
      else s.(wg := s.wg - 1, jobs := s.jobs[job := Done])
  }

  /** `coalesceErrors` */
  function FirstError(errs: seq<Option<Error>>): Option<Error> {
    if |errs| == 0 then None else if errs[0].Some? then errs[0] else FirstError(errs[1..])
  }

  method CoalesceErrors(errs: seq<Option<Error>>) returns (r: Option<Error>)
    ensures r == FirstError(errs)
    ensures r.Some? ==> exists i :: 0 <= i < |errs| && errs[i] == r && forall j :: 0 <= j < i ==> errs[j].None?
    ensures r.None? ==> forall i :: 0 <= i < |errs| ==> errs[i].None?
  {
    assert errs[0..] == errs;
    for i := 0 to |errs|
      invariant forall j :: 0 <= j < i ==> errs[j].None?
      invariant FirstError(errs) == FirstError(errs[i..])
    {
      if errs[i].Some? {
        return errs[i];
      }
      assert errs[i..][1..] == errs[i + 1..];
    }
    return None;
  }

  function After(program: seq<Instr>, schedule: seq<Step>): Option<State> {
    if |schedule| == 0 then Some(Init())
    else
      var last := |schedule| - 1;
      var before := After(program, schedule[..last]);
      if before.Some? && Enabled(program, before.value, schedule[last])
      then Some(Apply(program, before.value, schedule[last]))
      else None
  }

  // ---------------------------------------------------------------- the caller's program

  predicate StartedBy(program: seq<Instr>, pc: nat, job: nat)
    requires pc <= |program|
  {
    exists i :: 0 <= i < pc && program[i] == Start(job)
  }

  function StartedFlags(program: seq<Instr>, pc: nat): (r: seq<bool>)
    requires pc <= |program|
    ensures |r| == 5
  {
    seq(5, job requires 0 <= job < 5 => StartedBy(program, pc, job))
  }

  /** What the first `pc` instructions have added to the counter. */
  function Reserved(program: seq<Instr>, pc: nat): nat
    requires pc <= |program|
  {
    if pc == 0 then 0 else Reserved(program, pc - 1) + if program[pc - 1].Add? then program[pc - 1].n else 0
  }

  /** Reservations not yet used by a `go` statement. */
  function Balance(program: seq<Instr>, pc: nat): int
    requires pc <= |program|
  {
    if pc == 0 then 0
    else Balance(program, pc - 1) + match program[pc - 1]
                                    case Add(n) => n
                                    case Start(_) => -1
                                    case _ => 0
  }

  /** Every `go` statement starts another job, and comes after a reservation for it. */
  ghost predicate WellReserved(program: seq<Instr>) {
    && (forall i :: 0 <= i < |program| && program[i].Start? ==> program[i].job < 5)
    && (forall i, j :: 0 <= i < j < |program| && program[i].Start? ==> program[i] != program[j])
    && (forall pc :: 0 <= pc <= |program| ==> Balance(program, pc) >= 0)
    && (forall pc :: 0 <= pc < |program| && (program[pc].Wait? || program[pc].Finish?) ==> Balance(program, pc) == 0)
  }

  lemma StartedNext(program: seq<Instr>, pc: nat, job: nat)
    requires pc < |program|
    ensures StartedBy(program, pc + 1, job) <==> StartedBy(program, pc, job) || program[pc] == Start(job)
  {
    if StartedBy(program, pc + 1, job) {
      var i :| 0 <= i < pc + 1 && program[i] == Start(job);
      assert i < pc || i == pc;
    }
  }

  lemma {:induction false} BalanceIsSpare(program: seq<Instr>, pc: nat)
    requires WellReserved(program) && pc <= |program|
    ensures Reserved(program, pc) == Count(StartedFlags(program, pc)) + Balance(program, pc)
  {
    var flags := StartedFlags(program, pc);
    if pc == 0 {
      CountZero(flags);
    } else {
      BalanceIsSpare(program, pc - 1);
      var before := StartedFlags(program, pc - 1);
      var instr := program[pc - 1];
      forall job: nat | job < 5 ensures flags[job] == (before[job] || instr == Start(job)) {
        StartedNext(program, pc - 1, job);
      }
      if instr.Start? {
        assert !before[instr.job];
        assert flags == before[instr.job := true];
        CountUpdate(before, instr.job, true);
      } else {
        assert flags == before;
      }
    }
  }

  /** The caller waits before it returns, when it has started exactly the selected removals. */
  ghost predicate StartsSelected(hasFile: bool, isOP: bool, delThread: bool) {
    var program := Program(hasFile, isOP, delThread);
    && |program| > 0 && program[|program| - 1].Finish?
    && (forall pc :: 0 <= pc < |program| - 1 ==> !program[pc].Finish?)
    && (hasFile ==> |program| > 1 && program[|program| - 2].Wait?)
    && (forall pc, job: nat :: 0 <= pc < |program| && (program[pc].Wait? || program[pc].Finish?) ==>
          (StartedBy(program, pc, job) <==> Selected(hasFile, isOP, delThread, job)))
  }

  lemma ReplyBalances(p: seq<Instr>, delThread: bool)
    requires p == Program(true, false, delThread)
    ensures p == [Add(2), Start(THUMB), Start(FILE), Wait, Finish]
    ensures forall pc :: 0 <= pc <= 5 ==> Balance(p, pc) >= 0
    ensures Balance(p, 3) == 0 && Balance(p, 4) == 0
  {
    assert p == [Add(2), Start(THUMB), Start(FILE), Wait, Finish];
    assert Balance(p, 0) == 0 && Balance(p, 1) == 2 && Balance(p, 2) == 1 && Balance(p, 3) == 0;
    assert Balance(p, 4) == 0 && Balance(p, 5) == 0;
  }

  lemma ReplyReserved(p: seq<Instr>, delThread: bool)
    requires p == Program(true, false, delThread)
    ensures WellReserved(p)
  {
    ReplyBalances(p, delThread);
  }

  lemma ReplyStarts(p: seq<Instr>, delThread: bool)
    requires p == Program(true, false, delThread)
    ensures StartsSelected(true, false, delThread)
  {
    ReplyBalances(p, delThread);
  }

  lemma OpBalances(p: seq<Instr>)
    requires p == Program(true, true, false)
    ensures p == [Add(2), Add(1), Start(CATALOG), Start(THUMB), Start(FILE), Wait, Finish]
    ensures forall pc :: 0 <= pc <= 7 ==> Balance(p, pc) >= 0
    ensures Balance(p, 5) == 0 && Balance(p, 6) == 0
  {
    assert p == [Add(2), Add(1), Start(CATALOG), Start(THUMB), Start(FILE), Wait, Finish];
    assert Balance(p, 0) == 0 && Balance(p, 1) == 2 && Balance(p, 2) == 3 && Balance(p, 3) == 2;
    assert Balance(p, 4) == 1 && Balance(p, 5) == 0 && Balance(p, 6) == 0 && Balance(p, 7) == 0;
  }

  lemma OpReserved(p: seq<Instr>)
    requires p == Program(true, true, false)
    ensures WellReserved(p)
  {
    OpBalances(p);
  }

  lemma OpStarts(p: seq<Instr>)
    requires p == Program(true, true, false)
    ensures StartsSelected(true, true, false)
  {
    OpBalances(p);
  }

  lemma ThreadBalances(p: seq<Instr>)
    requires p == Program(true, true, true)
    ensures p == [Add(2), Add(1), Start(CATALOG), Add(2), Start(THREAD), Start(JSON), Start(THUMB), Start(FILE), Wait,
        Finish]
    ensures forall pc :: 0 <= pc <= 10 ==> Balance(p, pc) >= 0
    ensures Balance(p, 8) == 0 && Balance(p, 9) == 0
  {
    assert p == [Add(2), Add(1), Start(CATALOG), Add(2), Start(THREAD), Start(JSON), Start(THUMB), Start(FILE), Wait,
        Finish];
    assert Balance(p, 0) == 0 && Balance(p, 1) == 2 && Balance(p, 2) == 3 && Balance(p, 3) == 2 && Balance(p, 4) == 4;
    assert Balance(p, 5) == 3 && Balance(p, 6) == 2 && Balance(p, 7) == 1 && Balance(p, 8) == 0;
    assert Balance(p, 9) == 0 && Balance(p, 10) == 0;
  }

  lemma ThreadReserved(p: seq<Instr>)
    requires p == Program(true, true, true)
    ensures WellReserved(p)
  {
    ThreadBalances(p);
  }

  lemma ThreadStarts(p: seq<Instr>)
    requires p == Program(true, true, true)
    ensures StartsSelected(true, true, true)
  {
    ThreadBalances(p);
  }

  lemma ProgramFacts(hasFile: bool, isOP: bool, delThread: bool)
    ensures WellReserved(Program(hasFile, isOP, delThread)) && StartsSelected(hasFile, isOP, delThread)
  {
    var p := Program(hasFile, isOP, delThread);
    if !hasFile {
      assert p == [Finish];
      assert Balance(p, 0) == 0 && Balance(p, 1) == 0;
    } else if !isOP {
      ReplyReserved(p, delThread);
      ReplyStarts(p, delThread);
    } else if !delThread {
      OpReserved(p);
      OpStarts(p);
    } else {
      ThreadReserved(p);
      ThreadStarts(p);
    }
  }

  // ---------------------------------------------------------------- the invariant

  function DoneFlags(jobs: seq<Status>): (r: seq<bool>)
    ensures |r| == |jobs|
  {
    seq(|jobs|, i requires 0 <= i < |jobs| => jobs[i].Done?)
  }

  ghost predicate CounterInv(program: seq<Instr>, s: State) {
    s.pc <= |program| && s.wg == Reserved(program, s.pc) - Count(DoneFlags(s.jobs))
  }

  ghost predicate Inv(program: seq<Instr>, s: State) {
    && CounterInv(program, s)
    && |s.jobs| == |s.errs| == |s.outcomes| == 5
    && s.errs == s.outcomes
    && (forall job :: 0 <= job < 5 ==> (s.jobs[job].NotStarted? <==> !StartedBy(program, s.pc, job)))
    && (forall job :: 0 <= job < 5 && (s.jobs[job].NotStarted? || s.jobs[job].Removing?) ==> s.outcomes[job].None?)
  }

  /** Past the wait every started removal has finished, so the error variables no longer change. */
  ghost predicate Settled(program: seq<Instr>, s: State) {
    && s.pc <= |program|
    && (s.result.Some? <==> s.pc == |program|)
    && (s.pc == |program| || program[s.pc].Finish? ==>
          forall job :: 0 <= job < |s.jobs| ==> s.jobs[job].NotStarted? || s.jobs[job].Done?)
    && (s.result.Some? ==> s.result.value == FirstError(s.errs))
  }

  lemma CallCounter(program: seq<Instr>, s: State)
    requires CounterInv(program, s) && Enabled(program, s, Call)
    requires program[s.pc].Start? ==> s.jobs[program[s.pc].job].NotStarted?
    ensures CounterInv(program, Apply(program, s, Call))
  {
    assert DoneFlags(Apply(program, s, Call).jobs) == DoneFlags(s.jobs);
  }

  lemma CallStep(program: seq<Instr>, s: State)
    requires WellReserved(program) && Inv(program, s) && Enabled(program, s, Call)
    ensures Inv(program, Apply(program, s, Call))
  {
    var s' := Apply(program, s, Call);
    if program[s.pc].Start? {
      NotYetStarted(program, s, program[s.pc].job);
    }
    CallCounter(program, s);
    forall job: nat | job < 5 ensures s'.jobs[job].NotStarted? <==> !StartedBy(program, s'.pc, job) {
      StartedNext(program, s.pc, job);
    }
  }

  lemma NotYetStarted(program: seq<Instr>, s: State, job: nat)
    requires WellReserved(program) && Inv(program, s) && s.pc < |program| && program[s.pc] == Start(job)
    ensures job < 5 && s.jobs[job].NotStarted?
  {
  }

  lemma GoStep(program: seq<Instr>, s: State, step: Step)
    requires Inv(program, s) && Enabled(program, s, step) && step.Go?
    ensures Inv(program, Apply(program, s, step))
  {
    var s' := Apply(program, s, step);
    CountUpdate(DoneFlags(s.jobs), step.job, s'.jobs[step.job].Done?);
    assert DoneFlags(s'.jobs) == DoneFlags(s.jobs)[step.job := s'.jobs[step.job].Done?];
  }

  /** The counter is what is reserved but unfinished; at 0, with nothing spare, all that was started is done. */
  lemma CounterZero(program: seq<Instr>, s: State)
    requires WellReserved(program) && Inv(program, s)
    ensures s.wg >= 0
    ensures s.wg == 0 && Balance(program, s.pc) == 0 ==>
              forall job :: 0 <= job < 5 ==> s.jobs[job].NotStarted? || s.jobs[job].Done?
  {
    BalanceIsSpare(program, s.pc);
    var done, started := DoneFlags(s.jobs), StartedFlags(program, s.pc);
    CountMonotone(done, started);
    if done == started {
      forall job | 0 <= job < 5 ensures s.jobs[job].NotStarted? || s.jobs[job].Done? {
        assert done[job] == started[job];
      }
    }
  }

  lemma {:induction false} InvariantHolds(hasFile: bool, isOP: bool, delThread: bool, schedule: seq<Step>)
    requires After(Program(hasFile, isOP, delThread), schedule).Some?
    ensures var program := Program(hasFile, isOP, delThread);
            Inv(program, After(program, schedule).value) && Settled(program, After(program, schedule).value)
  {
    var program := Program(hasFile, isOP, delThread);
    ProgramFacts(hasFile, isOP, delThread);
    if |schedule| == 0 {
      CountZero(DoneFlags(Init().jobs));
    } else {
      var last := |schedule| - 1;
      InvariantHolds(hasFile, isOP, delThread, schedule[..last]);
      var s := After(program, schedule[..last]).value;
      if schedule[last].Call? {
        CallStep(program, s);
        CounterZero(program, s);
      } else {
        GoStep(program, s, schedule[last]);
      }
    }
  }

  // ---------------------------------------------------------------- results

  /**
   In every state the counter is not negative and equals what is reserved less what is done. When
   the caller returns, the selected removals and no others have run to the end, and it returns the
   first of their errors in the order thread, JSON, catalog thumb, thumb, file.
   */
  lemma DeleteFileOutcome(hasFile: bool, isOP: bool, delThread: bool, schedule: seq<Step>)
    requires After(Program(hasFile, isOP, delThread), schedule).Some?
    ensures var program := Program(hasFile, isOP, delThread);
            var s := After(program, schedule).value;
            && s.pc <= |program| && |s.jobs| == 5 && 0 <= s.wg == Reserved(program, s.pc) - Count(DoneFlags(s.jobs))
            && (s.result.Some? ==>
                  && var (thread, json, catalog, thumb, file) := (0, 1, 2, 3, 4);
                     var all := hasFile && isOP && delThread;
                  && |s.outcomes| == 5
                  && s.result.value == (if s.outcomes[thread].Some? then s.outcomes[thread]
                                        else if s.outcomes[json].Some? then s.outcomes[json]
                                        else if s.outcomes[catalog].Some? then s.outcomes[catalog]
                                        else if s.outcomes[thumb].Some? then s.outcomes[thumb]
                                        else s.outcomes[file])
                  && s.jobs[thread] == (if all then Done else NotStarted)
                  && s.jobs[json] == (if all then Done else NotStarted)
                  && s.jobs[catalog] == (if hasFile && isOP then Done else NotStarted)
                  && s.jobs[thumb] == (if hasFile then Done else NotStarted)
                  && s.jobs[file] == (if hasFile then Done else NotStarted))
  {
    var program := Program(hasFile, isOP, delThread);
    ProgramFacts(hasFile, isOP, delThread);
    InvariantHolds(hasFile, isOP, delThread, schedule);
    var s := After(program, schedule).value;
    CounterZero(program, s);
    FirstOfFive(s.outcomes);
    if s.result.Some? {
      forall job: nat | job < 5 ensures s.jobs[job].NotStarted? <==> !Selected(hasFile, isOP, delThread, job) {
        LastStart(hasFile, isOP, delThread, job);
      }
    }
  }

  /** A removal that ends is recorded with the outcome it ended with, and nothing else about it is. */
  lemma RemovalRecorded(program: seq<Instr>, schedule: seq<Step>, step: Step)
    requires After(program, schedule).Some? && After(program, schedule + [step]).Some?
    ensures var s, s' := After(program, schedule).value, After(program, schedule + [step]).value;
            if step.Go? && s.jobs[step.job].Removing? then s'.outcomes == s.outcomes[step.job := step.outcome]
            else s'.outcomes == s.outcomes
  {
    assert (schedule + [step])[..|schedule|] == schedule;
  }

  lemma FirstOfFive(errs: seq<Option<Error>>)
    requires |errs| == 5
    ensures FirstError(errs) == if errs[0].Some? then errs[0] else if errs[1].Some? then errs[1]
                                else if errs[2].Some? then errs[2] else if errs[3].Some? then errs[3] else errs[4]
  {
    var b, c, d, e := errs[1..], errs[2..], errs[3..], errs[4..];
    assert b[1..] == c && c[1..] == d && d[1..] == e && e[1..] == [];
    assert b[0] == errs[1] && c[0] == errs[2] && d[0] == errs[3] && e[0] == errs[4];
    assert FirstError(e) == errs[4];
    assert FirstError(c) == if errs[2].Some? then errs[2] else FirstError(d);
    assert FirstError(errs) == if errs[0].Some? then errs[0] else FirstError(b);
  }

  lemma LastStart(hasFile: bool, isOP: bool, delThread: bool, job: nat)
    ensures var program := Program(hasFile, isOP, delThread);
            StartedBy(program, |program|, job) <==> Selected(hasFile, isOP, delThread, job)
  {
    var program := Program(hasFile, isOP, delThread);
    ProgramFacts(hasFile, isOP, delThread);
    var n := |program| - 1;
    StartedNext(program, n, job);
    assert StartedBy(program, n, job) <==> Selected(hasFile, isOP, delThread, job);
  }

  /** The steps a goroutine has left, once it is started. */
  function Ranks(jobs: seq<Status>): (r: seq<nat>)
    ensures |r| == |jobs|
  {
    seq(|jobs|, i requires 0 <= i < |jobs| =>
                  match jobs[i] case NotStarted => 2 case Removing => 2 case Removed => 1 case Done => 0)
  }

  lemma StepsRunOut(program: seq<Instr>, s: State, step: Step)
    requires WellReserved(program) && Inv(program, s) && Enabled(program, s, step)
    ensures var s' := Apply(program, s, step);
            Sum(Ranks(s'.jobs)) - s'.pc + 1 == Sum(Ranks(s.jobs)) - s.pc
  {
    var s' := Apply(program, s, step);
    if step.Call? {
      if program[s.pc].Start? {
        NotYetStarted(program, s, program[s.pc].job);
      }
      assert Ranks(s'.jobs) == Ranks(s.jobs);
    } else {
      SumUpdate(Ranks(s.jobs), step.job, Ranks(s'.jobs)[step.job]);
      assert Ranks(s'.jobs) == Ranks(s.jobs)[step.job := Ranks(s'.jobs)[step.job]];
    }
  }

  /**
   Every step uses up one of the caller's instructions or one of two steps of a job, so no schedule is
   longer than the program and ten.
   */
  lemma {:induction false} SchedulesAreFinite(hasFile: bool, isOP: bool, delThread: bool, schedule: seq<Step>)
    requires After(Program(hasFile, isOP, delThread), schedule).Some?
    ensures var program := Program(hasFile, isOP, delThread);
            var s := After(program, schedule).value;
            && |schedule| + Sum(Ranks(s.jobs)) == s.pc + 2 * 5
            && |schedule| <= |program| + 2 * 5
  {
    var program := Program(hasFile, isOP, delThread);
    InvariantHolds(hasFile, isOP, delThread, schedule);
    if |schedule| == 0 {
      SumOfTwos(Ranks(Init().jobs));
    } else {
      var last := |schedule| - 1;
      SchedulesAreFinite(hasFile, isOP, delThread, schedule[..last]);
      ProgramFacts(hasFile, isOP, delThread);
      InvariantHolds(hasFile, isOP, delThread, schedule[..last]);
      StepsRunOut(program, After(program, schedule[..last]).value, schedule[last]);
    }
  }

  lemma {:induction false} SumOfTwos(s: seq<nat>)
    requires forall i :: 0 <= i < |s| ==> s[i] == 2
    ensures Sum(s) == 2 * |s|
  {
    if |s| > 0 {
      SumOfTwos(s[..|s| - 1]);
    }
  }

  /** There is no deadlock: until the caller has returned, some step can be taken. */
  lemma NoDeadlock(hasFile: bool, isOP: bool, delThread: bool, schedule: seq<Step>)
    requires After(Program(hasFile, isOP, delThread), schedule).Some?
    requires After(Program(hasFile, isOP, delThread), schedule).value.result.None?
    ensures exists step :: After(Program(hasFile, isOP, delThread), schedule + [step]).Some?
  {
    var program := Program(hasFile, isOP, delThread);
    ProgramFacts(hasFile, isOP, delThread);
    InvariantHolds(hasFile, isOP, delThread, schedule);
    var s := After(program, schedule).value;
    var step := Call;
    if !Enabled(program, s, Call) {
      var job := Unfinished(program, s);
      step := Go(job, None);
    }
    assert Enabled(program, s, step);
    assert (schedule + [step])[..|schedule|] == schedule;
    assert After(program, schedule + [step]).Some?;
  }

  lemma Unfinished(program: seq<Instr>, s: State) returns (job: nat)
    requires WellReserved(program) && Inv(program, s) && s.wg != 0 && Balance(program, s.pc) == 0
    ensures job < 5 && (s.jobs[job].Removing? || s.jobs[job].Removed?)
  {
    BalanceIsSpare(program, s.pc);
    var done, started := DoneFlags(s.jobs), StartedFlags(program, s.pc);
    assert done != started;
    job :| job < 5 && done[job] != started[job];
  }
}
