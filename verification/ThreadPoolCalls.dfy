/** What the calls of the thread pool promise: when a queue that waitPool has seen empty stays empty, what
    endPool reaches, and how a worker can find no task at line 39. Where a promise fails, a run that shows
    it. */
module ThreadPoolCalls {
  import opened ThreadPool

  // ---------------------------------------------------------------- runs and the calls made in them

  predicate IsCall(step: Step) {
    step.CallEnqueue? || step.CallWait? || step.CallRestart? || step.CallEnd?
  }

  function CallOf(step: Step): seq<Step> {
    if IsCall(step) then [step] else []
  }

  /** The calls made in a run, in order. */
  function Calls(steps: seq<Step>): seq<Step> {
    if steps == [] then [] else CallOf(steps[0]) + Calls(steps[1..])
  }

  predicate NoSpurious(steps: seq<Step>) {
    forall k :: 0 <= k < |steps| ==> !steps[k].SpuriousWake?
  }

  /** Some run from `s` without spurious wake-ups makes exactly these calls and ends in `s'`. */
  ghost predicate Leads(s: State, calls: seq<Step>, s': State) {
    exists steps :: IsRun(s, steps) && NoSpurious(steps) && Calls(steps) == calls && End(s, steps) == s'
  }

  lemma FirstStep(s: State, step: Step, rest: seq<Step>)
    requires Enabled(s, step) && IsRun(After(s, step), rest)
    ensures IsRun(s, [step] + rest) && End(s, [step] + rest) == End(After(s, step), rest)
    ensures Calls([step] + rest) == CallOf(step) + Calls(rest)
  {
    hide After, Enabled, CallOf;
    var steps := [step] + rest;
    assert steps[0] == step && steps[1..] == rest;
  }

  lemma {:induction false} LastStep(s: State, steps: seq<Step>, step: Step)
    requires IsRun(s, steps) && Enabled(End(s, steps), step)
    ensures IsRun(s, steps + [step]) && End(s, steps + [step]) == After(End(s, steps), step)
    ensures Calls(steps + [step]) == Calls(steps) + CallOf(step)
    decreases |steps|
  {
    hide After, Enabled, CallOf;
    if steps == [] {
      FirstStep(s, step, []);
      assert [] + [step] == [step] + [];
    } else {
      var rest := steps[1..] + [step];
      LastStep(After(s, steps[0]), steps[1..], step);
      FirstStep(s, steps[0], rest);
      assert [steps[0]] + rest == steps + [step];
      assert CallOf(steps[0]) + (Calls(steps[1..]) + CallOf(step)) == Calls(steps) + CallOf(step);
    }
  }

  lemma LeadsStart(s: State)
    ensures Leads(s, [], s)
  {
    assert IsRun(s, []) && NoSpurious([]) && Calls([]) == [] && End(s, []) == s;
  }

  lemma LeadsOn(s0: State, calls: seq<Step>, s: State, step: Step, s': State)
    requires Leads(s0, calls, s) && Enabled(s, step) && !step.SpuriousWake? && After(s, step) == s'
    ensures Leads(s0, calls + CallOf(step), s')
  {
    hide After, Enabled, CallOf, IsRun, End, Calls;
    var steps :| IsRun(s0, steps) && NoSpurious(steps) && Calls(steps) == calls && End(s0, steps) == s;
    LastStep(s0, steps, step);
    assert NoSpurious(steps + [step]);
  }

  /** A step that is not a call. */
  lemma LeadsNext(s0: State, calls: seq<Step>, s: State, step: Step, s': State)
    requires Leads(s0, calls, s) && Enabled(s, step) && After(s, step) == s'
    requires step.WorkerStep? || step.CallerStep?
    ensures Leads(s0, calls, s')
  {
    hide After, Enabled, Leads;
    LeadsOn(s0, calls, s, step, s');
    assert calls + [] == calls;
  }

  // ---------------------------------------------------------------- several steps of one thread

  /** enqueue from the lock of line 59 to the unlock of line 61. */
  lemma CallerPushes(s0: State, calls: seq<Step>, s: State, c: nat, task: Task) returns (s': State)
    requires Leads(s0, calls, s) && c < |s.callers| && s.callers[c] == EnqLock(task) && s.owner == Free
    ensures s' == s.(callers := s.callers[c := EnqBroadcast(task)], tasks := s.tasks + [task],
                     log := s.log + [Push(task, c)])
    ensures Leads(s0, calls, s')
  {
    hide Leads;
    var a := s.(callers := s.callers[c := EnqPush(task)], owner := Caller(c));
    LeadsNext(s0, calls, s, CallerStep(c), a);
    var b := After(a, CallerStep(c));
    LeadsNext(s0, calls, a, CallerStep(c), b);
    assert b.callers == s.callers[c := EnqUnlock(task)];
    s' := After(b, CallerStep(c));
    LeadsNext(s0, calls, b, CallerStep(c), s');
    assert s'.callers == s.callers[c := EnqBroadcast(task)];
  }

  /** enqueue from the lock to its return, when no worker waits. */
  lemma EnqueueReturns(s0: State, calls: seq<Step>, s: State, c: nat, task: Task) returns (s': State)
    requires Leads(s0, calls, s) && c < |s.callers| && s.callers[c] == EnqLock(task) && s.owner == Free
    requires Waiting !in s.workers
    ensures s' == s.(callers := s.callers[c := Idle], tasks := s.tasks + [task], log := s.log + [Push(task, c)],
                     accepted := s.accepted + [(task, c)])
    ensures Leads(s0, calls, s')
  {
    hide Leads;
    var a := CallerPushes(s0, calls, s, c, task);
    s' := After(a, CallerStep(c));
    LeadsNext(s0, calls, a, CallerStep(c), s');
    assert s'.workers == s.workers && s'.callers == s.callers[c := Idle];
  }

  /** waitPool on an empty queue, from its lock to its return. */
  lemma CallerWaits(s0: State, calls: seq<Step>, s: State, c: nat, ending: bool) returns (s': State)
    requires Leads(s0, calls, s) && c < |s.callers| && s.callers[c] == WaitLock(ending)
    requires s.owner == Free && s.tasks == []
    ensures s' == s.(callers := s.callers[c := if ending then EndCancel else Idle], quiet := true)
    ensures Leads(s0, calls, s')
  {
    hide Leads;
    var a := s.(callers := s.callers[c := WaitRead(ending)], owner := Caller(c));
    LeadsNext(s0, calls, s, CallerStep(c), a);
    var b := After(a, CallerStep(c));
    LeadsNext(s0, calls, a, CallerStep(c), b);
    assert b.callers == s.callers[c := WaitUnlock(ending, 0)];
    var d := After(b, CallerStep(c));
    LeadsNext(s0, calls, b, CallerStep(c), d);
    assert d.callers == s.callers[c := WaitTest(ending, 0)];
    s' := After(d, CallerStep(c));
    LeadsNext(s0, calls, d, CallerStep(c), s');
    assert s'.callers == s.callers[c := if ending then EndCancel else Idle];
  }

  /** endPool from the return of waitPool on. */
  lemma CallerEnds(s0: State, calls: seq<Step>, s: State, c: nat) returns (s': State)
    requires Leads(s0, calls, s) && c < |s.callers| && s.callers[c] == EndCancel
    ensures s' == s.(callers := s.callers[c := Idle], isCancelled := true, workers := Wake(s.workers))
    ensures Leads(s0, calls, s')
  {
    hide Leads;
    var a := After(s, CallerStep(c));
    LeadsNext(s0, calls, s, CallerStep(c), a);
    s' := After(a, CallerStep(c));
    LeadsNext(s0, calls, a, CallerStep(c), s');
    assert s'.callers == s.callers[c := Idle];
  }

  /** Lines 27 to 39 of a worker that finds a task ... */
  lemma WorkerFinds(s0: State, calls: seq<Step>, s: State, i: nat) returns (s': State)
    requires Leads(s0, calls, s) && i < |s.workers| && s.workers[i] == LoopTest
    requires s.owner == Free && s.tasks != [] && !s.isCancelled
    ensures s' == s.(workers := s.workers[i := ReadBack(true)], owner := Worker(i))
    ensures Leads(s0, calls, s')
  {
    hide Leads;
    var a := WorkerGoesTo(s0, calls, s, i, s.workers[i := Locking], Free);
    var b := WorkerGoesTo(s0, calls, a, i, s.workers[i := EmptyTest], Worker(i));
    var c := WorkerGoesTo(s0, calls, b, i, s.workers[i := CancelTest(true)], Worker(i));
    s' := WorkerGoesTo(s0, calls, c, i, s.workers[i := ReadBack(true)], Worker(i));
  }

  /** ... and on to line 43, with the last task in its hands. */
  lemma WorkerTakes(s0: State, calls: seq<Step>, s: State, i: nat) returns (s': State)
    requires Leads(s0, calls, s) && i < |s.workers| && s.workers[i] == LoopTest
    requires s.owner == Free && s.tasks != [] && !s.isCancelled
    ensures var last := |s.tasks| - 1;
            s' == s.(workers := s.workers[i := Running(s.tasks[last])], tasks := s.tasks[..last],
                     log := s.log + [Pop(s.tasks[last], i)])
    ensures Leads(s0, calls, s')
  {
    hide Leads;
    var last := |s.tasks| - 1;
    var task := s.tasks[last];
    var d := WorkerFinds(s0, calls, s, i);
    var e := WorkerGoesTo(s0, calls, d, i, s.workers[i := PopBack(task)], Worker(i));
    var f := After(e, WorkerStep(i));
    LeadsNext(s0, calls, e, WorkerStep(i), f);
    assert f.workers == s.workers[i := Unlocking(task)];
    s' := WorkerGoesTo(s0, calls, f, i, s.workers[i := Running(task)], Free);
  }

  /** A step of a worker that changes nothing but its place and the owner of the mutex. */
  lemma WorkerGoesTo(s0: State, calls: seq<Step>, s: State, i: nat, workers: seq<WorkerPc>, owner: Owner)
    returns (s': State)
    requires Leads(s0, calls, s) && i < |s.workers| && Enabled(s, WorkerStep(i))
    requires After(s, WorkerStep(i)) == s.(workers := workers, owner := owner)
    ensures s' == s.(workers := workers, owner := owner) && Leads(s0, calls, s')
  {
    hide Leads, After, Enabled;
    s' := s.(workers := workers, owner := owner);
    LeadsNext(s0, calls, s, WorkerStep(i), s');
  }

  /** From the end of a task to the wait of line 30. */
  lemma WorkerWaits(s0: State, calls: seq<Step>, s: State, i: nat, task: Task) returns (s': State)
    requires Leads(s0, calls, s) && i < |s.workers| && s.workers[i] == Running(task)
    requires s.owner == Free && s.tasks == [] && !s.isCancelled
    ensures s' == s.(workers := s.workers[i := Waiting], finished := s.finished + [(task, i)])
    ensures Leads(s0, calls, s')
  {
    hide Leads;
    var a := After(s, WorkerStep(i));
    LeadsNext(s0, calls, s, WorkerStep(i), a);
    assert a.workers == s.workers[i := LoopTest];
    var b := WorkerGoesTo(s0, calls, a, i, s.workers[i := Locking], Free);
    var c := WorkerGoesTo(s0, calls, b, i, s.workers[i := EmptyTest], Worker(i));
    s' := WorkerGoesTo(s0, calls, c, i, s.workers[i := Waiting], Free);
  }

  function EndedUpTo(workers: seq<WorkerPc>, k: nat): (ended: seq<WorkerPc>)
    ensures |ended| == |workers|
    ensures forall i :: 0 <= i < |workers| ==>
              ended[i] == if i < k && workers[i] == LoopTest then Done else workers[i]
  {
    seq(|workers|, i requires 0 <= i < |workers| => if i < k && workers[i] == LoopTest then Done else workers[i])
  }

  /** In a cancelled pool all workers at line 27 end, the first `k` of them here. */
  lemma {:induction false} WorkersEnd(s0: State, calls: seq<Step>, s: State, k: nat) returns (s': State)
    requires Leads(s0, calls, s) && s.isCancelled && k <= |s.workers|
    ensures s' == s.(workers := EndedUpTo(s.workers, k)) && Leads(s0, calls, s')
    decreases k
  {
    hide Leads;
    if k == 0 {
      assert EndedUpTo(s.workers, 0) == s.workers;
      s' := s;
    } else {
      var a := WorkersEnd(s0, calls, s, k - 1);
      if s.workers[k - 1] == LoopTest {
        s' := WorkerGoesTo(s0, calls, a, k - 1, a.workers[k - 1 := Done], a.owner);
      } else {
        s' := a;
      }
      assert s'.workers == EndedUpTo(s.workers, k);
    }
  }

  // ---------------------------------------------------------------- what becomes of the calls

  /** What each call of an idle thread does at once, in every state: enqueue is refused exactly while isWaited
      is set, reStart exactly once isCancelled is, and waitPool and endPool set isWaited. */
  lemma CallsTaken(s: State, c: nat, task: Task)
    requires c < |s.callers| && s.callers[c] == Idle
    ensures var s' := After(s, CallEnqueue(c, task));
            (s.isWaited ==> s' == s) && (!s.isWaited ==> s' == s.(callers := s.callers[c := EnqLock(task)]))
    ensures var s' := After(s, CallRestart(c));
            (s.isCancelled ==> s' == s) && (!s.isCancelled ==> s' == s.(callers := s.callers[c := RestartClear]))
    ensures After(s, CallWait(c)) == s.(callers := s.callers[c := WaitLock(false)], isWaited := true)
    ensures After(s, CallEnd(c)) == s.(callers := s.callers[c := WaitLock(true)], isWaited := true)
  {
  }

  function Entered(pc: CallerPc): seq<Task> {
    if Enqueuing(pc) then [pc.task] else []
  }

  /** The tasks of the enqueue calls that thread `c` makes in a run while isWaited is not set. */
  function EnqueuesOf(s: State, steps: seq<Step>, c: nat): seq<Task>
    requires IsRun(s, steps)
    decreases |steps|
  {
    if steps == [] then []
    else
      var step := steps[0];
      (if step.CallEnqueue? && step.c == c && !s.isWaited then [step.task] else [])
      + EnqueuesOf(After(s, step), steps[1..], c)
  }

  lemma CallerEnters(s: State, step: Step, c: nat)
    requires Enabled(s, step) && Actor(step) == Caller(c)
    ensures var s', a := After(s, step), Added(s, step);
            && |s'.callers| == |s.callers|
            && Tasks(a.returned) + Entered(s'.callers[c])
            == Entered(s.callers[c]) + if step.CallEnqueue? && !s.isWaited then [step.task] else []
  {
    hide WorkerAfter, Tasks;
    assert Tasks([]) == [];
    if step.CallerStep? {
      CallerStays(s, c);
      CallerLeaves(s, c);
    } else {
      hide CallerAfter;
    }
  }

  lemma CallerLeaves(s: State, c: nat)
    requires c < |s.callers| && Enabled(s, CallerStep(c))
    ensures var s', a := CallerAfter(s, c), Added(s, CallerStep(c));
            && |s'.callers| == |s.callers|
            && Tasks(a.returned) + Entered(s'.callers[c]) == Entered(s.callers[c])
  {
    hide Tasks;
    var pc, pc' := s.callers[c], CallerAfter(s, c).callers[c];
    if pc.EnqBroadcast? {
      assert pc' == Idle && Tasks([(pc.task, c)]) == [pc.task];
    } else {
      assert Entered(pc') == Entered(pc) && Tasks([]) == [];
    }
  }

  lemma EnqueueStep(s: State, step: Step, c: nat)
    requires Enabled(s, step) && c < |s.callers|
    ensures var s' := After(s, step);
            && |s'.callers| == |s.callers|
            && TasksOf(s'.accepted, c) + Entered(s'.callers[c])
            == TasksOf(s.accepted, c) + Entered(s.callers[c])
               + if step.CallEnqueue? && step.c == c && !s.isWaited then [step.task] else []
  {
    hide After, Enabled, Added, Tasks, TasksOf, Entered;
    var s', a := After(s, step), Added(s, step);
    ThreadsKept(s, step);
    HistoryMoves(s, step);
    ListGrows(s.accepted, a.returned, c);
    if Actor(step) == Caller(c) {
      CallerEnters(s, step, c);
      var before, more := TasksOf(s.accepted, c), if step.CallEnqueue? && !s.isWaited then [step.task] else [];
      assert (before + Tasks(a.returned)) + Entered(s'.callers[c]) == before + (Entered(s.callers[c]) + more);
    } else {
      CallersKept(s, step, c);
    }
  }

  lemma {:induction false} EnqueueRun(s: State, steps: seq<Step>, c: nat)
    requires IsRun(s, steps) && c < |s.callers|
    ensures var e := End(s, steps);
            && |e.callers| == |s.callers|
            && TasksOf(e.accepted, c) + Entered(e.callers[c])
            == TasksOf(s.accepted, c) + Entered(s.callers[c]) + EnqueuesOf(s, steps, c)
    decreases |steps|
  {
    hide After, Enabled, Entered, TasksOf;
    if steps != [] {
      EnqueueStep(s, steps[0], c);
      EnqueueRun(After(s, steps[0]), steps[1..], c);
    }
  }

  /** In every run of any number of threads, the enqueue calls of a thread that return 0, and the one it is in,
      are exactly those it makes while isWaited is not set, in order. */
  lemma AcceptedExactly(n: nat, m: nat, steps: seq<Step>, c: nat)
    requires IsRun(Init(n, m), steps) && c < m
    ensures var s := End(Init(n, m), steps);
            && |s.callers| == m
            && TasksOf(s.accepted, c) + Entered(s.callers[c]) == EnqueuesOf(Init(n, m), steps, c)
  {
    hide IsRun, End, EnqueuesOf;
    EnqueueRun(Init(n, m), steps, c);
  }

  /** isWaited and isCancelled after a run, from who did what: a call of waitPool or endPool sets the first, a
      reStart past its test clears it, an endPool past its waitPool sets the second. */
  function FlagHistory(s: State, steps: seq<Step>, waited: bool, cancelled: bool): (bool, bool)
    requires IsRun(s, steps)
    decreases |steps|
  {
    if steps == [] then (waited, cancelled)
    else
      var step := steps[0];
      var waited' := if step.CallWait? || step.CallEnd? then true else if Restarts(s, step) then false else waited;
      FlagHistory(After(s, step), steps[1..], waited', cancelled || Cancels(s, step))
  }

  predicate Cancels(s: State, step: Step) {
    step.CallerStep? && step.c < |s.callers| && s.callers[step.c] == EndCancel
  }

  lemma FlagStep(s: State, step: Step)
    requires Enabled(s, step)
    ensures var s' := After(s, step);
            && s'.isWaited == (step.CallWait? || step.CallEnd? || (s.isWaited && !Restarts(s, step)))
            && s'.isCancelled == (s.isCancelled || Cancels(s, step))
  {
    hide WorkerAfter;
    match step
    case WorkerStep(i) => WorkerStays(s, i);
    case _ =>
  }

  lemma {:induction false} FlagsAreHistory(s: State, steps: seq<Step>)
    requires IsRun(s, steps)
    ensures (End(s, steps).isWaited, End(s, steps).isCancelled) == FlagHistory(s, steps, s.isWaited, s.isCancelled)
    decreases |steps|
  {
    hide After, Enabled, Restarts, Cancels;
    if steps != [] {
      FlagStep(s, steps[0]);
      RestartIsNoCall(s, steps[0]);
      FlagsAreHistory(After(s, steps[0]), steps[1..]);
    }
  }

  lemma RestartIsNoCall(s: State, step: Step)
    ensures Restarts(s, step) ==> !step.CallWait? && !step.CallEnd?
  {
  }

  // ---------------------------------------------------------------- waitPool

  /** In waitPool, or in the one of endPool, and yet to see the queue empty. */
  predicate StillWaits(pc: CallerPc) {
    InWait(pc) && (pc.WaitUnlock? || pc.WaitTest? ==> pc.siz != 0)
  }

  predicate NeverEmpty(s: State, steps: seq<Step>)
    requires IsRun(s, steps)
    decreases |steps|
  {
    s.tasks != [] && (steps == [] || NeverEmpty(After(s, steps[0]), steps[1..]))
  }

  lemma StillWaitsStep(s: State, step: Step, c: nat)
    requires Enabled(s, step) && c < |s.callers| && StillWaits(s.callers[c]) && s.tasks != []
    ensures |After(s, step).callers| == |s.callers| && StillWaits(After(s, step).callers[c])
  {
    if Actor(step) != Caller(c) {
      CallersKept(s, step, c);
    }
  }

  /** waitPool does not return before the queue has been empty, whatever other threads call meanwhile:
      an endPool does not make it return early. */
  lemma {:induction false} WaitLastsUntilEmpty(s: State, steps: seq<Step>, c: nat)
    requires IsRun(s, steps) && NeverEmpty(s, steps) && c < |s.callers| && StillWaits(s.callers[c])
    ensures c < |End(s, steps).callers| && StillWaits(End(s, steps).callers[c])
    decreases |steps|
  {
    hide After, Enabled, StillWaits;
    if steps != [] {
      StillWaitsStep(s, steps[0], c);
      WaitLastsUntilEmpty(After(s, steps[0]), steps[1..], c);
    }
  }

  /** An enqueue that has passed its test of isWaited and has not pushed yet. */
  predicate InFlight(pc: CallerPc) {
    pc.EnqLock? || pc.EnqPush?
  }

  /** isWaited is set and no enqueue is on its way, whatever the queue holds; and with an empty queue. */
  predicate Closed(s: State) {
    s.isWaited && forall c :: 0 <= c < |s.callers| ==> !InFlight(s.callers[c])
  }

  predicate Settled(s: State) {
    Closed(s) && s.tasks == []
  }

  /** A reStart that was not refused takes effect. */
  predicate Restarts(s: State, step: Step) {
    step.CallerStep? && step.c < |s.callers| && s.callers[step.c] == RestartClear
  }

  predicate NeverRestarts(s: State, steps: seq<Step>)
    requires IsRun(s, steps)
    decreases |steps|
  {
    steps == [] || (!Restarts(s, steps[0]) && NeverRestarts(After(s, steps[0]), steps[1..]))
  }

  lemma ClosedStep(s: State, step: Step)
    requires Closed(s) && Enabled(s, step) && !Restarts(s, step)
    ensures Closed(After(s, step)) && Added(s, step).pushed == []
    ensures s.tasks == [] ==> After(s, step).tasks == [] && After(s, step).log == s.log
  {
    hide WorkerAfter;
    match step
    case WorkerStep(i) => WorkerOnEmpty(s, i);
    case _ =>
  }

  lemma WorkerOnEmpty(s: State, i: nat)
    requires Enabled(s, WorkerStep(i))
    ensures var s' := WorkerAfter(s, i);
            && s'.callers == s.callers && s'.isWaited == s.isWaited
            && (s.tasks == [] ==> s'.tasks == [] && s'.log == s.log)
  {
  }

  /** While isWaited is set and no enqueue is on its way, nothing is pushed until a reStart succeeds, whatever
      the queue holds and whatever any number of threads call. */
  lemma {:induction false} ClosedUntilRestart(s: State, steps: seq<Step>)
    requires Closed(s) && IsRun(s, steps) && NeverRestarts(s, steps)
    ensures Closed(End(s, steps)) && Pushes(End(s, steps).log) == Pushes(s.log)
    decreases |steps|
  {
    hide After, Enabled, Closed, Restarts, Pushes, Added;
    if steps != [] {
      ClosedStep(s, steps[0]);
      ListsMove(s, steps[0]);
      assert Pushes(s.log) + [] == Pushes(s.log);
      ClosedUntilRestart(After(s, steps[0]), steps[1..]);
    }
  }

  lemma SettledStep(s: State, step: Step)
    requires Settled(s) && Enabled(s, step) && !Restarts(s, step)
    ensures Settled(After(s, step)) && After(s, step).log == s.log
  {
    hide After, Enabled, Closed, Restarts, Added;
    ClosedStep(s, step);
  }

  /** With no enqueue on its way, a queue that is empty while isWaited is set stays empty until a reStart
      succeeds, whatever any number of threads call. */
  lemma {:induction false} QuietUntilRestart(s: State, steps: seq<Step>)
    requires Settled(s) && IsRun(s, steps) && NeverRestarts(s, steps)
    ensures Settled(End(s, steps)) && End(s, steps).log == s.log
    decreases |steps|
  {
    hide After, Enabled, Settled, Restarts;
    if steps != [] {
      SettledStep(s, steps[0]);
      QuietUntilRestart(After(s, steps[0]), steps[1..]);
    }
  }

  /** With one on its way it need not: this is the exact condition. */
  lemma StaysEmptyIff(s: State)
    requires MutexInv(s) && s.owner == Free && s.isWaited && s.tasks == []
    ensures (forall steps :: IsRun(s, steps) && NeverRestarts(s, steps) ==> End(s, steps).tasks == []) <==>
              forall c :: 0 <= c < |s.callers| ==> !InFlight(s.callers[c])
  {
    if Settled(s) {
      forall steps | IsRun(s, steps) && NeverRestarts(s, steps)
        ensures End(s, steps).tasks == []
      {
        QuietUntilRestart(s, steps);
      }
    } else {
      var c :| 0 <= c < |s.callers| && InFlight(s.callers[c]);
      assert MutexAtCaller(s, c);
      PushComes(s, c, s.callers[c].task);
    }
  }

  lemma PushComes(s: State, c: nat, task: Task)
    requires c < |s.callers| && s.callers[c] == EnqLock(task) && s.owner == Free
    ensures exists steps :: IsRun(s, steps) && NeverRestarts(s, steps) && End(s, steps).tasks != []
  {
    var step := CallerStep(c);
    var s1 := After(s, step);
    assert s1.callers[c] == EnqPush(task);
    var s2 := After(s1, step);
    FirstStep(s1, step, []);
    assert [step] + [] == [step];
    FirstStep(s, step, [step]);
    assert [step] + [step] == [step, step] && [step, step][1..] == [step] && [step][1..] == [];
    assert NeverRestarts(s1, [step]);
    assert NeverRestarts(s, [step, step]);
    assert End(s, [step, step]) == s2 && s2.tasks != [];
  }

  /** With a single caller, no enqueue is on its way when waitPool returns: the queue is settled then, and
      every accepted task has been taken. */
  lemma WaitReturnsSettled(s: State, ending: bool, siz: nat)
    requires Inv(s) && |s.callers| == 1 && s.callers[0] == WaitTest(ending, siz)
    ensures Enabled(s, CallerStep(0))
    ensures var s' := After(s, CallerStep(0));
            if siz != 0 then s'.callers[0] == WaitLock(ending) && s'.quiet == s.quiet
            else s'.callers[0] == (if ending then EndCancel else Idle) && s'.quiet && Settled(s')
  {
    hide MutexInv, SeenInv, StackInv, HandedInv, PushedInv, CountInv, WakeInv;
  }

  lemma SoleSettled(s: State)
    requires Inv(s) && |s.callers| == 1 && s.quiet
    ensures Settled(s) && Union(Pendings(s.callers)) == multiset{}
  {
    hide MutexInv, SeenInv, StackInv, HandedInv, PushedInv, CountInv, WakeInv, Union;
    UnionOfEmpty(Pendings(s.callers));
  }

  /** From its return to the next reStart every task whose enqueue returned 0 has been taken. */
  lemma QuietMeansAllPopped(s: State)
    requires Inv(s) && |s.callers| == 1 && s.quiet
    ensures multiset(Tasks(s.accepted)) == multiset(Tasks(Pops(s.log)))
  {
    hide MutexInv, SeenInv, HandedInv, PushedInv, SoleInv, WakeInv, LegalHistory, Stack, Pops, Pushes, Tasks, Union;
    SoleSettled(s);
    HistoryConserves(s.log);
    assert multiset(Stack(s.log)) == multiset{};
    assert multiset(Tasks(Pushes(s.log))) == multiset(Tasks(s.accepted));
  }

  /** So the accepted tasks are those that have run and those still in a worker's hands, and all are
      processed exactly when no worker has one. */
  lemma ProcessedIff(s: State)
    requires Inv(s) && |s.callers| == 1 && s.quiet
    ensures multiset(Tasks(s.accepted)) == multiset(Tasks(s.finished)) + Union(Hands(s.workers))
    ensures multiset(Tasks(s.accepted)) == multiset(Tasks(s.finished)) <==>
              forall i :: 0 <= i < |s.workers| ==> InHand(s.workers[i]) == []
  {
    hide MutexInv, SeenInv, StackInv, HandedInv, PushedInv, SoleInv, WakeInv, Pops, Pushes, Tasks, InHand, Union;
    QuietMeansAllPopped(s);
    UnionOfEmpty(Hands(s.workers));
    OnlyEmptyAdds(multiset(Tasks(s.finished)), Union(Hands(s.workers)));
  }

  lemma OnlyEmptyAdds(a: multiset<Task>, b: multiset<Task>)
    ensures a + b == a <==> b == multiset{}
  {
    if a + b == a {
      assert forall t :: (a + b)[t] == a[t] + b[t];
    }
  }

  /** waitPool promises to block until everything is processed; in every pool with a worker it can return
      while a task is running. */
  lemma WaitReturnsTooEarly(n: nat, task: Task) returns (s: State)
    requires n >= 1
    ensures Leads(Init(n, 1), [CallEnqueue(0, task), CallWait(0)], s)
    ensures s.callers == [Idle] && s.quiet && s.accepted == [(task, 0)] && s.finished == []
    ensures |s.workers| == n && s.workers[0] == Running(task)
  {
    hide Leads;
    var s0 := Init(n, 1);
    assert s0.callers == [Idle];
    LeadsStart(s0);
    var s1 := s0.(callers := [EnqLock(task)]);
    LeadsOn(s0, [], s0, CallEnqueue(0, task), s1);
    var calls := [CallEnqueue(0, task)];
    assert [] + CallOf(CallEnqueue(0, task)) == calls;
    var s2 := EnqueueReturns(s0, calls, s1, 0, task);
    var s3 := WorkerTakes(s0, calls, s2, 0);
    s := WaitAlone(s0, calls, s3);
    assert calls + [CallWait(0)] == [CallEnqueue(0, task), CallWait(0)];
  }

  /** A waitPool of the only caller, on an empty queue, from its call to its return. */
  lemma WaitAlone(s0: State, calls: seq<Step>, s: State) returns (s': State)
    requires Leads(s0, calls, s) && s.callers == [Idle] && s.owner == Free && s.tasks == []
    ensures s' == s.(isWaited := true, quiet := true) && Leads(s0, calls + [CallWait(0)], s')
  {
    hide Leads;
    var a := s.(callers := [WaitLock(false)], isWaited := true);
    LeadsOn(s0, calls, s, CallWait(0), a);
    s' := CallerWaits(s0, calls + CallOf(CallWait(0)), a, 0, false);
  }

  // ---------------------------------------------------------------- several callers, waitPool and endPool

  /** Two of several callers: the first is past its test of isWaited in enqueue, the second has called
      waitPool, or endPool. */
  lemma EnqueueBeforeWait(n: nat, m: nat, task: Task, ending: bool) returns (calls: seq<Step>, s: State)
    requires m >= 2
    ensures calls == [CallEnqueue(0, task), if ending then CallEnd(1) else CallWait(1)]
    ensures var s0 := Init(n, m);
            && Leads(s0, calls, s)
            && s == s0.(callers := s0.callers[0 := EnqLock(task)][1 := WaitLock(ending)], isWaited := true)
  {
    hide Leads;
    var s0 := Init(n, m);
    LeadsStart(s0);
    var a := s0.(callers := s0.callers[0 := EnqLock(task)]);
    LeadsOn(s0, [], s0, CallEnqueue(0, task), a);
    var call := if ending then CallEnd(1) else CallWait(1);
    s := a.(callers := a.callers[1 := WaitLock(ending)], isWaited := true);
    LeadsOn(s0, [] + CallOf(CallEnqueue(0, task)), a, call, s);
    calls := [] + CallOf(CallEnqueue(0, task)) + CallOf(call);
  }

  /** The header asks not to assume a single caller. With more, enqueue can test isWaited before the
      waitPool of another thread and push after its return, beside any number of workers. */
  lemma TwoCallersUnsettle(n: nat, m: nat, task: Task) returns (s: State)
    requires m >= 2
    ensures Leads(Init(n, m), [CallEnqueue(0, task), CallWait(1)], s)
    ensures s.callers == Init(n, m).callers && s.isWaited && s.quiet
    ensures s.accepted == [(task, 0)] && s.tasks == [task]
  {
    hide Leads;
    var s0 := Init(n, m);
    var calls, a := EnqueueBeforeWait(n, m, task, false);
    var b := CallerWaits(s0, calls, a, 1, false);
    s := EnqueueReturns(s0, calls, b, 0, task);
    assert s.callers == s0.callers;
  }

  /** So "the queue is empty from the return of waitPool to the next reStart" holds for one caller and no
      more, whatever the number of workers. */
  lemma QuietIsEmptyIff(n: nat, m: nat)
    requires m >= 1
    ensures (forall steps :: IsRun(Init(n, m), steps) && End(Init(n, m), steps).quiet ==>
               End(Init(n, m), steps).tasks == []) <==> m == 1
  {
    hide IsRun, End, Inv, Settled;
    if m == 1 {
      forall steps | IsRun(Init(n, m), steps) && End(Init(n, m), steps).quiet
        ensures End(Init(n, m), steps).tasks == []
      {
        SoleQuietEmpty(n, steps);
      }
    } else {
      var s := TwoCallersUnsettle(n, m, 0);
      var steps :| IsRun(Init(n, m), steps) && End(Init(n, m), steps) == s;
      assert End(Init(n, m), steps).quiet && |End(Init(n, m), steps).tasks| == 1;
    }
  }

  lemma SoleQuietEmpty(n: nat, steps: seq<Step>)
    requires IsRun(Init(n, 1), steps) && End(Init(n, 1), steps).quiet
    ensures End(Init(n, 1), steps).tasks == []
  {
    hide IsRun, End, Inv;
    ReachedInv(n, 1, steps);
    SameThreads(Init(n, 1), steps);
    SoleSettled(End(Init(n, 1), steps));
  }

  lemma {:induction false} SameThreads(s: State, steps: seq<Step>)
    requires IsRun(s, steps)
    ensures |End(s, steps).workers| == |s.workers| && |End(s, steps).callers| == |s.callers|
    decreases |steps|
  {
    hide After, Enabled;
    if steps != [] {
      ThreadsKept(s, steps[0]);
      SameThreads(After(s, steps[0]), steps[1..]);
    }
  }

  predicate AllDone(s: State) {
    forall i :: 0 <= i < |s.workers| ==> s.workers[i] == Done
  }

  /** The same with endPool: a task is accepted by a pool whose workers have all ended. */
  lemma TwoCallersLoseTask(n: nat, m: nat, task: Task) returns (s: State)
    requires m >= 2
    ensures Leads(Init(n, m), [CallEnqueue(0, task), CallEnd(1)], s)
    ensures s.callers == Init(n, m).callers && s.isCancelled && |s.workers| == n && AllDone(s)
    ensures s.accepted == [(task, 0)] && s.tasks == [task] && s.finished == []
  {
    hide Leads;
    var s0 := Init(n, m);
    var calls, a := EnqueueBeforeWait(n, m, task, true);
    var b := CallerWaits(s0, calls, a, 1, true);
    var c := CallerEnds(s0, calls, b, 1);
    assert c.workers == s0.workers;
    var d := WorkersEnd(s0, calls, c, n);
    s := EnqueueReturns(s0, calls, d, 0, task);
    assert s.callers == s0.callers;
  }

  /** Two of several callers: the first is past its test of isCancelled in reStart, the second has run all
      of endPool, and every worker has ended. */
  lemma RestartBeforeEnd(n: nat, m: nat) returns (s: State)
    requires m >= 2
    ensures Leads(Init(n, m), [CallRestart(0), CallEnd(1)], s)
    ensures s.callers == Init(n, m).callers[0 := RestartClear] && s.owner == Free
    ensures s.isCancelled && Settled(s) && s.accepted == [] && s.finished == [] && |s.workers| == n && AllDone(s)
  {
    hide Leads;
    var s0 := Init(n, m);
    LeadsStart(s0);
    var a := s0.(callers := s0.callers[0 := RestartClear]);
    LeadsOn(s0, [], s0, CallRestart(0), a);
    var b := a.(callers := a.callers[1 := WaitLock(true)], isWaited := true);
    LeadsOn(s0, [] + CallOf(CallRestart(0)), a, CallEnd(1), b);
    var calls := [CallRestart(0), CallEnd(1)];
    assert [] + CallOf(CallRestart(0)) + CallOf(CallEnd(1)) == calls;
    var c := CallerWaits(s0, calls, b, 1, true);
    var d := CallerEnds(s0, calls, c, 1);
    assert d.workers == s0.workers && d.callers == a.callers;
    s := WorkersEnd(s0, calls, d, n);
  }

  /** An enqueue called after endPool has returned is refused, but not always: reStart tests isCancelled
      before it clears isWaited, so it can undo the isWaited of another thread's endPool. Then a task is
      accepted by a pool whose workers have all ended. */
  lemma RestartUndoesEnd(n: nat, m: nat, task: Task) returns (s: State)
    requires m >= 2
    ensures Leads(Init(n, m), [CallRestart(0), CallEnd(1), CallEnqueue(0, task)], s)
    ensures s.callers == Init(n, m).callers && s.isCancelled && |s.workers| == n && AllDone(s)
    ensures s.accepted == [(task, 0)] && s.tasks == [task] && s.finished == []
  {
    hide Leads;
    var s0 := Init(n, m);
    var a := RestartBeforeEnd(n, m);
    var first := [CallRestart(0), CallEnd(1)];
    var b := a.(callers := s0.callers, isWaited := false, quiet := false);
    assert a.callers[0 := Idle] == s0.callers;
    LeadsNext(s0, first, a, CallerStep(0), b);
    var c := b.(callers := s0.callers[0 := EnqLock(task)]);
    LeadsOn(s0, first, b, CallEnqueue(0, task), c);
    var calls := first + CallOf(CallEnqueue(0, task));
    assert calls == [CallRestart(0), CallEnd(1), CallEnqueue(0, task)];
    s := EnqueueReturns(s0, calls, c, 0, task);
    assert s.callers == s0.callers;
  }

  // ---------------------------------------------------------------- endPool

  /** Cancelled, settled, and no reStart past its test of isCancelled. */
  predicate Ended(s: State) {
    && s.isCancelled && Settled(s)
    && forall c :: 0 <= c < |s.callers| ==> s.callers[c] != RestartClear
  }

  lemma EndedStep(s: State, step: Step)
    requires Ended(s) && Enabled(s, step)
    ensures Ended(After(s, step)) && After(s, step).log == s.log
  {
    hide Settled;
    assert !Restarts(s, step);
    SettledStep(s, step);
    match step
    case WorkerStep(i) => WorkerStays(s, i);
    case _ =>
  }

  /** endPool is for ever: no later call of any thread, reStart and enqueue included, can put a task in the
      queue again, and everything ever pushed has been taken. */
  lemma {:induction false} EndedForEver(s: State, steps: seq<Step>)
    requires Ended(s) && StackInv(s) && IsRun(s, steps)
    ensures var e := End(s, steps);
            && e.isCancelled && e.tasks == [] && e.log == s.log
            && multiset(Tasks(Pushes(e.log))) == multiset(Tasks(Pops(e.log)))
    decreases |steps|
  {
    if steps == [] {
      HistoryConserves(s.log);
    } else {
      hide After, Enabled, Ended, Pops, Pushes, Tasks, LegalHistory, Stack;
      EndedStep(s, steps[0]);
      StepKeepsStack(s, steps[0]);
      EndedForEver(After(s, steps[0]), steps[1..]);
    }
  }

  lemma PushCanFollow(s: State, c: nat)
    requires c < |s.callers| && s.callers[c] == RestartClear && s.owner == Free
    ensures exists steps :: IsRun(s, steps) && End(s, steps).tasks != []
  {
    var s1 := After(s, CallerStep(c));
    var s2 := After(s1, CallEnqueue(c, 0));
    assert s2.callers[c] == EnqLock(0);
    PushComes(s2, c, 0);
    hide After, Enabled, IsRun, End, CallOf;
    var steps :| IsRun(s2, steps) && End(s2, steps).tasks != [];
    FirstStep(s1, CallEnqueue(c, 0), steps);
    FirstStep(s, CallerStep(c), [CallEnqueue(c, 0)] + steps);
  }

  /** The exact condition, at any moment at which the mutex is free: endPool is for ever exactly when no
      thread is inside an enqueue before its push or inside a reStart past its test. */
  lemma EndedForEverIff(s: State)
    requires MutexInv(s) && StackInv(s) && s.owner == Free && s.isCancelled && s.isWaited && s.tasks == []
    ensures (forall steps :: IsRun(s, steps) ==> End(s, steps).tasks == []) <==>
              forall c :: 0 <= c < |s.callers| ==> !InFlight(s.callers[c]) && s.callers[c] != RestartClear
  {
    hide StackInv, IsRun, End;
    if Ended(s) {
      forall steps | IsRun(s, steps)
        ensures End(s, steps).tasks == []
      {
        EndedForEver(s, steps);
      }
    } else {
      var c :| 0 <= c < |s.callers| && (InFlight(s.callers[c]) || s.callers[c] == RestartClear);
      assert MutexAtCaller(s, c);
      if s.callers[c] == RestartClear {
        PushCanFollow(s, c);
      } else {
        PushComes(s, c, s.callers[c].task);
      }
    }
  }

  lemma SoleEnded(s: State)
    requires Inv(s) && |s.callers| == 1 && s.isCancelled
    ensures s.quiet && Ended(s) && !Enqueuing(s.callers[0])
  {
    hide MutexInv, SeenInv, StackInv, HandedInv, PushedInv, CountInv, WakeInv;
  }

  lemma AcceptedStep(s: State, step: Step)
    requires |s.callers| == 1 && !Enqueuing(s.callers[0]) && Enabled(s, step)
    ensures |After(s, step).callers| == 1 && After(s, step).accepted == s.accepted
  {
    hide Enabled, WorkerAfter;
    ThreadsKept(s, step);
    match step
    case WorkerStep(i) => WorkerStays(s, i);
    case CallerStep(c) => CallerStays(s, c);
    case _ =>
  }

  /** With a single caller isCancelled is set only in such a state, with every accepted task taken. */
  lemma {:induction false} CancelledForEver(s: State, steps: seq<Step>)
    requires Inv(s) && |s.callers| == 1 && s.isCancelled && IsRun(s, steps)
    ensures var e := End(s, steps);
            && e.isCancelled && e.tasks == [] && e.log == s.log && e.accepted == s.accepted
            && multiset(Tasks(e.accepted)) == multiset(Tasks(Pops(e.log)))
    decreases |steps|
  {
    hide After, Enabled, Inv, Pops, Tasks, Enqueuing;
    SoleEnded(s);
    if steps == [] {
      QuietMeansAllPopped(s);
    } else {
      EndedStep(s, steps[0]);
      AcceptedStep(s, steps[0]);
      StepKeepsInv(s, steps[0]);
      CancelledForEver(After(s, steps[0]), steps[1..]);
    }
  }

  lemma CancelStays(s: State, step: Step)
    requires Enabled(s, step)
    ensures s.isCancelled ==> After(s, step).isCancelled
  {
    hide Enabled, WorkerAfter;
    match step
    case WorkerStep(i) => WorkerStays(s, i);
    case CallerStep(c) => CallerStays(s, c);
    case _ =>
  }

  /** A worker that is about to end, or has ended. */
  predicate Ending(pc: WorkerPc) {
    pc.CancelUnlock? || pc.CancelBroadcast? || pc.Done?
  }

  lemma EndingStep(s: State, step: Step, j: nat)
    requires Enabled(s, step) && j < |s.workers| && (Ending(s.workers[j]) ==> s.isCancelled)
    ensures |After(s, step).workers| == |s.workers|
    ensures Ending(After(s, step).workers[j]) ==> After(s, step).isCancelled
  {
    CancelStays(s, step);
    if Actor(step) != Worker(j) {
      OthersKept(s, step, j);
    }
  }

  lemma {:induction false} EndingRun(s: State, steps: seq<Step>, j: nat)
    requires IsRun(s, steps) && j < |s.workers| && (Ending(s.workers[j]) ==> s.isCancelled)
    ensures |End(s, steps).workers| == |s.workers|
    ensures Ending(End(s, steps).workers[j]) ==> End(s, steps).isCancelled
    decreases |steps|
  {
    hide After, Enabled, Ending;
    if steps != [] {
      EndingStep(s, steps[0], j);
      EndingRun(After(s, steps[0]), steps[1..], j);
    }
  }

  /** In every run of any number of threads a worker ends only once the pool is cancelled. */
  lemma EndsOnlyCancelled(n: nat, m: nat, steps: seq<Step>, j: nat)
    requires IsRun(Init(n, m), steps) && j < n
    ensures var s := End(Init(n, m), steps);
            |s.workers| == n && (Ending(s.workers[j]) ==> s.isCancelled)
  {
    hide IsRun, End;
    EndingRun(Init(n, m), steps, j);
  }

  /** A worker that has passed the test of line 27 and may still go to wait, or waits already. */
  predicate MayWait(pc: WorkerPc) {
    pc == Locking || pc == EmptyTest || pc == Waiting
  }

  lemma CancelledStepNoWait(s: State, step: Step, j: nat)
    requires s.isCancelled && Enabled(s, step) && j < |s.workers| && !MayWait(s.workers[j])
    ensures |After(s, step).workers| == |s.workers| && !MayWait(After(s, step).workers[j])
  {
    if Actor(step) != Worker(j) {
      OthersKept(s, step, j);
    }
  }

  /** A worker that does not stand there once the pool is cancelled never waits again, in any run: the
      broadcast of endPool, and those of the workers that end, need not reach it. */
  lemma {:induction false} NeverWaitsAgain(s: State, steps: seq<Step>, j: nat)
    requires s.isCancelled && IsRun(s, steps) && j < |s.workers| && !MayWait(s.workers[j])
    ensures |End(s, steps).workers| == |s.workers| && !MayWait(End(s, steps).workers[j])
    decreases |steps|
  {
    hide After, Enabled, MayWait;
    if steps != [] {
      CancelledStepNoWait(s, steps[0], j);
      CancelStays(s, steps[0]);
      NeverWaitsAgain(After(s, steps[0]), steps[1..], j);
    }
  }

  /** Where a worker is about to take a task. */
  predicate Taking(pc: WorkerPc) {
    pc.ReadBack? || pc.PopBack?
  }

  lemma CancelledStepTakesNone(s: State, step: Step, j: nat)
    requires s.isCancelled && Enabled(s, step) && j < |s.workers| && !Taking(s.workers[j])
    ensures |After(s, step).workers| == |s.workers| && !Taking(After(s, step).workers[j])
  {
    if Actor(step) != Worker(j) {
      OthersKept(s, step, j);
    }
  }

  /** Once the pool is cancelled, a worker that is not past line 38 takes no task any more, in any run. */
  lemma {:induction false} NeverTakesAgain(s: State, steps: seq<Step>, j: nat)
    requires s.isCancelled && IsRun(s, steps) && j < |s.workers| && !Taking(s.workers[j])
    ensures |End(s, steps).workers| == |s.workers| && !Taking(End(s, steps).workers[j])
    decreases |steps|
  {
    hide After, Enabled, Taking;
    if steps != [] {
      CancelledStepTakesNone(s, steps[0], j);
      CancelStays(s, steps[0]);
      NeverTakesAgain(After(s, steps[0]), steps[1..], j);
    }
  }

  /** A worker that has passed line 27 but does not wait yet can still go to wait by steps of its own when
      every call, that of endPool and its broadcast included, has returned. */
  lemma CanStillWait(s: State, j: nat)
    requires s.isCancelled && s.tasks == [] && forall c :: 0 <= c < |s.callers| ==> s.callers[c] == Idle
    requires j < |s.workers|
    requires (s.workers[j] == Locking && s.owner == Free) || (s.workers[j] == EmptyTest && s.owner == Worker(j))
    ensures Leads(s, [], s.(workers := s.workers[j := Waiting], owner := Free))
  {
    hide Leads;
    LeadsStart(s);
    var s1 := s;
    if s.workers[j] == Locking {
      s1 := WorkerGoesTo(s, [], s, j, s.workers[j := EmptyTest], Worker(j));
    }
    var s2 := WorkerGoesTo(s, [], s1, j, s.workers[j := Waiting], Free);
  }

  /** So a cancelled pool can come to rest with endPool returned and a worker waiting that no thread is
      going to wake, in every pool with a worker and a caller: one worker slow to take the mutex is enough. */
  lemma CancelCanBeMissed(n: nat, m: nat) returns (s: State)
    requires n >= 1 && m >= 1
    ensures Leads(Init(n, m), [CallEnd(0)], s) && |s.workers| == n
    ensures s.isCancelled && s.callers == Init(n, m).callers && s.workers[0] == Waiting
    ensures forall i :: !Enabled(s, WorkerStep(i))
  {
    hide Leads;
    var s0 := Init(n, m);
    LeadsStart(s0);
    var s1 := WorkerGoesTo(s0, [], s0, 0, s0.workers[0 := Locking], Free);
    var s2 := s1.(callers := s1.callers[0 := WaitLock(true)], isWaited := true);
    LeadsOn(s0, [], s1, CallEnd(0), s2);
    var calls := [CallEnd(0)];
    assert [] + CallOf(CallEnd(0)) == calls;
    var s3 := CallerWaits(s0, calls, s2, 0, true);
    var s4 := CallerEnds(s0, calls, s3, 0);
    assert s4.workers == s1.workers && s4.callers == s0.callers;
    var s5 := WorkersEnd(s0, calls, s4, n);
    s := SlowWorkerWaits(s0, calls, s5);
  }

  lemma SlowWorkerWaits(s0: State, calls: seq<Step>, s: State) returns (s': State)
    requires Leads(s0, calls, s) && |s.workers| > 0 && s.workers[0] == Locking && s.owner == Free && s.tasks == []
    ensures s' == s.(workers := s.workers[0 := Waiting]) && Leads(s0, calls, s')
  {
    hide Leads;
    var a := WorkerGoesTo(s0, calls, s, 0, s.workers[0 := EmptyTest], Worker(0));
    s' := WorkerGoesTo(s0, calls, a, 0, s.workers[0 := Waiting], Free);
  }

  // ---------------------------------------------------------------- line 29 tests with if, not while

  /** A worker that has woken up takes the mutex on an empty queue, with no cancellation to stop it. */
  predicate EmptyWake(s: State, step: Step) {
    && step.WorkerStep? && step.i < |s.workers| && s.workers[step.i] == Woken
    && s.tasks == [] && !s.isCancelled
  }

  predicate NoEmptyWake(s: State, steps: seq<Step>)
    requires IsRun(s, steps)
    decreases |steps|
  {
    steps == [] || (!EmptyWake(s, steps[0]) && NoEmptyWake(After(s, steps[0]), steps[1..]))
  }

  predicate SafeAt(s: State, i: nat)
    requires i < |s.workers|
  {
    s.workers[i] != ReadBack(false) && (s.workers[i] == CancelTest(false) ==> s.isCancelled)
  }

  lemma StepKeepsSafe(s: State, step: Step, j: nat)
    requires Enabled(s, step) && !EmptyWake(s, step) && j < |s.workers| && SafeAt(s, j)
    ensures |After(s, step).workers| == |s.workers| && SafeAt(After(s, step), j)
  {
    if Actor(step) != Worker(j) {
      OthersKept(s, step, j);
    }
    CancelStays(s, step);
  }

  lemma {:induction false} RunKeepsSafe(s: State, steps: seq<Step>, j: nat)
    requires IsRun(s, steps) && NoEmptyWake(s, steps) && j < |s.workers| && SafeAt(s, j)
    ensures |End(s, steps).workers| == |s.workers| && SafeAt(End(s, steps), j)
    decreases |steps|
  {
    hide After, Enabled, SafeAt, EmptyWake;
    if steps != [] {
      StepKeepsSafe(s, steps[0], j);
      RunKeepsSafe(After(s, steps[0]), steps[1..], j);
    }
  }

  /** Line 39 takes the last task of a non-empty queue in every run without an empty wake ... */
  lemma ReadsBackSafely(n: nat, m: nat, steps: seq<Step>, j: nat)
    requires j < n && IsRun(Init(n, m), steps) && NoEmptyWake(Init(n, m), steps)
    ensures var s := End(Init(n, m), steps);
            && |s.workers| == n
            && (s.workers[j].ReadBack? ==> s.tasks != [])
  {
    hide End, IsRun, StackInv, HandedInv, PushedInv, CountInv, MutexInv, SoleInv, WakeInv, NoEmptyWake;
    ReachedInv(n, m, steps);
    RunKeepsSafe(Init(n, m), steps, j);
    assert SeenAt(End(Init(n, m), steps), j);
  }

  /** ... and after an empty wake the same worker can go straight on to line 39 with nothing to take. */
  lemma EmptyWakeReadsEmpty(s0: State, calls: seq<Step>, s: State, i: nat) returns (s': State)
    requires Leads(s0, calls, s) && Enabled(s, WorkerStep(i)) && EmptyWake(s, WorkerStep(i))
    ensures Leads(s0, calls, s') && |s'.workers| == |s.workers| && s'.workers[i].ReadBack? && s'.tasks == []
  {
    hide Leads;
    var a := WorkerGoesTo(s0, calls, s, i, s.workers[i := CancelTest(false)], Worker(i));
    s' := WorkerGoesTo(s0, calls, a, i, s.workers[i := ReadBack(false)], Worker(i));
  }

  /** An enqueue that is accepted on an empty queue can end so, whatever was called before: a worker takes
      the task and waits again before the broadcast of line 62 comes. No spurious wake-up is needed. */
  lemma EnqueueWakesEmpty(s0: State, calls: seq<Step>, s: State, c: nat, task: Task, i: nat) returns (s': State)
    requires Leads(s0, calls, s) && c < |s.callers| && s.callers[c] == Idle
    requires i < |s.workers| && s.workers[i] == LoopTest
    requires s.owner == Free && s.tasks == [] && !s.isWaited && !s.isCancelled
    ensures Leads(s0, calls + [CallEnqueue(c, task)], s') && |s'.workers| == |s.workers|
    ensures Enabled(s', WorkerStep(i)) && EmptyWake(s', WorkerStep(i))
  {
    hide Leads;
    var a := s.(callers := s.callers[c := EnqLock(task)]);
    LeadsOn(s0, calls, s, CallEnqueue(c, task), a);
    var longer := calls + CallOf(CallEnqueue(c, task));
    var b := CallerPushes(s0, longer, a, c, task);
    var d := WorkerTakes(s0, longer, b, i);
    var e := WorkerWaits(s0, longer, d, i, task);
    s' := After(e, CallerStep(c));
    LeadsNext(s0, longer, e, CallerStep(c), s');
  }

  /** So one enqueue is enough in every pool with a worker and a caller. */
  lemma EmptyWakeIsReachable(n: nat, m: nat, task: Task) returns (s: State)
    requires n >= 1 && m >= 1
    ensures Leads(Init(n, m), [CallEnqueue(0, task)], s) && |s.workers| == n
    ensures Enabled(s, WorkerStep(0)) && EmptyWake(s, WorkerStep(0))
  {
    hide Leads;
    var s0 := Init(n, m);
    LeadsStart(s0);
    s := EnqueueWakesEmpty(s0, [], s0, 0, task, 0);
    assert [] + [CallEnqueue(0, task)] == [CallEnqueue(0, task)];
  }
}
