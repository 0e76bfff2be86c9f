/** Programs of a single caller of the thread pool, as lists of calls: which of them are safe at line 39, and
    for which waitPool and endPool keep the promise that everything is processed. */
module ThreadPoolPrograms {
  import opened ThreadPool
  import opened ThreadPoolCalls

  // ---------------------------------------------------------------- which programs are safe at line 39

  /** isWaited and isCancelled after a completed call, from what they were before it. */
  function FlagsAfter(call: Step, waited: bool, cancelled: bool): (bool, bool) {
    match call
    case CallWait(_) => (true, cancelled)
    case CallRestart(_) => (waited && cancelled, cancelled)
    case CallEnd(_) => (true, true)
    case _ => (waited, cancelled)
  }

  /** One of these calls is an enqueue that is not refused. */
  predicate Accepts(calls: seq<Step>, waited: bool, cancelled: bool)
    decreases |calls|
  {
    calls != [] &&
    ((calls[0].CallEnqueue? && !waited) ||
     (var (waited', cancelled') := FlagsAfter(calls[0], waited, cancelled);
      Accepts(calls[1..], waited', cancelled')))
  }

  lemma {:induction false} PrefixRefused(calls: seq<Step>, k: nat, waited: bool, cancelled: bool)
    requires k <= |calls| && !Accepts(calls, waited, cancelled)
    ensures !Accepts(calls[..k], waited, cancelled)
    decreases k
  {
    if k > 0 {
      var (waited', cancelled') := FlagsAfter(calls[0], waited, cancelled);
      PrefixRefused(calls[1..], k - 1, waited', cancelled');
      assert calls[..k][0] == calls[0] && calls[..k][1..] == calls[1..][..k - 1];
    }
  }

  /** What the program of a single caller so far says of the flags. */
  predicate Tracks(s: State, waited: bool, cancelled: bool) {
    && |s.callers| == 1
    && var pc := s.callers[0];
       && (if pc == RestartClear then !waited && !cancelled else s.isWaited == waited)
       && (if pc == EndCancel || (InWait(pc) && pc.ending) then cancelled else s.isCancelled == cancelled)
       && (cancelled ==> waited)
  }

  lemma TrackStep(s: State, step: Step, waited: bool, cancelled: bool)
    requires Tracks(s, waited, cancelled) && Enabled(s, step)
    ensures var (waited', cancelled') := FlagsAfter(step, waited, cancelled);
            Tracks(After(s, step), waited', cancelled')
    ensures IsCall(step) ==> s.isWaited == waited
  {
    hide WorkerAfter;
    match step
    case WorkerStep(i) => WorkerStays(s, i);
    case CallerStep(c) => TrackCaller(s, waited, cancelled);
    case _ =>
      hide CallerAfter;
  }

  lemma TrackCaller(s: State, waited: bool, cancelled: bool)
    requires Tracks(s, waited, cancelled) && Enabled(s, CallerStep(0))
    ensures Tracks(CallerAfter(s, 0), waited, cancelled)
  {
  }

  predicate Accepting(s: State, step: Step) {
    step.CallEnqueue? && !s.isWaited
  }

  predicate NeverAccepts(s: State, steps: seq<Step>)
    requires IsRun(s, steps)
    decreases |steps|
  {
    steps == [] || (!Accepting(s, steps[0]) && NeverAccepts(After(s, steps[0]), steps[1..]))
  }

  lemma {:induction false} ProgramNeverAccepts(s: State, steps: seq<Step>, waited: bool, cancelled: bool)
    requires IsRun(s, steps) && Tracks(s, waited, cancelled) && !Accepts(Calls(steps), waited, cancelled)
    ensures NeverAccepts(s, steps)
    decreases |steps|
  {
    hide After, Enabled, Tracks;
    if steps != [] {
      var step, calls := steps[0], Calls(steps);
      TrackStep(s, step, waited, cancelled);
      var (waited', cancelled') := FlagsAfter(step, waited, cancelled);
      if IsCall(step) {
        assert calls[0] == step && calls[1..] == Calls(steps[1..]);
      } else {
        assert calls == Calls(steps[1..]);
      }
      ProgramNeverAccepts(After(s, step), steps[1..], waited', cancelled');
    }
  }

  /** Nothing has been enqueued, and a worker is past its wait only because the pool is cancelled. */
  predicate BarrenAt(s: State, i: nat)
    requires i < |s.workers|
  {
    var pc := s.workers[i];
    || pc == LoopTest || pc == Locking || pc == EmptyTest || pc == Waiting || pc == Done
    || (s.isCancelled && (pc == Woken || pc.CancelTest? || pc == CancelUnlock || pc == CancelBroadcast))
  }

  predicate Barren(s: State) {
    && s.tasks == []
    && (forall i :: 0 <= i < |s.workers| ==> BarrenAt(s, i))
    && (forall c :: 0 <= c < |s.callers| ==>
          !Enqueuing(s.callers[c]) && (s.callers[c] == EndBroadcast ==> s.isCancelled))
  }

  lemma BarrenWorker(s: State, step: Step, j: nat)
    requires Barren(s) && Enabled(s, step) && !step.SpuriousWake? && j < |s.workers|
    ensures |After(s, step).workers| == |s.workers| && BarrenAt(After(s, step), j)
  {
    assert BarrenAt(s, j);
    if step.WorkerStep? {
      assert BarrenAt(s, step.i);
    }
    CancelStays(s, step);
  }

  lemma BarrenCallers(s: State, step: Step)
    requires Barren(s) && Enabled(s, step) && !Accepting(s, step)
    ensures var s' := After(s, step);
            && s'.tasks == []
            && forall c :: 0 <= c < |s'.callers| ==>
                 !Enqueuing(s'.callers[c]) && (s'.callers[c] == EndBroadcast ==> s'.isCancelled)
  {
    hide WorkerAfter, BarrenAt;
    match step
    case WorkerStep(i) => WorkerStays(s, i);
    case CallerStep(c) => BarrenCaller(s, c);
    case _ =>
      hide CallerAfter;
  }

  lemma BarrenCaller(s: State, c: nat)
    requires Barren(s) && Enabled(s, CallerStep(c))
    ensures var s' := CallerAfter(s, c);
            && |s'.callers| == |s.callers| && s'.tasks == []
            && (s.isCancelled ==> s'.isCancelled)
            && !Enqueuing(s'.callers[c]) && (s'.callers[c] == EndBroadcast ==> s'.isCancelled)
            && forall d :: 0 <= d < |s.callers| && d != c ==> s'.callers[d] == s.callers[d]
  {
    hide BarrenAt;
    assert !Enqueuing(s.callers[c]);
  }

  lemma {:induction false} RunStaysBarren(s: State, steps: seq<Step>)
    requires IsRun(s, steps) && NoSpurious(steps) && NeverAccepts(s, steps) && Barren(s)
    ensures Barren(End(s, steps))
    decreases |steps|
  {
    hide After, Enabled, Accepting, BarrenAt, Enqueuing;
    if steps != [] {
      var s' := After(s, steps[0]);
      ThreadsKept(s, steps[0]);
      forall j | 0 <= j < |s'.workers|
        ensures BarrenAt(s', j)
      {
        BarrenWorker(s, steps[0], j);
      }
      BarrenCallers(s, steps[0]);
      RunStaysBarren(s', steps[1..]);
    }
  }

  /** Any number of threads: without an accepted enqueue and without spurious wake-ups no worker gets to
      line 39, nor wakes up to an empty queue. */
  lemma NothingEnqueuedNothingRead(n: nat, m: nat, steps: seq<Step>, i: nat)
    requires IsRun(Init(n, m), steps) && NoSpurious(steps) && NeverAccepts(Init(n, m), steps)
    ensures var s := End(Init(n, m), steps);
            i < |s.workers| ==> !s.workers[i].ReadBack? && !EmptyWake(s, WorkerStep(i))
  {
    hide End, IsRun, NeverAccepts;
    RunStaysBarren(Init(n, m), steps);
    var s := End(Init(n, m), steps);
    if i < |s.workers| {
      assert BarrenAt(s, i);
    }
  }

  /** The calls of a program whose only caller is thread 0. */
  predicate IsProgram(calls: seq<Step>) {
    forall k :: 0 <= k < |calls| ==> IsCall(calls[k]) && calls[k].c == 0
  }

  /** All threads at rest, the workers at line 27, nothing queued. */
  predicate AtRest(s: State) {
    && s.callers == [Idle] && s.owner == Free && s.tasks == [] && (s.isCancelled ==> s.isWaited)
    && |s.workers| > 0 && forall i :: 0 <= i < |s.workers| ==> s.workers[i] == LoopTest
  }

  /** One call that is not an accepted enqueue, run alone, ends at rest again. */
  lemma CallAtRest(s0: State, calls: seq<Step>, s: State, call: Step) returns (s': State)
    requires Leads(s0, calls, s) && AtRest(s) && IsCall(call) && call.c == 0 && !Accepting(s, call)
    ensures Leads(s0, calls + [call], s') && AtRest(s')
    ensures (s'.isWaited, s'.isCancelled) == FlagsAfter(call, s.isWaited, s.isCancelled)
  {
    hide Leads;
    var a := After(s, call);
    LeadsOn(s0, calls, s, call, a);
    var longer := calls + [call];
    assert longer == calls + CallOf(call);
    match call {
      case CallEnqueue(_, _) => s' := a;
      case CallWait(_) => s' := CallerWaits(s0, longer, a, 0, false);
      case CallRestart(_) =>
        s' := a;
        if !s.isCancelled {
          s' := a.(callers := [Idle], isWaited := false, quiet := false);
          LeadsNext(s0, longer, a, CallerStep(0), s');
        }
      case CallEnd(_) =>
        var b := CallerWaits(s0, longer, a, 0, true);
        s' := CallerEnds(s0, longer, b, 0);
    }
  }

  /** Such a program can bring a worker to line 39 with an empty queue. */
  lemma {:induction false} ProgramReadsEmpty(s0: State, done: seq<Step>, s: State, calls: seq<Step>)
    returns (k: nat, s': State)
    requires Leads(s0, done, s) && AtRest(s) && IsProgram(calls) && Accepts(calls, s.isWaited, s.isCancelled)
    ensures k <= |calls| && Leads(s0, done + calls[..k], s')
    ensures |s'.workers| > 0 && s'.workers[0].ReadBack? && s'.tasks == []
    decreases |calls|
  {
    hide Leads, After, Enabled;
    var call := calls[0];
    if Accepting(s, call) {
      var a := EnqueueWakesEmpty(s0, done, s, 0, call.task, 0);
      s' := EmptyWakeReadsEmpty(s0, done + [call], a, 0);
      k := 1;
      assert calls[..1] == [call];
    } else {
      var a := CallAtRest(s0, done, s, call);
      assert IsProgram(calls[1..]);
      k, s' := ProgramReadsEmpty(s0, done + [call], a, calls[1..]);
      k := k + 1;
      assert done + calls[..k] == (done + [call]) + calls[1..][..k - 1];
    }
  }

  /** Line 39 finds a task whenever a worker gets there, at any time of the program. */
  ghost predicate ReadsSafely(n: nat, calls: seq<Step>) {
    forall k: nat, s, i: nat ::
      k <= |calls| && Leads(Init(n, 1), calls[..k], s) && i < |s.workers| && s.workers[i].ReadBack? ==> s.tasks != []
  }

  /** For every pool and every program, in runs without spurious wake-ups: line 39 is safe exactly when no
      enqueue of the program is accepted. */
  lemma ReadsSafelyIff(n: nat, calls: seq<Step>)
    requires n >= 1 && IsProgram(calls)
    ensures ReadsSafely(n, calls) <==> !Accepts(calls, false, false)
  {
    var s0 := Init(n, 1);
    if Accepts(calls, false, false) {
      LeadsStart(s0);
      assert s0.callers == [Idle];
      var k, s := ProgramReadsEmpty(s0, [], s0, calls);
      assert [] + calls[..k] == calls[..k];
    } else {
      forall k: nat, s, i: nat | k <= |calls| && Leads(s0, calls[..k], s) && i < |s.workers|
        ensures !s.workers[i].ReadBack?
      {
        RefusedReadsNothing(n, calls, k, s, i);
      }
    }
  }

  lemma RefusedReadsNothing(n: nat, calls: seq<Step>, k: nat, s: State, i: nat)
    requires !Accepts(calls, false, false) && k <= |calls| && Leads(Init(n, 1), calls[..k], s) && i < |s.workers|
    ensures !s.workers[i].ReadBack?
  {
    hide IsRun, End, Calls, NoSpurious;
    var s0 := Init(n, 1);
    var steps :| IsRun(s0, steps) && NoSpurious(steps) && Calls(steps) == calls[..k] && End(s0, steps) == s;
    PrefixRefused(calls, k, false, false);
    ProgramNeverAccepts(s0, steps, false, false);
    NothingEnqueuedNothingRead(n, 1, steps, i);
  }

  /** With spurious wake-ups, which POSIX allows, no pool with a worker is safe there, calls or no calls. */
  lemma SpuriousReadsEmpty(n: nat, m: nat) returns (steps: seq<Step>)
    requires n >= 1
    ensures IsRun(Init(n, m), steps) && Calls(steps) == []
    ensures var s := End(Init(n, m), steps);
            |s.workers| == n && s.workers[0].ReadBack? && s.tasks == []
  {
    hide Leads;
    var s0 := Init(n, m);
    LeadsStart(s0);
    var a := WorkerGoesTo(s0, [], s0, 0, s0.workers[0 := Locking], Free);
    var b := SlowWorkerWaits(s0, [], a);
    steps := RunOf(s0, [], b);
    var c := SpuriousEnd(s0, steps, b);
    steps := steps + [SpuriousWake(0), WorkerStep(0), WorkerStep(0)];
  }

  lemma RunOf(s: State, calls: seq<Step>, s': State) returns (steps: seq<Step>)
    requires Leads(s, calls, s')
    ensures IsRun(s, steps) && Calls(steps) == calls && End(s, steps) == s'
  {
    steps :| IsRun(s, steps) && NoSpurious(steps) && Calls(steps) == calls && End(s, steps) == s';
  }

  lemma SpuriousEnd(s0: State, steps: seq<Step>, s: State) returns (s': State)
    requires IsRun(s0, steps) && End(s0, steps) == s && Calls(steps) == []
    requires |s.workers| > 0 && s.workers[0] == Waiting && s.owner == Free && s.tasks == [] && !s.isCancelled
    ensures var longer := steps + [SpuriousWake(0), WorkerStep(0), WorkerStep(0)];
            && IsRun(s0, longer) && End(s0, longer) == s' && Calls(longer) == []
            && |s'.workers| == |s.workers| && s'.workers[0] == ReadBack(false) && s'.tasks == []
  {
    hide IsRun, End, Calls;
    var a := After(s, SpuriousWake(0));
    LastStep(s0, steps, SpuriousWake(0));
    var b := After(a, WorkerStep(0));
    LastStep(s0, steps + [SpuriousWake(0)], WorkerStep(0));
    s' := After(b, WorkerStep(0));
    var three := steps + [SpuriousWake(0)] + [WorkerStep(0)] + [WorkerStep(0)];
    LastStep(s0, steps + [SpuriousWake(0)] + [WorkerStep(0)], WorkerStep(0));
    assert three == steps + [SpuriousWake(0), WorkerStep(0), WorkerStep(0)];
  }

  // ---------------------------------------------------------------- which programs have everything processed

  predicate Waits(call: Step) {
    call.CallWait? || call.CallEnd?
  }

  predicate WaitAhead(calls: seq<Step>) {
    exists k :: 0 <= k < |calls| && Waits(calls[k])
  }

  /** An enqueue that is not refused, and after it a waitPool or an endPool. */
  predicate WaitsForTasks(calls: seq<Step>, waited: bool, cancelled: bool)
    decreases |calls|
  {
    calls != [] &&
    ((calls[0].CallEnqueue? && !waited && WaitAhead(calls[1..])) ||
     (var (waited', cancelled') := FlagsAfter(calls[0], waited, cancelled);
      WaitsForTasks(calls[1..], waited', cancelled')))
  }

  /** Where a single caller stands whose program `rest` is still to come: either nothing has been accepted
      and no wait will follow what may be, or nobody will wait any more. */
  predicate NoWaitForTasks(s: State, rest: seq<Step>, waited: bool, cancelled: bool) {
    && Tracks(s, waited, cancelled)
    && var pc := s.callers[0];
       || (s.accepted == [] && !Enqueuing(pc) && !WaitsForTasks(rest, waited, cancelled))
       || (!s.quiet && !InWait(pc) && !WaitAhead(rest))
  }

  lemma NoWaitStep(s: State, step: Step, rest: seq<Step>, waited: bool, cancelled: bool)
    requires SoleInv(s) && NoWaitForTasks(s, rest, waited, cancelled) && Enabled(s, step) && !IsCall(step)
    ensures NoWaitForTasks(After(s, step), rest, waited, cancelled)
  {
    hide WaitsForTasks, WaitAhead, Tracks;
    TrackStep(s, step, waited, cancelled);
    OneCaller(s, waited, cancelled);
    NoCallWaits(s, step);
  }

  lemma OneCaller(s: State, waited: bool, cancelled: bool)
    requires Tracks(s, waited, cancelled)
    ensures |s.callers| == 1
  {
  }

  lemma NoCallWaits(s: State, step: Step)
    requires Enabled(s, step) && !IsCall(step) && |s.callers| == 1
    ensures var s', pc := After(s, step), s.callers[0];
            && |s'.callers| == 1
            && (!Enqueuing(pc) ==> s'.accepted == s.accepted && !Enqueuing(s'.callers[0]))
            && (!s.quiet && !InWait(pc) ==> !s'.quiet && !InWait(s'.callers[0]))
  {
    match step
    case WorkerStep(i) => WorkerStays(s, i);
    case _ =>
  }

  lemma NoWaitCall(s: State, call: Step, rest: seq<Step>, waited: bool, cancelled: bool)
    requires SoleInv(s) && Enabled(s, call) && IsCall(call)
    requires NoWaitForTasks(s, [call] + rest, waited, cancelled)
    ensures var (waited', cancelled') := FlagsAfter(call, waited, cancelled);
            NoWaitForTasks(After(s, call), rest, waited', cancelled')
  {
    hide Tracks, FlagsAfter;
    var calls := [call] + rest;
    assert calls[0] == call && calls[1..] == rest;
    TrackStep(s, call, waited, cancelled);
    OneCaller(s, waited, cancelled);
    CallMoves(s, call);
    WaitAheadSplits(call, rest);
  }

  lemma WaitAheadSplits(call: Step, rest: seq<Step>)
    ensures WaitAhead([call] + rest) <==> Waits(call) || WaitAhead(rest)
  {
    var calls := [call] + rest;
    assert calls[0] == call;
    assert forall k :: 0 <= k < |rest| ==> calls[k + 1] == rest[k];
  }

  lemma CallMoves(s: State, call: Step)
    requires Enabled(s, call) && IsCall(call) && |s.callers| == 1
    ensures var s' := After(s, call);
            && |s'.callers| == 1 && s'.accepted == s.accepted && s'.quiet == s.quiet && s.callers[0] == Idle
            && (Enqueuing(s'.callers[0]) <==> Accepting(s, call))
            && (InWait(s'.callers[0]) <==> Waits(call))
  {
  }

  /** Every run of the program, spurious wake-ups included, is quiet only while nothing has been accepted. */
  lemma {:induction false} QuietBeforeTasks(s: State, steps: seq<Step>, rest: seq<Step>, waited: bool, cancelled: bool)
    requires Inv(s) && IsRun(s, steps) && Calls(steps) <= rest && NoWaitForTasks(s, rest, waited, cancelled)
    ensures End(s, steps).quiet ==> End(s, steps).accepted == []
    decreases |steps|
  {
    hide After, Enabled, Inv, NoWaitForTasks, IsCall;
    if steps == [] {
      QuietMeansNone(s, rest, waited, cancelled);
    } else {
      var step := steps[0];
      InvIsSole(s);
      StepKeepsInv(s, step);
      if IsCall(step) {
        assert Calls(steps)[0] == step && Calls(steps)[1..] == Calls(steps[1..]);
        assert rest[0] == step && rest == [step] + rest[1..];
        assert Calls(steps[1..]) <= rest[1..];
        NoWaitCall(s, step, rest[1..], waited, cancelled);
        var (waited', cancelled') := FlagsAfter(step, waited, cancelled);
        QuietBeforeTasks(After(s, step), steps[1..], rest[1..], waited', cancelled');
      } else {
        assert Calls(steps) == Calls(steps[1..]);
        NoWaitStep(s, step, rest, waited, cancelled);
        QuietBeforeTasks(After(s, step), steps[1..], rest, waited, cancelled);
      }
    }
  }

  lemma InvIsSole(s: State)
    requires Inv(s)
    ensures SoleInv(s)
  {
  }

  lemma QuietMeansNone(s: State, rest: seq<Step>, waited: bool, cancelled: bool)
    requires NoWaitForTasks(s, rest, waited, cancelled)
    ensures s.quiet ==> s.accepted == []
  {
  }

  /** The only caller between calls, an enqueue not refused, nothing queued and no worker waiting; worker 0
      is at line 27, or runs the one task that has not been processed. */
  predicate BetweenCalls(s: State) {
    && s.callers == [Idle] && s.owner == Free && s.tasks == [] && !s.isWaited && !s.isCancelled
    && |s.workers| > 0 && Waiting !in s.workers
  }

  predicate Ready(s: State) {
    BetweenCalls(s) && s.workers[0] == LoopTest
  }

  predicate Busy(s: State) {
    BetweenCalls(s) && s.workers[0].Running?
  }

  /** An enqueue whose task worker 0 takes at once. */
  lemma ReadyEnqueue(s0: State, calls: seq<Step>, s: State, task: Task) returns (s': State)
    requires Leads(s0, calls, s) && Ready(s)
    ensures Leads(s0, calls + [CallEnqueue(0, task)], s') && Busy(s')
  {
    hide Leads;
    var a := s.(callers := [EnqLock(task)]);
    LeadsOn(s0, calls, s, CallEnqueue(0, task), a);
    var longer := calls + [CallEnqueue(0, task)];
    assert calls + CallOf(CallEnqueue(0, task)) == longer;
    var b := EnqueueReturns(s0, longer, a, 0, task);
    s' := WorkerTakes(s0, longer, b, 0);
    StillNoneWait(s.workers, s'.workers);
  }

  /** The same once it has ended its task. */
  lemma BusyEnqueue(s0: State, calls: seq<Step>, s: State, task: Task) returns (s': State)
    requires Leads(s0, calls, s) && Busy(s)
    ensures Leads(s0, calls + [CallEnqueue(0, task)], s') && Busy(s')
  {
    hide Leads;
    var a := After(s, WorkerStep(0));
    LeadsNext(s0, calls, s, WorkerStep(0), a);
    StillNoneWait(s.workers, a.workers);
    s' := ReadyEnqueue(s0, calls, a, task);
  }

  lemma StillNoneWait(before: seq<WorkerPc>, after: seq<WorkerPc>)
    requires Waiting !in before && |before| == |after| > 0 && after[0] != Waiting
    requires forall i :: 0 < i < |before| ==> after[i] == before[i]
    ensures Waiting !in after
  {
  }

  /** The first waitPool or endPool that follows returns with that task still running. */
  lemma {:induction false} BusyProgram(s0: State, done: seq<Step>, s: State, calls: seq<Step>)
    returns (k: nat, s': State)
    requires Leads(s0, done, s) && Busy(s) && IsProgram(calls) && WaitAhead(calls)
    ensures k <= |calls| && Leads(s0, done + calls[..k], s')
    ensures s'.quiet && |s'.workers| > 0 && s'.workers[0].Running?
    decreases |calls|
  {
    hide Leads, Busy;
    var call := calls[0];
    if Waits(call) {
      s' := BusyWait(s0, done, s, call);
      k := 1;
      assert calls[..1] == [call];
    } else {
      var j :| 0 <= j < |calls| && Waits(calls[j]);
      assert calls[1..][j - 1] == calls[j];
      assert IsProgram(calls[1..]);
      var a;
      if call.CallEnqueue? {
        a := BusyEnqueue(s0, done, s, call.task);
      } else {
        assert call == CallRestart(0);
        a := BusyRestart(s0, done, s);
      }
      k, s' := BusyProgram(s0, done + [call], a, calls[1..]);
      k := k + 1;
      assert done + calls[..k] == (done + [call]) + calls[1..][..k - 1];
    }
  }

  lemma BusyWait(s0: State, calls: seq<Step>, s: State, call: Step) returns (s': State)
    requires Leads(s0, calls, s) && Busy(s) && Waits(call) && call.c == 0
    ensures Leads(s0, calls + [call], s') && s'.quiet && |s'.workers| > 0 && s'.workers[0].Running?
  {
    hide Leads;
    var a := After(s, call);
    LeadsOn(s0, calls, s, call, a);
    assert calls + [call] == calls + CallOf(call);
    s' := CallerWaits(s0, calls + [call], a, 0, call.CallEnd?);
  }

  lemma BusyRestart(s0: State, calls: seq<Step>, s: State) returns (s': State)
    requires Leads(s0, calls, s) && Busy(s)
    ensures Leads(s0, calls + [CallRestart(0)], s') && Busy(s')
  {
    hide Leads;
    var a := s.(callers := [RestartClear]);
    LeadsOn(s0, calls, s, CallRestart(0), a);
    assert calls + [CallRestart(0)] == calls + CallOf(CallRestart(0));
    s' := s.(isWaited := false, quiet := false);
    LeadsNext(s0, calls + [CallRestart(0)], a, CallerStep(0), s');
  }

  /** A program that waits for an accepted task can be told that all is processed while one is running. */
  lemma {:induction false} ProgramWaitsTooShort(s0: State, done: seq<Step>, s: State, calls: seq<Step>)
    returns (k: nat, s': State)
    requires Leads(s0, done, s) && AtRest(s) && IsProgram(calls) && WaitsForTasks(calls, s.isWaited, s.isCancelled)
    ensures k <= |calls| && Leads(s0, done + calls[..k], s')
    ensures s'.quiet && |s'.workers| > 0 && s'.workers[0].Running?
    decreases |calls|
  {
    hide Leads, After, Enabled, AtRest, Ready, Busy;
    var call := calls[0];
    assert IsProgram(calls[1..]);
    var a;
    if Accepting(s, call) {
      RestIsReady(s);
      a := ReadyEnqueue(s0, done, s, call.task);
      AheadAnyway(calls, s.isWaited, s.isCancelled);
      k, s' := BusyProgram(s0, done + [call], a, calls[1..]);
    } else {
      a := CallAtRest(s0, done, s, call);
      k, s' := ProgramWaitsTooShort(s0, done + [call], a, calls[1..]);
    }
    k := k + 1;
    assert done + calls[..k] == (done + [call]) + calls[1..][..k - 1];
  }

  lemma RestIsReady(s: State)
    requires AtRest(s) && !s.isWaited
    ensures Ready(s)
  {
  }

  lemma {:induction false} AheadAnyway(calls: seq<Step>, waited: bool, cancelled: bool)
    requires WaitsForTasks(calls, waited, cancelled)
    ensures WaitAhead(calls[1..])
    decreases |calls|
  {
    if !(calls[0].CallEnqueue? && !waited && WaitAhead(calls[1..])) {
      var (waited', cancelled') := FlagsAfter(calls[0], waited, cancelled);
      var rest := calls[1..];
      AheadAnyway(rest, waited', cancelled');
      var k :| 0 <= k < |rest[1..]| && Waits(rest[1..][k]);
      assert Waits(rest[k + 1]);
    }
  }

  /** Whenever waitPool has returned and no reStart has taken effect since, at any time of the program,
      exactly the accepted tasks have run. */
  ghost predicate AllProcessed(n: nat, calls: seq<Step>) {
    forall steps :: IsRun(Init(n, 1), steps) && Calls(steps) <= calls && End(Init(n, 1), steps).quiet ==>
      multiset(Tasks(End(Init(n, 1), steps).accepted)) == multiset(Tasks(End(Init(n, 1), steps).finished))
  }

  /** For every pool and every program of a single caller, in all runs: waitPool and endPool keep their
      promise exactly when the program never calls them after an enqueue that is accepted. */
  lemma AllProcessedIff(n: nat, calls: seq<Step>)
    requires n >= 1 && IsProgram(calls)
    ensures AllProcessed(n, calls) <==> !WaitsForTasks(calls, false, false)
  {
    hide IsRun, End, Calls, Tasks, Leads;
    var s0 := Init(n, 1);
    if WaitsForTasks(calls, false, false) {
      LeadsStart(s0);
      RestAtStart(n);
      var k, s := ProgramWaitsTooShort(s0, [], s0, calls);
      assert [] + calls[..k] == calls[..k];
      var steps := RunOf(s0, calls[..k], s);
      NotProcessed(n, steps);
      assert Calls(steps) <= calls;
    } else {
      forall steps | IsRun(s0, steps) && Calls(steps) <= calls && End(s0, steps).quiet
        ensures multiset(Tasks(End(s0, steps).accepted)) == multiset(Tasks(End(s0, steps).finished))
      {
        NothingToProcess(n, steps, calls);
      }
    }
  }

  lemma RestAtStart(n: nat)
    requires n >= 1
    ensures AtRest(Init(n, 1)) && !Init(n, 1).isWaited && !Init(n, 1).isCancelled
  {
    assert Init(n, 1).callers == [Idle];
  }

  lemma NotProcessed(n: nat, steps: seq<Step>)
    requires IsRun(Init(n, 1), steps)
    requires var s := End(Init(n, 1), steps);
             s.quiet && |s.workers| > 0 && s.workers[0].Running?
    ensures var s := End(Init(n, 1), steps);
            multiset(Tasks(s.accepted)) != multiset(Tasks(s.finished))
  {
    hide IsRun, End, Inv, Tasks, Union;
    var s := End(Init(n, 1), steps);
    ReachedInv(n, 1, steps);
    SameThreads(Init(n, 1), steps);
    ProcessedIff(s);
    assert InHand(s.workers[0]) != [];
  }

  lemma NothingToProcess(n: nat, steps: seq<Step>, calls: seq<Step>)
    requires !WaitsForTasks(calls, false, false)
    requires IsRun(Init(n, 1), steps) && Calls(steps) <= calls && End(Init(n, 1), steps).quiet
    ensures var s := End(Init(n, 1), steps);
            multiset(Tasks(s.accepted)) == multiset(Tasks(s.finished))
  {
    hide IsRun, End, Inv, Union, Calls, WaitsForTasks;
    var s := End(Init(n, 1), steps);
    InitInv(n, 1);
    ReachedInv(n, 1, steps);
    SameThreads(Init(n, 1), steps);
    QuietBeforeTasks(Init(n, 1), steps, calls, false, false);
    ProcessedIff(s);
    assert Tasks(s.accepted) == [];
  }
}
