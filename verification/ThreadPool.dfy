/** The thread pool as a state machine: workers in runThread, callers of enqueue, waitPool, reStart and
    endPool, a mutex and a condition variable. Each step is one source line of one thread; any
    interleaving of steps is a run. */
module ThreadPool {
  type Task = int

  /** Where a worker stands, by line of runThread. `found` remembers whether the queue held a task when
      the worker last took the mutex. */
  datatype WorkerPc =
    | LoopTest
    | Locking
    | EmptyTest
    | Waiting
    | Woken
    | CancelTest(found: bool)
    | CancelUnlock
    | CancelBroadcast
    | ReadBack(found: bool)
    | PopBack(task: Task)
    | Unlocking(task: Task)
    | Running(task: Task)
    | Done

  /** Where a caller stands, inside enqueue, waitPool, reStart or endPool. `ending` says that waitPool was
      called by endPool, `siz` is its local variable. */
  datatype CallerPc =
    | Idle
    | EnqLock(task: Task)
    | EnqPush(task: Task)
    | EnqUnlock(task: Task)
    | EnqBroadcast(task: Task)
    | WaitLock(ending: bool)
    | WaitRead(ending: bool)
    | WaitUnlock(ending: bool, siz: nat)
    | WaitTest(ending: bool, siz: nat)
    | RestartClear
    | EndCancel
    | EndBroadcast

  datatype Owner = Free | Caller(c: nat) | Worker(i: nat)

  /** Linearisation points: the push of line 60 and the pop of line 41. */
  datatype Event = Push(task: Task, caller: nat) | Pop(task: Task, worker: nat)

  /** The shared fields, the threads, and the history: `log` of queue events, tasks whose enqueue has
      returned 0 and their callers, tasks that have run and their workers, and whether waitPool has returned
      since the last successful reStart. */
  datatype State = State(
    tasks: seq<Task>,
    isWaited: bool,
    isCancelled: bool,
    owner: Owner,
    workers: seq<WorkerPc>,
    callers: seq<CallerPc>,
    log: seq<Event>,
    accepted: seq<(Task, nat)>,
    finished: seq<(Task, nat)>,
    quiet: bool)

  /** A pool of `n` workers used by `m` threads. */
  function Init(n: nat, m: nat): State {
    State([], false, false, Free, seq(n, _ => LoopTest), seq(m, _ => Idle), [], [], [], false)
  }

  datatype Step =
    | WorkerStep(i: nat)
    | SpuriousWake(i: nat)
    | CallerStep(c: nat)
    | CallEnqueue(c: nat, task: Task)
    | CallWait(c: nat)
    | CallRestart(c: nat)
    | CallEnd(c: nat)

  /** Broadcast: every waiting thread goes on to take the mutex again. */
  function Wake(workers: seq<WorkerPc>): (woken: seq<WorkerPc>)
    ensures |woken| == |workers|
    ensures forall i :: 0 <= i < |workers| ==> woken[i] == if workers[i] == Waiting then Woken else workers[i]
  {
    seq(|workers|, i requires 0 <= i < |workers| => if workers[i] == Waiting then Woken else workers[i])
  }

  /** A step can be taken: the mutex is free where it is needed, and line 39 finds a task. */
  predicate Enabled(s: State, step: Step) {
    match step
    case WorkerStep(i) =>
      && i < |s.workers|
      && (match s.workers[i]
          case Locking => s.owner == Free
          case Woken => s.owner == Free
          case ReadBack(_) => s.tasks != []
          case PopBack(_) => s.tasks != []
          case Waiting => false
          case Done => false
          case _ => true)
    case SpuriousWake(i) => i < |s.workers| && s.workers[i] == Waiting
    case CallerStep(c) =>
      && c < |s.callers| && s.callers[c] != Idle
      && (s.callers[c].EnqLock? || s.callers[c].WaitLock? ==> s.owner == Free)
    case _ => step.c < |s.callers| && s.callers[step.c] == Idle
  }

  function WorkerAfter(s: State, i: nat): State
    requires i < |s.workers| && Enabled(s, WorkerStep(i))
  {
    match s.workers[i]
    case LoopTest => s.(workers := s.workers[i := if s.isCancelled then Done else Locking])
    case Locking => s.(workers := s.workers[i := EmptyTest], owner := Worker(i))
    case EmptyTest =>
      if s.tasks == [] then s.(workers := s.workers[i := Waiting], owner := Free)
      else s.(workers := s.workers[i := CancelTest(true)])
    case Woken => s.(workers := s.workers[i := CancelTest(s.tasks != [])], owner := Worker(i))
    case CancelTest(found) => s.(workers := s.workers[i := if s.isCancelled then CancelUnlock else ReadBack(found)])
    case CancelUnlock => s.(workers := s.workers[i := CancelBroadcast], owner := Free)
    case CancelBroadcast => s.(workers := Wake(s.workers)[i := Done])
    case ReadBack(_) => s.(workers := s.workers[i := PopBack(s.tasks[|s.tasks| - 1])])
    case PopBack(task) =>
      s.(workers := s.workers[i := Unlocking(task)],
         tasks := s.tasks[..|s.tasks| - 1],
         log := s.log + [Pop(s.tasks[|s.tasks| - 1], i)])
    case Unlocking(task) => s.(workers := s.workers[i := Running(task)], owner := Free)
    case Running(task) => s.(workers := s.workers[i := LoopTest], finished := s.finished + [(task, i)])
  }

  function CallerAfter(s: State, c: nat): State
    requires c < |s.callers| && Enabled(s, CallerStep(c))
  {
    match s.callers[c]
    case EnqLock(task) => s.(callers := s.callers[c := EnqPush(task)], owner := Caller(c))
    case EnqPush(task) =>
      s.(callers := s.callers[c := EnqUnlock(task)],
         tasks := s.tasks + [task],
         log := s.log + [Push(task, c)])
    case EnqUnlock(task) => s.(callers := s.callers[c := EnqBroadcast(task)], owner := Free)
    case EnqBroadcast(task) =>
      s.(callers := s.callers[c := Idle], workers := Wake(s.workers), accepted := s.accepted + [(task, c)])
    case WaitLock(ending) => s.(callers := s.callers[c := WaitRead(ending)], owner := Caller(c))
    case WaitRead(ending) => s.(callers := s.callers[c := WaitUnlock(ending, |s.tasks|)])
    case WaitUnlock(ending, siz) => s.(callers := s.callers[c := WaitTest(ending, siz)], owner := Free)
    case WaitTest(ending, siz) =>
      if siz != 0 then s.(callers := s.callers[c := WaitLock(ending)])
      else s.(callers := s.callers[c := if ending then EndCancel else Idle], quiet := true)
    case RestartClear => s.(callers := s.callers[c := Idle], isWaited := false, quiet := false)
    case EndCancel => s.(callers := s.callers[c := EndBroadcast], isCancelled := true)
    case EndBroadcast => s.(callers := s.callers[c := Idle], workers := Wake(s.workers))
  }

  function After(s: State, step: Step): State
    requires Enabled(s, step)
  {
    match step
    case WorkerStep(i) => WorkerAfter(s, i)
    case SpuriousWake(i) => s.(workers := s.workers[i := Woken])
    case CallerStep(c) => CallerAfter(s, c)
    case CallEnqueue(c, task) => if s.isWaited then s else s.(callers := s.callers[c := EnqLock(task)])
    case CallWait(c) => s.(callers := s.callers[c := WaitLock(false)], isWaited := true)
    case CallRestart(c) => if s.isCancelled then s else s.(callers := s.callers[c := RestartClear])
    case CallEnd(c) => s.(callers := s.callers[c := WaitLock(true)], isWaited := true)
  }

  predicate IsRun(s: State, steps: seq<Step>)
    decreases |steps|
  {
    steps == [] || (Enabled(s, steps[0]) && IsRun(After(s, steps[0]), steps[1..]))
  }

  function End(s: State, steps: seq<Step>): State
    requires IsRun(s, steps)
    decreases |steps|
  {
    if steps == [] then s else End(After(s, steps[0]), steps[1..])
  }

  // ---------------------------------------------------------------- the atomic stack

  /** A legal history of an atomic last-in first-out stack, and the stack it leaves. */
  predicate LegalHistory(log: seq<Event>)
    decreases |log|
  {
    log == [] ||
    (var before := log[..|log| - 1];
     && LegalHistory(before)
     && match log[|log| - 1]
        case Push(_, _) => true
        case Pop(task, _) => var st := Stack(before); st != [] && st[|st| - 1] == task)
  }

  function Stack(log: seq<Event>): seq<Task>
    decreases |log|
  {
    if log == [] then []
    else
      var st := Stack(log[..|log| - 1]);
      match log[|log| - 1]
      case Push(task, _) => st + [task]
      case Pop(_, _) => if st == [] then [] else st[..|st| - 1]
  }

  /** The tasks pushed, each with its caller, and the tasks popped, each with its worker. */
  function Pushes(log: seq<Event>): seq<(Task, nat)>
    decreases |log|
  {
    if log == [] then []
    else
      var e := log[|log| - 1];
      Pushes(log[..|log| - 1]) + if e.Push? then [(e.task, e.caller)] else []
  }

  function Pops(log: seq<Event>): seq<(Task, nat)>
    decreases |log|
  {
    if log == [] then []
    else
      var e := log[|log| - 1];
      Pops(log[..|log| - 1]) + if e.Pop? then [(e.task, e.worker)] else []
  }

  /** The tasks of such a list, and those of one thread. */
  function Tasks(list: seq<(Task, nat)>): (tasks: seq<Task>)
    ensures |tasks| == |list| && forall k :: 0 <= k < |list| ==> tasks[k] == list[k].0
  {
    seq(|list|, k requires 0 <= k < |list| => list[k].0)
  }

  function TasksOf(list: seq<(Task, nat)>, i: nat): seq<Task>
    decreases |list|
  {
    if list == [] then []
    else
      var e := list[|list| - 1];
      TasksOf(list[..|list| - 1], i) + if e.1 == i then [e.0] else []
  }

  /** What one more event does to each of these. */
  lemma OneMoreOnStack(log: seq<Event>, e: Event)
    ensures var st := Stack(log);
            && Stack(log + [e]) == (if e.Push? then st + [e.task] else if st == [] then [] else st[..|st| - 1])
            && (LegalHistory(log + [e]) <==>
                  LegalHistory(log) && (e.Pop? ==> st != [] && st[|st| - 1] == e.task))
  {
    var longer := log + [e];
    assert longer != [] && longer[..|longer| - 1] == log && longer[|longer| - 1] == e;
  }

  lemma OneMoreCounted(log: seq<Event>, e: Event)
    ensures Pushes(log + [e]) == Pushes(log) + if e.Push? then [(e.task, e.caller)] else []
    ensures Pops(log + [e]) == Pops(log) + if e.Pop? then [(e.task, e.worker)] else []
  {
    var longer := log + [e];
    assert longer != [] && longer[..|longer| - 1] == log && longer[|longer| - 1] == e;
  }

  lemma OneMoreListed(list: seq<(Task, nat)>, e: (Task, nat))
    ensures Tasks(list + [e]) == Tasks(list) + [e.0]
    ensures forall i: nat :: TasksOf(list + [e], i) == TasksOf(list, i) + if e.1 == i then [e.0] else []
  {
    var longer := list + [e];
    assert longer != [] && longer[..|longer| - 1] == list && longer[|longer| - 1] == e;
  }

  lemma LastRemoved(st: seq<Task>)
    requires st != []
    ensures multiset(st) == multiset(st[..|st| - 1]) + multiset{st[|st| - 1]}
  {
    assert st == st[..|st| - 1] + [st[|st| - 1]];
  }

  lemma EventConserves(log: seq<Event>, e: Event)
    requires LegalHistory(log + [e])
    requires LegalHistory(log) ==> multiset(Tasks(Pushes(log))) == multiset(Stack(log)) + multiset(Tasks(Pops(log)))
    ensures multiset(Tasks(Pushes(log + [e]))) == multiset(Stack(log + [e])) + multiset(Tasks(Pops(log + [e])))
  {
    hide Stack, Pushes, Pops, LegalHistory, Tasks, TasksOf;
    OneMoreOnStack(log, e);
    OneMoreCounted(log, e);
    if e.Pop? {
      assert Pushes(log + [e]) == Pushes(log);
      LastRemoved(Stack(log));
      OneMoreListed(Pops(log), (e.task, e.worker));
    } else {
      OneMoreListed(Pushes(log), (e.task, e.caller));
      assert Stack(log + [e]) == Stack(log) + [e.task] && Pops(log + [e]) == Pops(log);
    }
  }

  /** On a legal history nothing is lost and nothing is popped twice. */
  lemma {:induction false} HistoryConserves(log: seq<Event>)
    requires LegalHistory(log)
    ensures multiset(Tasks(Pushes(log))) == multiset(Stack(log)) + multiset(Tasks(Pops(log)))
    decreases |log|
  {
    if log == [] {
      assert Tasks([]) == [];
    } else {
      var before, e := log[..|log| - 1], log[|log| - 1];
      assert log == before + [e];
      HistoryConserves(before);
      EventConserves(before, e);
    }
  }

  // ---------------------------------------------------------------- the invariant

  predicate WorkerHolds(pc: WorkerPc) {
    pc.EmptyTest? || pc.CancelTest? || pc.CancelUnlock? || pc.ReadBack? || pc.PopBack? || pc.Unlocking?
  }

  predicate CallerHolds(pc: CallerPc) {
    pc.EnqPush? || pc.EnqUnlock? || pc.WaitRead? || pc.WaitUnlock?
  }

  /** The mutex owner is exactly the thread that stands between a lock and an unlock. */
  predicate MutexAt(s: State, i: nat)
    requires i < |s.workers|
  {
    WorkerHolds(s.workers[i]) <==> s.owner == Worker(i)
  }

  predicate MutexAtCaller(s: State, c: nat)
    requires c < |s.callers|
  {
    CallerHolds(s.callers[c]) <==> s.owner == Caller(c)
  }

  predicate MutexInv(s: State) {
    && (forall i :: 0 <= i < |s.workers| ==> MutexAt(s, i))
    && (forall c :: 0 <= c < |s.callers| ==> MutexAtCaller(s, c))
  }

  /** What a worker has seen of the queue under the mutex is still so: between line 32 and line 39 the
      queue is non-empty exactly when `found`, and at line 41 its last task is the one read. */
  predicate SeenAt(s: State, i: nat)
    requires i < |s.workers|
  {
    match s.workers[i]
    case CancelTest(found) => found <==> s.tasks != []
    case ReadBack(found) => found <==> s.tasks != []
    case PopBack(task) => s.tasks != [] && s.tasks[|s.tasks| - 1] == task
    case _ => true
  }

  predicate SeenInv(s: State) {
    forall i :: 0 <= i < |s.workers| ==> SeenAt(s, i)
  }

  /** The task list is the atomic stack after the logged events. */
  predicate StackInv(s: State) {
    LegalHistory(s.log) && Stack(s.log) == s.tasks
  }

  function InHand(pc: WorkerPc): seq<Task> {
    if pc.Unlocking? || pc.Running? then [pc.task] else []
  }

  /** Each worker has run exactly the tasks it popped, in that order, but for one in its hands. */
  predicate HandedAt(s: State, i: nat)
    requires i < |s.workers|
  {
    TasksOf(Pops(s.log), i) == TasksOf(s.finished, i) + InHand(s.workers[i])
  }

  predicate HandedInv(s: State) {
    forall i :: 0 <= i < |s.workers| ==> HandedAt(s, i)
  }

  function Pending(pc: CallerPc): seq<Task> {
    if pc.EnqUnlock? || pc.EnqBroadcast? then [pc.task] else []
  }

  /** Each caller has pushed exactly the tasks whose enqueue returned 0 to it, in that order, but for one
      whose call is about to return. */
  predicate PushedAt(s: State, c: nat)
    requires c < |s.callers|
  {
    TasksOf(Pushes(s.log), c) == TasksOf(s.accepted, c) + Pending(s.callers[c])
  }

  predicate PushedInv(s: State) {
    forall c :: 0 <= c < |s.callers| ==> PushedAt(s, c)
  }

  /** All tasks of a list of lists, as often as they occur. */
  ghost function Union(parts: seq<seq<Task>>): multiset<Task> {
    if parts == [] then multiset{} else multiset(parts[0]) + Union(parts[1..])
  }

  function Hands(workers: seq<WorkerPc>): (hands: seq<seq<Task>>)
    ensures |hands| == |workers| && forall i :: 0 <= i < |workers| ==> hands[i] == InHand(workers[i])
  {
    seq(|workers|, i requires 0 <= i < |workers| => InHand(workers[i]))
  }

  function Pendings(callers: seq<CallerPc>): (pendings: seq<seq<Task>>)
    ensures |pendings| == |callers| && forall c :: 0 <= c < |callers| ==> pendings[c] == Pending(callers[c])
  {
    seq(|callers|, c requires 0 <= c < |callers| => Pending(callers[c]))
  }

  /** The same over all threads: pops are tasks that have run and tasks in hand, pushes are accepted tasks and those
      about to be. */
  ghost predicate CountInv(s: State) {
    && multiset(Tasks(Pops(s.log))) == multiset(Tasks(s.finished)) + Union(Hands(s.workers))
    && multiset(Tasks(Pushes(s.log))) == multiset(Tasks(s.accepted)) + Union(Pendings(s.callers))
  }

  predicate Enqueuing(pc: CallerPc) {
    pc.EnqLock? || pc.EnqPush? || pc.EnqUnlock? || pc.EnqBroadcast?
  }

  predicate InWait(pc: CallerPc) {
    pc.WaitLock? || pc.WaitRead? || pc.WaitUnlock? || pc.WaitTest?
  }

  /** The calls of a single caller against isWaited, isCancelled and the empty queue. */
  predicate SoleAt(s: State, pc: CallerPc) {
    && (Enqueuing(pc) ==> !s.isWaited)
    && (InWait(pc) ==> s.isWaited)
    && ((pc.WaitUnlock? || pc.WaitTest?) && pc.siz == 0 ==> s.tasks == [])
    && (pc == RestartClear ==> !s.isCancelled)
    && (pc == EndCancel || s.isCancelled ==> s.quiet)
    && (s.quiet ==> s.isWaited && s.tasks == [])
  }

  predicate SoleInv(s: State) {
    |s.callers| == 1 ==> SoleAt(s, s.callers[0])
  }

  predicate Broadcasting(pc: CallerPc) {
    pc.EnqUnlock? || pc.EnqBroadcast?
  }

  /** No lost wake-up: a worker waits beside a non-empty queue only while the broadcast of an enqueue is
      pending. */
  predicate WakeAt(s: State, i: nat)
    requires i < |s.workers|
  {
    s.workers[i] == Waiting && s.tasks != [] ==>
      exists c :: 0 <= c < |s.callers| && Broadcasting(s.callers[c])
  }

  predicate WakeInv(s: State) {
    forall i :: 0 <= i < |s.workers| ==> WakeAt(s, i)
  }

  ghost predicate Inv(s: State) {
    && MutexInv(s) && SeenInv(s) && StackInv(s) && HandedInv(s) && PushedInv(s)
    && CountInv(s) && SoleInv(s) && WakeInv(s)
  }

  lemma {:induction false} UnionOfEmpty(parts: seq<seq<Task>>)
    ensures (forall i :: 0 <= i < |parts| ==> parts[i] == []) <==> Union(parts) == multiset{}
  {
    if parts != [] {
      UnionOfEmpty(parts[1..]);
      assert forall i :: 1 <= i < |parts| ==> parts[i] == parts[1..][i - 1];
      assert forall i :: 0 <= i < |parts| - 1 ==> parts[1..][i] == parts[i + 1];
      if parts[0] != [] {
        assert parts[0][0] in Union(parts);
      }
    }
  }

  lemma InitInv(n: nat, m: nat)
    ensures Inv(Init(n, m))
  {
    var s := Init(n, m);
    assert MutexInv(s) && SeenInv(s) && StackInv(s) && SoleInv(s) && WakeInv(s);
    assert HandedInv(s) && PushedInv(s);
    InitCount(n, m);
  }

  lemma InitCount(n: nat, m: nat)
    ensures CountInv(Init(n, m))
  {
    hide Union;
    var s := Init(n, m);
    UnionOfEmpty(Hands(s.workers));
    UnionOfEmpty(Pendings(s.callers));
    assert Tasks([]) == [];
  }

  // ---------------------------------------------------------------- what one step can do

  /** The thread that takes a step. A spurious wake-up is nobody's step. */
  function Actor(step: Step): Owner {
    match step
    case WorkerStep(i) => Worker(i)
    case SpuriousWake(_) => Free
    case _ => Caller(step.c)
  }

  predicate SameButWoken(before: WorkerPc, after: WorkerPc) {
    after == before || (before == Waiting && after == Woken)
  }

  lemma ThreadsKept(s: State, step: Step)
    requires Enabled(s, step)
    ensures |After(s, step).workers| == |s.workers| && |After(s, step).callers| == |s.callers|
    ensures Actor(step).Worker? ==> Actor(step).i < |s.workers|
    ensures Actor(step).Caller? ==> Actor(step).c < |s.callers|
  {
    hide Enabled, WorkerAfter, CallerAfter;
    match step
    case WorkerStep(i) => WorkerStays(s, i);
    case CallerStep(c) => CallerStays(s, c);
    case _ => IndexInRange(s, step);
  }

  lemma IndexInRange(s: State, step: Step)
    requires Enabled(s, step)
    ensures step.SpuriousWake? ==> step.i < |s.workers|
    ensures Actor(step).Worker? ==> Actor(step).i < |s.workers|
    ensures Actor(step).Caller? ==> Actor(step).c < |s.callers|
  {
  }

  /** A worker touches no caller and no flag. */
  lemma WorkerStays(s: State, i: nat)
    requires Enabled(s, WorkerStep(i))
    ensures var s' := WorkerAfter(s, i);
            && i < |s.workers| == |s'.workers|
            && s'.callers == s.callers && s'.isWaited == s.isWaited && s'.isCancelled == s.isCancelled
            && s'.quiet == s.quiet && s'.accepted == s.accepted && (s.tasks == [] ==> s'.tasks == [])
  {
  }

  /** A caller moves no worker, except that it may wake them, and no other caller. */
  lemma CallerStays(s: State, c: nat)
    requires Enabled(s, CallerStep(c))
    ensures var s' := CallerAfter(s, c);
            && c < |s.callers| == |s'.callers|
            && (s'.workers == s.workers || s'.workers == Wake(s.workers))
            && (forall d :: 0 <= d < |s.callers| && d != c ==> s'.callers[d] == s.callers[d])
  {
  }

  /** Other workers do not move, except that they may be woken ... */
  lemma OthersKept(s: State, step: Step, j: nat)
    requires Enabled(s, step) && j < |s.workers| && Actor(step) != Worker(j)
    ensures |After(s, step).workers| == |s.workers|
    ensures SameButWoken(s.workers[j], After(s, step).workers[j])
  {
    hide Enabled, WorkerAfter, CallerAfter;
    match step
    case WorkerStep(i) => WorkerLeavesOthers(s, i, j);
    case CallerStep(c) => CallerStays(s, c);
    case SpuriousWake(i) => IndexInRange(s, step); WokenIsWaiting(s, i);
    case _ =>
  }

  lemma WorkerLeavesOthers(s: State, i: nat, j: nat)
    requires Enabled(s, WorkerStep(i)) && j < |s.workers| && i != j
    ensures |WorkerAfter(s, i).workers| == |s.workers|
    ensures SameButWoken(s.workers[j], WorkerAfter(s, i).workers[j])
  {
  }

  lemma WokenIsWaiting(s: State, i: nat)
    requires Enabled(s, SpuriousWake(i))
    ensures s.workers[i] == Waiting
  {
  }

  /** ... and other callers do not move at all. */
  lemma CallersKept(s: State, step: Step, d: nat)
    requires Enabled(s, step) && d < |s.callers| && Actor(step) != Caller(d)
    ensures |After(s, step).callers| == |s.callers|
    ensures After(s, step).callers[d] == s.callers[d]
  {
    hide Enabled, WorkerAfter, CallerAfter;
    match step
    case WorkerStep(i) => WorkerStays(s, i);
    case CallerStep(c) => CallerStays(s, c);
    case _ => IndexInRange(s, step);
  }

  /** The mutex changes hands only between its owner and the thread that takes the step. */
  predicate OwnerMoves(before: Owner, actor: Owner, after: Owner) {
    after == before || (before == Free && after == actor) || (before == actor && after == Free)
  }

  lemma WorkerMoves(s: State, i: nat)
    requires Enabled(s, WorkerStep(i)) && MutexAt(s, i)
    ensures var s' := After(s, WorkerStep(i));
            |s'.workers| == |s.workers| && MutexAt(s', i) && OwnerMoves(s.owner, Worker(i), s'.owner)
  {
  }

  lemma CallerMoves(s: State, step: Step, c: nat)
    requires Enabled(s, step) && Actor(step) == Caller(c) && MutexAtCaller(s, c)
    ensures var s' := After(s, step);
            |s'.callers| == |s.callers| && MutexAtCaller(s', c) && OwnerMoves(s.owner, Caller(c), s'.owner)
  {
    if step.CallerStep? {
      hide WorkerAfter;
      CallerStepMoves(s, c);
    } else {
      hide CallerAfter, WorkerAfter;
    }
  }

  lemma CallerStepMoves(s: State, c: nat)
    requires Enabled(s, CallerStep(c)) && MutexAtCaller(s, c)
    ensures var s' := CallerAfter(s, c);
            |s'.callers| == |s.callers| && MutexAtCaller(s', c) && OwnerMoves(s.owner, Caller(c), s'.owner)
  {
  }

  lemma SpuriousMoves(s: State, step: Step)
    requires Enabled(s, step) && Actor(step) == Free
    ensures var s' := After(s, step);
            s'.owner == s.owner && s'.tasks == s.tasks && s'.log == s.log && s'.finished == s.finished
  {
  }

  lemma StepMovesOwner(s: State, step: Step)
    requires MutexInv(s) && Enabled(s, step)
    ensures OwnerMoves(s.owner, Actor(step), After(s, step).owner)
  {
    hide After, Enabled;
    ThreadsKept(s, step);
    match Actor(step)
    case Worker(i) =>
      assert MutexAt(s, i);
      WorkerMoves(s, i);
    case Caller(c) =>
      assert MutexAtCaller(s, c);
      CallerMoves(s, step, c);
    case Free => SpuriousMoves(s, step);
  }

  lemma StepKeepsMutex(s: State, step: Step)
    requires MutexInv(s) && Enabled(s, step)
    ensures MutexInv(After(s, step))
  {
    hide After, Enabled;
    var s' := After(s, step);
    ThreadsKept(s, step);
    StepMovesOwner(s, step);
    forall j | 0 <= j < |s'.workers|
      ensures MutexAt(s', j)
    {
      assert MutexAt(s, j);
      if Actor(step) == Worker(j) {
        WorkerMoves(s, j);
      } else {
        OthersKept(s, step, j);
      }
    }
    forall d | 0 <= d < |s'.callers|
      ensures MutexAtCaller(s', d)
    {
      assert MutexAtCaller(s, d);
      if Actor(step) == Caller(d) {
        CallerMoves(s, step, d);
      } else {
        CallersKept(s, step, d);
      }
    }
  }

  /** The queue is changed only by the thread that owns the mutex. */
  lemma QueueChangedByOwner(s: State, step: Step)
    requires MutexInv(s) && Enabled(s, step)
    ensures After(s, step).tasks != s.tasks ==> s.owner == Actor(step)
  {
    match step
    case WorkerStep(i) => assert MutexAt(s, i);
    case CallerStep(c) => assert MutexAtCaller(s, c);
    case _ =>
  }

  lemma WorkerSees(s: State, i: nat)
    requires Enabled(s, WorkerStep(i)) && SeenAt(s, i)
    ensures |After(s, WorkerStep(i)).workers| == |s.workers| && SeenAt(After(s, WorkerStep(i)), i)
  {
  }

  lemma StepKeepsSeen(s: State, step: Step)
    requires MutexInv(s) && SeenInv(s) && Enabled(s, step)
    ensures SeenInv(After(s, step))
  {
    hide After, Enabled;
    var s' := After(s, step);
    QueueChangedByOwner(s, step);
    ThreadsKept(s, step);
    forall j | 0 <= j < |s'.workers|
      ensures SeenAt(s', j)
    {
      assert MutexAt(s, j) && SeenAt(s, j);
      if Actor(step) == Worker(j) {
        WorkerSees(s, j);
      } else {
        OthersKept(s, step, j);
      }
    }
  }

  /** What a step adds to the lists of the history: a push, a pop, the end of a task and an accepted task. */
  datatype Adds = Adds(pushed: seq<(Task, nat)>, popped: seq<(Task, nat)>,
                       ended: seq<(Task, nat)>, returned: seq<(Task, nat)>)

  function Added(s: State, step: Step): (a: Adds)
    requires Enabled(s, step)
    ensures |a.pushed| <= 1 && |a.popped| <= 1 && |a.ended| <= 1 && |a.returned| <= 1
    ensures a.pushed != [] ==> Actor(step) == Caller(a.pushed[0].1)
    ensures a.returned != [] ==> Actor(step) == Caller(a.returned[0].1)
    ensures a.popped != [] ==> Actor(step) == Worker(a.popped[0].1)
    ensures a.ended != [] ==> Actor(step) == Worker(a.ended[0].1)
  {
    match step
    case WorkerStep(i) =>
      var pc := s.workers[i];
      Adds([], if pc.PopBack? then [(s.tasks[|s.tasks| - 1], i)] else [],
           if pc.Running? then [(pc.task, i)] else [], [])
    case CallerStep(c) =>
      var pc := s.callers[c];
      Adds(if pc.EnqPush? then [(pc.task, c)] else [], [], [], if pc.EnqBroadcast? then [(pc.task, c)] else [])
    case _ => Adds([], [], [], [])
  }

  function EventsOf(a: Adds): seq<Event>
    requires |a.pushed| <= 1 && |a.popped| <= 1
  {
    if a.pushed != [] then [Push(a.pushed[0].0, a.pushed[0].1)]
    else if a.popped != [] then [Pop(a.popped[0].0, a.popped[0].1)]
    else []
  }

  predicate Grows(s: State, a: Adds, s': State)
    requires |a.pushed| <= 1 && |a.popped| <= 1
  {
    s'.log == s.log + EventsOf(a) && s'.finished == s.finished + a.ended && s'.accepted == s.accepted + a.returned
  }

  lemma WorkerGrows(s: State, i: nat)
    requires Enabled(s, WorkerStep(i))
    ensures Grows(s, Added(s, WorkerStep(i)), After(s, WorkerStep(i)))
  {
  }

  lemma CallerGrows(s: State, c: nat)
    requires Enabled(s, CallerStep(c))
    ensures Grows(s, Added(s, CallerStep(c)), After(s, CallerStep(c)))
  {
  }

  lemma HistoryMoves(s: State, step: Step)
    requires Enabled(s, step)
    ensures Grows(s, Added(s, step), After(s, step))
  {
    hide Enabled, WorkerAfter, CallerAfter;
    match step
    case WorkerStep(i) => WorkerGrows(s, i);
    case CallerStep(c) => CallerGrows(s, c);
    case _ =>
  }

  lemma ListsMove(s: State, step: Step)
    requires Enabled(s, step)
    ensures var s', a := After(s, step), Added(s, step);
            && Pushes(s'.log) == Pushes(s.log) + a.pushed
            && Pops(s'.log) == Pops(s.log) + a.popped
  {
    hide After, Enabled, Added, Pushes, Pops;
    HistoryMoves(s, step);
    var events := EventsOf(Added(s, step));
    if events == [] {
      assert s.log + [] == s.log;
    } else {
      OneMoreCounted(s.log, events[0]);
      assert events == [events[0]];
    }
  }

  lemma StackMoves(s: State, step: Step)
    requires Enabled(s, step)
    ensures var a := Added(s, step);
            && After(s, step).tasks == (if a.pushed != [] then s.tasks + [a.pushed[0].0]
                                        else if a.popped != [] then s.tasks[..|s.tasks| - 1] else s.tasks)
            && (a.popped != [] ==> s.tasks != [] && s.tasks[|s.tasks| - 1] == a.popped[0].0)
  {
  }

  lemma StepKeepsStack(s: State, step: Step)
    requires StackInv(s) && Enabled(s, step)
    ensures StackInv(After(s, step))
  {
    hide Stack, LegalHistory, After, Enabled, Added;
    HistoryMoves(s, step);
    StackMoves(s, step);
    var events := EventsOf(Added(s, step));
    if events != [] {
      OneMoreOnStack(s.log, events[0]);
      assert events == [events[0]];
    } else {
      assert s.log + events == s.log;
    }
  }

  /** How the hands of the worker that takes the step change ... */
  lemma WorkerHands(s: State, i: nat)
    requires Enabled(s, WorkerStep(i)) && SeenAt(s, i)
    ensures var s', a := After(s, WorkerStep(i)), Added(s, WorkerStep(i));
            && |s'.workers| == |s.workers|
            && InHand(s.workers[i]) + Tasks(a.popped) == Tasks(a.ended) + InHand(s'.workers[i])
  {
    var s' := After(s, WorkerStep(i));
    match s.workers[i]
    case PopBack(task) => assert s'.workers[i] == Unlocking(task);
    case Unlocking(task) => assert s'.workers[i] == Running(task);
    case Running(task) => assert s'.workers[i] == LoopTest;
    case _ =>
  }

  /** ... and what the caller that takes the step is about to return for. */
  lemma CallerPending(s: State, step: Step, c: nat)
    requires Enabled(s, step) && Actor(step) == Caller(c)
    ensures var s', a := After(s, step), Added(s, step);
            && |s'.callers| == |s.callers|
            && Pending(s.callers[c]) + Tasks(a.pushed) == Tasks(a.returned) + Pending(s'.callers[c])
  {
    hide WorkerAfter, Tasks;
    var s' := After(s, step);
    assert Tasks([]) == [];
    if step.CallerStep? {
      match s.callers[c]
      case EnqPush(task) => assert s'.callers[c] == EnqUnlock(task) && Tasks([(task, c)]) == [task];
      case EnqUnlock(task) => assert s'.callers[c] == EnqBroadcast(task);
      case EnqBroadcast(task) => assert s'.callers[c] == Idle && Tasks([(task, c)]) == [task];
      case _ =>
    }
  }

  /** One more entry, or none, in a list that thread `j` adds to. */
  lemma ListGrows(list: seq<(Task, nat)>, more: seq<(Task, nat)>, j: nat)
    requires |more| <= 1
    ensures Tasks(list + more) == Tasks(list) + Tasks(more)
    ensures (more == [] || more[0].1 == j) ==> TasksOf(list + more, j) == TasksOf(list, j) + Tasks(more)
    ensures (more == [] || more[0].1 != j) ==> TasksOf(list + more, j) == TasksOf(list, j)
  {
    hide TasksOf;
    if more == [] {
      assert list + more == list;
    } else {
      assert more == [more[0]];
      OneMoreListed(list, more[0]);
      assert Tasks(more) == [more[0].0];
    }
  }

  /** The equation between what a thread took on and what it finished is kept by one step. */
  lemma Balanced(taken: seq<Task>, done: seq<Task>, held: seq<Task>,
                 more: seq<Task>, ended: seq<Task>, held': seq<Task>)
    requires taken == done + held && held + more == ended + held'
    ensures taken + more == (done + ended) + held'
  {
    assert taken + more == done + (held + more);
  }

  lemma HandedKept(s: State, step: Step, j: nat)
    requires Enabled(s, step) && j < |s.workers| && HandedAt(s, j) && SeenAt(s, j)
    ensures |After(s, step).workers| == |s.workers| && HandedAt(After(s, step), j)
  {
    hide After, Enabled, Added, TasksOf, Pops, Tasks, InHand, SeenAt, EventsOf;
    var s', a := After(s, step), Added(s, step);
    ThreadsKept(s, step);
    HistoryMoves(s, step);
    ListsMove(s, step);
    ListGrows(Pops(s.log), a.popped, j);
    ListGrows(s.finished, a.ended, j);
    if Actor(step) == Worker(j) {
      WorkerHands(s, j);
      Balanced(TasksOf(Pops(s.log), j), TasksOf(s.finished, j), InHand(s.workers[j]),
               Tasks(a.popped), Tasks(a.ended), InHand(s'.workers[j]));
    } else {
      OthersKept(s, step, j);
      WokenHands(s.workers[j], s'.workers[j]);
    }
  }

  lemma StepKeepsHanded(s: State, step: Step)
    requires SeenInv(s) && HandedInv(s) && Enabled(s, step)
    ensures HandedInv(After(s, step))
  {
    hide After, Enabled, HandedAt, SeenAt;
    ThreadsKept(s, step);
    forall j | 0 <= j < |After(s, step).workers|
      ensures HandedAt(After(s, step), j)
    {
      HandedKept(s, step, j);
    }
  }

  lemma WokenHands(before: WorkerPc, after: WorkerPc)
    requires SameButWoken(before, after)
    ensures InHand(after) == InHand(before)
  {
  }

  lemma PushedKept(s: State, step: Step, d: nat)
    requires Enabled(s, step) && d < |s.callers| && PushedAt(s, d)
    ensures |After(s, step).callers| == |s.callers| && PushedAt(After(s, step), d)
  {
    hide After, Enabled, Added, TasksOf, Pushes, Tasks, Pending, EventsOf;
    var s', a := After(s, step), Added(s, step);
    ThreadsKept(s, step);
    HistoryMoves(s, step);
    ListsMove(s, step);
    ListGrows(Pushes(s.log), a.pushed, d);
    ListGrows(s.accepted, a.returned, d);
    if Actor(step) == Caller(d) {
      CallerPending(s, step, d);
      Balanced(TasksOf(Pushes(s.log), d), TasksOf(s.accepted, d), Pending(s.callers[d]),
               Tasks(a.pushed), Tasks(a.returned), Pending(s'.callers[d]));
    } else {
      CallersKept(s, step, d);
    }
  }

  lemma StepKeepsPushed(s: State, step: Step)
    requires PushedInv(s) && Enabled(s, step)
    ensures PushedInv(After(s, step))
  {
    hide After, Enabled, PushedAt;
    ThreadsKept(s, step);
    forall d | 0 <= d < |After(s, step).callers|
      ensures PushedAt(After(s, step), d)
    {
      PushedKept(s, step, d);
    }
  }

  lemma Reordered(a: multiset<Task>, b: multiset<Task>, c: multiset<Task>, d: multiset<Task>, e: multiset<Task>)
    requires b + c == d + e
    ensures (a + b) + c == (a + d) + e
  {
    assert (a + b) + c == a + (b + c);
    assert (a + d) + e == a + (d + e);
  }

  lemma {:induction false} UnionUpdate(parts: seq<seq<Task>>, i: nat, part: seq<Task>)
    requires i < |parts|
    ensures Union(parts[i := part]) + multiset(parts[i]) == Union(parts) + multiset(part)
  {
    var changed := parts[i := part];
    if i == 0 {
      assert changed[1..] == parts[1..];
    } else {
      UnionUpdate(parts[1..], i - 1, part);
      assert changed[1..] == parts[1..][i - 1 := part] && changed[0] == parts[0];
      Reordered(multiset(parts[0]), Union(changed[1..]), multiset(parts[i]), Union(parts[1..]), multiset(part));
    }
  }

  /** Counting over all threads: only part `i` changes, and what it takes on and finishes balances. */
  lemma CountBalanced(taken: multiset<Task>, done: multiset<Task>, parts: seq<seq<Task>>, i: nat, part: seq<Task>,
                      more: seq<Task>, ended: seq<Task>)
    requires i < |parts| && taken == done + Union(parts) && parts[i] + more == ended + part
    ensures taken + multiset(more) == done + multiset(ended) + Union(parts[i := part])
  {
    hide Union;
    UnionUpdate(parts, i, part);
    assert multiset(parts[i]) + multiset(more) == multiset(ended) + multiset(part) by {
      assert multiset(parts[i] + more) == multiset(ended + part);
    }
    var before, after := Union(parts), Union(parts[i := part]);
    forall t: Task
      ensures (taken + multiset(more))[t] == (done + multiset(ended) + after)[t]
    {
      assert (after + multiset(parts[i]))[t] == (before + multiset(part))[t];
      assert (multiset(parts[i]) + multiset(more))[t] == (multiset(ended) + multiset(part))[t];
    }
  }

  lemma HandsMove(s: State, step: Step)
    requires Enabled(s, step)
    ensures var s' := After(s, step);
            && |s'.workers| == |s.workers|
            && Hands(s'.workers) == if step.WorkerStep? && step.i < |s.workers|
                                    then Hands(s.workers)[step.i := InHand(s'.workers[step.i])]
                                    else Hands(s.workers)
  {
    hide After, Enabled, InHand;
    var s' := After(s, step);
    ThreadsKept(s, step);
    forall j | 0 <= j < |s.workers| && Actor(step) != Worker(j)
      ensures InHand(s'.workers[j]) == InHand(s.workers[j])
    {
      OthersKept(s, step, j);
      WokenHands(s.workers[j], s'.workers[j]);
    }
  }

  lemma PendingsMove(s: State, step: Step)
    requires Enabled(s, step)
    ensures var s' := After(s, step);
            && |s'.callers| == |s.callers|
            && Pendings(s'.callers) == if Actor(step).Caller? && Actor(step).c < |s.callers|
                                       then Pendings(s.callers)[Actor(step).c := Pending(s'.callers[Actor(step).c])]
                                       else Pendings(s.callers)
  {
    hide After, Enabled, Pending;
    var s' := After(s, step);
    ThreadsKept(s, step);
    forall d | 0 <= d < |s.callers| && Actor(step) != Caller(d)
      ensures s'.callers[d] == s.callers[d]
    {
      CallersKept(s, step, d);
    }
  }

  lemma StepKeepsPopCount(s: State, step: Step)
    requires SeenInv(s) && CountInv(s) && Enabled(s, step)
    ensures var s' := After(s, step);
            multiset(Tasks(Pops(s'.log))) == multiset(Tasks(s'.finished)) + Union(Hands(s'.workers))
  {
    hide After, Enabled, Added, Pops, Pushes, Tasks, TasksOf, InHand, Union, Hands, Pendings;
    var s', a := After(s, step), Added(s, step);
    ThreadsKept(s, step);
    HistoryMoves(s, step);
    ListsMove(s, step);
    ListGrows(Pops(s.log), a.popped, 0);
    ListGrows(s.finished, a.ended, 0);
    HandsMove(s, step);
    if step.WorkerStep? {
      var i := step.i;
      assert Actor(step) == Worker(i) && SeenAt(s, i);
      WorkerHands(s, i);
      CountBalanced(multiset(Tasks(Pops(s.log))), multiset(Tasks(s.finished)), Hands(s.workers), i,
                    InHand(s'.workers[i]), Tasks(a.popped), Tasks(a.ended));
    } else {
      assert a.popped == a.ended == [] && Tasks([]) == [];
    }
  }

  lemma StepKeepsPushCount(s: State, step: Step)
    requires CountInv(s) && Enabled(s, step)
    ensures var s' := After(s, step);
            multiset(Tasks(Pushes(s'.log))) == multiset(Tasks(s'.accepted)) + Union(Pendings(s'.callers))
  {
    hide After, Enabled, Added, Pops, Pushes, Tasks, TasksOf, Pending, Union, Hands, Pendings;
    var s', a := After(s, step), Added(s, step);
    ThreadsKept(s, step);
    HistoryMoves(s, step);
    ListsMove(s, step);
    ListGrows(Pushes(s.log), a.pushed, 0);
    ListGrows(s.accepted, a.returned, 0);
    PendingsMove(s, step);
    if Actor(step).Caller? {
      var c := Actor(step).c;
      CallerPending(s, step, c);
      CountBalanced(multiset(Tasks(Pushes(s.log))), multiset(Tasks(s.accepted)), Pendings(s.callers), c,
                    Pending(s'.callers[c]), Tasks(a.pushed), Tasks(a.returned));
    } else {
      assert a.pushed == a.returned == [] && Tasks([]) == [];
    }
  }

  lemma StepKeepsSole(s: State, step: Step)
    requires MutexInv(s) && SoleInv(s) && Enabled(s, step)
    ensures SoleInv(After(s, step))
  {
    var s' := After(s, step);
    ThreadsKept(s, step);
    if |s.callers| == 1 {
      assert MutexAtCaller(s, 0);
      if step.WorkerStep? {
        WorkerStays(s, step.i);
      }
    }
  }

  predicate Broadcasts(s: State, step: Step)
    requires Enabled(s, step)
  {
    match step
    case WorkerStep(i) => s.workers[i].CancelBroadcast?
    case CallerStep(c) => s.callers[c].EnqBroadcast? || s.callers[c].EndBroadcast?
    case _ => false
  }

  /** Nobody waits right after a broadcast, and nobody begins to wait beside a non-empty queue. */
  lemma WaitersAfter(s: State, step: Step, j: nat)
    requires Enabled(s, step) && j < |s.workers|
    ensures |After(s, step).workers| == |s.workers|
    ensures After(s, step).workers[j] == Waiting ==>
              !Broadcasts(s, step) && (s.workers[j] == Waiting || After(s, step).tasks == [])
  {
    hide WorkerAfter, CallerAfter;
    match step
    case WorkerStep(i) => WorkerWaitersAfter(s, i, j);
    case CallerStep(c) => CallerWaitersAfter(s, c, j);
    case _ =>
  }

  lemma WorkerWaitersAfter(s: State, i: nat, j: nat)
    requires Enabled(s, WorkerStep(i)) && j < |s.workers|
    ensures |WorkerAfter(s, i).workers| == |s.workers|
    ensures WorkerAfter(s, i).workers[j] == Waiting ==>
              !s.workers[i].CancelBroadcast? && (s.workers[j] == Waiting || WorkerAfter(s, i).tasks == [])
  {
  }

  lemma CallerWaitersAfter(s: State, c: nat, j: nat)
    requires Enabled(s, CallerStep(c)) && j < |s.workers|
    ensures |CallerAfter(s, c).workers| == |s.workers|
    ensures CallerAfter(s, c).workers[j] == Waiting ==>
              s.workers[j] == Waiting && !s.callers[c].EnqBroadcast? && !s.callers[c].EndBroadcast?
  {
  }

  /** A pending broadcast stays pending until it comes, and a queue that becomes non-empty has one. */
  lemma BroadcastPending(s: State, step: Step)
    requires Enabled(s, step) && !Broadcasts(s, step)
    ensures var s' := After(s, step);
            && |s'.callers| == |s.callers|
            && (forall c :: 0 <= c < |s.callers| && Broadcasting(s.callers[c]) ==> Broadcasting(s'.callers[c]))
            && (s.tasks == [] && s'.tasks != [] ==> exists c :: 0 <= c < |s'.callers| && Broadcasting(s'.callers[c]))
  {
    if step.CallerStep? && s.callers[step.c].EnqPush? {
      assert Broadcasting(After(s, step).callers[step.c]);
    }
  }

  lemma StepKeepsWake(s: State, step: Step)
    requires WakeInv(s) && Enabled(s, step)
    ensures WakeInv(After(s, step))
  {
    hide After, Enabled, Broadcasting;
    var s' := After(s, step);
    ThreadsKept(s, step);
    forall j | 0 <= j < |s'.workers|
      ensures WakeAt(s', j)
    {
      assert WakeAt(s, j);
      WaitersAfter(s, step, j);
      if s'.workers[j] == Waiting && s'.tasks != [] {
        BroadcastPending(s, step);
      }
    }
  }

  lemma StepKeepsInv(s: State, step: Step)
    requires Inv(s) && Enabled(s, step)
    ensures Inv(After(s, step))
  {
    hide After, Enabled, MutexInv, SeenInv, StackInv, HandedInv, PushedInv, SoleInv, WakeInv;
    StepKeepsMutex(s, step);
    StepKeepsSeen(s, step);
    StepKeepsStack(s, step);
    StepKeepsHanded(s, step);
    StepKeepsPushed(s, step);
    StepKeepsPopCount(s, step);
    StepKeepsPushCount(s, step);
    StepKeepsSole(s, step);
    StepKeepsWake(s, step);
  }

  lemma {:induction false} RunKeepsInv(s: State, steps: seq<Step>)
    requires Inv(s) && IsRun(s, steps)
    ensures Inv(End(s, steps))
    decreases |steps|
  {
    hide Inv, After, Enabled;
    if steps != [] {
      StepKeepsInv(s, steps[0]);
      RunKeepsInv(After(s, steps[0]), steps[1..]);
    }
  }

  lemma ReachedInv(n: nat, m: nat, steps: seq<Step>)
    requires IsRun(Init(n, m), steps)
    ensures Inv(End(Init(n, m), steps))
  {
    InitInv(n, m);
    RunKeepsInv(Init(n, m), steps);
  }

  // ---------------------------------------------------------------- whole runs

  /** Safety over every run of `n` workers and `m` callers: the fine-grained steps refine an atomic
      last-in first-out stack; every task that was accepted or is about to be is in the queue, in one
      worker's hands or has run, exactly once; and each thread's tasks keep their order. */
  lemma RunRefinesStack(n: nat, m: nat, steps: seq<Step>)
    requires IsRun(Init(n, m), steps)
    ensures var s := End(Init(n, m), steps);
            && LegalHistory(s.log) && Stack(s.log) == s.tasks
            && multiset(Tasks(s.accepted)) + Union(Pendings(s.callers))
            == multiset(s.tasks) + Union(Hands(s.workers)) + multiset(Tasks(s.finished))
            && (forall i :: 0 <= i < |s.workers| ==>
                  TasksOf(Pops(s.log), i) == TasksOf(s.finished, i) + InHand(s.workers[i]))
            && (forall c :: 0 <= c < |s.callers| ==>
                  TasksOf(Pushes(s.log), c) == TasksOf(s.accepted, c) + Pending(s.callers[c]))
  {
    hide LegalHistory, Stack, Pops, Pushes, TasksOf, Tasks, Union, Hands, Pendings, End, IsRun;
    hide MutexInv, SeenInv, SoleInv, WakeInv;
    ReachedInv(n, m, steps);
    var s := End(Init(n, m), steps);
    HistoryConserves(s.log);
    forall i | 0 <= i < |s.workers|
      ensures TasksOf(Pops(s.log), i) == TasksOf(s.finished, i) + InHand(s.workers[i])
    {
      assert HandedAt(s, i);
    }
    forall c | 0 <= c < |s.callers|
      ensures TasksOf(Pushes(s.log), c) == TasksOf(s.accepted, c) + Pending(s.callers[c])
    {
      assert PushedAt(s, c);
    }
  }

  predicate OwnerExists(s: State) {
    match s.owner
    case Free => true
    case Worker(i) => i < |s.workers|
    case Caller(c) => c < |s.callers|
  }

  lemma {:induction false} RunKeepsOwner(s: State, steps: seq<Step>)
    requires MutexInv(s) && OwnerExists(s) && IsRun(s, steps)
    ensures OwnerExists(End(s, steps))
    decreases |steps|
  {
    hide MutexInv, After, Enabled;
    if steps != [] {
      ThreadsKept(s, steps[0]);
      StepMovesOwner(s, steps[0]);
      StepKeepsMutex(s, steps[0]);
      RunKeepsOwner(After(s, steps[0]), steps[1..]);
    }
  }

  /** A thread that has something left to do: it neither waits nor has ended, nor is it between calls. */
  predicate Unfinished(s: State, t: Owner) {
    match t
    case Free => false
    case Worker(i) => i < |s.workers| && s.workers[i] != Waiting && s.workers[i] != Done
    case Caller(c) => c < |s.callers| && s.callers[c] != Idle
  }

  predicate CanStep(s: State, t: Owner) {
    match t
    case Free => false
    case Worker(i) => Enabled(s, WorkerStep(i))
    case Caller(c) => Enabled(s, CallerStep(c))
  }

  predicate StuckAtBack(s: State) {
    exists i :: 0 <= i < |s.workers| && s.workers[i] == ReadBack(false)
  }

  /** Deadlock freedom: in every state of every run a thread with something left to do can take a step, or
      else the owner of the mutex can, unless a worker stands at line 39 before an empty queue. */
  lemma DeadlockFree(n: nat, m: nat, steps: seq<Step>, t: Owner)
    requires IsRun(Init(n, m), steps) && Unfinished(End(Init(n, m), steps), t)
    ensures var s := End(Init(n, m), steps);
            CanStep(s, t) || CanStep(s, s.owner) || StuckAtBack(s)
  {
    hide End, IsRun, StackInv, HandedInv, PushedInv, CountInv, SoleInv, WakeInv;
    ReachedInv(n, m, steps);
    RunKeepsOwner(Init(n, m), steps);
    var s := End(Init(n, m), steps);
    StepOrOwner(s, t);
    if s.owner != Free && !CanStep(s, t) {
      OwnerSteps(s);
    }
  }

  lemma StepOrOwner(s: State, t: Owner)
    requires SeenInv(s) && Unfinished(s, t)
    ensures CanStep(s, t) || s.owner != Free || StuckAtBack(s)
  {
    match t
    case Worker(i) => assert SeenAt(s, i);
    case Caller(c) =>
  }

  lemma OwnerSteps(s: State)
    requires MutexInv(s) && SeenInv(s) && OwnerExists(s) && s.owner != Free
    ensures CanStep(s, s.owner) || StuckAtBack(s)
  {
    match s.owner
    case Worker(i) => assert MutexAt(s, i) && SeenAt(s, i);
    case Caller(c) => assert MutexAtCaller(s, c);
  }

  /** A thread, and whether it stands between a lock and an unlock. */
  predicate Holds(s: State, t: Owner) {
    match t
    case Free => false
    case Worker(i) => i < |s.workers| && WorkerHolds(s.workers[i])
    case Caller(c) => c < |s.callers| && CallerHolds(s.callers[c])
  }

  /** At most one thread, worker or caller, does in any state of any run. */
  lemma MutualExclusion(n: nat, m: nat, steps: seq<Step>, t: Owner, u: Owner)
    requires IsRun(Init(n, m), steps)
    ensures var s := End(Init(n, m), steps);
            Holds(s, t) && Holds(s, u) ==> t == u
  {
    hide End, IsRun, StackInv, HandedInv, PushedInv, CountInv, SeenInv, SoleInv, WakeInv, MutexInv;
    ReachedInv(n, m, steps);
    var s := End(Init(n, m), steps);
    if Holds(s, t) && Holds(s, u) {
      HolderOwns(s, t);
      HolderOwns(s, u);
    }
  }

  lemma HolderOwns(s: State, t: Owner)
    requires MutexInv(s) && Holds(s, t)
    ensures s.owner == t
  {
    match t
    case Worker(i) => assert MutexAt(s, i);
    case Caller(c) => assert MutexAtCaller(s, c);
  }

  /** In every state of every run, a worker that waits beside a non-empty queue is about to be woken. */
  lemma NoLostWakeUp(n: nat, m: nat, steps: seq<Step>, i: nat)
    requires IsRun(Init(n, m), steps)
    ensures var s := End(Init(n, m), steps);
            i < |s.workers| && s.workers[i] == Waiting && s.tasks != [] ==>
              exists c :: 0 <= c < |s.callers| && (s.callers[c].EnqUnlock? || s.callers[c].EnqBroadcast?)
  {
    hide End, IsRun, StackInv, HandedInv, PushedInv, CountInv, SeenInv, SoleInv, MutexInv;
    ReachedInv(n, m, steps);
    var s := End(Init(n, m), steps);
    if i < |s.workers| && s.workers[i] == Waiting && s.tasks != [] {
      assert WakeAt(s, i);
      var c :| 0 <= c < |s.callers| && Broadcasting(s.callers[c]);
      assert s.callers[c].EnqUnlock? || s.callers[c].EnqBroadcast?;
    }
  }
}
