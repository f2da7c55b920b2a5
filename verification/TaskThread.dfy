/** Core/Thread/SeptemThread: one worker thread, any number of threads that push tasks, and others
that stop the worker, clear the queue or pop from it, all interleaved.

A step is what runs without interruption: a locked body, or one access to an unlocked shared
field.  PushTask is two steps, because it reads `bRunning` before it takes the lock.  The class
follows the source step by step; `Step` is its specification, and the theorems are about every
sequence of steps. */
module TaskThread {

  type TaskId = nat
  type Pusher = nat

  /** A shared_ptr to a task; the queue may well hold null pointers. */
  datatype TaskPtr = Null | Task(id: TaskId)

  /** Where the worker is, between its steps; the numbers are the lines it executes next. */
  datatype Pc =
    | NotStarted   // ThreadRun has not been entered
    | AtInit       // 148: Init()
    | AtSetRunning // 149: bRunning = true
    | AtSetState2  // 150: i_ThreadState = 2
    | AtLoopTest   // 166: while (bRunning)
    | AtPop        // 169: PopTask(pCacheTask)
    | AtCheck      // 169: && pCacheTask, and then the call of OnDoTask
    | InTask       // 171: inside OnDoTask
    | AtSetState3  // 152: i_ThreadState = 3
    | AtDestory    // 153: Destory()
    | Finished

  /** How a task left the queue: popped by the worker, or taken out by another thread. */
  datatype Removal = Removal(task: TaskPtr, byWorker: bool)

  /** `accepted`, `removed` and `begun` record the history: all tasks ever enqueued, all that
      left the queue, and the pointers with which OnDoTask was called.
      `pushing` holds the pushes that have read `bRunning` as true but not yet enqueued. */
  datatype State = State(
    running: bool,
    phase: int,
    queue: seq<TaskPtr>,
    pc: Pc,
    cache: TaskPtr,
    pushing: map<Pusher, TaskPtr>,
    accepted: seq<TaskPtr>,
    removed: seq<Removal>,
    begun: seq<TaskPtr>)

  const INITIAL := State(false, 0, [], NotStarted, Null, map[], [], [], [])

  datatype Event =
    | PushCheck(pusher: Pusher, task: TaskPtr)
    | PushEnqueue(from: Pusher)
    | Worker
    | PopByOther
    | Clear
    | Stop

  // ----- steps

  function Begin(s: State, p: Pusher, t: TaskPtr): State {
    if s.running && p !in s.pushing then s.(pushing := s.pushing[p := t]) else s
  }

  function Enqueued(s: State, p: Pusher): State {
    if p !in s.pushing then s
    else s.(pushing := s.pushing - {p}, queue := s.queue + [s.pushing[p]], accepted := s.accepted + [s.pushing[p]])
  }

  /** The first task leaves the queue. */
  function Popped(s: State, byWorker: bool): State
    requires s.queue != []
  {
    s.(queue := s.queue[1..], removed := s.removed + [Removal(s.queue[0], byWorker)])
  }

  function Emptied(s: State): State
    decreases |s.queue|
  {
    if s.queue == [] then s else Emptied(Popped(s, false))
  }

  /** The tasks of a queue, taken out in order by another thread than the worker. */
  function TakenOut(queue: seq<TaskPtr>): seq<Removal> {
    seq(|queue|, i requires 0 <= i < |queue| => Removal(queue[i], false))
  }

  function WorkerStep(s: State): State {
    match s.pc
    case NotStarted => s.(phase := 1, pc := AtInit)
    case AtInit => s.(pc := AtSetRunning)
    case AtSetRunning => s.(running := true, pc := AtSetState2)
    case AtSetState2 => s.(phase := 2, pc := AtLoopTest)
    case AtLoopTest => s.(pc := if s.running then AtPop else AtSetState3)
    case AtPop => if s.queue == [] then s.(pc := AtLoopTest) else Popped(s, true).(cache := s.queue[0], pc := AtCheck)
    case AtCheck => if s.cache.Null? then s.(pc := AtLoopTest) else s.(pc := InTask, begun := s.begun + [s.cache])
    case InTask => s.(pc := AtLoopTest)
    case AtSetState3 => s.(phase := 3, pc := AtDestory)
    case AtDestory => s.(pc := Finished)
    case Finished => s
  }

  function Step(s: State, e: Event): State {
    match e
    case PushCheck(p, t) => Begin(s, p, t)
    case PushEnqueue(p) => Enqueued(s, p)
    case Worker => WorkerStep(s)
    case PopByOther => if s.queue == [] then s else Popped(s, false)
    case Clear => Emptied(s)
    case Stop => s.(running := false)
  }

  function Run(s: State, events: seq<Event>): State {
    if events == [] then s else Step(Run(s, events[..|events| - 1]), events[|events| - 1])
  }

  // ----- the source's own operations

  /** The worker's program counter and its local pointer are fields, so that its code can be
      run one step at a time. */
  class TTaskThread {
    var bRunning: bool
    var i_ThreadState: int
    var taskQueue: seq<TaskPtr>
    var pc: Pc
    var pCacheTask: TaskPtr
    ghost var pushing: map<Pusher, TaskPtr>
    ghost var accepted: seq<TaskPtr>
    ghost var removed: seq<Removal>
    ghost var begun: seq<TaskPtr>

    ghost function View(): State
      reads this
    {
      State(bRunning, i_ThreadState, taskQueue, pc, pCacheTask, pushing, accepted, removed, begun)
    }

    constructor ()
      ensures View() == INITIAL
      ensures !bRunning && i_ThreadState == 0 && taskQueue == [] && pc.NotStarted?
    {
      bRunning := false;
      i_ThreadState := 0;
      taskQueue := [];
      pc := NotStarted;
      pCacheTask := Null;
      pushing, accepted, removed, begun := map[], [], [], [];
    }

    method StopThread()
      modifies this
      ensures View() == Step(old(View()), Stop) == old(View()).(running := false)
    {
      bRunning := false;
    }

    /** First step of PushTask: the test, without the lock. */
    method PushTaskTest(ghost pusher: Pusher, task: TaskPtr) returns (go: bool)
      requires pusher !in pushing
      modifies this
      ensures View() == Step(old(View()), PushCheck(pusher, task))
      ensures go <==> old(bRunning)
      ensures pushing == if go then old(pushing)[pusher := task] else old(pushing)
    {
      go := bRunning;
      if bRunning {
        pushing := pushing[pusher := task];
      }
    }

    /** Second step of PushTask, for those that passed the test: the locked body. */
    method PushTaskEnqueue(ghost pusher: Pusher, task: TaskPtr)
      requires pusher in pushing && pushing[pusher] == task
      modifies this
      ensures View() == Step(old(View()), PushEnqueue(pusher))
      ensures taskQueue == old(taskQueue) + [task]
    {
      taskQueue := taskQueue + [task];
      accepted := accepted + [task];
      pushing := pushing - {pusher};
    }

    /** On an empty queue the out-pointer keeps the value it had. */
    method PopTask(outTask: TaskPtr, ghost byWorker: bool) returns (ok: bool, out: TaskPtr)
      modifies this
      ensures ok <==> old(taskQueue) != []
      ensures View() == if ok then Popped(old(View()), byWorker) else old(View())
      ensures out == if ok then old(taskQueue)[0] else outTask
    {
      if taskQueue == [] {
        return false, outTask;
      }
      out := taskQueue[0];
      taskQueue := taskQueue[1..];
      removed := removed + [Removal(out, byWorker)];
      return true, out;
    }

    method PopTaskByOther(outTask: TaskPtr) returns (ok: bool, out: TaskPtr)
      modifies this
      ensures View() == Step(old(View()), PopByOther)
      ensures ok <==> old(taskQueue) != []
      ensures if ok then [out] + taskQueue == old(taskQueue) else taskQueue == [] && out == outTask
    {
      ok, out := PopTask(outTask, false);
    }

    method ClearTaskQueue()
      modifies this
      ensures View() == Step(old(View()), Clear)
      ensures View() == old(View()).(queue := [], removed := old(removed) + TakenOut(old(taskQueue)))
    {
      EmptiedIsAllTakenOut(View());
      while |taskQueue| > 0
        invariant Emptied(View()) == Emptied(old(View()))
        decreases |taskQueue|
      {
        removed := removed + [Removal(taskQueue[0], false)];
        taskQueue := taskQueue[1..];
      }
    }

    /** The next step of ThreadRun and, within it, of Run. */
    method WorkerAdvance()
      modifies this
      ensures View() == Step(old(View()), Worker)
      ensures bRunning == (old(bRunning) || old(pc).AtSetRunning?)
      ensures taskQueue != old(taskQueue) ==> old(pc).AtPop? && [pCacheTask] + taskQueue == old(taskQueue)
      ensures begun != old(begun) ==> old(pc).AtCheck? && begun == old(begun) + [pCacheTask]
    {
      match pc {
        case NotStarted =>
          i_ThreadState := 1;
          pc := AtInit;
        case AtInit =>
          pc := AtSetRunning;
        case AtSetRunning =>
          bRunning := true;
          pc := AtSetState2;
        case AtSetState2 =>
          i_ThreadState := 2;
          pc := AtLoopTest;
        case AtLoopTest =>
          pc := if bRunning then AtPop else AtSetState3;
        case AtPop =>
          var ok, out := PopTask(pCacheTask, true);
          pCacheTask := out;
          pc := if ok then AtCheck else AtLoopTest;
        case AtCheck =>
          if pCacheTask.Null? {
            pc := AtLoopTest;
          } else {
            begun := begun + [pCacheTask];
            pc := InTask;
          }
        case InTask =>
          pc := AtLoopTest;
        case AtSetState3 =>
          i_ThreadState := 3;
          pc := AtDestory;
        case AtDestory =>
          pc := Finished;
        case Finished =>
      }
    }
  }

  // ----- order and exactly-once

  function TasksOf(removed: seq<Removal>): seq<TaskPtr> {
    seq(|removed|, i requires 0 <= i < |removed| => removed[i].task)
  }

  /** The positions of the tasks the worker must execute: what it popped, save null pointers. */
  function Due(removed: seq<Removal>): (due: seq<nat>)
    ensures forall i :: 0 <= i < |due| ==> due[i] < |removed|
  {
    if removed == [] then []
    else
      var last := |removed| - 1;
      Due(removed[..last]) + (if IsDue(removed, last) then [last] else [])
  }

  predicate IsDue(removed: seq<Removal>, k: nat) {
    k < |removed| && removed[k].byWorker && removed[k].task.Task?
  }

  function TasksAt(removed: seq<Removal>, due: seq<nat>): seq<TaskPtr>
    requires forall i :: 0 <= i < |due| ==> due[i] < |removed|
  {
    seq(|due|, i requires 0 <= i < |due| => removed[due[i]].task)
  }

  /** A task that was popped but on which OnDoTask has not been called yet. */
  function InFlight(s: State): seq<TaskPtr> {
    if s.pc.AtCheck? && s.cache.Task? then [s.cache] else []
  }

  ghost predicate Invariant(s: State) {
    // FIFO: nothing is lost, duplicated or reordered between enqueueing and removal
    && s.accepted == TasksOf(s.removed) + s.queue
    // exactly once: the worker executes what it popped, in that order, nothing else
    && s.begun + InFlight(s) == TasksAt(s.removed, Due(s.removed))
    // the published state follows the worker
    && s.phase == PhaseAt(s.pc)
  }

  function PhaseAt(pc: Pc): int {
    match pc
    case NotStarted => 0
    case AtInit | AtSetRunning | AtSetState2 => 1
    case AtLoopTest | AtPop | AtCheck | InTask | AtSetState3 => 2
    case AtDestory | Finished => 3
  }

  lemma PoppedKeeps(s: State, byWorker: bool)
    requires Invariant(s) && s.queue != []
    ensures var s' := Popped(s, byWorker);
            && s'.accepted == TasksOf(s'.removed) + s'.queue
            && TasksAt(s'.removed, Due(s'.removed))
               == TasksAt(s.removed, Due(s.removed)) + (if byWorker && s.queue[0].Task? then [s.queue[0]] else [])
  {
    var s' := Popped(s, byWorker);
    assert s'.removed[..|s.removed|] == s.removed;
    assert s.queue == [s.queue[0]] + s'.queue;
    assert TasksOf(s'.removed) == TasksOf(s.removed) + [s.queue[0]];
  }

  /** Clearing takes out all there is, front to back, and touches nothing else. */
  lemma {:induction false} EmptiedIsAllTakenOut(s: State)
    ensures Emptied(s) == s.(queue := [], removed := s.removed + TakenOut(s.queue))
    decreases |s.queue|
  {
    if s.queue != [] {
      EmptiedIsAllTakenOut(Popped(s, false));
      assert TakenOut(s.queue) == [Removal(s.queue[0], false)] + TakenOut(s.queue[1..]);
    }
  }

  lemma {:induction false} EmptiedKeeps(s: State)
    requires Invariant(s)
    ensures Invariant(Emptied(s)) && Emptied(s).queue == []
    decreases |s.queue|
  {
    if s.queue != [] {
      PoppedKeeps(s, false);
      EmptiedKeeps(Popped(s, false));
    }
  }

  lemma WorkerPopKeepsInvariant(s: State)
    requires Invariant(s) && s.pc.AtPop? && s.queue != []
    ensures Invariant(WorkerStep(s))
  {
    PoppedKeeps(s, true);
    hide TasksAt, TasksOf, Due;
    assert s.begun + [] == s.begun;
  }

  lemma WorkerKeepsInvariant(s: State)
    requires Invariant(s)
    ensures Invariant(WorkerStep(s))
  {
    hide TasksAt, TasksOf, Due;
    if s.pc.AtPop? && s.queue != [] {
      WorkerPopKeepsInvariant(s);
    } else {
      var s' := WorkerStep(s);
      assert s'.begun + InFlight(s') == s.begun + InFlight(s);
      assert s'.phase == PhaseAt(s'.pc);
    }
  }

  lemma StepKeepsInvariant(s: State, e: Event)
    requires Invariant(s)
    ensures Invariant(Step(s, e))
  {
    match e {
      case PushCheck(p, t) =>
      case PushEnqueue(p) =>
      case Worker => WorkerKeepsInvariant(s);
      case PopByOther =>
        if s.queue != [] {
          PoppedKeeps(s, false);
        }
      case Clear => EmptiedKeeps(s);
      case Stop =>
    }
  }

  lemma {:induction false} RunKeepsInvariant(s: State, events: seq<Event>)
    requires Invariant(s)
    ensures Invariant(Run(s, events))
  {
    hide Invariant, Step;
    if events != [] {
      RunKeepsInvariant(s, events[..|events| - 1]);
      StepKeepsInvariant(Run(s, events[..|events| - 1]), events[|events| - 1]);
    }
  }

  lemma InitialInvariant()
    ensures Invariant(INITIAL)
  {
  }

  /** The positions due, each once and ascending. */
  lemma {:induction false} DueMeans(removed: seq<Removal>)
    ensures forall k: nat :: k in Due(removed) <==> IsDue(removed, k)
    ensures forall i, j :: 0 <= i < j < |Due(removed)| ==> Due(removed)[i] < Due(removed)[j]
  {
    if removed != [] {
      var last := |removed| - 1;
      DueMeans(removed[..last]);
      forall k: nat
        ensures k in Due(removed) <==> IsDue(removed, k)
      {
        assert IsDue(removed, k) <==> IsDue(removed[..last], k) || (k == last && IsDue(removed, last));
      }
    }
  }

  /** FIFO on every run: the tasks accepted are those removed, in order, then the queue. */
  lemma AcceptedIsRemovedThenQueued(events: seq<Event>)
    ensures var s := Run(INITIAL, events);
            s.accepted == TasksOf(s.removed) + s.queue
  {
    InitialInvariant();
    RunKeepsInvariant(INITIAL, events);
  }

  /** Exactly once, in order, on every run: the calls of OnDoTask are, one for one, the tasks at
      ascending positions of `accepted`; those are the positions popped by the worker and not
      null; only the one popped last may still be waiting for its call. */
  lemma ExecutedExactlyOnce(events: seq<Event>)
    ensures var s := Run(INITIAL, events);
            var due := Due(s.removed);
            && (forall i, j :: 0 <= i < j < |due| ==> due[i] < due[j])
            && (forall k: nat :: k in due <==> IsDue(s.removed, k))
            && |s.begun| + |InFlight(s)| == |due|
            && (forall i :: 0 <= i < |s.begun| ==> due[i] < |s.accepted| && s.begun[i] == s.accepted[due[i]])
  {
    var s := Run(INITIAL, events);
    InitialInvariant();
    RunKeepsInvariant(INITIAL, events);
    DueMeans(s.removed);
    var due := Due(s.removed);
    assert forall i :: 0 <= i < |s.begun| ==> s.begun[i] == (s.begun + InFlight(s))[i] == s.removed[due[i]].task;
  }

  // ----- getting in

  /** Nothing enters the queue but what a pending push enqueues. */
  lemma OnlyPushesAreAccepted(s: State, e: Event)
    ensures Step(s, e).accepted
            == s.accepted + (if e.PushEnqueue? && e.from in s.pushing then [s.pushing[e.from]] else [])
  {
    if e.Clear? {
      EmptiedIsAllTakenOut(s);
    }
  }

  lemma PendingSurvivesStep(s: State, e: Event, p: Pusher)
    requires p in s.pushing && e != PushEnqueue(p)
    ensures p in Step(s, e).pushing && Step(s, e).pushing[p] == s.pushing[p]
  {
    if e.Clear? {
      EmptiedIsAllTakenOut(s);
    }
  }

  lemma {:induction false} PendingSurvives(s: State, more: seq<Event>, p: Pusher)
    requires p in s.pushing && PushEnqueue(p) !in more
    ensures p in Run(s, more).pushing && Run(s, more).pushing[p] == s.pushing[p]
  {
    if more != [] {
      hide Step;
      PendingSurvives(s, more[..|more| - 1], p);
      PendingSurvivesStep(Run(s, more[..|more| - 1]), more[|more| - 1], p);
    }
  }

  /** A push that finds the thread running gets its task in, at the back of the queue, whenever it
      comes to take the lock and whatever happened in between, a stop included.  One that finds the
      thread not running does nothing at all. */
  lemma PushGetsIn(s: State, p: Pusher, t: TaskPtr, more: seq<Event>)
    requires p !in s.pushing && PushEnqueue(p) !in more
    ensures var checked := Step(s, PushCheck(p, t));
            var s1 := Run(checked, more);
            var s2 := Step(s1, PushEnqueue(p));
            if s.running then
              s2 == s1.(queue := s1.queue + [t], accepted := s1.accepted + [t], pushing := s1.pushing - {p})
            else
              checked == s
  {
    if s.running {
      PendingSurvives(Step(s, PushCheck(p, t)), more, p);
    }
  }

  ghost predicate NothingYet(s: State) {
    !s.running && s.pushing == map[] && s.queue == [] && s.accepted == []
  }

  lemma NothingYetStep(s: State, e: Event)
    requires !PastStart(s.pc) ==> NothingYet(s)
    ensures !PastStart(Step(s, e).pc) ==> NothingYet(Step(s, e))
  {
    if e.Clear? {
      EmptiedIsAllTakenOut(s);
    }
  }

  /** Until line 149 has been executed every push is turned away. */
  lemma {:induction false} NothingBeforeStart(events: seq<Event>)
    ensures !PastStart(Run(INITIAL, events).pc) ==> NothingYet(Run(INITIAL, events))
  {
    if events != [] {
      hide NothingYet, PastStart, Step;
      NothingBeforeStart(events[..|events| - 1]);
      NothingYetStep(Run(INITIAL, events[..|events| - 1]), events[|events| - 1]);
    }
  }

  // ----- stopping

  /** Line 149 has been executed: nothing sets bRunning any more. */
  predicate PastStart(pc: Pc) {
    !pc.NotStarted? && !pc.AtInit? && !pc.AtSetRunning?
  }

  /** Steps the worker still takes before it has finished, once bRunning is false. */
  function StepsLeft(pc: Pc): nat {
    match pc
    case AtPop => 6
    case AtCheck => 5
    case InTask => 4
    case AtSetState2 => 4
    case AtLoopTest => 3
    case AtSetState3 => 2
    case AtDestory => 1
    case Finished => 0
    case _ => 0
  }

  function WorkerSteps(events: seq<Event>): nat {
    if events == [] then 0
    else WorkerSteps(events[..|events| - 1]) + AtMost(events[|events| - 1].Worker?)
  }

  /** OnDoTask may still begin with a pointer that is being fetched. */
  predicate MayBeginOne(pc: Pc) {
    pc.AtPop? || pc.AtCheck?
  }

  function AtMost(b: bool): nat {
    if b then 1 else 0
  }

  /** What holds of the worker in every state reached from a stopped one. */
  ghost predicate BoundedSince(s0: State, s: State, workerSteps: nat) {
    && !s.running
    && PastStart(s.pc)
    // bounded work
    && s0.begun <= s.begun
    && |s.begun| + AtMost(MayBeginOne(s.pc)) <= |s0.begun| + AtMost(MayBeginOne(s0.pc))
    // progress, with every step of its own
    && StepsLeft(s.pc) + workerSteps <= StepsLeft(s0.pc) + (if s.pc.Finished? then workerSteps else 0)
  }

  /** The late enqueues, one by one: the i-th of them is the task of the push `pushers[i]`, which
      was pending at the stop and is no longer; no push appears twice. */
  ghost predicate EnqueuedBy(s0: State, s: State, pushers: seq<Pusher>) {
    && |s.accepted| == |s0.accepted| + |pushers|
    && (forall i, j :: 0 <= i < j < |pushers| ==> pushers[i] != pushers[j])
    && (forall i :: 0 <= i < |pushers| ==>
          && pushers[i] in s0.pushing && pushers[i] !in s.pushing
          && s0.pushing[pushers[i]] == s.accepted[|s0.accepted| + i])
  }

  /** What holds of the pushers: only pushes that had read bRunning before still enqueue, each
      its own task, once. */
  ghost predicate OnlyPendingSince(s0: State, s: State) {
    && s0.accepted <= s.accepted
    && |s.accepted| + |s.pushing| == |s0.accepted| + |s0.pushing|
    && (forall p :: p in s.pushing ==> p in s0.pushing && s.pushing[p] == s0.pushing[p])
    && (exists pushers :: EnqueuedBy(s0, s, pushers))
  }

  lemma WorkerAfterStop(s0: State, s: State, n: nat)
    requires BoundedSince(s0, s, n)
    ensures BoundedSince(s0, WorkerStep(s), n + 1)
  {
  }

  lemma PushersUntouched(s0: State, s: State, s': State)
    requires OnlyPendingSince(s0, s)
    requires s'.accepted == s.accepted && s'.pushing == s.pushing
    ensures OnlyPendingSince(s0, s')
  {
    var pushers :| EnqueuedBy(s0, s, pushers);
    assert EnqueuedBy(s0, s', pushers);
  }

  lemma EnqueueAfterStop(s0: State, s: State, p: Pusher)
    requires OnlyPendingSince(s0, s)
    ensures OnlyPendingSince(s0, Enqueued(s, p))
  {
    if p in s.pushing {
      var s' := Enqueued(s, p);
      assert s.pushing == s'.pushing[p := s.pushing[p]];
      assert |s.pushing| == |s'.pushing| + 1;
      var pushers :| EnqueuedBy(s0, s, pushers);
      assert EnqueuedBy(s0, s', pushers + [p]);
    }
  }

  lemma StepAfterStop(s0: State, s: State, n: nat, e: Event)
    requires BoundedSince(s0, s, n) && OnlyPendingSince(s0, s)
    ensures BoundedSince(s0, Step(s, e), n + AtMost(e.Worker?))
    ensures OnlyPendingSince(s0, Step(s, e))
  {
    if e.Worker? {
      WorkerAfterStop(s0, s, n);
    } else {
      OthersAfterStop(s0, s, n, e);
    }
    if e.PushEnqueue? {
      EnqueueAfterStop(s0, s, e.from);
    } else {
      NoNewPushAfterStop(s, e);
      PushersUntouched(s0, s, Step(s, e));
    }
  }

  lemma OthersAfterStop(s0: State, s: State, n: nat, e: Event)
    requires BoundedSince(s0, s, n) && !e.Worker?
    ensures BoundedSince(s0, Step(s, e), n)
  {
    if e.Clear? {
      EmptiedIsAllTakenOut(s);
    }
  }

  lemma NoNewPushAfterStop(s: State, e: Event)
    requires !s.running && !e.PushEnqueue?
    ensures Step(s, e).accepted == s.accepted && Step(s, e).pushing == s.pushing
  {
    if e.Clear? {
      EmptiedIsAllTakenOut(s);
    }
  }

  lemma {:induction false} RunAfterStop(s0: State, more: seq<Event>)
    requires !s0.running && PastStart(s0.pc)
    ensures BoundedSince(s0, Run(s0, more), WorkerSteps(more)) && OnlyPendingSince(s0, Run(s0, more))
  {
    if more != [] {
      hide BoundedSince, OnlyPendingSince, Step;
      RunAfterStop(s0, more[..|more| - 1]);
      StepAfterStop(s0, Run(s0, more[..|more| - 1]), WorkerSteps(more[..|more| - 1]), more[|more| - 1]);
    } else {
      assert EnqueuedBy(s0, s0, []);
    }
  }

  /** StopThread, called once line 149 has been executed: whatever happens next, at most one
      more OnDoTask begins; after six steps of its own the worker has published state 3; and
      what is still enqueued are, one for one, the tasks of different pushes that were under way
      at the stop. */
  lemma StopIsBounded(before: seq<Event>, more: seq<Event>)
    requires PastStart(Run(INITIAL, before).pc)
    ensures var s0 := Step(Run(INITIAL, before), Stop);
            var s := Run(s0, more);
            && !s.running
            && |s0.begun| <= |s.begun| <= |s0.begun| + 1
            && (WorkerSteps(more) >= 6 ==> s.pc.Finished? && s.phase == 3)
            && s0.accepted <= s.accepted
            && |s.accepted| - |s0.accepted| == |s0.pushing| - |s.pushing|
            && (exists pushers :: EnqueuedBy(s0, s, pushers))
  {
    var s0 := Step(Run(INITIAL, before), Stop);
    hide Invariant, EnqueuedBy;
    RunAfterStop(s0, more);
    InitialInvariant();
    RunKeepsInvariant(INITIAL, before);
    StepKeepsInvariant(Run(INITIAL, before), Stop);
    RunKeepsInvariant(s0, more);
    PhaseFollowsWorker(Run(s0, more));
  }

  lemma PhaseFollowsWorker(s: State)
    requires Invariant(s)
    ensures s.phase == PhaseAt(s.pc)
  {
  }

  /** A stop that comes earlier is lost: it keeps the thread from running, in all that may
      follow, exactly when line 149 has already been executed. */
  lemma StopHoldsExactlyAfterStart(before: seq<Event>)
    ensures var s0 := Step(Run(INITIAL, before), Stop);
            (forall more: seq<Event> :: !Run(s0, more).running) <==> PastStart(s0.pc)
  {
    var s0 := Step(Run(INITIAL, before), Stop);
    if PastStart(s0.pc) {
      forall more: seq<Event>
        ensures !Run(s0, more).running
      {
        RunAfterStop(s0, more);
      }
    } else {
      StartOverridesStop(s0);
    }
  }

  lemma StartOverridesStop(s: State)
    requires !PastStart(s.pc)
    ensures exists more: seq<Event> :: Run(s, more).running
  {
    var e := Worker;
    var more := match s.pc case NotStarted => [e, e, e] case AtInit => [e, e] case _ => [e];
    assert [e, e, e][..2] == [e, e] && [e, e][..1] == [e] && [e][..0] == [];
    assert Run(s, [e]) == WorkerStep(s);
    assert Run(s, [e, e]) == WorkerStep(WorkerStep(s));
    assert Run(s, more).running;
  }

  // ----- service

  /** The worker is in its loop and nobody has told it to stop. */
  predicate Serving(s: State) {
    s.running && (s.pc.AtSetState2? || s.pc.AtLoopTest? || s.pc.AtPop? || s.pc.AtCheck? || s.pc.InTask?)
  }

  /** Pushers and the worker only: nobody stops, clears or pops. */
  predicate Undisturbed(more: seq<Event>) {
    forall i :: 0 <= i < |more| ==> more[i].PushCheck? || more[i].PushEnqueue? || more[i].Worker?
  }

  /** Steps the worker takes until it pops again. */
  function UntilPop(pc: Pc): nat {
    match pc
    case AtCheck => 3
    case InTask | AtSetState2 => 2
    case AtLoopTest => 1
    case _ => 0
  }

  /** The first `target` tasks ever accepted are popped, or every step has brought that nearer. */
  ghost predicate ServedSince(s0: State, s: State, target: nat, workerSteps: nat) {
    && s0.removed <= s.removed
    && (forall k :: |s0.removed| <= k < |s.removed| ==> s.removed[k].byWorker)
    && (|s.removed| < target ==>
          4 * (target - |s.removed|) + UntilPop(s.pc) + workerSteps <= 4 * (target - |s0.removed|) + UntilPop(s0.pc))
  }

  lemma StepServes(s0: State, s: State, target: nat, n: nat, e: Event)
    requires Invariant(s) && Serving(s) && ServedSince(s0, s, target, n) && target <= |s.accepted|
    requires e.PushCheck? || e.PushEnqueue? || e.Worker?
    ensures Serving(Step(s, e)) && ServedSince(s0, Step(s, e), target, n + AtMost(e.Worker?))
    ensures s.accepted <= Step(s, e).accepted
  {
    hide TasksAt, Due;
  }

  lemma {:induction false} RunServes(s0: State, target: nat, more: seq<Event>)
    requires Invariant(s0) && Serving(s0) && Undisturbed(more) && target <= |s0.accepted|
    ensures var s := Run(s0, more);
            Invariant(s) && Serving(s) && ServedSince(s0, s, target, WorkerSteps(more)) && s0.accepted <= s.accepted
  {
    if more != [] {
      hide Invariant, Serving, ServedSince, Step;
      var front := more[..|more| - 1];
      RunServes(s0, target, front);
      StepServes(s0, Run(s0, front), target, WorkerSteps(front), more[|more| - 1]);
      StepKeepsInvariant(Run(s0, front), more[|more| - 1]);
    }
  }

  /** Every task that is queued is popped by the worker, in at most four of its own steps for
      each task queued and three more, however the pushers go on, if nobody interferes. */
  lemma QueueIsServed(before: seq<Event>, more: seq<Event>)
    requires Serving(Run(INITIAL, before)) && Undisturbed(more)
    requires WorkerSteps(more) >= 4 * |Run(INITIAL, before).queue| + 3
    ensures var s0, s := Run(INITIAL, before), Run(Run(INITIAL, before), more);
            && |s.removed| >= |s0.accepted|
            && forall k :: |s0.removed| <= k < |s0.accepted| ==> s.removed[k] == Removal(s0.accepted[k], true)
  {
    var s0 := Run(INITIAL, before);
    InitialInvariant();
    RunKeepsInvariant(INITIAL, before);
    RunServes(s0, |s0.accepted|, more);
    var s := Run(s0, more);
    forall k | |s0.removed| <= k < |s0.accepted|
      ensures s.removed[k] == Removal(s0.accepted[k], true)
    {
      assert s.accepted[k] == TasksOf(s.removed)[k] == s.removed[k].task;
    }
  }

  // ----- the published state

  lemma PhaseStep(s: State, e: Event)
    requires Invariant(s)
    ensures s.phase <= Step(s, e).phase <= 3
  {
    StepKeepsInvariant(s, e);
    hide TasksAt, TasksOf, Due;
    if e.Clear? {
      EmptiedIsAllTakenOut(s);
    }
  }

  /** The published state never goes back, and never becomes 4, whatever its comment says. */
  lemma {:induction false} PhaseOnlyRises(s: State, more: seq<Event>)
    requires Invariant(s)
    ensures s.phase <= Run(s, more).phase <= 3
  {
    if more != [] {
      hide Invariant, Step;
      var front := more[..|more| - 1];
      PhaseOnlyRises(s, front);
      RunKeepsInvariant(s, front);
      PhaseStep(Run(s, front), more[|more| - 1]);
    }
  }
}
