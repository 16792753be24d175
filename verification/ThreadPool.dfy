// The thread pool of ctpl-stl.h as a state machine over its workers, its pushers and the
// thread that calls stop. Each action is one step between two points where another thread
// can come in: a queue operation under the queue's own lock, an access to an atomic flag,
// taking or releasing the pool mutex, blocking on or signalling the condition variable.

module ThreadPool {

  // The address of a heap-allocated std::function.
  type Task = nat

  // Where a worker is in the loop of set_thread.
  datatype Worker =
    | Popping                // before q.pop outside the pool mutex
    | Running(task: Task)    // before the call of the task
    | CheckFlag              // before reading its flag
    | WantLock               // before locking the pool mutex
    | PredPop                // holds the mutex: before q.pop in the wait predicate
    | PredDone               // holds the mutex: the pop failed, before reading isDone
    | PredFlag               // holds the mutex: isDone was false, before reading its flag
    | PredFalse              // holds the mutex: the predicate was false, before blocking
    | Blocked                // in the wait set of cv, mutex released
    | Woken                  // signalled, before locking the mutex again
    | Leaving(task: Task)    // holds the mutex: the wait is over with a task
    | LeavingEmpty           // holds the mutex: the wait is over without a task
    | Exited

  datatype Owner = Free | ByWorker(i: nat) | ByPusher | ByStopper

  // Where the thread that calls stop is; k counts flags set or threads joined.
  datatype Stopper =
    | Idle
    | Flagging(k: nat)
    | Clearing
    | NeedLock
    | Holding
    | Joining(k: nat)
    | LastClearing
    | Finished

  datatype Pool = Pool(
    workers: seq<Worker>,
    flags: seq<bool>,
    queue: seq<Task>,
    isDone: bool,
    isStop: bool,
    nWaiting: int,
    mutex: Owner,
    pushers: nat,              // pushers that have queued their task and still have to lock and notify
    stopper: Stopper,
    // history
    pushed: seq<Task>,
    popped: seq<Task>,
    ran: seq<Task>,
    dropped: seq<Task>,
    latePush: bool)            // a task was queued after stop was called

  datatype Action =
    | Work(i: nat)             // worker i takes its next step
    | Spurious(i: nat)         // a blocked worker wakes without a signal
    | Push(task: Task)         // a pusher queues a task
    | PusherLock
    | PusherNotify(i: nat)     // cv.notify_one picks worker i if any is blocked
    | Stop(wait: bool)
    | StopperStep

  function Start(n: nat): Pool {
    Pool(seq(n, i => Popping), seq(n, i => false), [], false, false, 0, Free, 0, Idle, [], [], [], [], false)
  }

  predicate SomeBlocked(workers: seq<Worker>) {
    exists i :: 0 <= i < |workers| && workers[i].Blocked?
  }

  predicate Enabled(s: Pool, a: Action) {
    match a
    case Work(i) =>
      && i < |s.workers| && i < |s.flags|
      && !s.workers[i].Blocked? && !s.workers[i].Exited?
      && (s.workers[i].WantLock? || s.workers[i].Woken? ==> s.mutex.Free?)
    case Spurious(i) => i < |s.workers| && s.workers[i].Blocked?
    case Push(_) => true
    case PusherLock => s.pushers > 0 && s.mutex.Free?
    case PusherNotify(i) =>
      s.mutex.ByPusher? && (SomeBlocked(s.workers) ==> i < |s.workers| && s.workers[i].Blocked?)
    case Stop(_) => s.stopper.Idle?
    case StopperStep =>
      match s.stopper
      case Idle => false
      case NeedLock => s.mutex.Free?
      case Joining(k) => k < |s.workers| ==> s.workers[k].Exited?
      case Finished => false
      case _ => true
  }

  function At(s: Pool, i: nat, w: Worker): Pool
    requires i < |s.workers|
  {
    s.(workers := s.workers[i := w])
  }

  function Pop(s: Pool): Pool
    requires |s.queue| > 0
  {
    s.(queue := s.queue[1..], popped := s.popped + [s.queue[0]])
  }

  predicate PopsNow(s: Pool, w: Worker) {
    (w.Popping? || w.PredPop?) && |s.queue| > 0
  }

  // The worker loop of set_thread: where the next step leads.
  function Next(w: Worker, queue: seq<Task>, isDone: bool, flag: bool): Worker
    requires !w.Blocked? && !w.Exited?
  {
    match w
    case Popping => if |queue| > 0 then Running(queue[0]) else WantLock
    case Running(_) => CheckFlag
    case CheckFlag => if flag then Exited else Popping
    case WantLock => PredPop
    case Woken => PredPop
    case PredPop => if |queue| > 0 then Leaving(queue[0]) else PredDone
    case PredDone => if isDone then LeavingEmpty else PredFlag
    case PredFlag => if flag then LeavingEmpty else PredFalse
    case PredFalse => Blocked
    case Leaving(task) => Running(task)
    case LeavingEmpty => Exited
  }

  // What the step does besides.
  function WorkerStep(s: Pool, i: nat): Pool
    requires Enabled(s, Work(i))
  {
    var w := s.workers[i];
    var t := s.(workers := s.workers[i := Next(w, s.queue, s.isDone, s.flags[i])]);
    if PopsNow(s, w) then Pop(t)
    else if w.Running? then t.(ran := s.ran + [w.task])
    else if w.WantLock? then t.(mutex := ByWorker(i), nWaiting := s.nWaiting + 1)
    else if w.Woken? then t.(mutex := ByWorker(i))
    else if w.PredFalse? then t.(mutex := Free)
    else if w.Leaving? || w.LeavingEmpty? then t.(mutex := Free, nWaiting := s.nWaiting - 1)
    else t
  }

  function WakeAll(workers: seq<Worker>): (r: seq<Worker>)
    ensures |r| == |workers|
    ensures forall i :: 0 <= i < |workers| ==> r[i] == if workers[i].Blocked? then Woken else workers[i]
  {
    seq(|workers|, i requires 0 <= i < |workers| => if workers[i].Blocked? then Woken else workers[i])
  }

  // clear_queue, one pop at a time; `next` follows the pop that finds the queue empty.
  function ClearStep(s: Pool, next: Stopper): Pool {
    if |s.queue| > 0 then Pop(s).(dropped := s.dropped + [s.queue[0]]) else s.(stopper := next)
  }

  function StopStep(s: Pool): Pool
    requires Enabled(s, StopperStep)
  {
    match s.stopper
    case Flagging(k) =>
      if k < |s.flags| then s.(flags := s.flags[k := true], stopper := Flagging(k + 1))
      else s.(stopper := Clearing)
    case Clearing => ClearStep(s, NeedLock)
    case NeedLock => s.(mutex := ByStopper, stopper := Holding)
    case Holding => s.(workers := WakeAll(s.workers), mutex := Free, stopper := Joining(0))
    case Joining(k) => s.(stopper := if k < |s.workers| then Joining(k + 1) else LastClearing)
    case LastClearing => ClearStep(s, Finished)
  }

  function Do(s: Pool, a: Action): Pool
    requires Enabled(s, a)
  {
    match a
    case Work(i) => WorkerStep(s, i)
    case Spurious(i) => At(s, i, Woken)
    case Push(task) =>
      s.(queue := s.queue + [task], pushed := s.pushed + [task], pushers := s.pushers + 1,
         latePush := s.latePush || !s.stopper.Idle?)
    case PusherLock => s.(pushers := s.pushers - 1, mutex := ByPusher)
    case PusherNotify(i) =>
      (if SomeBlocked(s.workers) then At(s, i, Woken) else s).(mutex := Free)
    case Stop(wait) =>
      if wait then s.(isDone := true, stopper := NeedLock)
      else s.(isStop := true, stopper := Flagging(0))
    case StopperStep => StopStep(s)
  }

  // The state after any sequence of actions from a pool of n fresh workers; an action that
  // is not enabled does not happen.
  function After(n: nat, acts: seq<Action>): Pool {
    if |acts| == 0 then Start(n)
    else
      var s := After(n, acts[..|acts| - 1]);
      var a := acts[|acts| - 1];
      if Enabled(s, a) then Do(s, a) else s
  }

  // ---- the invariant ----

  predicate HoldsMutex(w: Worker) {
    w.PredPop? || w.PredDone? || w.PredFlag? || w.PredFalse? || w.Leaving? || w.LeavingEmpty?
  }

  predicate Waiting(w: Worker) {
    HoldsMutex(w) || w.Blocked? || w.Woken?
  }

  function CountWaiting(workers: seq<Worker>): nat {
    if |workers| == 0 then 0 else (if Waiting(workers[0]) then 1 else 0) + CountWaiting(workers[1..])
  }

  // How often a task is in the hands of a worker that has not run it yet.
  function InHand(w: Worker, x: Task): nat {
    match w
    case Running(task) => if task == x then 1 else 0
    case Leaving(task) => if task == x then 1 else 0
    case _ => 0
  }

  function CountInHand(workers: seq<Worker>, x: Task): nat {
    if |workers| == 0 then 0 else InHand(workers[0], x) + CountInHand(workers[1..], x)
  }

  function Count(s: seq<Task>, x: Task): nat {
    multiset(s)[x]
  }

  // The worker will look at the queue, or has a task, before it blocks.
  predicate Active(w: Worker) {
    w.Popping? || w.Running? || w.CheckFlag? || w.WantLock? || w.Woken? || w.PredPop? || w.Leaving?
  }

  predicate SomeActive(workers: seq<Worker>) {
    exists i :: 0 <= i < |workers| && Active(workers[i])
  }

  // Past its failed pop, and still holding the mutex.
  predicate FoundEmpty(w: Worker) {
    w.PredDone? || w.PredFlag? || w.PredFalse? || w.LeavingEmpty?
  }

  predicate PusherPending(s: Pool) {
    s.pushers > 0 || s.mutex.ByPusher?
  }

  predicate BeforeNotifyAll(st: Stopper) {
    st.Flagging? || st.Clearing? || st.NeedLock? || st.Holding?
  }

  predicate AfterNotifyAll(st: Stopper) {
    st.Joining? || st.LastClearing? || st.Finished?
  }

  predicate MutexRight(s: Pool) {
    && |s.flags| == |s.workers|
    && (forall i :: 0 <= i < |s.workers| ==> (HoldsMutex(s.workers[i]) <==> s.mutex == ByWorker(i)))
    && (s.mutex.ByWorker? ==> s.mutex.i < |s.workers|)
    && (s.mutex.ByStopper? <==> s.stopper.Holding?)
    && s.nWaiting == CountWaiting(s.workers)
  }

  ghost predicate TasksRight(s: Pool) {
    && s.pushed == s.popped + s.queue
    && forall x :: Count(s.popped, x) == Count(s.ran, x) + CountInHand(s.workers, x) + Count(s.dropped, x)
  }

  // Which stop is under way, and which flags it has set.
  predicate FlagsRight(s: Pool) {
    && (s.stopper.Idle? <==> !s.isDone && !s.isStop)
    && !(s.isDone && s.isStop)
    && (s.stopper.Flagging? || s.stopper.Clearing? ==> s.isStop)
    && (s.stopper.Flagging? ==> s.stopper.k <= |s.flags| && forall i :: 0 <= i < s.stopper.k ==> s.flags[i])
    && (!s.isStop ==> forall i :: 0 <= i < |s.flags| ==> !s.flags[i])
    && (s.isStop && !s.stopper.Flagging? ==> forall i :: 0 <= i < |s.flags| ==> s.flags[i])
  }

  // What a worker can still do once notify_all has been called.
  predicate WillExit(w: Worker, flag: bool) {
    !w.Blocked? && !w.PredFalse? && (w.PredFlag? ==> flag)
  }

  predicate ExitsRight(s: Pool) {
    && |s.flags| == |s.workers|
    && (AfterNotifyAll(s.stopper) ==> forall i :: 0 <= i < |s.workers| ==> WillExit(s.workers[i], s.flags[i]))
    && (s.stopper.Joining? ==> s.stopper.k <= |s.workers| && forall i :: 0 <= i < s.stopper.k ==> s.workers[i].Exited?)
    && (s.stopper.LastClearing? || s.stopper.Finished? ==> forall i :: 0 <= i < |s.workers| ==> s.workers[i].Exited?)
    && (s.stopper.Idle? ==> forall i :: 0 <= i < |s.workers| ==> !s.workers[i].Exited? && !s.workers[i].LeavingEmpty?)
  }

  // No wakeup is lost: with a task queued and a worker blocked, someone will notify or look.
  predicate WakeupsRight(s: Pool) {
    && (forall i :: 0 <= i < |s.workers| && FoundEmpty(s.workers[i]) && |s.queue| > 0 ==> s.pushers > 0)
    && (|s.queue| > 0 && SomeBlocked(s.workers) ==>
        PusherPending(s) || SomeActive(s.workers) || BeforeNotifyAll(s.stopper))
  }

  // Before a stop nothing is deleted and nothing is late; stop(true) does not take the branch
  // that clears the queue at once.
  predicate DrainRight(s: Pool) {
    && (s.stopper.Idle? ==> s.dropped == [] && !s.latePush)
    && (s.isDone ==> !s.stopper.Flagging? && !s.stopper.Clearing?)
  }

  ghost predicate Inv(s: Pool) {
    MutexRight(s) && TasksRight(s) && FlagsRight(s) && ExitsRight(s) && WakeupsRight(s) && DrainRight(s)
  }
}
