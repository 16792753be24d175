// Every run of the thread pool: tasks are neither lost nor run twice, no wakeup is lost,
// and a stop always comes to its end, after running everything when it should.

module ThreadPoolProof {
  import opened ThreadPool

  // ---- one worker changes ----

  lemma {:induction false} UpdateCount(workers: seq<Worker>, i: nat, w: Worker)
    requires i < |workers|
    ensures CountWaiting(workers[i := w])
      == CountWaiting(workers) - (if Waiting(workers[i]) then 1 else 0) + (if Waiting(w) then 1 else 0)
  {
    if i == 0 {
      assert workers[i := w][1..] == workers[1..];
    } else {
      assert workers[i := w][1..] == workers[1..][i - 1 := w];
      UpdateCount(workers[1..], i - 1, w);
    }
  }

  lemma {:induction false} UpdateInHand(workers: seq<Worker>, i: nat, w: Worker, x: Task)
    requires i < |workers|
    ensures CountInHand(workers[i := w], x) == CountInHand(workers, x) - InHand(workers[i], x) + InHand(w, x)
  {
    if i == 0 {
      assert workers[i := w][1..] == workers[1..];
    } else {
      assert workers[i := w][1..] == workers[1..][i - 1 := w];
      UpdateInHand(workers[1..], i - 1, w, x);
    }
  }

  lemma CountAppend(s: seq<Task>, y: Task, x: Task)
    ensures Count(s + [y], x) == Count(s, x) + if x == y then 1 else 0
  {
    assert multiset(s + [y]) == multiset(s) + multiset{y};
  }

  lemma {:induction false} WakeAllCounts(workers: seq<Worker>)
    ensures CountWaiting(WakeAll(workers)) == CountWaiting(workers)
    ensures forall x :: CountInHand(WakeAll(workers), x) == CountInHand(workers, x)
  {
    if |workers| > 0 {
      assert WakeAll(workers)[1..] == WakeAll(workers[1..]);
      WakeAllCounts(workers[1..]);
    }
  }

  // ---- worker steps ----

  // A worker step changes one worker, and nothing of what the stopper keeps.
  predicate MovesOne(s: Pool, t: Pool, i: nat) {
    && i < |s.workers| == |t.workers| && t.workers == s.workers[i := t.workers[i]]
    && t.flags == s.flags && t.isDone == s.isDone && t.isStop == s.isStop && t.stopper == s.stopper
    && t.pushers == s.pushers && t.latePush == s.latePush && t.dropped == s.dropped && t.pushed == s.pushed
    && (t.queue == s.queue || (|s.queue| > 0 && t.queue == s.queue[1..]))
  }

  // It takes or gives back the mutex for that worker only.
  predicate MovesMutex(s: Pool, t: Pool, i: nat) {
    || t.mutex == s.mutex
    || (s.mutex.Free? && t.mutex == ByWorker(i))
    || (s.mutex == ByWorker(i) && t.mutex.Free?)
  }

  predicate Moves(s: Pool, t: Pool, i: nat) {
    MovesOne(s, t, i) && MovesMutex(s, t, i)
  }

  lemma WorkMovesOne(s: Pool, i: nat)
    requires Enabled(s, Work(i))
    ensures MovesOne(s, WorkerStep(s, i), i)
  {
    var v := Next(s.workers[i], s.queue, s.isDone, s.flags[i]);
    assert s.workers[i := v][i] == v;
    assert WorkerStep(s, i).workers == s.workers[i := v];
    assert PopsNow(s, s.workers[i]) ==> WorkerStep(s, i) == Pop(s.(workers := s.workers[i := v]));
  }

  lemma WorkMoves(s: Pool, i: nat)
    requires MutexRight(s) && Enabled(s, Work(i))
    ensures Moves(s, WorkerStep(s, i), i)
  {
    assert HoldsMutex(s.workers[i]) <==> s.mutex == ByWorker(i);
    WorkMovesOne(s, i);
  }

  lemma WorkMovesMutex(s: Pool, i: nat)
    requires MutexRight(s) && Enabled(s, Work(i))
    ensures HoldsMutex(WorkerStep(s, i).workers[i]) <==> WorkerStep(s, i).mutex == ByWorker(i)
  {
    assert HoldsMutex(s.workers[i]) <==> s.mutex == ByWorker(i);
  }

  lemma WorkCountsWaiting(s: Pool, i: nat)
    requires Enabled(s, Work(i))
    ensures WorkerStep(s, i).nWaiting
      == s.nWaiting - (if Waiting(s.workers[i]) then 1 else 0) + (if Waiting(WorkerStep(s, i).workers[i]) then 1 else 0)
  {
  }

  lemma MoveKeepsMutex(s: Pool, t: Pool, i: nat)
    requires MutexRight(s) && Moves(s, t, i)
    requires HoldsMutex(t.workers[i]) <==> t.mutex == ByWorker(i)
    requires t.nWaiting ==
      s.nWaiting - (if Waiting(s.workers[i]) then 1 else 0) + (if Waiting(t.workers[i]) then 1 else 0)
    ensures MutexRight(t)
  {
    UpdateCount(s.workers, i, t.workers[i]);
  }

  lemma PopKeepsOrder(s: Pool, x: Task)
    requires |s.queue| > 0
    ensures Pop(s).popped + Pop(s).queue == s.popped + s.queue
    ensures Count(Pop(s).popped, x) == Count(s.popped, x) + if s.queue[0] == x then 1 else 0
  {
    assert s.queue == [s.queue[0]] + s.queue[1..];
    CountAppend(s.popped, s.queue[0], x);
  }

  // How a worker step moves tasks between the queue, the hands of workers and the tasks run.
  lemma NextInHand(w: Worker, queue: seq<Task>, isDone: bool, flag: bool, x: Task)
    requires !w.Blocked? && !w.Exited?
    ensures InHand(Next(w, queue, isDone, flag), x) == InHand(w, x)
      + (if (w.Popping? || w.PredPop?) && |queue| > 0 && queue[0] == x then 1 else 0)
      - (if w.Running? && w.task == x then 1 else 0)
  {
  }

  lemma WorkMovesTasks(s: Pool, i: nat)
    requires Enabled(s, Work(i))
    ensures var t, w := WorkerStep(s, i), s.workers[i];
      && t.workers == s.workers[i := Next(w, s.queue, s.isDone, s.flags[i])]
      && t.pushed == s.pushed && t.dropped == s.dropped
      && (if PopsNow(s, w) then t.popped == s.popped + [s.queue[0]] && t.queue == s.queue[1..]
          else t.popped == s.popped && t.queue == s.queue)
      && t.ran == (if w.Running? then s.ran + [w.task] else s.ran)
  {
  }

  lemma WorkKeepsTask(s: Pool, i: nat, x: Task)
    requires TasksRight(s) && Enabled(s, Work(i))
    ensures var t := WorkerStep(s, i);
      && t.pushed == t.popped + t.queue
      && Count(t.popped, x) == Count(t.ran, x) + CountInHand(t.workers, x) + Count(t.dropped, x)
  {
    var t := WorkerStep(s, i);
    var w := s.workers[i];
    WorkMovesTasks(s, i);
    NextInHand(w, s.queue, s.isDone, s.flags[i], x);
    UpdateInHand(s.workers, i, t.workers[i], x);
    if PopsNow(s, w) {
      PopKeepsOrder(s, x);
    } else if w.Running? {
      CountAppend(s.ran, w.task, x);
    }
  }

  lemma WorkKeepsTasks(s: Pool, i: nat)
    requires TasksRight(s) && Enabled(s, Work(i))
    ensures TasksRight(WorkerStep(s, i))
  {
    forall x
      ensures var t := WorkerStep(s, i);
        Count(t.popped, x) == Count(t.ran, x) + CountInHand(t.workers, x) + Count(t.dropped, x)
    {
      WorkKeepsTask(s, i, x);
    }
    WorkKeepsTask(s, i, 0);
  }

  lemma NextExits(w: Worker, queue: seq<Task>, isDone: bool, flag: bool)
    requires !w.Blocked? && !w.Exited?
    ensures WillExit(w, flag) && (isDone || flag) ==> WillExit(Next(w, queue, isDone, flag), flag)
    ensures !isDone && !flag && !w.LeavingEmpty? ==>
      !Next(w, queue, isDone, flag).Exited? && !Next(w, queue, isDone, flag).LeavingEmpty?
  {
  }

  lemma WorkKeepsExits(s: Pool, i: nat)
    requires ExitsRight(s) && FlagsRight(s) && MutexRight(s) && Enabled(s, Work(i))
    ensures ExitsRight(WorkerStep(s, i))
  {
    WorkMoves(s, i);
    WorkMovesTasks(s, i);
    NextExits(s.workers[i], s.queue, s.isDone, s.flags[i]);
    MoveKeepsExits(s, WorkerStep(s, i), i);
  }

  lemma MoveKeepsExits(s: Pool, t: Pool, i: nat)
    requires ExitsRight(s) && FlagsRight(s) && Moves(s, t, i)
    requires !s.workers[i].Exited?
    requires WillExit(s.workers[i], s.flags[i]) && (s.isDone || s.flags[i]) ==> WillExit(t.workers[i], s.flags[i])
    requires !s.isDone && !s.flags[i] && !s.workers[i].LeavingEmpty? ==>
      !t.workers[i].Exited? && !t.workers[i].LeavingEmpty?
    ensures ExitsRight(t)
  {
  }

  // What a worker step can do to the balance of wakeups.
  predicate KeepsWatch(s: Pool, w: Worker, w': Worker, flag: bool, popFailed: bool) {
    && (Active(w) && !Active(w') ==> popFailed || (w.CheckFlag? && flag))
    && (FoundEmpty(w') && !FoundEmpty(w) ==> popFailed)
    && (w'.Blocked? ==> FoundEmpty(w))
  }

  lemma WorkKeepsWatch(s: Pool, i: nat)
    requires Enabled(s, Work(i))
    ensures KeepsWatch(s, s.workers[i], WorkerStep(s, i).workers[i], s.flags[i], s.queue == [])
  {
  }

  lemma MoveKeepsWakeups(s: Pool, t: Pool, i: nat)
    requires MutexRight(s) && FlagsRight(s) && ExitsRight(s) && WakeupsRight(s) && Moves(s, t, i)
    requires KeepsWatch(s, s.workers[i], t.workers[i], s.flags[i], s.queue == [])
    ensures WakeupsRight(t)
  {
    if |t.queue| > 0 && SomeBlocked(t.workers) && !BeforeNotifyAll(t.stopper) && t.pushers == 0 {
      var b :| 0 <= b < |t.workers| && t.workers[b].Blocked?;
      assert b != i;
      assert s.workers[b].Blocked?;
      assert AfterNotifyAll(s.stopper) ==> WillExit(s.workers[b], s.flags[b]);
      assert s.stopper.Idle?;
      if SomeActive(s.workers) {
        var k :| 0 <= k < |s.workers| && Active(s.workers[k]);
        assert Active(t.workers[k]);
      }
    }
  }

  lemma WorkKeepsDrain(s: Pool, i: nat)
    requires FlagsRight(s) && MutexRight(s) && WakeupsRight(s) && DrainRight(s) && Enabled(s, Work(i))
    ensures DrainRight(WorkerStep(s, i))
  {
    WorkMoves(s, i);
  }

  lemma WorkKeepsInv(s: Pool, i: nat)
    requires Inv(s) && Enabled(s, Work(i))
    ensures Inv(WorkerStep(s, i))
  {
    WorkMoves(s, i);
    WorkMovesMutex(s, i);
    WorkCountsWaiting(s, i);
    MoveKeepsMutex(s, WorkerStep(s, i), i);
    WorkKeepsTasks(s, i);
    WorkKeepsExits(s, i);
    WorkKeepsWatch(s, i);
    MoveKeepsWakeups(s, WorkerStep(s, i), i);
    WorkKeepsDrain(s, i);
  }

  // ---- a blocked worker wakes ----

  lemma WakeKeepsInv(s: Pool, i: nat)
    requires Inv(s) && i < |s.workers| && s.workers[i].Blocked?
    ensures Inv(At(s, i, Woken))
  {
    var t := At(s, i, Woken);
    UpdateCount(s.workers, i, Woken);
    forall x
      ensures CountInHand(t.workers, x) == CountInHand(s.workers, x)
    {
      UpdateInHand(s.workers, i, Woken, x);
    }
    assert Active(t.workers[i]);
  }

  // ---- pushers ----

  lemma PushKeepsInv(s: Pool, task: Task)
    requires Inv(s)
    ensures Inv(Do(s, Push(task)))
  {
    assert s.popped + (s.queue + [task]) == (s.popped + s.queue) + [task];
  }

  lemma NotifyKeepsInv(s: Pool, i: nat)
    requires Inv(s) && Enabled(s, PusherNotify(i))
    ensures Inv(Do(s, PusherNotify(i)))
  {
    var t := Do(s, PusherNotify(i));
    if SomeBlocked(s.workers) {
      WakeKeepsInv(s, i);
      assert Active(t.workers[i]);
    }
  }

  // ---- the stopper ----

  lemma ClearKeepsInv(s: Pool)
    requires Inv(s) && (s.stopper.Clearing? || s.stopper.LastClearing?)
    ensures Inv(StopStep(s))
  {
    var t := StopStep(s);
    if |s.queue| > 0 {
      forall x
        ensures Count(t.popped, x) == Count(t.ran, x) + CountInHand(t.workers, x) + Count(t.dropped, x)
      {
        PopKeepsOrder(s, x);
        CountAppend(s.dropped, s.queue[0], x);
      }
      PopKeepsOrder(s, 0);
    }
  }

  lemma NotifyAllKeepsInv(s: Pool)
    requires Inv(s) && s.stopper.Holding?
    ensures Inv(StopStep(s))
  {
    WakeAllCounts(s.workers);
    var t := StopStep(s);
    forall i | 0 <= i < |t.workers|
      ensures WillExit(t.workers[i], t.flags[i])
      ensures HoldsMutex(t.workers[i]) <==> t.mutex == ByWorker(i)
    {
      assert !HoldsMutex(s.workers[i]);
    }
  }

  lemma FlagKeepsInv(s: Pool)
    requires Inv(s) && s.stopper.Flagging?
    ensures Inv(StopStep(s))
  {
  }

  lemma JoinKeepsInv(s: Pool)
    requires Inv(s) && s.stopper.Joining? && Enabled(s, StopperStep)
    ensures Inv(StopStep(s))
  {
  }

  lemma StopperKeepsInv(s: Pool)
    requires Inv(s) && Enabled(s, StopperStep)
    ensures Inv(StopStep(s))
  {
    match s.stopper
    case Flagging(_) => FlagKeepsInv(s);
    case Joining(_) => JoinKeepsInv(s);
    case Holding => NotifyAllKeepsInv(s);
    case NeedLock =>
    case _ => ClearKeepsInv(s);
  }

  lemma StopKeepsInv(s: Pool, wait: bool)
    requires Inv(s) && Enabled(s, Stop(wait))
    ensures Inv(Do(s, Stop(wait)))
  {
  }

  lemma StepKeepsInv(s: Pool, a: Action)
    requires Inv(s) && Enabled(s, a)
    ensures Inv(Do(s, a)) && |Do(s, a).workers| == |s.workers|
  {
    match a
    case Work(i) => WorkKeepsInv(s, i);
    case Spurious(i) => WakeKeepsInv(s, i);
    case Push(task) => PushKeepsInv(s, task);
    case PusherLock => LockKeepsInv(s);
    case PusherNotify(i) => NotifyKeepsInv(s, i);
    case Stop(wait) => StopKeepsInv(s, wait);
    case StopperStep => StopperKeepsInv(s);
  }

  lemma LockKeepsInv(s: Pool)
    requires Inv(s) && Enabled(s, PusherLock)
    ensures Inv(Do(s, PusherLock))
  {
  }

  lemma {:induction false} StartCounts(n: nat)
    ensures CountWaiting(Start(n).workers) == 0
    ensures forall x :: CountInHand(Start(n).workers, x) == 0
  {
    if n > 0 {
      assert Start(n).workers[1..] == Start(n - 1).workers;
      StartCounts(n - 1);
    }
  }

  lemma {:induction false} EveryRunKeepsInv(n: nat, acts: seq<Action>)
    ensures Inv(After(n, acts)) && |After(n, acts).workers| == n
  {
    if |acts| == 0 {
      StartCounts(n);
    } else {
      EveryRunKeepsInv(n, acts[..|acts| - 1]);
      var s, a := After(n, acts[..|acts| - 1]), acts[|acts| - 1];
      if Enabled(s, a) {
        StepKeepsInv(s, a);
        assert After(n, acts) == Do(s, a);
      } else {
        assert After(n, acts) == s;
      }
    }
  }
}
