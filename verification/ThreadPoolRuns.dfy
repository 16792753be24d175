// What the invariant gives for whole runs of the thread pool.

module ThreadPoolRuns {
  import opened ThreadPool
  import opened ThreadPoolProof

  // ---- safety ----

  lemma CountConcat(s: seq<Task>, t: seq<Task>, x: Task)
    ensures Count(s + t, x) == Count(s, x) + Count(t, x)
  {
    assert multiset(s + t) == multiset(s) + multiset(t);
  }

  // In every run tasks leave the queue in the order they were pushed, each once; a pushed
  // task is queued, in the hands of one worker, run or deleted, never two of these.
  lemma EveryTaskOnce(n: nat, acts: seq<Action>, x: Task)
    ensures var s := After(n, acts);
      && s.pushed == s.popped + s.queue
      && Count(s.pushed, x) == Count(s.ran, x) + CountInHand(s.workers, x) + Count(s.dropped, x) + Count(s.queue, x)
  {
    EveryRunKeepsInv(n, acts);
    var s := After(n, acts);
    CountConcat(s.popped, s.queue, x);
  }

  // No wakeup is lost: a task is never left queued with every worker blocked and nobody on
  // the way to notify them.
  lemma NoLostWakeup(n: nat, acts: seq<Action>)
    requires n > 0
    requires var s := After(n, acts);
      |s.queue| > 0 && forall i :: 0 <= i < |s.workers| ==> s.workers[i].Blocked?
    ensures PusherPending(After(n, acts)) || BeforeNotifyAll(After(n, acts).stopper)
  {
    EveryRunKeepsInv(n, acts);
    var s := After(n, acts);
    assert s.workers[0].Blocked?;
  }

  // n_idle counts the workers inside the wait.
  lemma IdleCountIsRight(n: nat, acts: seq<Action>)
    ensures After(n, acts).nWaiting == CountWaiting(After(n, acts).workers)
  {
    EveryRunKeepsInv(n, acts);
  }

  lemma {:induction false} NothingInHand(workers: seq<Worker>, x: Task)
    requires forall i :: 0 <= i < |workers| ==> !workers[i].Running? && !workers[i].Leaving?
    ensures CountInHand(workers, x) == 0
  {
    if |workers| > 0 {
      assert !workers[0].Running? && !workers[0].Leaving?;
      forall i | 0 <= i < |workers[1..]|
        ensures !workers[1..][i].Running? && !workers[1..][i].Leaving?
      {
        assert workers[1..][i] == workers[i + 1];
      }
      NothingInHand(workers[1..], x);
    }
  }

  // Every task that was pushed has been run, none is left and none was deleted.
  ghost predicate AllRan(s: Pool) {
    s.queue == [] && s.dropped == [] && multiset(s.ran) == multiset(s.pushed)
  }

  lemma EmptyHandsMeanRan(s: Pool)
    requires TasksRight(s) && s.queue == [] && s.dropped == []
    requires forall i :: 0 <= i < |s.workers| ==> !s.workers[i].Running? && !s.workers[i].Leaving?
    ensures AllRan(s)
  {
    forall x
      ensures multiset(s.ran)[x] == multiset(s.pushed)[x]
    {
      NothingInHand(s.workers, x);
      assert Count(s.popped, x) == Count(s.ran, x);
      assert s.pushed == s.popped;
    }
  }

  lemma AfterMore(n: nat, acts: seq<Action>, a: Action)
    ensures After(n, acts + [a]) == if Enabled(After(n, acts), a) then Do(After(n, acts), a) else After(n, acts)
  {
    assert (acts + [a])[..|acts|] == acts;
  }

  // ---- what stop(true) runs ----

  // The worker will not look at the queue again once isDone is set.
  predicate GivesUp(w: Worker) {
    w.PredDone? || w.LeavingEmpty? || w.Exited?
  }

  // Between its failed pop and its read of isDone, a worker does not see a task queued since.
  predicate MissesTask(s: Pool, k: nat) {
    k < |s.workers| && s.workers[k].PredDone? && s.queue != []
  }

  predicate OneOther(n: nat, k: nat) {
    n > if k == 0 then 1 else 0
  }

  // After stop(true): a worker other than k gives up only when the queue is empty.
  predicate Drains(s: Pool, k: nat) {
    && s.isDone && (forall i :: 0 <= i < |s.workers| && i != k && GivesUp(s.workers[i]) ==> s.queue == [])
    && (OneOther(|s.workers|, k) ==> s.dropped == [])
  }

  // The only worker gave up with a task queued.
  predicate GaveUpEarly(s: Pool) {
    s.isDone && |s.workers| == 1 && GivesUp(s.workers[0]) && (s.queue != [] || s.dropped != [])
  }

  lemma NextGivesUp(w: Worker, queue: seq<Task>, flag: bool)
    requires !w.Blocked? && !w.Exited? && !flag
    ensures GivesUp(Next(w, queue, true, flag)) ==> GivesUp(w) || (w.PredPop? && queue == [])
    ensures GivesUp(w) ==> GivesUp(Next(w, queue, true, flag))
  {
  }

  lemma StopIsSet(s: Pool, a: Action)
    requires Inv(s) && s.isDone && Enabled(s, a)
    ensures Do(s, a).isDone && |Do(s, a).workers| == |s.workers|
    ensures Do(s, a).latePush <==> s.latePush || a.Push?
  {
    if a.Work? {
      WorkMoves(s, a.i);
    }
  }

  lemma WorkDrains(s: Pool, i: nat, k: nat)
    requires Inv(s) && Drains(s, k) && Enabled(s, Work(i))
    ensures Drains(WorkerStep(s, i), k)
  {
    WorkMoves(s, i);
    WorkMovesTasks(s, i);
    NextGivesUp(s.workers[i], s.queue, s.flags[i]);
  }

  lemma StopperDrains(s: Pool, k: nat)
    requires Inv(s) && Drains(s, k) && Enabled(s, StopperStep)
    ensures Drains(StopStep(s), k)
  {
    if OneOther(|s.workers|, k) {
      var i: nat := if k == 0 then 1 else 0;
      assert s.stopper.LastClearing? ==> s.workers[i].Exited? && GivesUp(s.workers[i]);
    }
  }

  lemma StepDrains(s: Pool, a: Action, k: nat)
    requires Inv(s) && Drains(s, k) && Enabled(s, a) && !a.Push?
    ensures Drains(Do(s, a), k)
  {
    match a
    case Work(i) => WorkDrains(s, i, k);
    case StopperStep => StopperDrains(s, k);
    case _ =>
  }

  lemma StepStaysUp(s: Pool, a: Action)
    requires Inv(s) && GaveUpEarly(s) && Enabled(s, a) && !a.Push?
    ensures GaveUpEarly(Do(s, a))
  {
    if a.Work? {
      WorkMoves(s, a.i);
      WorkMovesTasks(s, a.i);
      NextGivesUp(s.workers[a.i], s.queue, s.flags[a.i]);
    }
  }

  predicate HoldsOn(s: Pool, t: Pool, k: nat) {
    && (s.isDone ==> t.isDone)
    && (s.isDone && Drains(s, k) ==> Drains(t, k))
    && (s.isDone && GaveUpEarly(s) ==> GaveUpEarly(t))
  }

  lemma StepHoldsOn(s: Pool, a: Action, k: nat)
    requires Inv(s) && Enabled(s, a) && s.isDone && !Do(s, a).latePush
    ensures HoldsOn(s, Do(s, a), k)
  {
    StopIsSet(s, a);
    if Drains(s, k) {
      StepDrains(s, a, k);
    }
    if GaveUpEarly(s) {
      StepStaysUp(s, a);
    }
  }

  // Both hold on through any run without a later push.
  lemma {:induction false} DrainsOn(n: nat, before: seq<Action>, rest: seq<Action>, k: nat)
    requires After(n, before).isDone && !After(n, before + rest).latePush
    ensures HoldsOn(After(n, before), After(n, before + rest), k)
    decreases |rest|
  {
    if |rest| == 0 {
      assert before + rest == before;
    } else {
      var m, a := |rest| - 1, rest[|rest| - 1];
      var most := before + rest[..m];
      assert before + rest == most + [a];
      EveryRunKeepsInv(n, most);
      AfterMore(n, most, a);
      LateStays(n, most, a);
      DrainsOn(n, before, rest[..m], k);
      if Enabled(After(n, most), a) {
        StepHoldsOn(After(n, most), a, k);
      }
    }
  }

  lemma LateStays(n: nat, before: seq<Action>, a: Action)
    ensures After(n, before).latePush ==> After(n, before + [a]).latePush
  {
    AfterMore(n, before, a);
    var s := After(n, before);
    if Enabled(s, a) && a.Work? {
      EveryRunKeepsInv(n, before);
      WorkMoves(s, a.i);
    }
  }

  // The worker that can give up early at the stop: it holds the mutex.
  lemma OnlyHolderMisses(s: Pool) returns (k: nat)
    requires Inv(s) && s.stopper.Idle?
    ensures Drains(Do(s, Stop(true)), k)
    ensures MissesTask(s, k) || k == |s.workers|
  {
    k := |s.workers|;
    if i :| 0 <= i < |s.workers| && MissesTask(s, i) {
      k := i;
      assert s.mutex == ByWorker(k);
    }
    forall j: nat | j < |s.workers|
      ensures GivesUp(s.workers[j]) && s.queue != [] ==> MissesTask(s, j) && s.mutex == ByWorker(j)
    {
      assert HoldsMutex(s.workers[j]) <==> s.mutex == ByWorker(j);
    }
  }

  // When the joins of stop(true) have returned, with at least one worker and no push after the
  // call, every pushed task has been run and none was deleted: with two workers or more
  // whatever was under way at the call, with one worker if and only if it was not between its
  // failed pop and its read of isDone with a task queued.
  lemma StopRunsEverything(n: nat, before: seq<Action>, rest: seq<Action>)
    requires n > 0 && After(n, before).stopper.Idle?
    requires var s := After(n, before + [Stop(true)] + rest);
      !s.latePush && (s.stopper.LastClearing? || s.stopper.Finished?)
    ensures AllRan(After(n, before + [Stop(true)] + rest)) <==> n >= 2 || !MissesTask(After(n, before), 0)
  {
    var s, stopped := After(n, before), before + [Stop(true)];
    var t := After(n, stopped + rest);
    EveryRunKeepsInv(n, before);
    EveryRunKeepsInv(n, stopped + rest);
    AfterMore(n, before, Stop(true));
    var k := OnlyHolderMisses(s);
    DrainsOn(n, stopped, rest, k);
    if n >= 2 || !MissesTask(s, 0) {
      var i: nat := if k == 0 then 1 else 0;
      assert t.workers[i].Exited? && GivesUp(t.workers[i]) && i != k;
      EmptyHandsMeanRan(t);
    } else {
      assert GaveUpEarly(After(n, stopped));
    }
  }

  // A push that is not under way at the call is never missed.
  lemma NoPushUnderWay(n: nat, before: seq<Action>, k: nat)
    requires After(n, before).pushers == 0
    ensures !MissesTask(After(n, before), k)
  {
    EveryRunKeepsInv(n, before);
    var s := After(n, before);
    assert k < n && s.queue != [] && FoundEmpty(s.workers[k]) ==> s.pushers > 0;
  }

  // The hypotheses are needed. First the one on pushes: with any number of workers a task
  // pushed after the call can come when all have found the queue empty and left; it is
  // deleted unrun.
  lemma LatePushCanBeDropped(n: nat)
    ensures exists acts :: var s := After(n, acts);
      s.isDone && s.latePush && s.stopper.Finished? && s.ran == [] && s.dropped == [7] && s.pushed == [7]
  {
    var acts := WorkersLeave(n, n);
    acts := acts + [Push(7)];
    AfterMore(n, acts[..|acts| - 1], Push(7));
    assert acts[..|acts| - 1] + [Push(7)] == acts;
    assert After(n, acts) == Left(n, Swept(n, n), 1, NeedLock, true);
    acts := JoinsReturn(n, acts, 1, true);
    acts := TaskIsDeleted(n, acts, 1, true);
  }

  // Then the one on workers: without any, a task pushed and announced before the stop is
  // deleted as well.
  lemma NoWorkersDropTask()
    ensures exists acts :: var s := After(0, acts);
      s.isDone && !s.latePush && s.stopper.Finished? && s.ran == [] && s.dropped == [7] && s.pushed == [7]
  {
    var acts := [Push(7)];
    AfterMore(0, [], Push(7));
    assert [] + [Push(7)] == acts;
    acts := PushAnnounced(acts);
    AfterMore(0, acts, Stop(true));
    acts := acts + [Stop(true)];
    assert After(0, acts) == Left(0, Swept(0, 0), 0, NeedLock, false);
    acts := JoinsReturn(0, acts, 0, false);
    acts := TaskIsDeleted(0, acts, 0, false);
  }

  lemma {:induction false} NoWorkersRunNothing(acts: seq<Action>)
    ensures After(0, acts).ran == []
  {
    if |acts| > 0 {
      var before, a := acts[..|acts| - 1], acts[|acts| - 1];
      NoWorkersRunNothing(before);
      EveryRunKeepsInv(0, before);
      assert a.Work? ==> !Enabled(After(0, before), a);
    }
  }

  // The first k of n workers have left, the others have not started.
  function Swept(n: nat, k: nat): seq<Worker> {
    seq(n, i => if i < k then Exited else Popping)
  }

  function NoFlags(n: nat): seq<bool> {
    Start(n).flags
  }

  // stop(true) has been called on a pool without tasks; worker k is at w.
  function Leaves(n: nat, k: nat, w: Worker, nWaiting: int, mutex: Owner): Pool
    requires k < n
  {
    Pool(Swept(n, k)[k := w], NoFlags(n), [], true, false, nWaiting, mutex, 0, NeedLock, [], [], [], [], false)
  }

  function Left(n: nat, workers: seq<Worker>, pushers: nat, stopper: Stopper, late: bool): Pool {
    Pool(workers, NoFlags(n), [7], true, false, 0, Free, pushers, stopper, [7], [], [], [], late)
  }

  lemma {:induction false} WorkersLeave(n: nat, k: nat) returns (acts: seq<Action>)
    requires k <= n
    ensures After(n, acts)
      == Pool(Swept(n, k), NoFlags(n), [], true, false, 0, Free, 0, NeedLock, [], [], [], [], false)
  {
    if k == 0 {
      AfterMore(n, [], Stop(true));
      acts := [Stop(true)];
      assert [] + [Stop(true)] == acts;
      assert Start(n).workers == Swept(n, 0);
    } else {
      acts := WorkersLeave(n, k - 1);
      assert Swept(n, k - 1)[k - 1 := Popping] == Swept(n, k - 1);
      acts := OneLeaves(n, k - 1, acts);
      assert Swept(n, k - 1)[k - 1 := Exited] == Swept(n, k);
    }
  }

  lemma OneLeaves(n: nat, k: nat, before: seq<Action>) returns (acts: seq<Action>)
    requires k < n && After(n, before) == Leaves(n, k, Popping, 0, Free)
    ensures After(n, acts) == Leaves(n, k, Exited, 0, Free)
  {
    acts := LeaveStep(n, k, before, Popping, WantLock, 0, Free, 0, Free);
    acts := LeaveStep(n, k, acts, WantLock, PredPop, 0, Free, 1, ByWorker(k));
    acts := LeaveStep(n, k, acts, PredPop, PredDone, 1, ByWorker(k), 1, ByWorker(k));
    acts := LeaveStep(n, k, acts, PredDone, LeavingEmpty, 1, ByWorker(k), 1, ByWorker(k));
    acts := LeaveStep(n, k, acts, LeavingEmpty, Exited, 1, ByWorker(k), 0, Free);
  }

  lemma LeaveStep(n: nat, k: nat, before: seq<Action>, w: Worker, w': Worker,
                  nWaiting: int, mutex: Owner, nWaiting': int, mutex': Owner) returns (acts: seq<Action>)
    requires k < n && After(n, before) == Leaves(n, k, w, nWaiting, mutex)
    requires Enabled(Leaves(n, k, w, nWaiting, mutex), Work(k)) && w' == Next(w, [], true, false)
    requires !w.Running? && !w.Leaving?
    requires mutex' == (if w.WantLock? then ByWorker(k) else if w.LeavingEmpty? then Free else mutex)
    requires nWaiting' == nWaiting + if w.WantLock? then 1 else if w.LeavingEmpty? then -1 else 0
    requires !w.Woken? && !w.PredFalse?
    ensures After(n, acts) == Leaves(n, k, w', nWaiting', mutex')
  {
    AfterMore(n, before, Work(k));
    acts := before + [Work(k)];
    assert Swept(n, k)[k := w][k := w'] == Swept(n, k)[k := w'];
  }

  // The actions bring the stopper to its join of worker k.
  predicate Joined(n: nat, acts: seq<Action>, k: nat, pushers: nat, late: bool) {
    After(n, acts) == Left(n, Swept(n, n), pushers, Joining(k), late)
  }

  // The stopper takes the mutex and wakes nobody.
  lemma WakesNobody(n: nat, before: seq<Action>, pushers: nat, late: bool) returns (acts: seq<Action>)
    requires After(n, before) == Left(n, Swept(n, n), pushers, NeedLock, late)
    ensures Joined(n, acts, 0, pushers, late)
  {
    var s := Left(n, Swept(n, n), pushers, NeedLock, late);
    AfterMore(n, before, StopperStep);
    acts := before + [StopperStep];
    assert After(n, acts) == s.(mutex := ByStopper, stopper := Holding);
    AfterMore(n, acts, StopperStep);
    acts := acts + [StopperStep];
    assert WakeAll(Swept(n, n)) == Swept(n, n);
  }

  lemma OneJoin(n: nat, k: nat, pushers: nat, late: bool)
    requires k < n
    ensures var s := Left(n, Swept(n, n), pushers, Joining(k), late);
      Enabled(s, StopperStep) && Do(s, StopperStep) == Left(n, Swept(n, n), pushers, Joining(k + 1), late)
  {
  }

  lemma NextJoin(n: nat, k: nat, before: seq<Action>, pushers: nat, late: bool)
    requires k < n && Joined(n, before, k, pushers, late)
    ensures Joined(n, before + [StopperStep], k + 1, pushers, late)
  {
    OneJoin(n, k, pushers, late);
    AfterMore(n, before, StopperStep);
  }

  // Its joins return one after the other.
  lemma JoinsReturn(n: nat, before: seq<Action>, pushers: nat, late: bool) returns (acts: seq<Action>)
    requires After(n, before) == Left(n, Swept(n, n), pushers, NeedLock, late)
    ensures Joined(n, acts, n, pushers, late)
  {
    acts := WakesNobody(n, before, pushers, late);
    for k := 0 to n
      invariant Joined(n, acts, k, pushers, late)
    {
      NextJoin(n, k, acts, pushers, late);
      acts := acts + [StopperStep];
    }
  }

  // The last clearing deletes the task that is left.
  lemma TaskIsDeleted(n: nat, before: seq<Action>, pushers: nat, late: bool) returns (acts: seq<Action>)
    requires Joined(n, before, n, pushers, late)
    ensures var s := After(n, acts);
      && s.isDone && s.latePush == late && s.stopper.Finished?
      && s.ran == [] && s.dropped == [7] && s.pushed == [7]
  {
    AfterMore(n, before, StopperStep);
    acts := before + [StopperStep];
    AfterMore(n, acts, StopperStep);
    acts := acts + [StopperStep];
    AfterMore(n, acts, StopperStep);
    acts := acts + [StopperStep];
  }

  lemma PushAnnounced(before: seq<Action>) returns (acts: seq<Action>)
    requires After(0, before) == Do(Start(0), Push(7))
    ensures After(0, acts) == Do(Start(0), Push(7)).(pushers := 0)
  {
    AfterMore(0, before, PusherLock);
    acts := before + [PusherLock];
    AfterMore(0, acts, PusherNotify(0));
    acts := acts + [PusherNotify(0)];
  }

  // And with one worker a push that was under way at the call can be lost: it came between
  // the failed pop of the worker and its read of isDone, and has not notified yet.
  lemma PushUnderWayCanBeDropped()
    ensures exists acts :: var s := After(1, acts);
      s.isDone && !s.latePush && s.stopper.Finished? && s.ran == [] && s.dropped == [7] && s.pushed == [7]
  {
    var acts := WorkerFindsNothing();
    acts := WorkerMissesPush(acts);
    acts := WorkerExits(acts);
    acts := JoinsReturn(1, acts, 1, false);
    acts := TaskIsDeleted(1, acts, 1, false);
  }

  // One worker on an empty pool.
  function Alone(w: Worker, nWaiting: int, mutex: Owner): Pool {
    Pool([w], [false], [], false, false, nWaiting, mutex, 0, Idle, [], [], [], [], false)
  }

  lemma AloneStep(before: seq<Action>, w: Worker, nWaiting: int, mutex: Owner) returns (acts: seq<Action>)
    requires w.Popping? || w.WantLock? || w.PredPop?
    requires After(1, before) == Alone(w, nWaiting, mutex) && Enabled(Alone(w, nWaiting, mutex), Work(0))
    ensures After(1, acts) ==
      if w.WantLock? then Alone(PredPop, nWaiting + 1, ByWorker(0))
      else Alone(Next(w, [], false, false), nWaiting, mutex)
  {
    AfterMore(1, before, Work(0));
    acts := before + [Work(0)];
    assert [w][0 := Next(w, [], false, false)] == [Next(w, [], false, false)];
  }

  lemma WorkerFindsNothing() returns (acts: seq<Action>)
    ensures After(1, acts) == Alone(PredDone, 1, ByWorker(0))
  {
    acts := [];
    assert After(1, acts) == Alone(Popping, 0, Free);
    acts := AloneStep(acts, Popping, 0, Free);
    acts := AloneStep(acts, WantLock, 0, Free);
    acts := AloneStep(acts, PredPop, 1, ByWorker(0));
  }

  lemma WorkerMissesPush(before: seq<Action>) returns (acts: seq<Action>)
    requires After(1, before) == Alone(PredDone, 1, ByWorker(0))
    ensures After(1, acts)
      == Pool([PredDone], [false], [7], true, false, 1, ByWorker(0), 1, NeedLock, [7], [], [], [], false)
  {
    AfterMore(1, before, Push(7));
    acts := before + [Push(7)];
    AfterMore(1, acts, Stop(true));
    acts := acts + [Stop(true)];
  }

  lemma WorkerExits(before: seq<Action>) returns (acts: seq<Action>)
    requires After(1, before)
      == Pool([PredDone], [false], [7], true, false, 1, ByWorker(0), 1, NeedLock, [7], [], [], [], false)
    ensures After(1, acts) == Left(1, Swept(1, 1), 1, NeedLock, false)
  {
    AfterMore(1, before, Work(0));
    acts := before + [Work(0)];
    AfterMore(1, acts, Work(0));
    acts := acts + [Work(0)];
    assert Swept(1, 1) == [Exited] && NoFlags(1) == [false];
  }

  // ---- the pool does not get stuck ----

  // Steps the threads of the pool take by themselves.
  predicate Internal(a: Action) {
    a.Work? || a.PusherLock? || a.PusherNotify? || a.StopperStep?
  }

  // What the workers have been told: nothing for certain, to leave at once, or to leave when
  // the queue is empty.
  datatype Told = Nothing | ToStop | ToDrain

  predicate Heard(s: Pool, told: Told) {
    match told
    case Nothing => true
    case ToStop => forall i :: 0 <= i < |s.flags| ==> s.flags[i]
    case ToDrain => s.isDone
  }

  function WhatTold(s: Pool): Told {
    if s.isDone then ToDrain else if s.isStop && !s.stopper.Flagging? then ToStop else Nothing
  }

  // A worker that has been told blocks at most once more.
  function WorkerRank(w: Worker, told: Told): nat {
    match w
    case Exited => 0
    case Blocked => if told.Nothing? then 1 else 7
    case PredFalse => if told.Nothing? then 2 else 8
    case PredFlag => if told.ToDrain? then 9 else 3
    case LeavingEmpty => 2
    case PredDone => 4
    case PredPop => 5
    case WantLock => 6
    case Woken => 6
    case Popping => 7
    case CheckFlag => 8
    case Running(_) => 9
    case Leaving(_) => 10
  }

  function WorkerRanks(workers: seq<Worker>, told: Told): nat {
    if |workers| == 0 then 0 else WorkerRank(workers[0], told) + WorkerRanks(workers[1..], told)
  }

  function StopperRank(st: Stopper, n: nat): nat {
    match st
    case Finished => 0
    case LastClearing => 1
    case Joining(k) => 2 + (if k < n then n - k else 0)
    case Holding => 6 * n + 3
    case NeedLock => 6 * n + 4
    case Clearing => 6 * n + 5
    case Flagging(k) => 6 * n + 6 + (if k < n then n - k else 0)
    case Idle => 7 * n + 7
  }

  function Measure(s: Pool, told: Told): nat {
    WorkerRanks(s.workers, told) + 6 * |s.queue| + 8 * s.pushers + (if s.mutex.ByPusher? then 7 else 0)
      + StopperRank(s.stopper, |s.workers|)
  }

  lemma {:induction false} UpdateRanks(workers: seq<Worker>, i: nat, w: Worker, told: Told)
    requires i < |workers|
    ensures WorkerRanks(workers[i := w], told)
      == WorkerRanks(workers, told) - WorkerRank(workers[i], told) + WorkerRank(w, told)
  {
    if i == 0 {
      assert workers[i := w][1..] == workers[1..];
    } else {
      assert workers[i := w][1..] == workers[1..][i - 1 := w];
      UpdateRanks(workers[1..], i - 1, w, told);
    }
  }

  lemma {:induction false} WakeAllRanks(workers: seq<Worker>, told: Told)
    ensures WorkerRanks(WakeAll(workers), told) <= WorkerRanks(workers, told) + 5 * |workers|
  {
    if |workers| > 0 {
      assert WakeAll(workers)[1..] == WakeAll(workers[1..]);
      WakeAllRanks(workers[1..], told);
    }
  }

  lemma NextRank(w: Worker, queue: seq<Task>, isDone: bool, flag: bool, told: Told)
    requires !w.Blocked? && !w.Exited?
    requires (told.ToStop? ==> flag) && (told.ToDrain? ==> isDone)
    ensures WorkerRank(Next(w, queue, isDone, flag), told) < WorkerRank(w, told)
      + if (w.Popping? || w.PredPop?) && |queue| > 0 then 6 else 0
  {
  }

  lemma WorkDecreases(s: Pool, i: nat, told: Told)
    requires MutexRight(s) && Heard(s, told) && Enabled(s, Work(i))
    ensures Measure(WorkerStep(s, i), told) < Measure(s, told)
  {
    WorkMoves(s, i);
    WorkMovesTasks(s, i);
    NextRank(s.workers[i], s.queue, s.isDone, s.flags[i], told);
    UpdateRanks(s.workers, i, WorkerStep(s, i).workers[i], told);
  }

  lemma NotifyDecreases(s: Pool, i: nat, told: Told)
    requires Enabled(s, PusherNotify(i))
    ensures Measure(Do(s, PusherNotify(i)), told) < Measure(s, told)
  {
    if SomeBlocked(s.workers) {
      UpdateRanks(s.workers, i, Woken, told);
    }
  }

  lemma ClearDecreases(s: Pool, next: Stopper, told: Told)
    requires StopperRank(next, |s.workers|) < StopperRank(s.stopper, |s.workers|)
    ensures Measure(ClearStep(s, next), told) < Measure(s, told)
  {
    if |s.queue| == 0 {
      OnlyStopperMoves(s, next, told);
    }
  }

  lemma NotifyAllDecreases(s: Pool, told: Told)
    requires s.stopper.Holding? && Enabled(s, StopperStep)
    ensures Measure(StopStep(s), told) < Measure(s, told)
  {
    WakeAllRanks(s.workers, told);
  }

  lemma OnlyStopperMoves(s: Pool, next: Stopper, told: Told)
    requires StopperRank(next, |s.workers|) < StopperRank(s.stopper, |s.workers|)
    ensures Measure(s.(stopper := next), told) < Measure(s, told)
  {
  }

  lemma FlaggingDecreases(s: Pool, told: Told)
    requires s.stopper.Flagging? && |s.flags| == |s.workers| && Enabled(s, StopperStep)
    ensures Measure(StopStep(s), told) < Measure(s, told)
  {
    var k := s.stopper.k;
    var next := if k < |s.flags| then Flagging(k + 1) else Clearing;
    OnlyStopperMoves(s, next, told);
    assert k < |s.flags| ==> StopStep(s) == s.(stopper := next).(flags := s.flags[k := true]);
  }

  lemma LockingDecreases(s: Pool, told: Told)
    requires s.stopper.NeedLock? && Enabled(s, StopperStep)
    ensures Measure(StopStep(s), told) < Measure(s, told)
  {
    OnlyStopperMoves(s, Holding, told);
    assert StopStep(s) == s.(stopper := Holding).(mutex := ByStopper);
  }

  lemma JoiningDecreases(s: Pool, told: Told)
    requires s.stopper.Joining? && Enabled(s, StopperStep)
    ensures Measure(StopStep(s), told) < Measure(s, told)
  {
    OnlyStopperMoves(s, if s.stopper.k < |s.workers| then Joining(s.stopper.k + 1) else LastClearing, told);
  }

  lemma StopperDecreases(s: Pool, told: Told)
    requires Enabled(s, StopperStep) && |s.flags| == |s.workers|
    ensures Measure(StopStep(s), told) < Measure(s, told)
  {
    match s.stopper
    case Flagging(_) => FlaggingDecreases(s, told);
    case Clearing => ClearDecreases(s, NeedLock, told);
    case NeedLock => LockingDecreases(s, told);
    case Holding => NotifyAllDecreases(s, told);
    case Joining(_) => JoiningDecreases(s, told);
    case LastClearing => ClearDecreases(s, Finished, told);
  }

  // Every internal step, the blocking and waking of workers included, uses something up.
  lemma InternalStepsDecrease(s: Pool, a: Action, told: Told)
    requires MutexRight(s) && Heard(s, told) && Enabled(s, a) && Internal(a)
    ensures Measure(Do(s, a), told) < Measure(s, told)
  {
    match a
    case Work(i) => WorkDecreases(s, i, told);
    case PusherNotify(i) => NotifyDecreases(s, i, told);
    case StopperStep => StopperDecreases(s, told);
    case PusherLock =>
  }

  // A spurious wakeup costs five more steps, and none once the workers have been told.
  lemma SpuriousCost(s: Pool, i: nat, told: Told)
    requires Enabled(s, Spurious(i))
    ensures Measure(Do(s, Spurious(i)), told) == Measure(s, told) + if told.Nothing? then 5 else -1
  {
    UpdateRanks(s.workers, i, Woken, told);
  }

  lemma StillHeard(s: Pool, a: Action, told: Told)
    requires Inv(s) && Heard(s, told) && Enabled(s, a) && (Internal(a) || a.Spurious?)
    ensures Heard(Do(s, a), told)
    ensures Do(s, a).stopper.Idle? <==> s.stopper.Idle?
    ensures Do(s, a).pushed == s.pushed
  {
    if a.Work? {
      WorkMoves(s, a.i);
    }
  }

  // Some worker can step, or all are blocked or gone and the mutex is not in their hands.
  lemma SomeoneMoves(s: Pool) returns (a: Action)
    requires Inv(s)
    requires !(s.stopper.Idle? || s.stopper.Finished?) || (s.stopper.Idle? && |s.workers| > 0 && |s.queue| > 0)
    ensures Internal(a) && Enabled(s, a)
  {
    if s.mutex.ByWorker? {
      assert HoldsMutex(s.workers[s.mutex.i]);
      return Work(s.mutex.i);
    } else if s.mutex.ByPusher? {
      if i :| 0 <= i < |s.workers| && s.workers[i].Blocked? {
        return PusherNotify(i);
      }
      return PusherNotify(0);
    } else if s.mutex.ByStopper? {
      return StopperStep;
    } else if s.pushers > 0 {
      return PusherLock;
    } else if i :| 0 <= i < |s.workers| && !s.workers[i].Blocked? && !s.workers[i].Exited? {
      return Work(i);
    }
    assert !SomeActive(s.workers);
    if s.stopper.Joining? && s.stopper.k < |s.workers| {
      assert WillExit(s.workers[s.stopper.k], s.flags[s.stopper.k]);
    }
    return StopperStep;
  }

  // While a task is queued and there are workers, or a stop is under way, the pool moves.
  lemma NeverStuck(n: nat, acts: seq<Action>)
    requires var s := After(n, acts);
      || (s.stopper.Idle? && n > 0 && |s.queue| > 0)
      || !(s.stopper.Idle? || s.stopper.Finished?)
    ensures exists a :: Internal(a) && Enabled(After(n, acts), a)
  {
    EveryRunKeepsInv(n, acts);
    var a := SomeoneMoves(After(n, acts));
  }

  // A run without new calls: internal steps and spurious wakeups.
  ghost predicate PoolRun(s: Pool, run: seq<Action>, t: Pool)
    decreases |run|
  {
    if |run| == 0 then s == t
    else (Internal(run[0]) || run[0].Spurious?) && Enabled(s, run[0]) && PoolRun(Do(s, run[0]), run[1..], t)
  }

  function CountSpurious(run: seq<Action>): nat {
    if |run| == 0 then 0 else (if run[0].Spurious? then 1 else 0) + CountSpurious(run[1..])
  }

  lemma {:induction false} PoolRunsEnd(s: Pool, run: seq<Action>, t: Pool, told: Told)
    requires Inv(s) && Heard(s, told) && PoolRun(s, run, t)
    ensures Inv(t) && (s.stopper.Idle? <==> t.stopper.Idle?)
    ensures t.pushed == s.pushed && |t.workers| == |s.workers|
    ensures |run| + Measure(t, told) <= Measure(s, told) + if told.Nothing? then 6 * CountSpurious(run) else 0
    decreases |run|
  {
    if |run| > 0 {
      StepKeepsInv(s, run[0]);
      StillHeard(s, run[0], told);
      if run[0].Spurious? {
        SpuriousCost(s, run[0].i, told);
      } else {
        InternalStepsDecrease(s, run[0], told);
      }
      PoolRunsEnd(Do(s, run[0]), run[1..], t, told);
    }
  }

  // Without a stop a pool at rest has nothing left to do.
  lemma AtRestAllRan(s: Pool)
    requires Inv(s) && s.stopper.Idle? && |s.workers| > 0 && forall a :: Internal(a) ==> !Enabled(s, a)
    ensures AllRan(s)
  {
    if s.queue != [] {
      var a := SomeoneMoves(s);
    }
    forall i: nat | i < |s.workers|
      ensures !s.workers[i].Running? && !s.workers[i].Leaving?
    {
      assert !Enabled(s, Work(i));
    }
    EmptyHandsMeanRan(s);
  }

  // Every pushed task is run, without any stop: the steps that the pool takes by itself are
  // bounded up to six for every spurious wakeup, and where they can go on no further all
  // tasks pushed so far have been run.
  lemma PoolRunsTasks(n: nat, acts: seq<Action>, run: seq<Action>, t: Pool)
    requires n > 0 && After(n, acts).stopper.Idle? && PoolRun(After(n, acts), run, t)
    ensures |run| <= Measure(After(n, acts), Nothing) + 6 * CountSpurious(run)
    ensures (forall a :: Internal(a) ==> !Enabled(t, a)) ==>
      t.queue == [] && t.dropped == [] && multiset(t.ran) == multiset(After(n, acts).pushed)
  {
    EveryRunKeepsInv(n, acts);
    PoolRunsEnd(After(n, acts), run, t, Nothing);
    if forall a :: Internal(a) ==> !Enabled(t, a) {
      AtRestAllRan(t);
    }
  }

  // A stop comes to its end. Once it was called, the steps that the pool takes by itself are
  // bounded up to six for every spurious wakeup; once the flags are set or isDone is, they
  // are bounded whatever wakes up. Where they can go on no further the stop has finished.
  lemma StopFinishes(n: nat, acts: seq<Action>, run: seq<Action>, t: Pool)
    requires !After(n, acts).stopper.Idle? && PoolRun(After(n, acts), run, t)
    ensures |run| <= Measure(After(n, acts), Nothing) + 6 * CountSpurious(run)
    ensures var s := After(n, acts);
      s.isDone || !s.stopper.Flagging? ==> |run| <= Measure(s, WhatTold(s))
    ensures (forall a :: Internal(a) ==> !Enabled(t, a)) ==> t.stopper.Finished?
  {
    EveryRunKeepsInv(n, acts);
    PoolRunsEnd(After(n, acts), run, t, Nothing);
    PoolRunsEnd(After(n, acts), run, t, WhatTold(After(n, acts)));
    if !t.stopper.Finished? {
      var a := SomeoneMoves(t);
    }
  }
}
