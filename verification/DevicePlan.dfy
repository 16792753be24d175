// How sycl-lib.cpp shares the L3 cache among CPU workers: the list of batch sizes, one per
// worker.

module DevicePlan {
  import opened Numbers
  import opened Words

  const TWO21: nat := 2 * 1024 * 1024

  function Max(a: nat, b: nat): nat { if a < b then b else a }

  function Min(a: nat, b: nat): nat { if a < b then a else b }

  function Copies(n: nat, x: nat): (s: seq<nat>)
    ensures |s| == n && forall i :: 0 <= i < n ==> s[i] == x
  {
    seq(n, _ => x)
  }

  // Instances the planner has paid for: the first batch of a worker counts once.
  function Paid(threads: seq<nat>, first: nat): int {
    if |threads| == 0 then 0 else Paid(threads[..|threads| - 1], first) + threads[|threads| - 1] - first + 1
  }

  // Non-increasing, spread at most one.
  ghost predicate Balanced(threads: seq<nat>) {
    forall i, j :: 0 <= i < j < |threads| ==> threads[j] <= threads[i] <= threads[j] + 1
  }

  // No worker may get one instance more. Without cache and without need for it the source
  // adds none.
  ghost predicate Maximal(threads: seq<nat>, first: nat, batchMem: nat, l3cache: nat, maxCpuBatch: nat) {
    || (forall k :: 0 <= k < |threads| ==> threads[k] >= maxCpuBatch)
    || (Paid(threads, first) + 1) * batchMem > l3cache
    || (l3cache == batchMem == 0 && threads == Copies(|threads|, first))
  }

  lemma {:induction false} PaidUpdate(threads: seq<nat>, first: nat, k: nat, x: nat)
    requires k < |threads|
    ensures Paid(threads[k := x], first) == Paid(threads, first) + x - threads[k]
    decreases |threads|
  {
    var n := |threads| - 1;
    if k == n {
      assert threads[k := x][..n] == threads[..n];
    } else {
      assert threads[k := x][..n] == threads[..n][k := x];
      PaidUpdate(threads[..n], first, k, x);
    }
  }

  function Sum(threads: seq<nat>): nat {
    if |threads| == 0 then 0 else Sum(threads[..|threads| - 1]) + threads[|threads| - 1]
  }

  // What is paid for is all there is when workers start with one instance; with eight, seven
  // of every worker are free.
  lemma {:induction false} PaidAndFree(threads: seq<nat>, first: nat)
    ensures Sum(threads) == Paid(threads, first) + (first - 1) * |threads|
  {
    if |threads| > 0 {
      PaidAndFree(threads[..|threads| - 1], first);
      assert (first - 1) * |threads| == (first - 1) * (|threads| - 1) + (first - 1);
    }
  }

  // ---- the 32-bit sums ----

  function FirstBatch(algo: string): nat {
    if algo == "ghostrider" then 8 else 1
  }

  // Passes over the workers after the first loop: until they need no less than the cache or
  // none may grow. A pass adds step.
  function Passes(step: nat, l3cache: nat, first: nat, maxCpuBatch: nat): nat {
    if 0 < step < l3cache && first < maxCpuBatch then Min((l3cache - 1) / step, maxCpuBatch - first) else 0
  }

  // The largest value of used_l3cache: after the first worker beyond the cache, or after the
  // last pass.
  function LargestFill(batchMem: nat, l3cache: nat, threadCount: nat): nat {
    if threadCount * batchMem > l3cache then (l3cache / batchMem + 1) * batchMem else threadCount * batchMem
  }

  function LargestGrown(step: nat, l3cache: nat, first: nat, maxCpuBatch: nat): nat {
    step * (1 + Passes(step, l3cache, first, maxCpuBatch))
  }

  // No sum of the planner wraps around.
  predicate SumsFit(algo: string, batchMem: uint32, threadCount: uint32, l3cache: uint32, maxCpuBatch: uint32) {
    && LargestFill(batchMem, l3cache, threadCount) < TWO32
    && (threadCount * batchMem <= l3cache && !("argon2/" <= algo) ==>
      LargestGrown(threadCount * batchMem, l3cache, FirstBatch(algo), maxCpuBatch) < TWO32)
  }

  lemma FillFits(k: nat, batchMem: nat, l3cache: nat, threadCount: nat)
    requires k < threadCount && k * batchMem <= l3cache
    ensures k * batchMem + batchMem <= LargestFill(batchMem, l3cache, threadCount)
  {
    Distribute(batchMem, k, 1);
    if threadCount * batchMem > l3cache {
      DivideBelow(k, batchMem, l3cache);
      MulMonotone(k + 1, l3cache / batchMem + 1, batchMem);
    } else {
      MulMonotone(k + 1, threadCount, batchMem);
    }
  }

  lemma DivideBelow(k: nat, m: nat, n: nat)
    requires m > 0 && k * m <= n
    ensures k <= n / m
  {
    assert n == m * (n / m) + n % m;
    if k > n / m {
      Distribute(m, n / m, 1);
      MulMonotone(n / m + 1, k, m);
    }
  }

  // A pass that starts fits.
  lemma PassFits(p: nat, step: nat, l3cache: nat, first: nat, maxCpuBatch: nat)
    requires step * (1 + p) < l3cache && first + p < maxCpuBatch
    ensures step * (1 + p) + step <= LargestGrown(step, l3cache, first, maxCpuBatch)
  {
    Distribute(step, 1 + p, 1);
    if step > 0 {
      MulMonotone(1, 1 + p, step);
      DivideBelow(1 + p, step, l3cache - 1);
      MulMonotone(1 + p + 1, 1 + Passes(step, l3cache, first, maxCpuBatch), step);
    }
  }

  // The condition in short: it holds when twice the cache stays below 2^32, and of any cache
  // that exceeds the last sum.
  lemma SmallCacheFits(algo: string, batchMem: uint32, threadCount: uint32, l3cache: uint32, maxCpuBatch: uint32)
    requires 2 * l3cache < TWO32 && l3cache + batchMem < TWO32
    ensures SumsFit(algo, batchMem, threadCount, l3cache, maxCpuBatch)
  {
    var step, first := threadCount * batchMem, FirstBatch(algo);
    if step > l3cache {
      Distribute(batchMem, l3cache / batchMem, 1);
      WholeTimes(l3cache / batchMem, batchMem, l3cache);
    } else if step > 0 {
      var p := Passes(step, l3cache, first, maxCpuBatch);
      WholeTimes(p, step, l3cache - 1);
      Distribute(step, p, 1);
    }
  }

  lemma WholeTimes(p: nat, m: nat, n: nat)
    requires m > 0 && p <= n / m
    ensures p * m <= n
  {
    MulMonotone(p, n / m, m);
    assert n == m * (n / m) + n % m;
  }

  // The first loop: one more worker while threads and cache last. What it leaves in used is
  // the memory of the workers, or of one worker more when that was too much.
  method FillThreads(first: nat, batchMem: uint32, l3cache: uint32, threadCount: uint32)
      returns (threads: seq<nat>, usedL3cache: uint32)
    requires LargestFill(batchMem, l3cache, threadCount) < TWO32
    ensures threads == Copies(|threads|, first) && |threads| <= threadCount
    ensures |threads| * batchMem <= l3cache
    ensures usedL3cache == (if |threads| == threadCount then |threads| else |threads| + 1) * batchMem
    ensures |threads| < threadCount ==> usedL3cache > l3cache
    ensures |threads| == 0 <==> threadCount == 0 || batchMem > l3cache
  {
    threads := [];
    usedL3cache := 0;
    var usedThreads := 1;
    var go := usedThreads <= threadCount;
    if go {
      FillFits(0, batchMem, l3cache, threadCount);
      usedL3cache := usedL3cache + batchMem;
      go := usedL3cache <= l3cache;
    }
    while go
      invariant usedThreads == |threads| + 1 && |threads| <= threadCount
      invariant threads == Copies(|threads|, first)
      invariant |threads| * batchMem <= l3cache
      invariant usedL3cache == (if |threads| == threadCount then |threads| else |threads| + 1) * batchMem
      invariant go <==> |threads| < threadCount && usedL3cache <= l3cache
      invariant |threads| > 0 ==> batchMem <= l3cache
      decreases threadCount - |threads|
    {
      threads := threads + [first];
      usedThreads := usedThreads + 1;
      go := usedThreads <= threadCount;
      Distribute(batchMem, |threads|, 1);
      if go {
        FillFits(|threads|, batchMem, l3cache, threadCount);
        usedL3cache := usedL3cache + batchMem;
        go := usedL3cache <= l3cache;
      }
    }
  }

  // The first `done` of n workers at q have been raised.
  ghost predicate Raised(threads: seq<nat>, n: nat, q: nat, done: nat) {
    |threads| == n && forall i :: 0 <= i < n ==> threads[i] == if i < done then q + 1 else q
  }

  lemma RaiseOne(threads: seq<nat>, n: nat, q: nat, k: nat)
    requires Raised(threads, n, q, k) && k < n
    ensures Raised(threads[k := threads[k] + 1], n, q, k + 1)
  {
  }

  lemma RaisedPrefix(threads: seq<nat>, threads0: seq<nat>, q: nat, done: nat)
    requires |threads0| > 0 && threads0 == Copies(|threads0|, q)
    requires done <= |threads0| && Raised(threads, |threads0|, q, done)
    ensures Balanced(threads) && (done > 0 <==> threads != threads0)
    ensures done == |threads| ==> threads == Copies(|threads|, q + 1)
  {
    assert done > 0 ==> threads[0] != threads0[0];
  }

  // One pass over the workers: each gets one instance more while the cache lasts.
  method RaiseBatches(threads0: seq<nat>, first: nat, batchMem: uint32,
                      used0: uint32, l3cache: uint32, maxCpuBatch: nat)
      returns (threads: seq<nat>, usedL3cache: uint32, updated: bool)
    requires |threads0| > 0 && threads0 == Copies(|threads0|, threads0[0])
    requires used0 == Paid(threads0, first) * batchMem && used0 < l3cache
    requires threads0[0] < maxCpuBatch ==> used0 + batchMem * |threads0| < TWO32
    ensures |threads| == |threads0| && Balanced(threads)
    ensures updated <==> threads != threads0
    ensures threads0[0] >= maxCpuBatch ==> threads == threads0 && usedL3cache == used0
    ensures forall k :: 0 <= k < |threads| ==> threads0[0] <= threads[k] <= Max(threads0[0], maxCpuBatch)
    ensures Paid(threads, first) * batchMem <= l3cache
    ensures if usedL3cache <= l3cache
            then usedL3cache == Paid(threads, first) * batchMem
                 && (threads0[0] < maxCpuBatch ==> threads == Copies(|threads|, threads0[0] + 1))
            else (Paid(threads, first) + 1) * batchMem > l3cache
  {
    threads, usedL3cache, updated := threads0, used0, false;
    ghost var q := threads0[0];
    ghost var done := 0;
    ghost var cost: int := used0;
    for k := 0 to |threads0|
      invariant 0 <= done <= k && Raised(threads, |threads0|, q, done)
      invariant usedL3cache <= used0 + batchMem * k
      invariant q >= maxCpuBatch ==> done == 0 && usedL3cache == used0
      invariant updated <==> done > 0
      invariant cost == Paid(threads, first) * batchMem && cost <= l3cache
      invariant usedL3cache <= l3cache ==> usedL3cache == cost && (q < maxCpuBatch ==> done == k)
      invariant usedL3cache > l3cache ==> cost + batchMem > l3cache
    {
      if threads[k] < maxCpuBatch {
        PassBound(batchMem, k, |threads0|);
        OneMorePaid(threads, first, k, batchMem);
        usedL3cache := usedL3cache + batchMem;
        if usedL3cache <= l3cache {
          RaiseOne(threads, |threads0|, q, k);
          threads := threads[k := threads[k] + 1];
          updated := true;
          done := k + 1;
          cost := cost + batchMem;
        }
      }
    }
    Distribute(batchMem, Paid(threads, first), 1);
    RaisedPrefix(threads, threads0, q, done);
  }

  lemma OneMorePaid(threads: seq<nat>, first: nat, k: nat, batchMem: nat)
    requires k < |threads|
    ensures Paid(threads[k := threads[k] + 1], first) == Paid(threads, first) + 1
    ensures (Paid(threads, first) + 1) * batchMem == Paid(threads, first) * batchMem + batchMem
  {
    PaidUpdate(threads, first, k, threads[k] + 1);
    Distribute(batchMem, Paid(threads, first), 1);
  }

  lemma PassBound(m: nat, k: nat, n: nat)
    requires k < n
    ensures m * k + m <= m * n && m * (k + 1) == m * k + m
  {
  }

  lemma {:induction false} PaidEqual(n: nat, first: nat, q: nat)
    ensures Paid(Copies(n, q), first) == n * (1 + q - first)
  {
    if n > 0 {
      assert Copies(n, q)[..n - 1] == Copies(n - 1, q);
      PaidEqual(n - 1, first, q);
      Distribute(1 + q - first, n - 1, 1);
    }
  }

  lemma EqualShares(n: nat, p: nat, batchMem: nat)
    ensures n * (1 + p) * batchMem == n * batchMem * (1 + p)
  {
  }

  lemma NextPassFits(n: nat, q: nat, step: nat, batchMem: nat, l3cache: nat, first: nat, maxCpuBatch: nat)
    requires step == n * batchMem && first <= q && Paid(Copies(n, q), first) * batchMem < l3cache
    ensures q < maxCpuBatch ==>
      Paid(Copies(n, q), first) * batchMem + batchMem * n <= LargestGrown(step, l3cache, first, maxCpuBatch)
  {
    PaidEqual(n, first, q);
    EqualShares(n, q - first, batchMem);
    if q < maxCpuBatch {
      PassFits(q - first, step, l3cache, first, maxCpuBatch);
    }
  }

  // Passes until the cache is used up or no worker may grow.
  method GrowBatches(threads0: seq<nat>, first: nat, batchMem: uint32,
                     used0: uint32, l3cache: uint32, maxCpuBatch: nat)
      returns (threads: seq<nat>)
    requires threads0 == Copies(|threads0|, first) && |threads0| * batchMem <= l3cache
    requires used0 <= l3cache ==> LargestGrown(used0, l3cache, first, maxCpuBatch) < TWO32
    requires if used0 <= l3cache then used0 == |threads0| * batchMem && |threads0| > 0
             else used0 == (|threads0| + 1) * batchMem
    ensures |threads| == |threads0| && Balanced(threads)
    ensures forall k :: 0 <= k < |threads| ==> first <= threads[k] <= Max(first, maxCpuBatch)
    ensures Paid(threads, first) * batchMem <= l3cache
    ensures Maximal(threads, first, batchMem, l3cache, maxCpuBatch)
  {
    threads := threads0;
    var usedL3cache: uint32 := used0;
    PaidEqual(|threads0|, first, first);
    while usedL3cache < l3cache
      invariant l3cache == 0 ==> threads == threads0
      invariant |threads| == |threads0| && Balanced(threads)
      invariant forall k :: 0 <= k < |threads| ==> first <= threads[k] <= Max(first, maxCpuBatch)
      invariant Paid(threads, first) * batchMem <= l3cache
      invariant usedL3cache <= l3cache ==> usedL3cache == Paid(threads, first) * batchMem
      invariant usedL3cache < l3cache ==> |threads| > 0 && threads == Copies(|threads|, threads[0])
      invariant usedL3cache > l3cache ==> (Paid(threads, first) + 1) * batchMem > l3cache
      decreases usedL3cache < l3cache, if |threads| > 0 then Max(first, maxCpuBatch) - threads[0] else 0
    {
      var updated;
      NextPassFits(|threads|, threads[0], used0, batchMem, l3cache, first, maxCpuBatch);
      threads, usedL3cache, updated := RaiseBatches(threads, first, batchMem, usedL3cache, l3cache, maxCpuBatch);
      if !updated {
        assert threads[0] < maxCpuBatch ==> usedL3cache > l3cache;
        return;
      }
    }
    Distribute(batchMem, Paid(threads, first), 1);
  }

  // ---- the plan of one algorithm ----

  function SocketCount(cpuSockets: uint32): uint32 { Max(1, cpuSockets) }

  function ThreadCount(cpuThreads: uint32): uint32 { Max(1, cpuThreads) }

  // Where the topology is not known, two megabytes for every thread.
  function L3Cache(cpuL3cache: uint32, cpuThreads: uint32): uint32 {
    if cpuL3cache != 0 then cpuL3cache else ThreadCount(cpuThreads) * TWO21 % TWO32
  }

  // One process for every socket, all alike, with as many instances as threads and cache allow.
  ghost predicate SocketPlan(threads: seq<nat>, batchMem: nat, socketCount: nat, threadCount: nat, l3cache: nat) {
    && |threads| == socketCount > 0
    && (forall k :: 0 <= k < |threads| ==> threads[k] == threads[0] >= 1)
    && (threads[0] > 1 ==>
      socketCount * threads[0] <= threadCount && socketCount * threads[0] * batchMem <= l3cache)
    && (|| socketCount * (threads[0] + 1) > threadCount
        || socketCount * (threads[0] + 1) * batchMem > l3cache)
  }

  method PlanSockets(batchMem: uint32, socketCount: uint32, threadCount: uint32, l3cache: uint32)
      returns (threads: seq<nat>)
    requires batchMem > 0 && socketCount > 0
    ensures SocketPlan(threads, batchMem, socketCount, threadCount, l3cache)
  {
    var batch := Max(1, Min(threadCount, l3cache / batchMem) / socketCount);
    threads := Copies(socketCount, batch);
    LargestBatch(socketCount, batch, batchMem, threadCount, l3cache);
  }

  lemma LargestBatch(socketCount: nat, batch: nat, batchMem: nat, threadCount: nat, l3cache: nat)
    requires batchMem > 0 && socketCount > 0
    requires batch == Max(1, Min(threadCount, l3cache / batchMem) / socketCount)
    ensures batch > 1 ==> socketCount * batch <= threadCount && socketCount * batch * batchMem <= l3cache
    ensures socketCount * (batch + 1) > threadCount || socketCount * (batch + 1) * batchMem > l3cache
  {
    var fitting := Min(threadCount, l3cache / batchMem);
    if batch > 1 {
      WholeTimes(batch, socketCount, fitting);
      WholeTimes(socketCount * batch, batchMem, l3cache);
    }
    NextIsMore(fitting, socketCount, batch);
    if fitting < threadCount {
      NextIsMore(l3cache, batchMem, fitting);
      MulMonotone(fitting + 1, socketCount * (batch + 1), batchMem);
    }
  }

  lemma NextIsMore(n: nat, m: nat, k: nat)
    requires m > 0 && k >= n / m
    ensures m * (k + 1) > n && (k + 1) * m > n
  {
    MulMonotone(n / m + 1, k + 1, m);
    Distribute(m, n / m, 1);
    assert n == m * (n / m) + n % m;
  }

  lemma NotGhostrider(algo: string)
    requires "argon2/" <= algo
    ensures FirstBatch(algo) == 1
  {
    assert algo[0] == "argon2/"[0] != "ghostrider"[0];
  }

  // As many workers as threads and cache allow, each with the first batch and together with as
  // many more instances as the cache allows and the cap leaves.
  ghost predicate WorkerPlan(threads: seq<nat>, algo: string, batchMem: nat, threadCount: nat,
                             l3cache: nat, maxCpuBatch: nat) {
    var first := FirstBatch(algo);
    if batchMem > l3cache then threads == [1]
    else
      && (|threads| == threadCount || (|threads| < threadCount && (|threads| + 1) * batchMem > l3cache))
      && Balanced(threads)
      && Paid(threads, first) * batchMem <= l3cache
      && (forall k :: 0 <= k < |threads| ==> first <= threads[k] <= Max(first, maxCpuBatch))
      && (if "argon2/" <= algo then threads == Copies(|threads|, first)
          else Maximal(threads, first, batchMem, l3cache, maxCpuBatch))
  }

  method PlanWorkers(algo: string, batchMem: uint32, threadCount: uint32, l3cache: uint32, maxCpuBatch: uint32)
      returns (threads: seq<nat>)
    requires 0 < threadCount && SumsFit(algo, batchMem, threadCount, l3cache, maxCpuBatch)
    ensures 0 < |threads| <= threadCount
    ensures WorkerPlan(threads, algo, batchMem, threadCount, l3cache, maxCpuBatch)
  {
    var first := FirstBatch(algo);
    var usedL3cache;
    threads, usedL3cache := FillThreads(first, batchMem, l3cache, threadCount);
    if "argon2/" <= algo {
      NotGhostrider(algo);
      PaidEqual(|threads|, first, first);
    } else {
      threads := GrowBatches(threads, first, batchMem, usedL3cache, l3cache, maxCpuBatch);
    }
    if |threads| == 0 {
      threads := [1];
    }
  }

  // ---- the plan in closed form ----

  // `extra` instances dealt out evenly over n workers, the first ones first.
  function Spread(n: nat, first: nat, extra: nat): seq<nat> {
    seq(n, k requires 0 <= k < n => first + extra / n + if k < extra % n then 1 else 0)
  }

  lemma BalancedIsRaised(threads: seq<nat>) returns (done: nat)
    requires |threads| > 0 && Balanced(threads)
    ensures done < |threads| && Raised(threads, |threads|, threads[|threads| - 1], done)
  {
    var n, q := |threads|, threads[|threads| - 1];
    done := 0;
    while done < n - 1 && threads[done] == q + 1
      invariant done <= n - 1
      invariant forall i :: 0 <= i < done ==> threads[i] == q + 1
    {
      done := done + 1;
    }
    forall i | done <= i < n
      ensures threads[i] == q
    {
      assert i > done ==> threads[i] <= threads[done];
      assert i < n - 1 ==> threads[n - 1] <= threads[i] <= threads[n - 1] + 1;
      assert done < n - 1 ==> threads[n - 1] <= threads[done] <= threads[n - 1] + 1;
    }
  }

  lemma {:induction false} PaidRaised(threads: seq<nat>, first: nat, n: nat, q: nat, done: nat)
    requires Raised(threads, n, q, done) && done <= n
    ensures Paid(threads, first) == n * (1 + q - first) + done
  {
    if n > 0 {
      var less := if done == n then n - 1 else done;
      assert Raised(threads[..n - 1], n - 1, q, less);
      PaidRaised(threads[..n - 1], first, n - 1, q, less);
      Distribute(1 + q - first, n - 1, 1);
    }
  }

  // What the growth may add beyond one instance, or first instances, for each of n workers.
  function Extra(algo: string, n: nat, batchMem: nat, l3cache: nat, maxCpuBatch: nat): int
    requires batchMem > 0
  {
    var first := FirstBatch(algo);
    if "argon2/" <= algo || maxCpuBatch <= first then 0
    else if l3cache / batchMem - n <= n * (maxCpuBatch - first) then l3cache / batchMem - n
    else n * (maxCpuBatch - first)
  }

  lemma WorkerCount(n: nat, batchMem: nat, threadCount: nat, l3cache: nat)
    requires batchMem > 0 && n * batchMem <= l3cache
    requires n == threadCount || (n < threadCount && (n + 1) * batchMem > l3cache)
    ensures n == Min(threadCount, l3cache / batchMem)
  {
    DivideBelow(n, batchMem, l3cache);
    if n < l3cache / batchMem {
      WholeTimes(n + 1, batchMem, l3cache);
    }
  }

  // n workers at q, the first `done` of them one higher: the instances beyond the first ones.
  lemma ExtraIs(algo: string, n: nat, q: nat, done: nat, batchMem: nat, l3cache: nat, maxCpuBatch: nat)
    requires batchMem > 0 && done < n && q >= FirstBatch(algo)
    requires var first := FirstBatch(algo);
      && (n * (1 + q - first) + done) * batchMem <= l3cache
      && q <= Max(first, maxCpuBatch) && (done > 0 ==> q + 1 <= Max(first, maxCpuBatch))
      && (if "argon2/" <= algo then q == first && done == 0
          else q >= maxCpuBatch || (n * (1 + q - first) + done + 1) * batchMem > l3cache)
    ensures Extra(algo, n, batchMem, l3cache, maxCpuBatch) == n * (q - FirstBatch(algo)) + done
  {
    var first := FirstBatch(algo);
    var paid := n * (1 + q - first) + done;
    Distribute(n, 1, q - first);
    DivideBelow(paid, batchMem, l3cache);
    if paid < l3cache / batchMem {
      WholeTimes(paid + 1, batchMem, l3cache);
    }
    if maxCpuBatch > first {
      var room := maxCpuBatch - first;
      if q == maxCpuBatch {
        assert done == 0 && q - first == room;
      } else {
        MulMonotone(q - first + 1, room, n);
        Distribute(n, q - first, 1);
      }
    }
  }

  lemma SpreadOf(threads: seq<nat>, first: nat, n: nat, q: nat, done: nat)
    requires Raised(threads, n, q, done) && done < n && first <= q
    ensures threads == Spread(n, first, n * (q - first) + done)
  {
    DivisionIs(n * (q - first) + done, n, q - first, done);
  }

  // The properties of a plan leave no choice: the number of workers, how many instances they
  // have together, and how these are dealt out.
  lemma WorkerPlanIs(threads: seq<nat>, algo: string, batchMem: nat, threadCount: nat, l3cache: nat, maxCpuBatch: nat)
    requires 0 < batchMem <= l3cache && threadCount > 0
    requires WorkerPlan(threads, algo, batchMem, threadCount, l3cache, maxCpuBatch)
    ensures var n := Min(threadCount, l3cache / batchMem);
      && n > 0 && 0 <= Extra(algo, n, batchMem, l3cache, maxCpuBatch)
      && threads == Spread(n, FirstBatch(algo), Extra(algo, n, batchMem, l3cache, maxCpuBatch))
  {
    var first, n := FirstBatch(algo), |threads|;
    assert n == 0 ==> (n + 1) * batchMem == batchMem;
    var q := threads[n - 1];
    var done := BalancedIsRaised(threads);
    PaidRaised(threads, first, n, q, done);
    Distribute(n, 1, q - first);
    MulMonotone(n, Paid(threads, first), batchMem);
    WorkerCount(n, batchMem, threadCount, l3cache);
    assert done > 0 ==> threads[0] == q + 1;
    assert "argon2/" <= algo ==> threads[0] == first == q;
    ExtraIs(algo, n, q, done, batchMem, l3cache, maxCpuBatch);
    SpreadOf(threads, first, n, q, done);
  }
}
