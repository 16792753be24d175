// The worker list as text: printed run by run by sycl-lib.cpp, read back by helper.js.

module DeviceText {
  import opened DevicePlan
  import opened Numbers
  import opened Sequences
  import opened Strings
  import opened Words

  // ---- printing ----

  datatype Run = Run(batch: nat, count: nat)

  // Neighbouring workers with the same batch.
  function RunsOf(threads: seq<nat>): seq<Run> {
    if |threads| == 0 then []
    else
      var runs := RunsOf(Front(threads));
      var x := Last(threads);
      if |runs| > 0 && Last(runs).batch == x then Front(runs) + [Run(x, Last(runs).count + 1)]
      else runs + [Run(x, 1)]
  }

  function Device(batch: nat): string {
    "cpu" + (if batch != 1 then "*" + Decimal(batch) else "")
  }

  function Piece(r: Run): (s: string)
    ensures |s| > 0
  {
    Device(r.batch) + (if r.count != 1 then "^" + Decimal(r.count) else "")
  }

  function Text(runs: seq<Run>): (s: string)
    ensures |s| > 0 <==> |runs| > 0
  {
    if |runs| == 0 then ""
    else if |runs| == 1 then Piece(runs[0])
    else Text(Front(runs)) + "," + Piece(Last(runs))
  }

  // add_last_dev, with add_result_dev in it.
  method AddLastDev(resultDev: string, prevBatch: nat, sameBatchThreads: nat) returns (text: string)
    ensures prevBatch == 0 || sameBatchThreads == 0 ==> text == resultDev
    ensures prevBatch > 0 && sameBatchThreads > 0 ==>
      text == resultDev + (if resultDev != "" then "," else "") + Piece(Run(prevBatch, sameBatchThreads))
  {
    text := resultDev;
    if sameBatchThreads == 0 || prevBatch == 0 {
      return;
    }
    if resultDev != "" {
      text := text + ",";
    }
    text := text + Device(prevBatch);
    if sameBatchThreads != 1 {
      text := text + ("^" + Decimal(sameBatchThreads));
    }
  }

  method PrintThreads(threads: seq<nat>) returns (resultDev: string)
    requires forall i :: 0 <= i < |threads| ==> threads[i] > 0
    ensures resultDev == Text(RunsOf(threads))
  {
    resultDev := "";
    var prevBatch, sameBatchThreads := 0, 0;
    ghost var done: seq<Run> := [];
    for i := 0 to |threads|
      invariant resultDev == Text(done)
      invariant sameBatchThreads > 0 ==> prevBatch > 0
      invariant i > 0 ==> sameBatchThreads > 0
      invariant RunsOf(threads[..i]) ==
        done + if sameBatchThreads > 0 then [Run(prevBatch, sameBatchThreads)] else []
    {
      assert threads[..i + 1] == threads[..i] + [threads[i]];
      assert Front(threads[..i + 1]) == threads[..i] && Last(threads[..i + 1]) == threads[i];
      if sameBatchThreads > 0 && prevBatch != threads[i] {
        ghost var run := Run(prevBatch, sameBatchThreads);
        assert Front(done + [run]) == done && Last(done + [run]) == run;
        resultDev := AddLastDev(resultDev, prevBatch, sameBatchThreads);
        sameBatchThreads := 0;
        done := done + [run];
      }
      prevBatch := threads[i];
      sameBatchThreads := sameBatchThreads + 1;
    }
    assert threads[..|threads|] == threads;
    ghost var run := Run(prevBatch, sameBatchThreads);
    assert Front(done + [run]) == done && Last(done + [run]) == run;
    resultDev := AddLastDev(resultDev, prevBatch, sameBatchThreads);
  }

  // ---- reading ----

  function TrailingDigits(s: string): (d: nat)
    ensures d <= |s| && forall i :: |s| - d <= i < |s| ==> IsDigit(s[i])
    ensures d < |s| ==> !IsDigit(s[|s| - d - 1])
  {
    if |s| == 0 || !IsDigit(Last(s)) then 0 else 1 + TrailingDigits(Front(s))
  }

  datatype Match = Match(before: string, number: nat)

  // The expression c(\d+)$: what is before c and the number after it.
  function MatchNumber(s: string, c: char): Option<Match> {
    var d := TrailingDigits(s);
    if 0 < d < |s| && s[|s| - d - 1] == c
    then Some(Match(s[..|s| - d - 1], ParseDecimal(s[|s| - d..])))
    else None
  }

  // The same with ^([^\^]+) before it.
  function MatchWhole(s: string): Option<Match> {
    var m := MatchNumber(s, '^');
    if m.Some? && |m.value.before| > 0 && '^' !in m.value.before then m else None
  }

  function DeviceOf(part: string): string {
    if MatchWhole(part).Some? then MatchWhole(part).value.before else part
  }

  function CountOf(m: Option<Match>): nat {
    if m.Some? then m.value.number else 1
  }

  function ThreadDev(parts: seq<string>, threadId: nat): Option<string> {
    if |parts| == 0 then None
    else
      var n := CountOf(MatchWhole(parts[0]));
      if threadId < n then Some(DeviceOf(parts[0])) else ThreadDev(parts[1..], threadId - n)
  }

  function ThreadTotal(parts: seq<string>): nat {
    if |parts| == 0 then 0 else CountOf(MatchNumber(parts[0], '^')) + ThreadTotal(parts[1..])
  }

  method GetThreadDev(threadId: nat, devs: string) returns (dev: Option<string>)
    ensures dev == ThreadDev(Split(devs, ','), threadId)
  {
    var devParts := Split(devs, ',');
    var threadCount := 0;
    for k := 0 to |devParts|
      invariant threadCount <= threadId
      invariant ThreadDev(devParts, threadId) == ThreadDev(devParts[k..], threadId - threadCount)
    {
      assert devParts[k..][1..] == devParts[k + 1..];
      var m := MatchWhole(devParts[k]);
      threadCount := threadCount + if m.Some? then m.value.number else 1;
      if threadId < threadCount {
        return Some(if m.Some? then m.value.before else devParts[k]);
      }
    }
    return None;
  }

  method GetDevThreads(dev: string) returns (threadCount: nat)
    ensures threadCount == ThreadTotal(Split(dev, ','))
  {
    var devParts := Split(dev, ',');
    threadCount := 0;
    for k := 0 to |devParts|
      invariant ThreadTotal(devParts) == threadCount + ThreadTotal(devParts[k..])
    {
      assert devParts[k..][1..] == devParts[k + 1..];
      var m := MatchNumber(devParts[k], '^');
      threadCount := threadCount + if m.Some? then m.value.number else 1;
    }
  }

  function GetDevBatch(dev: string): nat {
    CountOf(MatchNumber(dev, '*'))
  }

  // What the readers make of any text: the number after a last * is the batch, the number after
  // a last ^ the count, and the counts of the parts between commas add up.
  lemma ReadersRead(a: string, b: string, n: nat)
    ensures GetDevBatch(a + "*" + Decimal(n)) == n
    ensures ',' !in a ==> ThreadTotal(Split(a + "^" + Decimal(n), ',')) == n
    ensures ThreadTotal(Split(a + "," + b, ',')) == ThreadTotal(Split(a, ',')) + ThreadTotal(Split(b, ','))
  {
    MatchPrinted(a, '*', n);
    MatchPrinted(a, '^', n);
    SplitAtSeparator(a, b, ',');
    TotalsAdd(Split(a, ','), Split(b, ','));
    if ',' !in a {
      OnePiece(a + "^" + Decimal(n), ',');
      OneTotal(a + "^" + Decimal(n));
    }
  }

  lemma OneTotal(part: string)
    ensures ThreadTotal([part]) == CountOf(MatchNumber(part, '^'))
  {
    assert [part][1..] == [];
  }

  lemma {:induction false} TotalsAdd(a: seq<string>, b: seq<string>)
    ensures ThreadTotal(a + b) == ThreadTotal(a) + ThreadTotal(b)
    decreases |a|
  {
    if |a| == 0 {
      assert a + b == b;
    } else {
      TotalsAdd(a[1..], b);
      assert (a + b)[1..] == a[1..] + b && (a + b)[0] == a[0];
    }
  }

  // ---- reading what was printed ----

  lemma {:induction false} DigitsAtEnd(a: string, c: char, digits: string)
    requires !IsDigit(c) && forall i :: 0 <= i < |digits| ==> IsDigit(digits[i])
    ensures TrailingDigits(a + [c] + digits) == |digits|
  {
    var s := a + [c] + digits;
    if |digits| > 0 {
      assert Front(s) == a + [c] + Front(digits);
      DigitsAtEnd(a, c, Front(digits));
    }
  }

  lemma MatchPrinted(a: string, c: char, n: nat)
    requires !IsDigit(c)
    ensures MatchNumber(a + [c] + Decimal(n), c) == Some(Match(a, n))
    ensures forall e :: e != c ==> MatchNumber(a + [c] + Decimal(n), e) == None
  {
    var s := a + [c] + Decimal(n);
    DigitsAtEnd(a, c, Decimal(n));
    ParsePrinted(n);
    assert s[..|a|] == a && s[|a| + 1..] == Decimal(n);
  }

  lemma DeviceIsPlain(batch: nat)
    ensures '^' !in Device(batch) && ',' !in Device(batch)
  {
    var digits := if batch != 1 then "*" + Decimal(batch) else "";
    assert forall i :: 1 <= i < |digits| ==> IsDigit(digits[i]);
    assert Device(batch) == "cpu" + digits;
  }

  lemma DeviceReadBack(batch: nat)
    ensures GetDevBatch(Device(batch)) == batch
    ensures MatchNumber(Device(batch), '^') == None
    ensures |Device(batch)| > 0 && '^' !in Device(batch) && ',' !in Device(batch)
  {
    DeviceIsPlain(batch);
    if batch != 1 {
      assert Device(batch) == "cpu" + ['*'] + Decimal(batch);
      MatchPrinted("cpu", '*', batch);
    } else {
      assert Last(Device(batch)) == 'u';
    }
  }

  lemma PieceReadBack(r: Run)
    ensures DeviceOf(Piece(r)) == Device(r.batch)
    ensures CountOf(MatchWhole(Piece(r))) == CountOf(MatchNumber(Piece(r), '^')) == r.count
    ensures ',' !in Piece(r)
  {
    DeviceReadBack(r.batch);
    if r.count != 1 {
      assert Piece(r) == Device(r.batch) + ['^'] + Decimal(r.count);
      MatchPrinted(Device(r.batch), '^', r.count);
    } else {
      assert Piece(r) == Device(r.batch);
    }
  }

  function Pieces(runs: seq<Run>): (parts: seq<string>)
    ensures |parts| == |runs|
  {
    seq(|runs|, i requires 0 <= i < |runs| => Piece(runs[i]))
  }

  lemma OnePiece(s: string, c: char)
    requires c !in s
    ensures Split(s, c) == [s]
  {
  }

  lemma PiecesAppend(runs: seq<Run>)
    requires |runs| > 0
    ensures Pieces(runs) == Pieces(Front(runs)) + [Piece(Last(runs))]
  {
  }

  lemma {:induction false} SplitText(runs: seq<Run>)
    requires |runs| > 0
    ensures Split(Text(runs), ',') == Pieces(runs)
    decreases |runs|
  {
    var last := Piece(Last(runs));
    PieceReadBack(Last(runs));
    OnePiece(last, ',');
    PiecesAppend(runs);
    if |runs| > 1 {
      assert Text(runs) == Text(Front(runs)) + [','] + last;
      SplitAtSeparator(Text(Front(runs)), last, ',');
      SplitText(Front(runs));
    }
  }

  function Expand(runs: seq<Run>): seq<nat> {
    if |runs| == 0 then [] else Copies(runs[0].count, runs[0].batch) + Expand(runs[1..])
  }

  lemma {:induction false} ExpandAppend(runs: seq<Run>, r: Run)
    ensures Expand(runs + [r]) == Expand(runs) + Copies(r.count, r.batch)
  {
    if |runs| == 0 {
      assert (runs + [r])[1..] == [];
    } else {
      ExpandAppend(runs[1..], r);
      assert (runs + [r])[1..] == runs[1..] + [r];
    }
  }

  lemma LongerRun(runs: seq<Run>)
    requires |runs| > 0
    ensures Expand(Front(runs) + [Run(Last(runs).batch, Last(runs).count + 1)]) == Expand(runs) + [Last(runs).batch]
  {
    var x, n := Last(runs).batch, Last(runs).count;
    FrontAndLast(runs);
    ExpandAppend(Front(runs), Last(runs));
    ExpandAppend(Front(runs), Run(x, n + 1));
    OneMoreCopy(Expand(Front(runs)), n, x);
  }

  lemma OneMoreCopy(s: seq<nat>, n: nat, x: nat)
    ensures s + Copies(n + 1, x) == s + Copies(n, x) + [x]
  {
  }

  lemma NewRun(runs: seq<Run>, x: nat)
    ensures Expand(runs + [Run(x, 1)]) == Expand(runs) + [x]
  {
    ExpandAppend(runs, Run(x, 1));
    assert Copies(1, x) == [x];
  }

  lemma {:induction false} ExpandRuns(threads: seq<nat>)
    ensures Expand(RunsOf(threads)) == threads
  {
    if |threads| > 0 {
      var runs, x := RunsOf(Front(threads)), Last(threads);
      ExpandRuns(Front(threads));
      if |runs| > 0 && Last(runs).batch == x {
        LongerRun(runs);
      } else {
        NewRun(runs, x);
      }
      FrontAndLast(threads);
    }
  }

  lemma {:induction false} ReadRuns(runs: seq<Run>, i: nat)
    requires i < |Expand(runs)|
    ensures ThreadDev(Pieces(runs), i) == Some(Device(Expand(runs)[i]))
  {
    PieceReadBack(runs[0]);
    assert Pieces(runs)[1..] == Pieces(runs[1..]);
    if i >= runs[0].count {
      ReadRuns(runs[1..], i - runs[0].count);
    }
  }

  lemma {:induction false} CountRuns(runs: seq<Run>)
    ensures ThreadTotal(Pieces(runs)) == |Expand(runs)|
  {
    if |runs| > 0 {
      PieceReadBack(runs[0]);
      assert Pieces(runs)[1..] == Pieces(runs[1..]);
      CountRuns(runs[1..]);
    }
  }

  // A device of the CPU with this batch.
  ghost predicate IsCpuOf(dev: Option<string>, batch: nat) {
    dev.Some? && "cpu" <= dev.value && GetDevBatch(dev.value) == batch
  }

  // What helper.js reads: as many workers as listed, each with its batch.
  ghost predicate ReadsAs(dev: string, threads: seq<nat>) {
    var parts := Split(dev, ',');
    && ThreadTotal(parts) == |threads|
    && forall i :: 0 <= i < |threads| ==> IsCpuOf(ThreadDev(parts, i), threads[i])
  }

  lemma DeviceIsCpu(batch: nat)
    ensures IsCpuOf(Some(Device(batch)), batch)
  {
    DeviceReadBack(batch);
  }

  lemma ReadsBack(threads: seq<nat>)
    requires |threads| > 0
    ensures ReadsAs(Text(RunsOf(threads)), threads)
  {
    var runs := RunsOf(threads);
    ExpandRuns(threads);
    SplitText(runs);
    CountRuns(runs);
    forall i | 0 <= i < |threads|
      ensures IsCpuOf(ThreadDev(Pieces(runs), i), threads[i])
    {
      ReadRuns(runs, i);
      DeviceIsCpu(threads[i]);
    }
  }

  // The text for an algorithm of unknown memory, which may be cpu^1.
  lemma FallbackReadsBack(n: nat)
    ensures ReadsAs("cpu^" + Decimal(n), Copies(n, 1))
  {
    var part := "cpu^" + Decimal(n);
    assert part == "cpu" + ['^'] + Decimal(n);
    MatchPrinted("cpu", '^', n);
    OnePiece(part, ',');
    DeviceIsCpu(1);
    assert Device(1) == "cpu";
    assert ThreadTotal([part]) == n by {
      assert [part][1..] == [];
    }
  }

  // ---- the CPU part of one algorithm's parameters ----

  ghost predicate Planned(threads: seq<nat>, algo: string, batchMem: nat, maxCpuBatch: nat,
                          socketCount: nat, threadCount: nat, l3cache: nat) {
    if "rx/" <= algo then SocketPlan(threads, batchMem, socketCount, threadCount, l3cache)
    else WorkerPlan(threads, algo, batchMem, threadCount, l3cache, maxCpuBatch)
  }

  method PlanThreads(algo: string, batchMem: uint32, maxCpuBatch: uint32,
                     socketCount: uint32, threadCount: uint32, l3cache: uint32)
      returns (threads: seq<nat>)
    requires 0 < socketCount && 0 < threadCount
    requires if "rx/" <= algo then batchMem > 0
             else SumsFit(algo, batchMem, threadCount, l3cache, maxCpuBatch)
    ensures |threads| > 0 && forall i :: 0 <= i < |threads| ==> threads[i] > 0
    ensures Planned(threads, algo, batchMem, maxCpuBatch, socketCount, threadCount, l3cache)
    ensures !("rx/" <= algo) ==> |threads| <= threadCount
    ensures FirstBatch(algo) == 1 && batchMem <= l3cache && !("rx/" <= algo) ==> Sum(threads) * batchMem <= l3cache
  {
    if "rx/" <= algo {
      threads := PlanSockets(batchMem, socketCount, threadCount, l3cache);
    } else {
      threads := PlanWorkers(algo, batchMem, threadCount, l3cache, maxCpuBatch);
      PaidAndFree(threads, FirstBatch(algo));
    }
  }

  // Planned, printed and read back. An algorithm of unknown memory gets one worker for every
  // thread.
  method CpuDevices(algo: string, batchMem: Option<uint32>, maxCpuBatch: uint32,
                    cpuSockets: uint32, cpuThreads: uint32, cpuL3cache: uint32)
      returns (resultDev: string, threads: seq<nat>)
    requires batchMem.Some? ==>
      if "rx/" <= algo then batchMem.value > 0
      else SumsFit(algo, batchMem.value, ThreadCount(cpuThreads), L3Cache(cpuL3cache, cpuThreads), maxCpuBatch)
    ensures ReadsAs(resultDev, threads)
    ensures resultDev ==
      if batchMem.Some? then Text(RunsOf(threads)) else "cpu^" + Decimal(ThreadCount(cpuThreads))
    ensures batchMem.None? ==> threads == Copies(ThreadCount(cpuThreads), 1)
    ensures batchMem.Some? ==>
      Planned(threads, algo, batchMem.value, maxCpuBatch, SocketCount(cpuSockets), ThreadCount(cpuThreads),
              L3Cache(cpuL3cache, cpuThreads))
  {
    var threadCount := ThreadCount(cpuThreads);
    if batchMem.None? {
      threads := Copies(threadCount, 1);
      resultDev := "cpu^" + Decimal(threadCount);
      FallbackReadsBack(threadCount);
    } else {
      threads := PlanThreads(algo, batchMem.value, maxCpuBatch, SocketCount(cpuSockets), threadCount,
                             L3Cache(cpuL3cache, cpuThreads));
      resultDev := PrintThreads(threads);
      ReadsBack(threads);
    }
  }
}
