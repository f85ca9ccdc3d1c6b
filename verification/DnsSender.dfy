/** src/dns_sender.cpp: splitting the rate over the threads, collecting their results, and the
    differences shown every second. */
module Sender {
  import Arith
  import Receiver
  import Schedule
  import opened SenderThread

  // The rate split, over exact numbers.

  /** `calcTimeslice`: the length of a timeslice in milliseconds, at least a tenth. */
  function SliceMs(queryrate: nat, threadCount: nat): real
    requires queryrate >= 1
  {
    var ms := 1000.0 / queryrate as real * threadCount as real;
    if ms < 0.1 then 0.1 else ms
  }

  lemma Ratio(q: nat, n: nat)
    requires q >= 1
    ensures 1000.0 / q as real * n as real * q as real == 1000.0 * n as real
  {
    var x := 1000.0 / q as real;
    assert x * q as real == 1000.0;
    assert x * n as real * q as real == x * q as real * n as real;
  }

  lemma ScaleUp(x: real, y: real, n: real)
    requires x <= y && n >= 0.0
    ensures x * n <= y * n
  {
    assert (y - x) * n >= 0.0;
  }

  lemma ScaleUpStrictly(x: real, y: real, n: real)
    requires x < y && n > 0.0
    ensures x * n < y * n
  {
    assert (y - x) * n > 0.0;
  }

  lemma DistributeReal(a: real, x: real, y: real)
    ensures a * (x + y) == a * x + a * y == (x + y) * a
  {
  }

  lemma ScaleBack(x: real, y: real, n: real)
    requires n > 0.0 && n * x <= n * y
    ensures x <= y
  {
    if x > y {
      ScaleUpStrictly(y, x, n);
      assert false;
    }
  }

  /** Comparing a quotient with a bound. */
  lemma CompareQuotient(x: real, q: real, a: real, bound: real)
    requires q > 0.0 && x * q == a
    ensures x > bound <==> a > bound * q
    ensures x < bound <==> a < bound * q
  {
    if x > bound {
      ScaleUpStrictly(bound, x, q);
    } else if x < bound {
      ScaleUpStrictly(x, bound, q);
    }
  }

  /** `setTimeslice` throws exactly for the positive rates below one query per second and thread,
      whose per-thread rate would be zero and so select the unlimited loop. */
  lemma RejectedRates(queryrate: nat, threadCount: nat)
    requires queryrate >= 1 && threadCount >= 1
    ensures SliceMs(queryrate, threadCount) > 0.0
    ensures SliceMs(queryrate, threadCount) > 1000.0 <==> queryrate < threadCount
    ensures queryrate < threadCount <==> queryrate / threadCount == 0
  {
    Ratio(queryrate, threadCount);
    CompareQuotient(1000.0 / queryrate as real * threadCount as real, queryrate as real,
                    1000.0 * threadCount as real, 1000.0);
    if queryrate >= threadCount {
      DivModAtLeastOne(queryrate, threadCount);
    } else {
      Arith.DivModUnique(queryrate, threadCount, 0, queryrate);
    }
  }

  lemma DivModAtLeastOne(x: nat, n: nat)
    requires 1 <= n <= x
    ensures x / n >= 1
  {
    var q, r := x / n, x % n;
    assert x == n * q + r;
    if q == 0 {
      assert false;
    }
  }

  /** The clamp at a tenth of a millisecond acts on more than 10000 queries per second and thread. */
  predicate Clamped(queryrate: nat, threadCount: nat) {
    queryrate > 10000 * threadCount
  }

  lemma ClampedSlice(queryrate: nat, threadCount: nat)
    requires queryrate >= 1
    ensures var exact := 1000.0 / queryrate as real * threadCount as real;
            SliceMs(queryrate, threadCount) == if Clamped(queryrate, threadCount) then 0.1 else exact
  {
    Ratio(queryrate, threadCount);
    CompareQuotient(1000.0 / queryrate as real * threadCount as real, queryrate as real,
                    1000.0 * threadCount as real, 0.1);
  }

  /** The floor of a quotient of naturals is their integer quotient. */
  lemma FloorIsDiv(x: real, a: nat, n: nat)
    requires n >= 1 && x * n as real == a as real
    ensures x.Floor == a / n
  {
    var k := a / n;
    assert k * n <= a < (k + 1) * n by {
      assert a == n * k + a % n;
      Arith.Distribute(n, k, 1);
    }
    CompareQuotient(x, n as real, a as real, k as real);
    CompareQuotient(x, n as real, a as real, (k + 1) as real);
    ProductAsReal(k, n);
    ProductAsReal(k + 1, n);
  }

  lemma ProductAsReal(a: nat, b: nat)
    ensures (a * b) as real == a as real * b as real
  {
  }

  /** How many timeslices a thread gets: runtime * q / n of them, or ten thousand a second when the
      clamp acts. */
  lemma SlicesPerRun(queryrate: nat, threadCount: nat, runtime: nat)
    requires 1 <= threadCount <= queryrate
    ensures var timeslice := SliceMs(queryrate, threadCount) / 1000.0;
            && 0.0 < timeslice <= 1.0
            && TotalTimeslices(runtime, timeslice)
               == if Clamped(queryrate, threadCount) then 10000 * runtime
                  else (runtime * queryrate) / threadCount
  {
    RejectedRates(queryrate, threadCount);
    ClampedSlice(queryrate, threadCount);
    var ms := SliceMs(queryrate, threadCount);
    var x := runtime as real * 1000.0 / ms;
    assert x * ms == runtime as real * 1000.0;
    if !Clamped(queryrate, threadCount) {
      Ratio(queryrate, threadCount);
      var q, n := queryrate as real, threadCount as real;
      assert ms * q == 1000.0 * n;
      assert x * n * 1000.0 == x * ms * q;
      assert x * n == runtime as real * q;
      assert (runtime * queryrate) as real == runtime as real * q;
      FloorIsDiv(x, runtime * queryrate, threadCount);
    } else {
      assert x == 10000.0 * runtime as real;
    }
  }

  /** Without the clamp every slice of a thread sends one query or none, and the empty ones, fewer
      than there are seconds, all come first. */
  lemma OneOrNone(queryrate: nat, threadCount: nat, runtime: nat)
    requires 1 <= threadCount <= queryrate && runtime >= 1
    ensures var quota, slices := Quota(runtime, queryrate / threadCount),
                                 (runtime * queryrate) / threadCount;
            var empty := (runtime * (queryrate % threadCount)) / threadCount;
            && slices == quota + empty && empty < runtime
            && forall z :: 0 <= z < slices ==>
                 Schedule.SliceAt(quota, slices, z) == if z < empty then 0 else 1
  {
    hide Schedule.SliceAt;
    var k := queryrate / threadCount;
    var empty := (runtime * (queryrate % threadCount)) / threadCount;
    DivModAtLeastOne(queryrate, threadCount);
    SplitRuntime(runtime, queryrate, threadCount);
    Arith.MulLe(runtime, 1, k);
    EmptyFirst(runtime * k, empty, (runtime * queryrate) / threadCount);
  }

  lemma EmptyFirst(quota: nat, empty: nat, slices: nat)
    requires quota >= 1 && slices == quota + empty
    ensures forall z :: 0 <= z < slices ==> Schedule.SliceAt(quota, slices, z) == if z < empty then 0 else 1
  {
    forall z | 0 <= z < slices
      ensures Schedule.SliceAt(quota, slices, z) == if z < empty then 0 else 1
    {
      hide Schedule.SliceAt, Schedule.SentAfter;
      Schedule.ClosedForm(quota, slices, z);
      if empty == 0 {
        Arith.DivModUnique(quota, slices, 1, 0);
      } else {
        Arith.DivModUnique(quota, slices, 0, quota);
      }
    }
  }

  lemma SplitRuntime(runtime: nat, queryrate: nat, threadCount: nat)
    requires threadCount >= 1 && runtime >= 1
    ensures var k, r := queryrate / threadCount, queryrate % threadCount;
            && (runtime * queryrate) / threadCount == runtime * k + (runtime * r) / threadCount
            && (runtime * r) / threadCount < runtime
  {
    var k, r := queryrate / threadCount, queryrate % threadCount;
    Arith.DivMod(queryrate, threadCount);
    var left := runtime * r;
    assert left >= 0 by { Arith.MulLe(runtime, 0, r); }
    Arith.DivMod(left, threadCount);
    SplitQuotient(runtime, queryrate, threadCount, k, r, left / threadCount, left % threadCount);
  }

  lemma SplitQuotient(runtime: nat, queryrate: nat, n: nat, k: nat, r: nat, e: nat, f: nat)
    requires n >= 1 && runtime >= 1 && queryrate == n * k + r && r < n
    requires runtime * r == n * e + f && f < n
    ensures (runtime * queryrate) / n == runtime * k + e && e < runtime
  {
    var part := runtime * k;
    assert part >= 0 by { Arith.MulLe(runtime, 0, k); }
    SplitProduct(runtime, n, k, r, e, f);
    Arith.DivModUnique(runtime * queryrate, n, part + e, f);
    FewerThanRuntime(runtime, n, r, e, f);
  }

  lemma SplitProduct(runtime: nat, n: nat, k: nat, r: nat, e: nat, f: nat)
    requires runtime * r == n * e + f
    ensures runtime * (n * k + r) == n * (runtime * k + e) + f
  {
    Arith.Distribute(runtime, n * k, r);
    Arith.Distribute(n, runtime * k, e);
    Arith.Regroup(runtime, n, k);
  }

  lemma FewerThanRuntime(runtime: nat, n: nat, r: nat, e: nat, f: nat)
    requires runtime >= 1 && r < n && runtime * r == n * e + f
    ensures e < runtime
  {
    if e >= runtime {
      Arith.MulLe(n, runtime, e);
      Arith.MulLe(runtime, r + 1, n);
      Arith.Distribute(runtime, r, 1);
      assert false;
    }
  }

  /** All threads together are given runtime * (q mod n) queries fewer than asked for: nothing is lost
      exactly when the thread count divides the rate. */
  lemma QuotaOfAllThreads(queryrate: nat, threadCount: nat, runtime: nat)
    requires threadCount >= 1 && runtime >= 1
    ensures threadCount * Quota(runtime, queryrate / threadCount)
            == runtime * queryrate - runtime * (queryrate % threadCount)
    ensures threadCount * Quota(runtime, queryrate / threadCount) <= runtime * queryrate
    ensures threadCount * Quota(runtime, queryrate / threadCount) == runtime * queryrate
            <==> queryrate % threadCount == 0
  {
    var k, r := queryrate / threadCount, queryrate % threadCount;
    assert queryrate == threadCount * k + r;
    Arith.Distribute(runtime, threadCount * k, r);
    assert threadCount * (runtime * k) == runtime * (threadCount * k);
    Arith.MulLe(runtime, 0, r);
    if r >= 1 {
      Arith.MulLe(runtime, 1, r);
    }
  }

  // Results.

  const U64 := 0x1_0000_0000_0000_0000

  /** Subtraction of two `ppluint64` values, which wraps when the result would be negative. (Both are
      below 2^64, so the last case is not reached.) */
  function Minus64(a: nat, b: nat): nat {
    if a >= b then a - b
    else if b - a <= U64 then U64 - (b - a)
    else 0
  }

  lemma NoWrap(a: nat, b: nat)
    ensures a >= b ==> Minus64(a, b) == a - b
  {
  }

  datatype Results = Results(
    send: nat, received: nat, bytesSend: nat, bytesReceived: nat, errors: nat, lost: nat,
    zeroBytes: nat, errorcodes: seq<nat>, rcodes: seq<nat>, truncated: nat,
    rttTotal: int, rttAvg: real, rttMin: int, rttMax: int)

  predicate ProperSizes(r: Results) {
    |r.errorcodes| == ERROR_CODES && |r.rcodes| == Receiver.RCODES
  }

  const NoResults := Results(0, 0, 0, 0, 0, 0, 0, seq(ERROR_CODES, _ => 0), seq(Receiver.RCODES, _ => 0), 0,
                             0, 0.0, 0, 0)

  function Average(total: int, count: nat): real {
    if count == 0 then 0.0 else total as real / count as real
  }

  function Differences(a: seq<nat>, b: seq<nat>): (r: seq<nat>)
    requires |a| == |b|
    ensures |r| == |a| && forall i :: 0 <= i < |r| ==> r[i] == Minus64(a[i], b[i])
  {
    seq(|a|, i requires 0 <= i < |a| => Minus64(a[i], b[i]))
  }

  /** `operator-` */
  function Difference(second: Results, first: Results): Results
    requires ProperSizes(second) && ProperSizes(first)
  {
    Results(Minus64(second.send, first.send), Minus64(second.received, first.received),
            Minus64(second.bytesSend, first.bytesSend),
            Minus64(second.bytesReceived, first.bytesReceived),
            Minus64(second.errors, first.errors), Minus64(second.lost, first.lost),
            Minus64(second.zeroBytes, first.zeroBytes),
            Differences(second.errorcodes, first.errorcodes),
            Differences(second.rcodes, first.rcodes),
            Minus64(second.truncated, first.truncated),
            second.rttTotal - first.rttTotal,
            Average(second.rttTotal - first.rttTotal, Minus64(second.received, first.received)),
            second.rttMin - first.rttMin, second.rttMax - first.rttMax)
  }

  // What is shown every second.

  /** The four figures that `showCurrentStats` prints: queries, answers, and the data in both
      directions in whole kilobytes. */
  datatype Shown = Shown(send: nat, received: nat, kbSend: nat, kbReceived: nat)

  function Figures(diff: Results): Shown {
    Shown(diff.send, diff.received, diff.bytesSend / 1024, diff.bytesReceived / 1024)
  }

  predicate NotBefore(second: Results, first: Results) {
    && ProperSizes(second) && ProperSizes(first)
    && first.send <= second.send && first.received <= second.received
    && first.bytesSend <= second.bytesSend && first.bytesReceived <= second.bytesReceived
  }

  /** Later reports have counted at least as much. */
  predicate Growing(previous: Results, reports: seq<Results>)
    decreases |reports|
  {
    reports == [] || (NotBefore(reports[0], previous) && Growing(reports[0], reports[1..]))
  }

  /** What a series of calls of `showCurrentStats` shows, all together: each takes the difference to
      the report before. */
  function SumShown(previous: Results, reports: seq<Results>): Shown
    requires ProperSizes(previous) && Growing(previous, reports)
    decreases |reports|
  {
    if reports == [] then Shown(0, 0, 0, 0)
    else Plus(Figures(Difference(reports[0], previous)), SumShown(reports[0], reports[1..]))
  }

  function Plus(a: Shown, b: Shown): Shown {
    Shown(a.send + b.send, a.received + b.received, a.kbSend + b.kbSend, a.kbReceived + b.kbReceived)
  }

  lemma FiguresOfDifference(second: Results, first: Results)
    requires NotBefore(second, first)
    ensures Figures(Difference(second, first))
            == Shown(second.send - first.send, second.received - first.received,
                     (second.bytesSend - first.bytesSend) / 1024,
                     (second.bytesReceived - first.bytesReceived) / 1024)
  {
    hide Average, Differences;
  }

  /** Between `kb` kilobytes and less than one more for each of the reports. */
  predicate Kilobytes(bytes: int, kb: nat, reports: nat) {
    1024 * kb <= bytes <= 1024 * kb + 1023 * reports
  }

  /** Of queries and answers nothing is shown twice or left out: what has been shown adds up to what
      the last report has more than the first. Of the data, less than a kilobyte is lost in each
      report. */
  lemma {:induction false} ShownAddsUp(previous: Results, reports: seq<Results>)
    requires ProperSizes(previous) && Growing(previous, reports) && reports != []
    ensures var last, sum := reports[|reports| - 1], SumShown(previous, reports);
            && sum.send == last.send - previous.send
            && sum.received == last.received - previous.received
            && Kilobytes(last.bytesSend - previous.bytesSend, sum.kbSend, |reports|)
            && Kilobytes(last.bytesReceived - previous.bytesReceived, sum.kbReceived, |reports|)
    decreases |reports|
  {
    hide Difference, Figures;
    FiguresOfDifference(reports[0], previous);
    if |reports| > 1 {
      ShownAddsUp(reports[0], reports[1..]);
    }
  }

  /** The lost queries of a report: what was sent and not answered. */
  function LostOf(send: nat, received: nat): nat {
    if send > received then send - received else 0
  }

  /** The subtraction of two reports also subtracts the lost queries, which need not grow: the result
      wraps around exactly when there were lost queries and more answers than queries have come since. */
  lemma LostDifference(second: Results, first: Results)
    requires NotBefore(second, first) && first.send < U64 && second.send < U64
    requires first.lost == LostOf(first.send, first.received)
    requires second.lost == LostOf(second.send, second.received)
    ensures Difference(second, first).lost == second.lost - first.lost <==>
            || first.send <= first.received
            || second.received - first.received <= second.send - first.send
  {
    hide Average, Differences;
  }

  /** A late answer between two reports shows it. */
  lemma LostWraps()
    ensures var first := NoResults.(send := 1, lost := 1);
            var second := NoResults.(send := 1, received := 1);
            && NotBefore(second, first)
            && Difference(second, first).lost == 0xffff_ffff_ffff_ffff
  {
    hide Average, Differences;
  }

  // Sums over the threads.

  function SumSend(ts: seq<DNSSenderThread>): nat
    reads ts
  {
    if ts == [] then 0 else SumSend(ts[..|ts| - 1]) + ts[|ts| - 1].packetsSend
  }

  function SumBytes(ts: seq<DNSSenderThread>): nat
    reads ts
  {
    if ts == [] then 0 else SumBytes(ts[..|ts| - 1]) + ts[|ts| - 1].bytesSend
  }

  function SumErrors(ts: seq<DNSSenderThread>): nat
    reads ts
  {
    if ts == [] then 0 else SumErrors(ts[..|ts| - 1]) + ts[|ts| - 1].errors
  }

  function SumZero(ts: seq<DNSSenderThread>): nat
    reads ts
  {
    if ts == [] then 0 else SumZero(ts[..|ts| - 1]) + ts[|ts| - 1].zeroBytes
  }

  function SumTotal(ts: seq<DNSSenderThread>): nat
    reads ts
  {
    if ts == [] then 0 else SumTotal(ts[..|ts| - 1]) + ts[|ts| - 1].Total()
  }

  function SumCode(ts: seq<DNSSenderThread>, code: nat): nat
    requires forall t :: t in ts ==> code < t.errorcodes.Length
    reads set t | t in ts :: t.errorcodes
  {
    if ts == [] then 0
    else
      assert ts[|ts| - 1] in ts;
      SumCode(ts[..|ts| - 1], code) + ts[|ts| - 1].errorcodes[code]
  }

  lemma {:induction false} SumsAddUp(ts: seq<DNSSenderThread>)
    ensures SumSend(ts) + SumErrors(ts) + SumZero(ts) == SumTotal(ts)
    decreases |ts|
  {
    if ts != [] {
      SumsAddUp(ts[..|ts| - 1]);
    }
  }

  /** What the sums are, for whatever numbers the threads hold. */
  lemma {:induction false} SumsOfThreads(ts: seq<DNSSenderThread>, sends: seq<nat>, bytes: seq<nat>,
                                         errors: seq<nat>, zeros: seq<nat>)
    requires |ts| == |sends| == |bytes| == |errors| == |zeros|
    requires forall i :: 0 <= i < |ts| ==>
               ts[i].packetsSend == sends[i] && ts[i].bytesSend == bytes[i]
               && ts[i].errors == errors[i] && ts[i].zeroBytes == zeros[i]
    ensures SumSend(ts) == Arith.Sum(sends) && SumBytes(ts) == Arith.Sum(bytes)
    ensures SumErrors(ts) == Arith.Sum(errors) && SumZero(ts) == Arith.Sum(zeros)
    decreases |ts|
  {
    if ts != [] {
      var n := |ts| - 1;
      SumsOfThreads(ts[..n], sends[..n], bytes[..n], errors[..n], zeros[..n]);
    }
  }

  lemma {:induction false} SumOfCodes(ts: seq<DNSSenderThread>, code: nat, counts: seq<nat>)
    requires |ts| == |counts| && forall t :: t in ts ==> code < t.errorcodes.Length
    requires forall i :: 0 <= i < |ts| ==> ts[i] in ts && ts[i].errorcodes[code] == counts[i]
    ensures SumCode(ts, code) == Arith.Sum(counts)
    decreases |ts|
  {
    if ts != [] {
      var n := |ts| - 1;
      forall i | 0 <= i < n
        ensures ts[..n][i] in ts[..n] && ts[..n][i] == ts[i]
      {
      }
      SumOfCodes(ts[..n], code, counts[..n]);
    }
  }

  class DNSSender {
    const threads: seq<DNSSenderThread>
    const counter: Receiver.Counter?
    var timeslices: real
    var visPrevResults: Results

    ghost predicate Valid() {
      && threads != []
      && (forall t :: t in threads ==> t.errorcodes.Length == ERROR_CODES)
      && (counter != null ==> counter.Valid())
    }

    constructor (threads: seq<DNSSenderThread>, counter: Receiver.Counter?)
      requires threads != [] && (counter != null ==> counter.Valid())
      requires forall t :: t in threads ==> t.errorcodes.Length == ERROR_CODES
      ensures Valid() && this.threads == threads && this.counter == counter
      ensures timeslices == 1.0 && visPrevResults == NoResults
    {
      this.threads, this.counter := threads, counter;
      timeslices, visPrevResults := 1.0, NoResults;
    }

    method CalcTimeslice(queryrate: nat)
      requires queryrate >= 1
      modifies this`timeslices
      ensures timeslices == SliceMs(queryrate, |threads|)
    {
      timeslices := 1000.0 / queryrate as real * |threads| as real;
      if timeslices < 0.1 {
        timeslices := 0.1;
      }
    }

    /** The start of `run`: every thread gets its share of the rate and the timeslice. False where
        `setTimeslice` throws. */
    method ConfigureThreads(queryrate: nat) returns (ok: bool)
      requires Valid() && 0.0 < timeslices <= 1000.0
      modifies this`timeslices, this`visPrevResults, set t | t in threads :: t`queryrate,
               set t | t in threads :: t`timeslice
      ensures ok <==> queryrate == 0 || queryrate >= |threads|
      ensures timeslices == if queryrate == 0 then old(timeslices) else SliceMs(queryrate, |threads|)
      ensures ok ==> visPrevResults == NoResults
      ensures ok ==> forall t :: t in threads ==>
                t.queryrate == queryrate / |threads| && t.timeslice == timeslices / 1000.0
    {
      if queryrate != 0 {
        CalcTimeslice(queryrate);
        RejectedRates(queryrate, |threads|);
      }
      for i := 0 to |threads|
        invariant i > 0 ==> timeslices <= 1000.0
        invariant timeslices == if queryrate == 0 then old(timeslices) else SliceMs(queryrate, |threads|)
        invariant forall t :: t in threads[..i] ==>
                    t.queryrate == queryrate / |threads| && t.timeslice == timeslices / 1000.0
      {
        assert threads[i] in threads;
        threads[i].SetQueryRate(queryrate / |threads|);
        var accepted := threads[i].SetTimeslice(timeslices);
        if !accepted {
          return false;
        }
      }
      assert threads[..|threads|] == threads;
      visPrevResults := NoResults;
      return true;
    }

    /** What the threads and the receiver have counted so far. */
    ghost predicate Gathered(result: Results)
      requires Valid()
      reads threads, counter, set t | t in threads :: t.errorcodes,
            if counter != null then {counter.rcodes} else {}
    {
      && ProperSizes(result)
      && result.send == SumSend(threads) && result.bytesSend == SumBytes(threads)
      && result.errors == SumErrors(threads) && result.zeroBytes == SumZero(threads)
      && (forall c :: 0 <= c < ERROR_CODES ==> result.errorcodes[c] == SumCode(threads, c))
      && result.send + result.errors + result.zeroBytes == SumTotal(threads)
      && result.lost == LostOf(result.send, result.received)
      && (counter == null ==> result.received == 0 && result.bytesReceived == 0)
      && (counter != null ==>
            && result.received == counter.numPkgs && result.bytesReceived == counter.bytesRcv
            && result.rcodes == counter.rcodes[..] && result.truncated == counter.truncated
            && result.rttTotal == counter.rttTotal && result.rttMin == counter.rttMin
            && result.rttMax == counter.rttMax
            && result.rttAvg == if counter.numPkgs == 0 then 0.0
                                else counter.rttTotal as real / counter.numPkgs as real)
    }

    /** `getResults` */
    method GetResults() returns (result: Results)
      requires Valid()
      ensures Gathered(result)
    {
      var sums := SumThreads();
      result := sums;
      if counter != null {
        result := result.(received := counter.numPkgs, bytesReceived := counter.bytesRcv,
                          rttTotal := counter.rttTotal,
                          rttAvg := Average(counter.rttTotal, counter.numPkgs),
                          rttMin := counter.rttMin, rttMax := counter.rttMax,
                          rcodes := counter.rcodes[..], truncated := counter.truncated);
      }
      hide Minus64;
      NoWrap(result.send, result.received);
      result := result.(lost := Minus64(result.send, result.received));
      if result.received > result.send {
        result := result.(lost := 0);
      }
    }

    /** The loop of `getResults` over the threads. */
    method SumThreads() returns (result: Results)
      requires Valid()
      ensures ProperSizes(result)
      ensures result == NoResults.(send := SumSend(threads), bytesSend := SumBytes(threads),
                                   errors := SumErrors(threads), zeroBytes := SumZero(threads),
                                   errorcodes := result.errorcodes)
      ensures forall c :: 0 <= c < ERROR_CODES ==> result.errorcodes[c] == SumCode(threads, c)
      ensures result.send + result.errors + result.zeroBytes == SumTotal(threads)
    {
      var send, bytes, errors, zero := 0, 0, 0, 0;
      var codes := NoResults.errorcodes;
      for i := 0 to |threads|
        invariant send == SumSend(threads[..i]) && bytes == SumBytes(threads[..i])
        invariant errors == SumErrors(threads[..i]) && zero == SumZero(threads[..i])
        invariant |codes| == ERROR_CODES
        invariant forall c :: 0 <= c < ERROR_CODES ==> codes[c] == SumCode(threads[..i], c)
      {
        var thread := threads[i];
        assert threads[..i + 1][..i] == threads[..i];
        send := send + thread.packetsSend;
        bytes := bytes + thread.bytesSend;
        errors := errors + thread.errors;
        zero := zero + thread.zeroBytes;
        codes := AddCodes(thread, codes);
      }
      assert threads[..|threads|] == threads;
      SumsAddUp(threads);
      result := NoResults.(send := send, bytesSend := bytes, errors := errors, zeroBytes := zero,
                           errorcodes := codes);
    }

    /** The inner loop of `getResults`. */
    method AddCodes(thread: DNSSenderThread, codes: seq<nat>) returns (r: seq<nat>)
      requires thread.errorcodes.Length == ERROR_CODES && |codes| == ERROR_CODES
      ensures |r| == ERROR_CODES
      ensures forall c :: 0 <= c < ERROR_CODES ==> r[c] == codes[c] + thread.errorcodes[c]
    {
      r := codes;
      for i := 0 to ERROR_CODES
        invariant |r| == ERROR_CODES
        invariant forall c :: 0 <= c < ERROR_CODES ==>
                    r[c] == codes[c] + (if c < i then thread.errorcodes[c] else 0)
      {
        r := r[i := r[i] + thread.errorcodes[i]];
      }
    }

    /** Shows the difference to the report before, and remembers the new one. */
    method ShowCurrentStats() returns (shown: Shown)
      requires Valid() && ProperSizes(visPrevResults)
      modifies this`visPrevResults
      ensures Gathered(visPrevResults)
      ensures shown == Figures(Difference(visPrevResults, old(visPrevResults)))
    {
      var result := GetResults();
      shown := Figures(Difference(result, visPrevResults));
      visPrevResults := result;
    }
  }
}
