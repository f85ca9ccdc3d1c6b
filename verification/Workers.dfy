/** All sender threads together: `threads` workers run the paced loop, each with its own counters and
    DNSSEC accumulator, and take entries from one shared cursor. A run is any interleaving of their
    atomic steps. (A captured payload is the case of rate zero: it never moves the accumulator.) */
module Workers {
  import Arith
  import DnssecSpread
  import opened Payload
  import opened Schedule

  datatype Config = Config(threads: nat, entries: nat, quota: nat, slices: nat, rate: nat)

  predicate GoodConfig(c: Config) {
    c.entries >= 1 && c.slices >= 1 && c.rate <= 100
  }

  /** Where a worker is: between two timeslices, inside one with `left` calls of `sendPacket` still to
      be finished, inside such a call and holding an entry, or out of the loop. */
  datatype Phase = Between | Slice(left: nat) | InCall(left: nat, entry: nat) | Done(early: bool)

  datatype Worker = Worker(phase: Phase, z: nat, rest: nat, send: nat, errors: nat, zero: nat,
                           accumulator: nat, flagged: nat)
  {
    function Calls(): nat {
      send + errors + zero
    }

    /** Calls of `getQuery`: one more than finished calls while inside one. */
    function Fetched(): nat {
      Calls() + (if phase.InCall? then 1 else 0)
    }
  }

  /** `handed` is the history of entries given out by `getQuery`. */
  datatype State = State(workers: seq<Worker>, cursor: nat, handed: seq<nat>)

  datatype Outcome = Sent | Failed | Zero

  datatype Step =
    | Begin(w: nat)
    | Fetch(w: nat)
    | Deliver(w: nat, outcome: Outcome)
    | End(w: nat, stop: bool)

  function Init(c: Config): State {
    State(seq(c.threads, _ => Worker(Between, 0, c.quota, 0, 0, 0, 0, 0)), 0, [])
  }

  predicate Enabled(c: Config, s: State, step: Step) {
    && step.w < |s.workers|
    && var w := s.workers[step.w];
       match step
       case Begin(_) => w.phase.Between? && w.z < c.slices
       case Fetch(_) => w.phase.Slice? && w.phase.left > 0
       case Deliver(_, _) => w.phase.InCall? && w.phase.left > 0
       case End(_, _) =>
         w.phase == Slice(0) && w.z < c.slices
  }

  /** What a step does to the worker that takes it. */
  function TakeStep(c: Config, w: Worker, step: Step, cursor: nat): Worker
    requires match step
             case Begin(_) => w.z < c.slices
             case Fetch(_) => w.phase.Slice?
             case Deliver(_, _) => w.phase.InCall? && w.phase.left > 0
             case End(_, _) => w.z < c.slices
  {
    match step
    case Begin(_) => w.(phase := Slice(SliceQuota(w.rest, c.slices - w.z)))
    case Fetch(_) =>
      w.(phase := InCall(w.phase.left, cursor),
         accumulator := DnssecSpread.NextAccumulator(w.accumulator, c.rate),
         flagged := w.flagged + (if DnssecSpread.Fires(w.accumulator, c.rate) then 1 else 0))
    case Deliver(_, outcome) =>
      var v := w.(phase := Slice(w.phase.left - 1));
      (match outcome
       case Sent => v.(send := v.send + 1)
       case Failed => v.(errors := v.errors + 1)
       case Zero => v.(zero := v.zero + 1))
    case End(_, stop) =>
      QuotaFits(w.rest, c.slices - w.z);
      w.(rest := w.rest - SliceQuota(w.rest, c.slices - w.z), z := w.z + 1,
         phase := if stop then Done(true) else if w.z + 1 == c.slices then Done(false) else Between)
  }

  function Apply(c: Config, s: State, step: Step): State
    requires Enabled(c, s, step)
    requires s.cursor < c.entries
  {
    var workers := s.workers[step.w := TakeStep(c, s.workers[step.w], step, s.cursor)];
    if step.Fetch?
    then State(workers, NextTurn(c.entries, s.cursor), s.handed + [s.cursor])
    else State(workers, s.cursor, s.handed)
  }

  // The invariant.

  predicate GoodWorker(c: Config, w: Worker) {
    && w.z <= c.slices && w.rest == RestAfter(c.quota, c.slices, w.z)
    && (match w.phase
        case Between => w.z < c.slices && w.Calls() == SentAfter(c.quota, c.slices, w.z)
        case Slice(left) =>
          w.z < c.slices && w.Calls() + left == SentAfter(c.quota, c.slices, w.z + 1)
        case InCall(left, _) =>
          w.z < c.slices && left > 0 && w.Calls() + left == SentAfter(c.quota, c.slices, w.z + 1)
        case Done(early) =>
          (early || w.z == c.slices) && w.Calls() == SentAfter(c.quota, c.slices, w.z))
    && w.accumulator == DnssecSpread.AccumulatorAfter(c.rate, w.Fetched())
    && w.flagged == DnssecSpread.FlaggedAfter(c.rate, w.Fetched())
  }

  function CallsOf(ws: seq<Worker>): (r: seq<nat>)
    ensures |r| == |ws| && forall i :: 0 <= i < |ws| ==> r[i] == ws[i].Calls()
  {
    seq(|ws|, i requires 0 <= i < |ws| => ws[i].Calls())
  }

  function FetchedOf(ws: seq<Worker>): (r: seq<nat>)
    ensures |r| == |ws| && forall i :: 0 <= i < |ws| ==> r[i] == ws[i].Fetched()
  {
    seq(|ws|, i requires 0 <= i < |ws| => ws[i].Fetched())
  }

  predicate Inv(c: Config, s: State) {
    && |s.workers| == c.threads
    && (forall i :: 0 <= i < |s.workers| ==> GoodWorker(c, s.workers[i]))
    && c.entries >= 1 && s.cursor == TurnAt(c.entries, |s.handed|)
    && (forall k :: 0 <= k < |s.handed| ==> s.handed[k] == TurnAt(c.entries, k))
    && Arith.Sum(FetchedOf(s.workers)) == |s.handed|
  }

  lemma InitInv(c: Config)
    requires GoodConfig(c)
    ensures Inv(c, Init(c))
  {
    var s := Init(c);
    assert RestAfter(c.quota, c.slices, 0) == c.quota;
    Arith.SumConstant(FetchedOf(s.workers), 0);
  }

  lemma TakeStepKeepsGood(c: Config, w: Worker, step: Step, cursor: nat)
    requires GoodConfig(c) && GoodWorker(c, w)
    requires match step
             case Begin(_) => w.phase.Between?
             case Fetch(_) => w.phase.Slice? && w.phase.left > 0
             case Deliver(_, _) => w.phase.InCall?
             case End(_, _) => w.phase == Slice(0)
    ensures var v := TakeStep(c, w, step, cursor);
            && GoodWorker(c, v)
            && v.Fetched() == w.Fetched() + (if step.Fetch? then 1 else 0)
            && v.send >= w.send && v.errors >= w.errors && v.zero >= w.zero
            && v.Calls() == w.Calls() + (if step.Deliver? then 1 else 0)
  {
    if w.z < c.slices {
      QuotaFits(w.rest, c.slices - w.z);
      assert RestAfter(c.quota, c.slices, w.z + 1) == w.rest - SliceQuota(w.rest, c.slices - w.z);
      RestIsBounded(c.quota, c.slices, w.z);
    }
    assert DnssecSpread.AccumulatorAfter(c.rate, w.Fetched() + 1)
        == DnssecSpread.NextAccumulator(w.accumulator, c.rate);
  }

  lemma StepKeepsInv(c: Config, s: State, step: Step)
    requires GoodConfig(c) && Inv(c, s) && Enabled(c, s, step)
    ensures Inv(c, Apply(c, s, step))
  {
    hide GoodWorker, TakeStep;
    var w := s.workers[step.w];
    TakeStepKeepsGood(c, w, step, s.cursor);
    var v := TakeStep(c, w, step, s.cursor);
    var t := Apply(c, s, step);
    assert FetchedOf(t.workers) == FetchedOf(s.workers)[step.w := v.Fetched()];
    Arith.SumUpdate(FetchedOf(s.workers), step.w, v.Fetched());
  }

  /** A run: states linked by enabled steps, from the initial one. */
  ghost predicate IsRun(c: Config, run: seq<State>, steps: seq<Step>) {
    && |run| == |steps| + 1 && run[0] == Init(c)
    && forall i :: 0 <= i < |steps| ==>
         run[i].cursor < c.entries && Enabled(c, run[i], steps[i])
         && run[i + 1] == Apply(c, run[i], steps[i])
  }

  lemma {:induction false} RunInv(c: Config, run: seq<State>, steps: seq<Step>, i: nat)
    requires GoodConfig(c) && IsRun(c, run, steps) && i < |run|
    ensures Inv(c, run[i])
  {
    if i == 0 {
      InitInv(c);
    } else {
      RunInv(c, run, steps, i - 1);
      StepKeepsInv(c, run[i - 1], steps[i - 1]);
    }
  }

  // Quota conservation.

  function Total(s: State): nat {
    Arith.Sum(CallsOf(s.workers))
  }

  predicate AllDone(s: State, early: bool) {
    forall i :: 0 <= i < |s.workers| ==> s.workers[i].phase.Done? && (s.workers[i].phase.early ==> early)
  }

  lemma WorkerQuota(c: Config, w: Worker)
    requires GoodConfig(c) && GoodWorker(c, w)
    ensures w.Calls() <= c.quota
    ensures w.phase == Done(false) ==> w.Calls() == c.quota
  {
    ScheduleShape(c.quota, c.slices);
  }

  /** In every reachable state of every interleaving, the packets sent, the errors and the empty sends
      of all threads together are no more than the threads' quotas, and they are exactly that once
      all threads are through without an early stop. */
  lemma QuotaConservation(c: Config, run: seq<State>, steps: seq<Step>, i: nat)
    requires GoodConfig(c) && IsRun(c, run, steps) && i < |run|
    ensures Total(run[i]) <= c.threads * c.quota
    ensures AllDone(run[i], false) ==> Total(run[i]) == c.threads * c.quota
  {
    RunInv(c, run, steps, i);
    var ws := run[i].workers;
    forall k | 0 <= k < |ws|
      ensures ws[k].Calls() <= c.quota
      ensures ws[k].phase == Done(false) ==> ws[k].Calls() == c.quota
    {
      WorkerQuota(c, ws[k]);
    }
    var full := seq(|ws|, _ => c.quota);
    Arith.SumConstant(full, c.quota);
    Arith.SumMonotone(CallsOf(ws), full);
    if AllDone(run[i], false) {
      Arith.SumConstant(CallsOf(ws), c.quota);
    }
  }

  // Progress.

  /** An upper bound on the steps that a worker can still take. */
  function StepsLeft(c: Config, w: Worker): int {
    match w.phase
    case Between => 2 * (c.slices - w.z) + 2 * (c.quota - w.Calls())
    case Slice(_) => 2 * (c.slices - w.z) - 1 + 2 * (c.quota - w.Calls())
    case InCall(_, _) => 2 * (c.slices - w.z) - 2 + 2 * (c.quota - w.Calls())
    case Done(_) => 0
  }

  lemma StepsLeftNonNegative(c: Config, w: Worker)
    requires GoodConfig(c) && GoodWorker(c, w)
    ensures StepsLeft(c, w) >= 0
  {
    WorkerQuota(c, w);
  }

  function StepsLeftOf(c: Config, s: State): (r: seq<nat>)
    requires GoodConfig(c) && Inv(c, s)
    ensures |r| == |s.workers| && forall i :: 0 <= i < |r| ==> r[i] == StepsLeft(c, s.workers[i])
  {
    seq(|s.workers|, i requires 0 <= i < |s.workers| =>
      StepsLeftNonNegative(c, s.workers[i]); StepsLeft(c, s.workers[i]))
  }

  lemma StepUsesUp(c: Config, s: State, step: Step)
    requires GoodConfig(c) && Inv(c, s) && Enabled(c, s, step)
    requires Inv(c, Apply(c, s, step))
    ensures Arith.Sum(StepsLeftOf(c, Apply(c, s, step))) < Arith.Sum(StepsLeftOf(c, s))
  {
    var w := s.workers[step.w];
    TakeStepKeepsGood(c, w, step, s.cursor);
    var t := Apply(c, s, step);
    var v := t.workers[step.w];
    StepsLeftNonNegative(c, v);
    WorkerQuota(c, w);
    assert StepsLeft(c, v) < StepsLeft(c, w);
    assert StepsLeftOf(c, t) == StepsLeftOf(c, s)[step.w := StepsLeft(c, v)];
    Arith.SumUpdate(StepsLeftOf(c, s), step.w, StepsLeft(c, v));
  }

  /** No run is longer than two steps for every slice and every query of every thread. */
  lemma {:induction false} RunsAreBounded(c: Config, run: seq<State>, steps: seq<Step>, i: nat)
    requires GoodConfig(c) && IsRun(c, run, steps) && i < |run|
    requires Inv(c, run[i])
    ensures i + Arith.Sum(StepsLeftOf(c, run[i])) <= c.threads * (2 * (c.slices + c.quota))
  {
    if i == 0 {
      Arith.SumConstant(StepsLeftOf(c, run[0]), 2 * (c.slices + c.quota));
    } else {
      RunInv(c, run, steps, i - 1);
      RunsAreBounded(c, run, steps, i - 1);
      StepUsesUp(c, run[i - 1], steps[i - 1]);
    }
  }

  /** No thread ever waits for another: as long as one is not through, it has a step to take. So a run
      that cannot be continued has every thread through. */
  lemma NoDeadlock(c: Config, s: State, i: nat) returns (step: Step)
    requires GoodConfig(c) && Inv(c, s) && i < |s.workers| && !s.workers[i].phase.Done?
    ensures step.w == i && Enabled(c, s, step)
  {
    var w := s.workers[i];
    match w.phase {
      case Between => step := Begin(i);
      case Slice(left) => step := if left > 0 then Fetch(i) else End(i, false);
      case InCall(_, _) => step := Deliver(i, Sent);
      case Done(_) => assert false;
    }
  }

  lemma {:induction false} EarlyNeedsStop(c: Config, run: seq<State>, steps: seq<Step>, i: nat, k: nat)
    requires GoodConfig(c) && IsRun(c, run, steps) && i < |run|
    requires forall j :: 0 <= j < |steps| ==> !(steps[j].End? && steps[j].stop)
    requires k < |run[i].workers|
    ensures run[i].workers[k].phase != Done(true)
  {
    if i > 0 {
      EarlyNeedsStop(c, run, steps, i - 1, k);
    }
  }

  /** A run that cannot be continued and in which no thread was told to stop has sent exactly every
      thread's quota. */
  lemma CompletedRun(c: Config, run: seq<State>, steps: seq<Step>)
    requires GoodConfig(c) && IsRun(c, run, steps)
    requires forall step :: !Enabled(c, run[|steps|], step)
    requires forall j :: 0 <= j < |steps| ==> !(steps[j].End? && steps[j].stop)
    ensures Total(run[|steps|]) == c.threads * c.quota
    ensures |steps| <= c.threads * (2 * (c.slices + c.quota))
  {
    var s := run[|steps|];
    RunInv(c, run, steps, |steps|);
    forall k | 0 <= k < |s.workers|
      ensures s.workers[k].phase.Done? && !s.workers[k].phase.early
    {
      if !s.workers[k].phase.Done? {
        var step := NoDeadlock(c, s, k);
      }
      EarlyNeedsStop(c, run, steps, |steps|, k);
    }
    QuotaConservation(c, run, steps, |steps|);
    RunsAreBounded(c, run, steps, |steps|);
  }

  // The shared cursor.

  lemma {:induction false} CountIsTimes(xs: seq<nat>, n: nat, x: nat)
    requires n >= 1 && forall k :: 0 <= k < |xs| ==> xs[k] == TurnAt(n, k)
    ensures multiset(xs)[x] == TimesHandedOut(n, |xs|, x)
    decreases |xs|
  {
    if xs != [] {
      CountIsTimes(xs[..|xs| - 1], n, x);
      assert xs == xs[..|xs| - 1] + [xs[|xs| - 1]];
    }
  }

  /** However the threads interleave, the entries are handed out evenly: with m calls so far, each of
      the N entries `m div N` times, the first `m mod N` once more; and m is the number of finished
      calls of `sendPacket` plus those under way, at most one for each thread. */
  lemma FairInterleaving(c: Config, run: seq<State>, steps: seq<Step>, i: nat, entry: nat)
    requires GoodConfig(c) && IsRun(c, run, steps) && i < |run| && entry < c.entries
    ensures var m := |run[i].handed|;
            multiset(run[i].handed)[entry] == m / c.entries + (if entry < m % c.entries then 1 else 0)
    ensures Total(run[i]) <= |run[i].handed| <= Total(run[i]) + c.threads
  {
    RunInv(c, run, steps, i);
    var s := run[i];
    CountIsTimes(s.handed, c.entries, entry);
    Fairness(c.entries, |s.handed|, entry);
    Arith.SumMonotone(CallsOf(s.workers), FetchedOf(s.workers));
    FetchedAtMostOneMore(s.workers);
  }

  lemma {:induction false} FetchedAtMostOneMore(ws: seq<Worker>)
    ensures Arith.Sum(FetchedOf(ws)) <= Arith.Sum(CallsOf(ws)) + |ws|
    decreases |ws|
  {
    if ws != [] {
      var front := ws[..|ws| - 1];
      FetchedAtMostOneMore(front);
      assert FetchedOf(ws)[..|ws| - 1] == FetchedOf(front);
      assert CallsOf(ws)[..|ws| - 1] == CallsOf(front);
    }
  }

  // DNSSEC flags.

  function FlaggedOf(ws: seq<Worker>): (r: seq<nat>)
    ensures |r| == |ws| && forall i :: 0 <= i < |ws| ==> r[i] == ws[i].flagged
  {
    seq(|ws|, i requires 0 <= i < |ws| => ws[i].flagged)
  }

  lemma {:induction false} FlaggedIsTotal(c: Config, ws: seq<Worker>)
    requires forall i :: 0 <= i < |ws| ==> GoodWorker(c, ws[i])
    ensures Arith.Sum(FlaggedOf(ws)) == DnssecSpread.TotalFlagged(c.rate, FetchedOf(ws))
    decreases |ws|
  {
    if ws != [] {
      var front := ws[..|ws| - 1];
      FlaggedIsTotal(c, front);
      assert FlaggedOf(ws)[..|ws| - 1] == FlaggedOf(front);
      assert FetchedOf(ws)[..|ws| - 1] == FetchedOf(front);
    }
  }

  /** In every reachable state, of the queries taken so far by all threads the share that carries the
      flags is the configured percentage, short of it by less than one query a thread. */
  lemma DnssecShare(c: Config, run: seq<State>, steps: seq<Step>, i: nat)
    requires GoodConfig(c) && IsRun(c, run, steps) && i < |run|
    ensures var flagged := Arith.Sum(FlaggedOf(run[i].workers));
            100 * flagged <= c.rate * |run[i].handed| <= 100 * flagged + 99 * c.threads
  {
    RunInv(c, run, steps, i);
    FlaggedIsTotal(c, run[i].workers);
    DnssecSpread.ThreadsShare(c.rate, FetchedOf(run[i].workers));
  }

  // Reading the counters while the threads run (`getResults`).

  /** When the three counters of one thread are read. */
  datatype Moment = Moment(send: nat, errors: nat, zero: nat)

  predicate Within(ms: seq<Moment>, first: int, last: int) {
    forall k :: 0 <= k < |ms| ==>
      first <= ms[k].send <= last && first <= ms[k].errors <= last && first <= ms[k].zero <= last
  }

  lemma {:induction false} CountersGrow(c: Config, run: seq<State>, steps: seq<Step>, i: nat, j: nat,
                                        k: nat)
    requires GoodConfig(c) && IsRun(c, run, steps) && i <= j < |run|
    requires k < c.threads
    ensures k < |run[i].workers| && k < |run[j].workers|
    ensures var v, w := run[i].workers[k], run[j].workers[k];
            v.send <= w.send && v.errors <= w.errors && v.zero <= w.zero
    decreases j
  {
    hide GoodWorker, TakeStep;
    RunInv(c, run, steps, i);
    if i < j {
      CountersGrow(c, run, steps, i, j - 1, k);
      RunInv(c, run, steps, j - 1);
      TakeStepKeepsGood(c, run[j - 1].workers[steps[j - 1].w], steps[j - 1], run[j - 1].cursor);
    }
  }

  /** What `getResults` adds up when it reads thread k's counters at the moments `ms[k]`. */
  function GatheredTotals(run: seq<State>, ms: seq<Moment>): (r: seq<nat>)
    requires forall j :: 0 <= j < |run| ==> |run[j].workers| == |ms|
    requires Within(ms, 0, |run| - 1)
    ensures |r| == |ms|
  {
    seq(|ms|, k requires 0 <= k < |ms| =>
      run[ms[k].send].workers[k].send + run[ms[k].errors].workers[k].errors
      + run[ms[k].zero].workers[k].zero)
  }

  /** Reading without a lock is harmless: the gathered total lies between the true total when the
      reading began and the true total when it ended, and so within the quota. */
  lemma GatheredBetween(c: Config, run: seq<State>, steps: seq<Step>, ms: seq<Moment>,
                        first: nat, last: nat)
    requires GoodConfig(c) && IsRun(c, run, steps) && first <= last < |run|
    requires |ms| == c.threads && Within(ms, first, last)
    ensures forall k :: 0 <= k < |run| ==> |run[k].workers| == c.threads
    ensures Total(run[first]) <= Arith.Sum(GatheredTotals(run, ms)) <= Total(run[last])
    ensures Total(run[last]) <= c.threads * c.quota
  {
    forall k | 0 <= k < |run|
      ensures |run[k].workers| == c.threads
    {
      RunInv(c, run, steps, k);
    }
    var g := GatheredTotals(run, ms);
    forall k | 0 <= k < c.threads
      ensures run[first].workers[k].Calls() <= g[k] <= run[last].workers[k].Calls()
    {
      var m := ms[k];
      CountersGrow(c, run, steps, first, m.send, k);
      CountersGrow(c, run, steps, first, m.errors, k);
      CountersGrow(c, run, steps, first, m.zero, k);
      CountersGrow(c, run, steps, m.send, last, k);
      CountersGrow(c, run, steps, m.errors, last, k);
      CountersGrow(c, run, steps, m.zero, last, k);
    }
    Arith.SumMonotone(CallsOf(run[first].workers), g);
    Arith.SumMonotone(g, CallsOf(run[last].workers));
    QuotaConservation(c, run, steps, last);
  }
}
