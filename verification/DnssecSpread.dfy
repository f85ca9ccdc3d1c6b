/** The accumulator that decides which text queries carry the DNSSEC flags
    (src/dns_sender_thread.cpp:147-151). */
module DnssecSpread {
  import Arith

  /** The accumulator after one text query. */
  function NextAccumulator(accumulator: nat, rate: nat): nat {
    if Fires(accumulator, rate) then accumulator + rate - 100 else accumulator + rate
  }

  predicate Fires(accumulator: nat, rate: nat) {
    accumulator + rate >= 100
  }

  /** The accumulator, and the number of flagged queries, after `k` queries of a run. */
  function AccumulatorAfter(rate: nat, k: nat): nat {
    if k == 0 then 0 else NextAccumulator(AccumulatorAfter(rate, k - 1), rate)
  }

  function FlaggedAfter(rate: nat, k: nat): nat {
    if k == 0 then 0
    else FlaggedAfter(rate, k - 1) + (if Fires(AccumulatorAfter(rate, k - 1), rate) then 1 else 0)
  }

  /** Exactly floor(rate * k / 100) of the first `k` queries are flagged. */
  lemma {:induction false} ExactShare(rate: nat, k: nat)
    requires rate <= 100
    ensures AccumulatorAfter(rate, k) == (rate * k) % 100
    ensures FlaggedAfter(rate, k) == (rate * k) / 100
  {
    if k > 0 {
      ExactShare(rate, k - 1);
      Arith.Distribute(rate, k, 1);
      Arith.MulLe(rate, 0, k - 1);
      AddRate(rate * (k - 1), rate);
    }
  }

  lemma AddRate(before: nat, rate: nat)
    requires rate <= 100
    ensures NextAccumulator(before % 100, rate) == (before + rate) % 100
    ensures (before + rate) / 100 == before / 100 + (if Fires(before % 100, rate) then 1 else 0)
  {
  }

  /** Every window of `w` consecutive queries holds the floor or the ceiling of its share. */
  lemma WindowShare(rate: nat, k: nat, w: nat)
    requires rate <= 100
    ensures var flagged := FlaggedAfter(rate, k + w) - FlaggedAfter(rate, k);
            flagged == (rate * w) / 100 || flagged == (rate * w + 99) / 100
  {
    ExactShare(rate, k);
    ExactShare(rate, k + w);
    Arith.Distribute(rate, k, w);
    Arith.MulLe(rate, 0, k);
    Arith.MulLe(rate, 0, w);
    FloorOfSum(rate * k, rate * w);
  }

  lemma FloorOfSum(x: nat, y: nat)
    ensures var d := (x + y) / 100 - x / 100; d == y / 100 || d == (y + 99) / 100
  {
  }

  function TotalFlagged(rate: nat, queries: seq<nat>): nat {
    if queries == [] then 0
    else TotalFlagged(rate, queries[..|queries| - 1]) + FlaggedAfter(rate, queries[|queries| - 1])
  }

  /** Over several threads, each with its own accumulator, the total falls short of the exact share
      by less than one query a thread. */
  lemma {:induction false} ThreadsShare(rate: nat, queries: seq<nat>)
    requires rate <= 100
    ensures 100 * TotalFlagged(rate, queries) <= rate * Arith.Sum(queries)
                                             <= 100 * TotalFlagged(rate, queries) + 99 * |queries|
    decreases |queries|
  {
    if queries != [] {
      var n := |queries| - 1;
      ThreadsShare(rate, queries[..n]);
      ExactShare(rate, queries[n]);
      Arith.Distribute(rate, Arith.Sum(queries[..n]), queries[n]);
    }
  }
}
