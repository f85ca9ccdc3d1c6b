/** How a sender thread spreads its quota over timeslices (src/dns_sender_thread.cpp:259-269): before
    each slice, what is left is divided, truncating, by the slices that are left. */
module Schedule {
  import Arith

  /** The size of the next slice. */
  function SliceQuota(rest: nat, slicesLeft: nat): nat
    requires slicesLeft >= 1
  {
    if slicesLeft == 1 then rest else rest / slicesLeft
  }

  /** The unsent part of `total` queries after `z` of `slices` slices, as the loop computes it. */
  function RestAfter(total: nat, slices: nat, z: nat): nat
    requires z <= slices
  {
    if z == 0 then total
    else
      var rest := RestAfter(total, slices, z - 1);
      QuotaFits(rest, slices - (z - 1));
      rest - SliceQuota(rest, slices - (z - 1))
  }

  /** The unsigned subtraction in the loop never wraps. */
  lemma QuotaFits(rest: nat, slicesLeft: nat)
    requires slicesLeft >= 1
    ensures SliceQuota(rest, slicesLeft) <= rest
  {
    var q := rest / slicesLeft;
    Arith.MulLe(q, 1, slicesLeft);
  }

  function SliceAt(total: nat, slices: nat, z: nat): nat
    requires z < slices
  {
    SliceQuota(RestAfter(total, slices, z), slices - z)
  }

  function SentAfter(total: nat, slices: nat, z: nat): nat
    requires z <= slices
  {
    RestIsBounded(total, slices, z);
    total - RestAfter(total, slices, z)
  }

  lemma {:induction false} RestIsBounded(total: nat, slices: nat, z: nat)
    requires z <= slices
    ensures RestAfter(total, slices, z) <= total
  {
    if z > 0 {
      RestIsBounded(total, slices, z - 1);
    }
  }

  /** How many of the first `z` slices are larger ones, when they all come last. */
  function LargerBefore(total: nat, slices: nat, z: nat): nat
    requires 1 <= slices && z <= slices
  {
    var small := slices - total % slices;
    if z <= small then 0 else z - small
  }

  lemma QuotaOf(a: nat, b: nat, left: nat)
    requires b < left
    ensures SliceQuota(Arith.Times(a, left) + b, left) == a
  {
    Arith.TimesIsProduct(a, left);
    Arith.DivModUnique(Arith.Times(a, left) + b, left, a, b);
  }

  lemma TotalSplits(total: nat, slices: nat)
    requires 1 <= slices
    ensures total == Arith.Times(total / slices, slices) + total % slices
  {
    Arith.TimesIsProduct(total / slices, slices);
  }

  /** The truncated share of every slice that is left, and the surplus queries, at most one for each
      of them. */
  function Shares(a: nat, b: nat, left: nat): nat {
    Arith.Times(a, left) + (if b < left then b else left)
  }

  lemma NextSlice(a: nat, b: nat, left: nat)
    requires left >= 1
    ensures SliceQuota(Shares(a, b, left), left) == if b < left then a else a + 1
    ensures Shares(a, b, left) - SliceQuota(Shares(a, b, left), left) == Shares(a, b, left - 1)
  {
    if b < left {
      QuotaOf(a, b, left);
    } else {
      TimesOneMore(a, left);
      QuotaOf(a + 1, 0, left);
    }
  }

  lemma {:induction false} RestOfShares(a: nat, b: nat, slices: nat, z: nat)
    requires 1 <= slices && z <= slices
    ensures RestAfter(Shares(a, b, slices), slices, z) == Shares(a, b, slices - z)
  {
    hide SliceQuota, Shares;
    if z > 0 {
      RestOfShares(a, b, slices, z - 1);
      NextSlice(a, b, slices - (z - 1));
    }
  }

  /** The remainder in closed form. */
  lemma RestClosedForm(total: nat, slices: nat, z: nat)
    requires 1 <= slices && z <= slices
    ensures RestAfter(total, slices, z) == Shares(total / slices, total % slices, slices - z)
  {
    hide RestAfter, Arith.Times;
    TotalSplits(total, slices);
    RestOfShares(total / slices, total % slices, slices, z);
  }

  lemma {:induction false} TimesOneMore(a: nat, n: nat)
    ensures Arith.Times(a + 1, n) == Arith.Times(a, n) + n
  {
    if n > 0 {
      TimesOneMore(a, n - 1);
    }
  }

  /** Closed form of the loop: after `z` slices, `total div slices` queries for each of them have
      gone out, and one more for each of the last `total mod slices` slices already reached. */
  lemma ClosedForm(total: nat, slices: nat, z: nat)
    requires 1 <= slices && z <= slices
    ensures SentAfter(total, slices, z) == z * (total / slices) + LargerBefore(total, slices, z)
    ensures z < slices ==>
              SliceAt(total, slices, z)
              == total / slices + (if z < slices - total % slices then 0 else 1)
  {
    hide RestAfter, SliceQuota;
    RestClosedForm(total, slices, z);
    TotalSplits(total, slices);
    if z < slices {
      NextSlice(total / slices, total % slices, slices - z);
    }
    Arith.TimesAdds(total / slices, z, slices - z);
    Arith.TimesIsProduct(total / slices, z);
  }

  lemma {:induction false} SentMonotone(total: nat, slices: nat, y: nat, z: nat)
    requires y <= z <= slices
    ensures SentAfter(total, slices, y) <= SentAfter(total, slices, z)
  {
    if y < z {
      SentMonotone(total, slices, y, z - 1);
    }
  }

  /** The slices use up the quota, never shrink, and differ by at most one. */
  lemma ScheduleShape(total: nat, slices: nat)
    requires 1 <= slices
    ensures SentAfter(total, slices, 0) == 0 && SentAfter(total, slices, slices) == total
    ensures forall y, z :: 0 <= y <= z < slices ==>
              SliceAt(total, slices, y) <= SliceAt(total, slices, z) <= SliceAt(total, slices, y) + 1
    ensures forall z :: 0 <= z < slices ==>
              SentAfter(total, slices, z + 1) == SentAfter(total, slices, z) + SliceAt(total, slices, z)
  {
    ClosedForm(total, slices, slices);
    assert total == slices * (total / slices) + total % slices;
    forall y, z | 0 <= y <= z < slices
      ensures SliceAt(total, slices, y) <= SliceAt(total, slices, z) <= SliceAt(total, slices, y) + 1
    {
      ClosedForm(total, slices, y);
      ClosedForm(total, slices, z);
    }
  }

  /** The lag behind the proportional line, times `slices`. */
  function Lag(total: nat, slices: nat, z: nat): int
    requires z <= slices
  {
    z * total - slices * SentAfter(total, slices, z)
  }

  /** The schedule is never ahead of the proportional line, and with b = total mod slices it is
      never more than b * (slices - b) / slices queries behind it, which it reaches after
      slices - b slices. */
  lemma LagBound(total: nat, slices: nat, z: nat)
    requires 1 <= slices && z <= slices
    ensures var b := total % slices;
            && 0 <= Lag(total, slices, z) <= b * (slices - b)
            && (z == slices - b ==> Lag(total, slices, z) == b * (slices - b))
  {
    hide Lag;
    Arith.DivMod(total, slices);
    LagOf(total, slices, total / slices, total % slices, z);
  }

  lemma LagOf(total: nat, slices: nat, a: nat, b: nat, z: nat)
    requires total == slices * a + b && b < slices && z <= slices
    requires a == total / slices && b == total % slices
    ensures 0 <= Lag(total, slices, z) <= b * (slices - b)
    ensures z == slices - b ==> Lag(total, slices, z) == b * (slices - b)
  {
    hide SentAfter;
    var larger := if z <= slices - b then 0 else z - (slices - b);
    var sent := SentAfter(total, slices, z);
    assert sent == z * a + larger by { ClosedForm(total, slices, z); }
    LagProduct(total, slices, a, b, z, larger, sent);
    LagShape(slices, b, z, larger);
  }

  lemma LagProduct(total: nat, slices: nat, a: nat, b: nat, z: nat, larger: nat, sent: nat)
    requires total == slices * a + b && sent == z * a + larger
    ensures z * total - slices * sent == z * b - slices * larger
  {
    Arith.Distribute(z, slices * a, b);
    Arith.Distribute(slices, z * a, larger);
    assert z * (slices * a) == slices * (z * a);
  }

  lemma LagShape(slices: nat, b: nat, z: nat, larger: nat)
    requires b < slices && z <= slices
    requires larger == if z <= slices - b then 0 else z - (slices - b)
    ensures 0 <= z * b - slices * larger <= b * (slices - b)
    ensures z == slices - b ==> z * b - slices * larger == b * (slices - b)
  {
    if z <= slices - b {
      Arith.MulLe(b, z, slices - b);
      Arith.MulLe(b, 0, z);
    } else {
      var left, small := slices - z, slices - b;
      assert z * b - slices * larger == small * left by {
        Arith.Distribute(slices, b, left);
        Arith.Distribute(b, slices, left);
        Arith.Distribute(left, slices, b);
      }
      Arith.MulLe(small, 0, left);
      Arith.MulLe(small, left, b);
    }
  }

  /** The time before which slice `z` does not begin. */
  function Deadline(start: real, slice: real, z: nat): real {
    start + z as real * slice
  }

  lemma NextDeadline(start: real, slice: real, z: nat)
    ensures Deadline(start, slice, 0) == start
    ensures Deadline(start, slice, z + 1) == Deadline(start, slice, z) + slice
  {
  }

  /** A log of send times is paced when the k-th query is not sent before the start of the slice it
      belongs to. */
  ghost predicate Paced(times: seq<real>, total: nat, slices: nat, start: real, slice: real) {
    forall k, z {:trigger times[k], SentAfter(total, slices, z)} ::
      0 <= k < |times| && 0 <= z <= slices && k >= SentAfter(total, slices, z)
      ==> times[k] >= Deadline(start, slice, z)
  }

  /** How many of the logged queries were sent by time `t`. */
  function CountUpTo(times: seq<real>, t: real): (n: nat)
    ensures n <= |times|
  {
    if times == [] then 0
    else CountUpTo(times[..|times| - 1], t) + (if times[|times| - 1] <= t then 1 else 0)
  }

  lemma {:induction false} CountAtMost(times: seq<real>, t: real, bound: nat)
    requires forall k :: bound <= k < |times| ==> times[k] > t
    ensures CountUpTo(times, t) <= bound
    decreases |times|
  {
    if times != [] {
      var n := |times| - 1;
      if n < bound {
        CountAtMost(times[..n], t, n);
      } else {
        assert times[n] > t;
        CountAtMost(times[..n], t, bound);
      }
    }
  }

  /** The slice that time `t` falls into, counted from one, but no more than all of them. */
  function SlicesBegun(slices: nat, start: real, slice: real, t: real): nat
    requires t >= start && slice > 0.0
  {
    var z := ((t - start) / slice).Floor + 1;
    if z < 0 then 0 else if z < slices then z else slices
  }

  lemma NotYetOver(start: real, slice: real, t: real, z: int)
    requires slice > 0.0 && z >= 0 && z == ((t - start) / slice).Floor + 1
    ensures t < Deadline(start, slice, z)
  {
    var x := (t - start) / slice;
    assert x * slice == t - start;
    assert (z as real - x) * slice > 0.0;
  }

  /** Rate cap: by any time, a paced run has sent at most what the slices begun so far may send, and
      that is at most their proportional share of the total. */
  lemma RateCap(times: seq<real>, total: nat, slices: nat, start: real, slice: real, t: real)
    requires 1 <= slices && slice > 0.0 && t >= start
    requires |times| <= total && Paced(times, total, slices, start, slice)
    ensures var z := SlicesBegun(slices, start, slice, t);
            && CountUpTo(times, t) <= SentAfter(total, slices, z)
            && slices * CountUpTo(times, t) <= z * total
  {
    var begun := ((t - start) / slice).Floor + 1;
    assert begun >= 1 by {
      assert (t - start) / slice >= 0.0;
    }
    NotYetOver(start, slice, t, begun);
    var z := SlicesBegun(slices, start, slice, t);
    if begun <= slices {
      forall k | SentAfter(total, slices, z) <= k < |times|
        ensures times[k] > t
      {
      }
      CountAtMost(times, t, SentAfter(total, slices, z));
    } else {
      ScheduleShape(total, slices);
    }
    LagBound(total, slices, z);
    Arith.MulLe(slices, CountUpTo(times, t), SentAfter(total, slices, z));
  }
}
