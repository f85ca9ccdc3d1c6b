/** What the record of a whole run says, in terms of its events alone: when the loops wait, when they
    look at the stop flag and the time, and when they end. */
module Runs {
  import opened Environment
  import opened Schedule
  import opened Trace

  /** The record of a whole paced loop, with its two readings of the clock before the first slice:
      the timeslices are counted from one, the end of the runtime from the other. */
  ghost predicate PacedRun(events: seq<Event>, total: nat, slices: nat, slice: real, runtime: nat,
                           ending: Ending)
  {
    && |events| >= 2 && events[0].Nsec? && events[1].Microtime? && events[0].time < events[1].time
    && Rising(events[2..], events[1].time)
    && WholeLoop(WithRate(PlanOf(events, total, slices, slice, runtime)), events[2..], ending)
  }

  function PlanOf(events: seq<Event>, total: nat, slices: nat, slice: real, runtime: nat): Plan
    requires |events| >= 2 && events[0].Nsec? && events[1].Microtime?
  {
    Plan(total, slices, slice, events[0].time, events[1].time + runtime as real)
  }

  /** The record of a whole loop without a rate. */
  ghost predicate UnpacedRun(events: seq<Event>, runtime: nat, ending: Ending) {
    && |events| >= 1 && events[0].Microtime? && Rising(events[1..], events[0].time)
    && WholeLoop(WithoutRate(events[0].time + runtime as real), events[1..], ending)
  }

  /** The record from the end of the loop on: the reading for the duration, and the final wait. */
  ghost predicate FinalWait(after: seq<Event>, timeout: nat) {
    && |after| >= 2 && after[0].Microtime? && after[1].Microtime?
    && Rising(after[2..], after[1].time)
    && var rule := Waiting(after[1].time, after[1].time + timeout as real);
       WholeLoop(rule, after[2..], Asked) || WholeLoop(rule, after[2..], TimeUp)
  }

  // How the loops end.

  /** A raised flag, or a reading of the time that is up. */
  predicate Stops(e: Event, end: real) {
    e == StopAsked(true) || (e.Microtime? && e.time >= end)
  }

  /** A paced loop goes on until all packets are out, the flag is found raised or the time is up. */
  lemma PacedEnds(events: seq<Event>, total: nat, slices: nat, slice: real, runtime: nat,
                  ending: Ending)
    requires PacedRun(events, total, slices, slice, runtime, ending) && slices >= 1
    ensures var loop, end := events[2..], events[1].time + runtime as real;
            && (forall i :: 0 <= i < |loop| - 1 ==> !Stops(loop[i], end))
            && (match ending
                case Completed => Sends(loop) == total && (loop != [] ==> !Stops(Last(loop), end))
                case Asked => loop != [] && Last(loop) == StopAsked(true)
                case TimeUp => loop != [] && Last(loop).Microtime? && Last(loop).time >= end
                case Overread => Sends(loop) < total && (loop != [] ==> !Stops(Last(loop), end)))
    ensures var loop := events[2..];
            forall i :: 0 <= i < |loop| - 1 ==> (loop[i + 1].Microtime? <==> loop[i].StopAsked?)
    ensures !ending.Overread? ==>
              exists z :: 0 <= z <= slices && Sends(events[2..]) == SentAfter(total, slices, z)
  {
    var p, loop := PlanOf(events, total, slices, slice, runtime), events[2..];
    forall i | 0 <= i < |loop| - 1
      ensures !Stops(loop[i], p.end)
      ensures loop[i + 1].Microtime? <==> loop[i].StopAsked?
    {
      FollowsAt(WithRate(p), loop, i + 1);
      assert Last(loop[..i + 1]) == loop[i];
    }
    ScheduleKept(p, loop, ending);
    if ending.Overread? {
      SentMonotone(total, slices, SlicesDone(p, loop) + 1, slices);
    }
    hide Follows, Sends, SlicesDone, SentAfter, LastLook, CheckDue;
  }

  /** The unlimited loop ends when it finds the flag raised, or a time later than the end; it looks at
      both after every 10001 packets, and not between. */
  lemma UnpacedEnds(events: seq<Event>, runtime: nat, ending: Ending)
    requires UnpacedRun(events, runtime, ending)
    ensures var loop, end := events[1..], events[0].time + runtime as real;
            && (forall i :: 0 <= i < |loop| - 1 ==>
                  loop[i] != StopAsked(true) && (loop[i].Microtime? ==> loop[i].time <= end))
            && (match ending
                case Completed => false
                case Asked => loop != [] && Last(loop) == StopAsked(true)
                case TimeUp => loop != [] && Last(loop).Microtime? && Last(loop).time > end
                case Overread => loop != [] ==> Last(loop) != StopAsked(true)
                                                && (Last(loop).Microtime? ==> Last(loop).time <= end))
    ensures var loop := events[1..];
            forall i :: 0 <= i < |loop| - 1 ==>
              (loop[i + 1].StopAsked? <==> loop[i].SendTo? && Sends(loop[..i + 1]) % 10001 == 0)
              && (loop[i + 1].Microtime? <==> loop[i].StopAsked?)
  {
    var end, loop := events[0].time + runtime as real, events[1..];
    hide Follows, Sends;
    forall i | 0 <= i < |loop| - 1
      ensures loop[i] != StopAsked(true) && (loop[i].Microtime? ==> loop[i].time <= end)
      ensures loop[i + 1].StopAsked? <==> loop[i].SendTo? && Sends(loop[..i + 1]) % 10001 == 0
      ensures loop[i + 1].Microtime? <==> loop[i].StopAsked?
    {
      FollowsAt(WithoutRate(end), loop, i + 1);
      assert Last(loop[..i + 1]) == loop[i];
    }
  }

  // The stop flag.

  /** Every look at the flag comes directly after a reading of the clock. */
  predicate AfterReadings(es: seq<Event>) {
    forall j :: 0 <= j < |es| && es[j].StopAsked? ==> 0 < j && !es[j - 1].StopAsked?
  }

  lemma {:induction false} LookIsReading(es: seq<Event>, start: real)
    requires AfterReadings(es)
    ensures LastLook(es, start) == start
            || exists j :: 0 < j < |es| && es[j].StopAsked? && LastLook(es, start) == es[j - 1].time
    decreases |es|
  {
    if es != [] {
      var front := es[..|es| - 1];
      LookIsReading(front, start);
      if Last(es).StopAsked? {
        assert es[|es| - 1].StopAsked? && LastLook(es, start) == es[|es| - 2].time;
      } else if LastLook(front, start) != start {
        var j :| 0 < j < |front| && front[j].StopAsked? && LastLook(front, start) == front[j - 1].time;
        assert es[j].StopAsked? && LastLook(es, start) == es[j - 1].time;
      }
    }
  }

  lemma {:induction false} LooksRise(es: seq<Event>, start: real, base: real)
    requires AfterReadings(es) && Rising(es, base) && start <= base
    ensures start <= LastLook(es, start) <= LastTime(es, base)
    ensures forall j :: 0 < j < |es| && es[j].StopAsked? ==> es[j - 1].time <= LastLook(es, start)
    decreases |es|
  {
    RisingPrefix(es, base, |es|);
    if es != [] {
      var front := es[..|es| - 1];
      LooksRise(front, start, base);
      RisingPrefix(es, base, |es| - 1);
      forall j | 0 < j < |es| && es[j].StopAsked?
        ensures es[j - 1].time <= LastLook(es, start)
      {
        if j < |front| {
          assert front[j].StopAsked? && front[j - 1].time <= LastLook(front, start);
        }
      }
    }
  }

  lemma {:induction false} NsecsRise(es: seq<Event>, start: real, base: real, r: nat)
    requires Rising(es, base) && start <= base && r < |es| && es[r].Nsec?
    ensures es[r].time <= LastNsec(es, start)
    decreases |es|
  {
    var front := es[..|es| - 1];
    if r < |front| {
      NsecsRise(front, start, base, r);
      NsecBeforeLast(front, base, start);
    }
  }

  lemma PacedLooks(p: Plan, es: seq<Event>)
    requires Follows(WithRate(p), es)
    ensures AfterReadings(es)
    ensures forall j :: 0 < j < |es| && es[j].StopAsked? ==>
              es[j - 1].Nsec? && es[j - 1].time > LastLook(es[..j], p.start) + 0.1
  {
    hide Follows;
    forall j | 0 <= j < |es| && es[j].StopAsked?
      ensures 0 < j && es[j - 1].Nsec? && es[j - 1].time > LastLook(es[..j], p.start) + 0.1
    {
      FollowsAt(WithRate(p), es, j);
      DueAfterReading(p, es[..j]);
      assert es[..j][..j - 1] == es[..j - 1] && Last(es[..j]) == es[j - 1];
      hide SlicesDone, Deadline, Sends;
    }
  }

  /** Two looks at the flag are more than a tenth of a second apart, and the first is more than that
      after the start. */
  lemma LooksApart(events: seq<Event>, total: nat, slices: nat, slice: real, runtime: nat,
                   ending: Ending, i: nat)
    requires PacedRun(events, total, slices, slice, runtime, ending)
    requires i < |events| - 2 && events[2..][i].StopAsked?
    ensures var loop := events[2..];
            && 0 < i && loop[i - 1].Nsec? && loop[i - 1].time > events[0].time + 0.1
            && forall j :: 0 < j < i && loop[j].StopAsked? ==>
                 loop[j - 1].Nsec? && loop[i - 1].time > loop[j - 1].time + 0.1
  {
    var p, loop := PlanOf(events, total, slices, slice, runtime), events[2..];
    PacedLooks(p, loop);
    hide Follows, NextCall;
    var h := loop[..i];
    RisingPrefix(loop, events[1].time, i);
    LooksRise(h, p.start, events[1].time);
  }

  /** No packet goes out after a reading that is more than a tenth of a second later than the start and
      every look at the flag before it; nor after one that is more than that after the end. */
  lemma LooksInTime(events: seq<Event>, total: nat, slices: nat, slice: real, runtime: nat,
                    ending: Ending, r: nat, i: nat)
    requires PacedRun(events, total, slices, slice, runtime, ending)
    requires r < i < |events| - 2 && events[2..][r].Nsec? && events[2..][i].SendTo?
    ensures var loop := events[2..];
            && loop[r].time <= events[1].time + runtime as real + 0.1
            && (loop[r].time <= events[0].time + 0.1
                || exists j :: 0 < j < i && loop[j].StopAsked? && loop[j - 1].Nsec?
                     && loop[r].time <= loop[j - 1].time + 0.1)
  {
    var p, loop := PlanOf(events, total, slices, slice, runtime), events[2..];
    var base := events[1].time;
    NoneTooLate(p, loop, base, i);
    PacedLooks(p, loop);
    hide Follows, NextCall;
    var h := loop[..i];
    RisingPrefix(loop, base, i);
    NsecsRise(h, p.start, base, r);
    LookIsReading(h, p.start);
    if LastLook(h, p.start) != p.start {
      var j :| 0 < j < |h| && h[j].StopAsked? && LastLook(h, p.start) == h[j - 1].time;
      assert loop[j].StopAsked? && loop[j - 1].Nsec? && loop[r].time <= loop[j - 1].time + 0.1;
    }
  }

  // The waits.

  /** How many readings of the clock were made after exactly `k` packets, and not before `t`. */
  function ReadingsAt(es: seq<Event>, k: nat, t: real): nat {
    if es == [] then 0
    else
      var front, e := es[..|es| - 1], Last(es);
      ReadingsAt(front, k, t) + (if e.Nsec? && e.time >= t && Sends(front) == k then 1 else 0)
  }

  /** How many of the first `z` slices end with exactly `k` packets out. */
  function SlicesEndingWith(total: nat, slices: nat, k: nat, z: nat): nat
    requires z <= slices
  {
    if z == 0 then 0
    else SlicesEndingWith(total, slices, k, z - 1) + (if SentAfter(total, slices, z) == k then 1 else 0)
  }

  lemma {:induction false} EndingWithGrows(total: nat, slices: nat, k: nat, y: nat, z: nat)
    requires y <= z <= slices
    ensures SlicesEndingWith(total, slices, k, y) <= SlicesEndingWith(total, slices, k, z)
  {
    if y < z {
      EndingWithGrows(total, slices, k, y, z - 1);
    }
  }

  lemma {:induction false} ReadingsEndSlices(p: Plan, es: seq<Event>, k: nat, t: real)
    requires Follows(WithRate(p), es)
    requires forall w :: 1 <= w <= p.slices && SentAfter(p.total, p.slices, w) == k
               ==> t >= Deadline(p.start, p.slice, w)
    ensures SlicesDone(p, es) <= p.slices
    ensures ReadingsAt(es, k, t) <= SlicesEndingWith(p.total, p.slices, k, SlicesDone(p, es))
    decreases |es|
  {
    hide SentAfter, Deadline;
    StaysInSchedule(p, es);
    if es != [] {
      var front, e := es[..|es| - 1], Last(es);
      ReadingsEndSlices(p, front, k, t);
      if e.Nsec? {
        StaysInSchedule(p, front);
        BeforeReading(p, front);
        hide NextCall, InSchedule;
        var w := SlicesDone(p, front) + 1;
        assert Sends(front) == SentAfter(p.total, p.slices, w);
      }
    }
  }

  /** A wait ends with its timeslice. Take any number `k` of packets, and a time `t` by which all slices
      that end with `k` packets are over: of the readings made with `k` packets out, no more are at `t`
      or later than there are such slices. So there are none while a slice is sending, and where every
      slice has a packet, only the last reading of a wait is not before the end of its slice. */
  lemma WaitsEnd(events: seq<Event>, total: nat, slices: nat, slice: real, runtime: nat,
                 ending: Ending, k: nat, t: real)
    requires PacedRun(events, total, slices, slice, runtime, ending)
    requires forall w :: 1 <= w <= slices && SentAfter(total, slices, w) == k
               ==> t >= events[0].time + w as real * slice
    ensures ReadingsAt(events[2..], k, t) <= SlicesEndingWith(total, slices, k, slices)
  {
    hide Follows, NextCall, EndingOf, Rising, SentAfter, SlicesDone, ReadingsAt;
    var p, loop := PlanOf(events, total, slices, slice, runtime), events[2..];
    forall w | 1 <= w <= slices && SentAfter(total, slices, w) == k
      ensures t >= Deadline(p.start, p.slice, w)
    {
    }
    ReadingsEndSlices(p, loop, k, t);
    EndingWithGrows(total, slices, k, SlicesDone(p, loop), slices);
  }

  /** When no slice is empty: of two readings that follow each other after the packets of the first `z`
      slices, the first is before the end of the last of these. */
  lemma WaitGoesOn(events: seq<Event>, total: nat, slices: nat, slice: real, runtime: nat,
                   ending: Ending, z: nat, i: nat)
    requires PacedRun(events, total, slices, slice, runtime, ending) && total >= slices
    requires 1 <= z <= slices && i + 1 < |events| - 2
    requires var loop := events[2..];
             && loop[i].Nsec? && loop[i + 1].Nsec? && Sends(loop[..i]) == SentAfter(total, slices, z)
    ensures events[2..][i].time < events[0].time + z as real * slice
  {
    hide Follows, NextCall, SlicesDone, Sends, SentAfter, CheckDue, InSchedule, Rising, EndingOf;
    var p, loop := PlanOf(events, total, slices, slice, runtime), events[2..];
    FollowsAt(WithRate(p), loop, i);
    FollowsAt(WithRate(p), loop, i + 1);
    FollowsPrefix(WithRate(p), loop, i);
    var h, e := loop[..i], loop[i];
    StaysInSchedule(p, h);
    BeforeReading(p, h);
    assert loop[..i + 1] == h + [e];
    NoEmptySlice(total, slices, z, SlicesDone(p, h) + 1);
    if z < slices {
      NoEmptySlice(total, slices, z, z + 1);
    }
    SecondReading(p, h, e);
  }

  lemma SecondReading(p: Plan, h: seq<Event>, e: Event)
    requires e.Nsec? && NextCall(WithRate(p), h + [e]).ReadNsec?
    requires var z := SlicesDone(p, h);
             z < p.slices && Sends(h) == p.SentBy(z + 1)
             && (z + 1 < p.slices ==> p.SentBy(z + 1) < p.SentBy(z + 2))
    ensures !EndsSlice(p, SlicesDone(p, h), e)
  {
    OneMoreReading(p, h, e);
    OneMoreEvent(h, e);
    hide SlicesDone, Sends, CheckDue, Plan.SentBy, EndsSlice;
  }

  lemma NoEmptySlice(total: nat, slices: nat, y: nat, z: nat)
    requires total >= slices && y <= slices && z <= slices
    ensures y < z ==> SentAfter(total, slices, y) < SentAfter(total, slices, z)
    ensures SentAfter(total, slices, y) == SentAfter(total, slices, z) ==> y == z
  {
    if y < z {
      SlicesGrow(total, slices, y, z);
    } else if z < y {
      SlicesGrow(total, slices, z, y);
    }
  }

  lemma {:induction false} SlicesGrow(total: nat, slices: nat, y: nat, z: nat)
    requires total >= slices && y < z <= slices
    ensures SentAfter(total, slices, y) < SentAfter(total, slices, z)
  {
    ClosedForm(total, slices, z - 1);
    ScheduleShape(total, slices);
    ShareIsPositive(total, slices);
    hide SentAfter, SliceAt;
    if y < z - 1 {
      SlicesGrow(total, slices, y, z - 1);
    }
  }

  lemma ShareIsPositive(total: nat, slices: nat)
    requires total >= slices >= 1
    ensures total / slices >= 1
  {
  }

  // The final wait.

  /** The final wait reads the time, and looks at the flag more than a tenth of a second after the start
      and the last look, as soon as a reading is that late; it ends with a raised flag, or a reading that
      is not before the timeout. */
  lemma WaitIsOver(after: seq<Event>, timeout: nat)
    requires FinalWait(after, timeout)
    ensures var wait, end := after[2..], after[1].time + timeout as real;
            && wait != [] && Stops(Last(wait), end)
            && (forall i :: 0 <= i < |wait| - 1 ==> !Stops(wait[i], end))
            && (forall i :: 0 <= i < |wait| ==> wait[i].Microtime? || wait[i].StopAsked?)
            && (forall i :: 0 <= i < |wait| && wait[i].StopAsked? ==> 0 < i && wait[i - 1].Microtime?)
  {
    var end, wait := after[1].time + timeout as real, after[2..];
    var rule := Waiting(after[1].time, end);
    WaitReadings(rule, wait);
    hide Follows;
    forall i | 0 <= i < |wait|
      ensures wait[i].Microtime? || wait[i].StopAsked?
      ensures i < |wait| - 1 ==> !Stops(wait[i], end)
    {
      FollowsAt(rule, wait, i);
      if i < |wait| - 1 {
        FollowsAt(rule, wait, i + 1);
        assert Last(wait[..i + 1]) == wait[i];
      }
    }
  }

  /** And it looks at the flag in time. */
  lemma WaitLooks(after: seq<Event>, timeout: nat, i: nat)
    requires FinalWait(after, timeout) && i + 1 < |after| - 2 && after[2..][i].Microtime?
    ensures var wait, start := after[2..], after[1].time;
            wait[i + 1].StopAsked? <==>
            && wait[i].time > start + 0.1
            && forall j :: 0 < j < i && wait[j].StopAsked? ==>
                 wait[j - 1].Microtime? && wait[i].time > wait[j - 1].time + 0.1
  {
    hide Follows, NextCall, Rising, LastLook, EndingOf, AfterReadings;
    var start, wait := after[1].time, after[2..];
    var end := start + timeout as real;
    var rule := Waiting(start, end);
    FollowsAt(rule, wait, i + 1);
    WaitReadings(rule, wait);
    RisingPrefix(wait, start, i + 1);
    var h := wait[..i + 1];
    assert Last(h) == wait[i];
    NextInWait(start, end, h);
    assert AfterReadings(h) by { LooksOfPrefix(wait, i + 1); }
    LaterThanLooks(h, start, wait[i].time);
  }

  lemma NextInWait(start: real, end: real, h: seq<Event>)
    requires h != [] && Last(h).Microtime?
    ensures var call := NextCall(Waiting(start, end), h);
            call.NoCall? || (call.AskStop? <==> Last(h).time > LastLook(h, start) + 0.1)
  {
  }

  lemma LooksOfPrefix(es: seq<Event>, i: nat)
    requires AfterReadings(es) && i <= |es|
    ensures AfterReadings(es[..i])
  {
  }

  /** Later than the last look is later than the start and every look. */
  lemma LaterThanLooks(es: seq<Event>, start: real, t: real)
    requires AfterReadings(es) && Rising(es, start)
    ensures t > LastLook(es, start) + 0.1 <==>
            && t > start + 0.1
            && forall j :: 0 < j < |es| && es[j].StopAsked? ==>
                 !es[j - 1].StopAsked? && t > es[j - 1].time + 0.1
  {
    LooksRise(es, start, start);
    LookIsReading(es, start);
    hide Rising, LastLook, LastTime;
  }

  lemma WaitReadings(rule: Rule, es: seq<Event>)
    requires rule.Waiting? && Follows(rule, es)
    ensures AfterReadings(es)
    ensures forall j :: 0 <= j < |es| && es[j].StopAsked? ==> 0 < j && es[j - 1].Microtime?
  {
    hide Follows;
    forall j | 0 <= j < |es| && es[j].StopAsked?
      ensures 0 < j && es[j - 1].Microtime?
    {
      FollowsAt(rule, es, j);
      assert j > 0 ==> Last(es[..j]) == es[j - 1];
    }
  }
}
