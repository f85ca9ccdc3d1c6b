/** What a thread's record of events says: how many packets it holds and what became of them, and
    which event may follow which in the thread's loops (src/dns_sender_thread.cpp:210-310). */
module Trace {
  import Arith
  import opened Environment
  import opened Schedule

  function Last(es: seq<Event>): Event
    requires es != []
  {
    es[|es| - 1]
  }

  function Sends(es: seq<Event>): nat {
    if es == [] then 0 else Sends(es[..|es| - 1]) + (if Last(es).SendTo? then 1 else 0)
  }

  /** When each packet was handed to the socket. */
  function SendTimes(es: seq<Event>): (r: seq<real>)
    ensures |r| == Sends(es)
  {
    if es == [] then []
    else SendTimes(es[..|es| - 1]) + (if Last(es).SendTo? then [Last(es).time] else [])
  }

  /** What became of the packets: handed over whole, refused, or cut short, and the bytes of the
      whole ones. */
  datatype Tally = Tally(sent: nat, errors: nat, zero: nat, bytes: nat)

  function TallyOf(es: seq<Event>): Tally {
    if es == [] then Tally(0, 0, 0, 0)
    else
      var t, e := TallyOf(es[..|es| - 1]), Last(es);
      if !e.SendTo? then t
      else if e.n > 0 && e.n == |e.packet| then t.(sent := t.sent + 1, bytes := t.bytes + |e.packet|)
      else if e.n < 0 then t.(errors := t.errors + 1)
      else t.(zero := t.zero + 1)
  }

  /** How many packets were refused with this error code. */
  function CodesOf(es: seq<Event>, code: nat): nat {
    if es == [] then 0
    else
      CodesOf(es[..|es| - 1], code)
      + (if Last(es).SendTo? && Last(es).n < 0 && Last(es).errno == code then 1 else 0)
  }

  lemma {:induction false} TallyIsSends(es: seq<Event>)
    ensures var t := TallyOf(es); t.sent + t.errors + t.zero == Sends(es)
    decreases |es|
  {
    if es != [] {
      TallyIsSends(es[..|es| - 1]);
    }
  }

  /** The answers that `sendto` gave for whole packets, with an error, and otherwise. */
  function Whole(es: seq<Event>): set<nat> {
    set i: nat | i < |es| && es[i].SendTo? && es[i].n > 0 && es[i].n == |es[i].packet|
  }

  function Refused(es: seq<Event>): set<nat> {
    set i: nat | i < |es| && es[i].SendTo? && es[i].n < 0
  }

  function CutShort(es: seq<Event>): set<nat> {
    set i: nat | i < |es| && es[i].SendTo? && es[i].n >= 0 && (es[i].n == 0 || es[i].n != |es[i].packet|)
  }

  function RefusedWith(es: seq<Event>, code: nat): set<nat> {
    set i: nat | i < |es| && es[i].SendTo? && es[i].n < 0 && es[i].errno == code
  }

  /** The sizes of the whole packets, and zero for every other event. */
  function WholeSizes(es: seq<Event>): (r: seq<nat>)
    ensures |r| == |es|
  {
    seq(|es|, i requires 0 <= i < |es| =>
      if es[i].SendTo? && es[i].n > 0 && es[i].n == |es[i].packet| then |es[i].packet| else 0)
  }

  /** The tally is the numbers of these answers, and the bytes of the whole packets. */
  lemma {:induction false} TallyMeaning(es: seq<Event>)
    ensures TallyOf(es)
            == Tally(|Whole(es)|, |Refused(es)|, |CutShort(es)|, Arith.Sum(WholeSizes(es)))
    decreases |es|
  {
    if es != [] {
      var n := |es| - 1;
      TallyMeaning(es[..n]);
      assert WholeSizes(es)[..n] == WholeSizes(es[..n]);
      Arith.OneMoreIn(Whole(es), Whole(es[..n]), n);
      Arith.OneMoreIn(Refused(es), Refused(es[..n]), n);
      Arith.OneMoreIn(CutShort(es), CutShort(es[..n]), n);
    }
  }

  lemma {:induction false} CodesMeaning(es: seq<Event>, code: nat)
    ensures CodesOf(es, code) == |RefusedWith(es, code)|
    decreases |es|
  {
    if es != [] {
      var n := |es| - 1;
      CodesMeaning(es[..n], code);
      Arith.OneMoreIn(RefusedWith(es, code), RefusedWith(es[..n], code), n);
    }
  }

  /** Where the packets are. */
  function Packets(es: seq<Event>): set<nat> {
    set i: nat | i < |es| && es[i].SendTo?
  }

  function PacketsBy(es: seq<Event>, t: real): set<nat> {
    set i: nat | i < |es| && es[i].SendTo? && es[i].time <= t
  }

  /** The counts of packets, altogether and up to some time. */
  lemma {:induction false} PacketsMeaning(es: seq<Event>, t: real)
    ensures Sends(es) == |Packets(es)|
    ensures CountUpTo(SendTimes(es), t) == |PacketsBy(es, t)|
    decreases |es|
  {
    if es == [] {
      assert Packets(es) == {} && PacketsBy(es, t) == {};
    } else {
      var n := |es| - 1;
      PacketsMeaning(es[..n], t);
      Arith.OneMoreIn(Packets(es), Packets(es[..n]), n);
      Arith.OneMoreIn(PacketsBy(es, t), PacketsBy(es[..n], t), n);
      LastTimeCounts(es, t);
      hide CountUpTo, SendTimes, Packets, PacketsBy;
      assert n in Packets(es) <==> es[n].SendTo? by { InPackets(es, n, t); }
      assert n in PacketsBy(es, t) <==> es[n].SendTo? && es[n].time <= t by { InPackets(es, n, t); }
    }
  }

  lemma InPackets(es: seq<Event>, i: nat, t: real)
    requires i < |es|
    ensures i in Packets(es) <==> es[i].SendTo?
    ensures i in PacketsBy(es, t) <==> es[i].SendTo? && es[i].time <= t
  {
  }

  lemma LastTimeCounts(es: seq<Event>, t: real)
    requires es != []
    ensures CountUpTo(SendTimes(es), t)
            == CountUpTo(SendTimes(es[..|es| - 1]), t)
               + (if Last(es).SendTo? && Last(es).time <= t then 1 else 0)
  {
    var times, all := SendTimes(es[..|es| - 1]), SendTimes(es);
    if Last(es).SendTo? {
      assert all == times + [Last(es).time];
      assert all[..|all| - 1] == times;
    } else {
      assert all == times;
    }
  }

  lemma {:induction false} SendTimesConcat(a: seq<Event>, b: seq<Event>)
    ensures SendTimes(a + b) == SendTimes(a) + SendTimes(b)
    decreases |b|
  {
    if b == [] {
      assert a + b == a;
    } else {
      assert (a + b)[..|a + b| - 1] == a + b[..|b| - 1];
      SendTimesConcat(a, b[..|b| - 1]);
    }
  }

  /** The last reading of the clock that the timeslices are counted from. */
  function LastNsec(es: seq<Event>, start: real): real {
    if es == [] then start
    else if Last(es).Nsec? then Last(es).time
    else LastNsec(es[..|es| - 1], start)
  }

  /** The reading on which the stop flag was last looked at. */
  function LastLook(es: seq<Event>, start: real): real {
    if es == [] then start
    else if Last(es).StopAsked? then LastTime(es[..|es| - 1], start)
    else LastLook(es[..|es| - 1], start)
  }

  // The rules of the loops.

  /** `start` is the reading that the timeslices are counted from, `end` the end of the runtime. */
  datatype Plan = Plan(total: nat, slices: nat, slice: real, start: real, end: real)
  {
    /** The packets of the first `z` slices; all of them beyond the last. */
    function SentBy(z: nat): nat {
      SentAfter(total, slices, if z <= slices then z else slices)
    }
  }

  const CHECK_INTERVAL := 0.1
  const BATCH := 10001

  /** Which loop it is: with a rate, without one, or the final wait. */
  datatype Rule = WithRate(plan: Plan) | WithoutRate(end: real) | Waiting(start: real, end: real)

  datatype Call = ReadNsec | ReadMicrotime | ReadTimeOfDay | AskStop | Send | NoCall

  function CallOf(e: Event): Call {
    match e
    case Nsec(_) => ReadNsec
    case Microtime(_) => ReadMicrotime
    case TimeOfDay(_, _) => ReadTimeOfDay
    case StopAsked(_) => AskStop
    case SendTo(_, _, _, _) => Send
  }

  /** The slices that are over: a reading of the clock ends the slice whose end it is not before. */
  function SlicesDone(p: Plan, h: seq<Event>): nat {
    if h == [] then 0
    else
      var z := SlicesDone(p, h[..|h| - 1]);
      if EndsSlice(p, z, Last(h)) then z + 1 else z
  }

  predicate EndsSlice(p: Plan, z: nat, e: Event) {
    e.Nsec? && e.time >= Deadline(p.start, p.slice, z + 1)
  }

  /** The reading that has just ended a slice is more than a tenth of a second later than the one on
      which the stop flag was last looked at. */
  predicate CheckDue(p: Plan, h: seq<Event>) {
    h != [] &&
    (var front := h[..|h| - 1];
     EndsSlice(p, SlicesDone(p, front), Last(h))
     && Last(h).time > LastLook(front, p.start) + CHECK_INTERVAL)
  }

  /** What a loop does after `h`: its next call is a function of the answers it had so far. */
  function NextCall(rule: Rule, h: seq<Event>): Call {
    if h != [] && Last(h).StopAsked? then
      if Last(h).raised then NoCall else ReadMicrotime
    else if h != [] && Last(h).TimeOfDay? then Send
    else
      match rule
      case WithRate(p) =>
        if h != [] && Last(h).Microtime? && Last(h).time >= p.end then NoCall
        else if CheckDue(p, h) then AskStop
        else
          var z := SlicesDone(p, h);
          if z >= p.slices then NoCall
          else if Sends(h) < p.SentBy(z + 1) then ReadTimeOfDay
          else ReadNsec
      case WithoutRate(end) =>
        if h != [] && Last(h).Microtime? && Last(h).time > end then NoCall
        else if h != [] && Last(h).SendTo? && Sends(h) % BATCH == 0 then AskStop
        else ReadTimeOfDay
      case Waiting(start, end) =>
        if h == [] then ReadMicrotime
        else if !Last(h).Microtime? || Last(h).time >= end then NoCall
        else if Last(h).time > LastLook(h, start) + CHECK_INTERVAL then AskStop
        else ReadMicrotime
  }

  /** A record that a loop can have left: each event answers the call that was to come. */
  predicate Follows(rule: Rule, es: seq<Event>) {
    es == [] ||
    (Follows(rule, es[..|es| - 1]) && CallOf(Last(es)) == NextCall(rule, es[..|es| - 1]))
  }

  /** Why a loop ended; `Overread` stands for undefined behaviour within `sendPacket`. */
  datatype Ending = Completed | Asked | TimeUp | Overread

  /** Why a loop makes no further call after these events. */
  function EndingOf(rule: Rule, es: seq<Event>): Ending {
    if es != [] && Last(es) == StopAsked(true) then Asked
    else if es != [] && Last(es).Microtime? && (rule.WithRate? ==> Last(es).time >= rule.plan.end)
    then TimeUp
    else Completed
  }

  /** A whole loop: it ended because there was no call left to make, or within `sendPacket`, before the
      time of a packet was read. */
  predicate WholeLoop(rule: Rule, es: seq<Event>, ending: Ending) {
    && Follows(rule, es)
    && (if ending.Overread? then NextCall(rule, es).ReadTimeOfDay?
        else NextCall(rule, es).NoCall? && ending == EndingOf(rule, es))
  }

  // One event more.

  lemma OneMoreEvent(es: seq<Event>, e: Event)
    ensures Sends(es + [e]) == Sends(es) + (if e.SendTo? then 1 else 0)
    ensures SendTimes(es + [e]) == SendTimes(es) + (if e.SendTo? then [e.time] else [])
    ensures forall start :: LastNsec(es + [e], start) == if e.Nsec? then e.time else LastNsec(es, start)
    ensures forall start :: LastLook(es + [e], start)
                            == if e.StopAsked? then LastTime(es, start) else LastLook(es, start)
    ensures forall rule :: Follows(rule, es + [e]) <==> Follows(rule, es) && CallOf(e) == NextCall(rule, es)
    ensures Last(es + [e]) == e
  {
    assert (es + [e])[..|es|] == es;
  }

  lemma OneMoreReading(p: Plan, es: seq<Event>, e: Event)
    ensures SlicesDone(p, es + [e])
            == SlicesDone(p, es) + (if EndsSlice(p, SlicesDone(p, es), e) then 1 else 0)
    ensures CheckDue(p, es + [e]) <==>
            EndsSlice(p, SlicesDone(p, es), e) && e.time > LastLook(es, p.start) + CHECK_INTERVAL
  {
    assert (es + [e])[..|es|] == es;
  }

  lemma OneMoreCounted(es: seq<Event>, e: Event)
    ensures !e.SendTo? ==> TallyOf(es + [e]) == TallyOf(es)
    ensures e.SendTo? ==>
              var t, whole := TallyOf(es), e.n > 0 && e.n == |e.packet|;
              TallyOf(es + [e]) == Tally(t.sent + (if whole then 1 else 0),
                                         t.errors + (if e.n < 0 then 1 else 0),
                                         t.zero + (if e.n >= 0 && !whole then 1 else 0),
                                         t.bytes + (if whole then |e.packet| else 0))
    ensures forall c :: CodesOf(es + [e], c)
                        == CodesOf(es, c) + (if e.SendTo? && e.n < 0 && e.errno == c then 1 else 0)
  {
    assert (es + [e])[..|es|] == es;
  }

  /** A packet leaves the readings as they are. */
  lemma PacketFollows(rule: Rule, es: seq<Event>, asked: Event, sent: Event)
    requires Follows(rule, es) && NextCall(rule, es).ReadTimeOfDay? && asked.TimeOfDay? && sent.SendTo?
    ensures var r := es + [asked, sent];
            && Follows(rule, r) && Sends(r) == Sends(es) + 1 && r != [] && Last(r) == sent
            && (rule.WithRate? ==>
                  && SlicesDone(rule.plan, r) == SlicesDone(rule.plan, es)
                  && LastLook(r, rule.plan.start) == LastLook(es, rule.plan.start)
                  && !CheckDue(rule.plan, r))
  {
    hide Follows, LastNsec, LastLook, Sends, SendTimes, SlicesDone, CheckDue;
    assert NextCall(rule, es + [asked]) == Send by { OneMoreEvent(es, asked); }
    assert es + [asked, sent] == (es + [asked]) + [sent];
    OneMoreEvent(es, asked);
    OneMoreEvent(es + [asked], sent);
    if rule.WithRate? {
      OneMoreReading(rule.plan, es, asked);
      OneMoreReading(rule.plan, es + [asked], sent);
    }
  }

  /** The paced loop stands between two calls of `sendPacket`, or in a wait, after `z` slices and `k`
      packets, with no check due or under way. */
  predicate Stands(p: Plan, h: seq<Event>, z: nat, k: nat) {
    && SlicesDone(p, h) == z && Sends(h) == k && !CheckDue(p, h)
    && (h != [] ==> !Last(h).StopAsked? && !Last(h).TimeOfDay?
                    && (Last(h).Microtime? ==> Last(h).time < p.end))
  }

  lemma AtStart(p: Plan)
    ensures Stands(p, [], 0, 0) && LastLook([], p.start) == p.start
  {
  }

  lemma NextFrom(p: Plan, h: seq<Event>, z: nat, k: nat)
    requires Stands(p, h, z, k)
    ensures NextCall(WithRate(p), h)
            == if z >= p.slices then NoCall else if k < p.SentBy(z + 1) then ReadTimeOfDay else ReadNsec
    ensures z >= p.slices ==> EndingOf(WithRate(p), h).Completed?
  {
  }

  // What the rules amount to.

  lemma {:induction false} FollowsPrefix(rule: Rule, es: seq<Event>, i: nat)
    requires Follows(rule, es) && i <= |es|
    ensures Follows(rule, es[..i])
    decreases |es|
  {
    if i < |es| {
      FollowsPrefix(rule, es[..|es| - 1], i);
      assert es[..|es| - 1][..i] == es[..i];
    } else {
      assert es[..i] == es;
    }
  }

  /** The rule at any place of a record. */
  lemma {:induction false} FollowsAt(rule: Rule, es: seq<Event>, i: nat)
    requires Follows(rule, es) && i < |es|
    ensures CallOf(es[i]) == NextCall(rule, es[..i])
    decreases |es|
  {
    var front := es[..|es| - 1];
    if i < |front| {
      FollowsAt(rule, front, i);
      assert front[..i] == es[..i];
    }
  }

  lemma {:induction false} RisingPrefix(es: seq<Event>, base: real, i: nat)
    requires Rising(es, base) && i <= |es|
    ensures Rising(es[..i], base) && base <= LastTime(es[..i], base) <= LastTime(es, base)
    decreases |es|
  {
    if es != [] {
      RisingPrefix(es[..|es| - 1], base, if i < |es| then i else i - 1);
      if i < |es| {
        assert es[..|es| - 1][..i] == es[..i];
      } else {
        assert es[..i] == es;
      }
    }
  }

  /** A part of a record whose times rise. */
  lemma {:induction false} RisingSuffix(a: seq<Event>, b: seq<Event>, base: real)
    requires Rising(a + b, base)
    ensures Rising(a, base) && Rising(b, LastTime(a, base))
    ensures LastTime(a + b, base) == LastTime(b, LastTime(a, base))
    decreases |b|
  {
    if b == [] {
      assert a + b == a;
    } else {
      assert (a + b)[..|a + b| - 1] == a + b[..|b| - 1];
      RisingSuffix(a, b[..|b| - 1], base);
    }
  }

  lemma {:induction false} NsecBeforeLast(es: seq<Event>, base: real, start: real)
    requires Rising(es, base) && start <= base
    ensures LastNsec(es, start) <= LastTime(es, base)
    decreases |es|
  {
    if es != [] {
      NsecBeforeLast(es[..|es| - 1], base, start);
      RisingPrefix(es, base, |es| - 1);
    }
  }

  /** Where the paced loop stands: how many packets are out after the slices that are over. */
  predicate InSchedule(p: Plan, h: seq<Event>) {
    var z, k := SlicesDone(p, h), Sends(h);
    && z <= p.slices
    && (if h == [] then z == 0 && k == 0
        else
          match Last(h)
          case TimeOfDay(_, _) => z < p.slices && p.SentBy(z) <= k < p.SentBy(z + 1)
          case SendTo(_, _, _, _) => z < p.slices && p.SentBy(z) < k <= p.SentBy(z + 1)
          case Nsec(_) =>
            if z > SlicesDone(p, h[..|h| - 1]) then k == p.SentBy(z)
            else z < p.slices && k == p.SentBy(z + 1)
          case _ => k == p.SentBy(z))
  }

  lemma {:induction false} StaysInSchedule(p: Plan, es: seq<Event>)
    requires Follows(WithRate(p), es)
    ensures InSchedule(p, es)
    decreases |es|
  {
    hide SentAfter;
    if es == [] {
      NonePlanned(p);
    } else {
      StaysInSchedule(p, es[..|es| - 1]);
      NextInSchedule(p, es[..|es| - 1], Last(es));
      assert es == es[..|es| - 1] + [Last(es)];
    }
  }

  lemma NonePlanned(p: Plan)
    ensures p.SentBy(0) == 0
  {
  }

  lemma SentByGrows(p: Plan, y: nat, z: nat)
    requires y <= z
    ensures p.SentBy(y) <= p.SentBy(z)
  {
    SentMonotone(p.total, p.slices, if y <= p.slices then y else p.slices,
                 if z <= p.slices then z else p.slices);
  }

  lemma SlicesAreOut(p: Plan, h: seq<Event>)
    requires InSchedule(p, h)
    ensures p.SentBy(SlicesDone(p, h)) <= Sends(h)
  {
    NonePlanned(p);
    SentByGrows(p, SlicesDone(p, h), SlicesDone(p, h) + 1);
    hide Plan.SentBy, Sends, SlicesDone;
  }

  lemma BeforePacket(p: Plan, h: seq<Event>)
    requires InSchedule(p, h)
    ensures var z, call := SlicesDone(p, h), NextCall(WithRate(p), h);
            call.ReadTimeOfDay? || call.Send? ==>
              z < p.slices && p.SentBy(z) <= Sends(h) < p.SentBy(z + 1)
  {
    SlicesAreOut(p, h);
    hide Plan.SentBy, Sends, SlicesDone, CheckDue;
  }

  lemma BeforeReading(p: Plan, h: seq<Event>)
    requires InSchedule(p, h) && NextCall(WithRate(p), h).ReadNsec?
    ensures var z := SlicesDone(p, h); z < p.slices && Sends(h) == p.SentBy(z + 1)
  {
    NonePlanned(p);
    SentByGrows(p, SlicesDone(p, h), SlicesDone(p, h) + 1);
    hide Plan.SentBy, Sends, SlicesDone, CheckDue;
  }

  lemma BeforeCheck(p: Plan, h: seq<Event>)
    requires InSchedule(p, h)
    ensures var z, call := SlicesDone(p, h), NextCall(WithRate(p), h);
            call.AskStop? || call.ReadMicrotime? ==> Sends(h) == p.SentBy(z)
  {
    hide Plan.SentBy, Sends, Deadline, LastLook;
  }

  lemma BeforeEnd(p: Plan, h: seq<Event>)
    requires InSchedule(p, h)
    ensures SlicesDone(p, h) <= p.slices
    ensures NextCall(WithRate(p), h).NoCall? ==>
              && Sends(h) == p.SentBy(SlicesDone(p, h))
              && (EndingOf(WithRate(p), h).Completed? ==> SlicesDone(p, h) == p.slices)
  {
    NonePlanned(p);
    hide Plan.SentBy, Sends, SlicesDone, CheckDue;
  }

  lemma NextInSchedule(p: Plan, h: seq<Event>, e: Event)
    requires InSchedule(p, h) && CallOf(e) == NextCall(WithRate(p), h)
    ensures InSchedule(p, h + [e])
  {
    BeforePacket(p, h);
    BeforeCheck(p, h);
    BeforeEnd(p, h);
    if e.Nsec? {
      BeforeReading(p, h);
    }
    assert (h + [e])[..|h|] == h;
    OneMoreEvent(h, e);
    OneMoreReading(p, h, e);
    hide NextCall, Plan.SentBy, Sends, SlicesDone, CheckDue, Deadline, Follows, LastNsec, LastLook;
  }

  /** What a whole paced loop has sent: the packets of the slices that are over, which are all unless
      it was told to stop or the time was up; or some more of the next slice if a read went wrong. */
  lemma ScheduleKept(p: Plan, es: seq<Event>, ending: Ending)
    requires WholeLoop(WithRate(p), es, ending)
    ensures var z := SlicesDone(p, es);
            && z <= p.slices && SentAfter(p.total, p.slices, z) <= Sends(es)
            && (if ending.Overread?
                then z < p.slices && Sends(es) < SentAfter(p.total, p.slices, z + 1)
                else Sends(es) == SentAfter(p.total, p.slices, z))
            && (ending.Completed? ==> z == p.slices && (z >= 1 ==> Sends(es) == p.total))
    ensures Sends(es) <= p.total
  {
    StaysInSchedule(p, es);
    BeforeEnd(p, es);
    BeforePacket(p, es);
    hide NextCall, InSchedule, SlicesDone, Sends, Follows, RestAfter;
    var z := SlicesDone(p, es);
    SentByGrows(p, z, p.slices);
    if z < p.slices {
      SentByGrows(p, z + 1, p.slices);
    }
    if p.slices >= 1 {
      ScheduleShape(p.total, p.slices);
    }
  }

  /** A reading of the clock is not before the slices that are over by it. */
  lemma {:induction false} ReadingInTime(p: Plan, es: seq<Event>, base: real)
    requires Rising(es, base) && p.start <= base
    ensures LastNsec(es, p.start) >= Deadline(p.start, p.slice, SlicesDone(p, es))
    decreases |es|
  {
    if es == [] {
      NextDeadline(p.start, p.slice, 0);
    } else {
      var front := es[..|es| - 1];
      ReadingInTime(p, front, base);
      NsecBeforeLast(front, base, p.start);
    }
  }

  /** No packet leaves before its slice has begun. */
  lemma {:induction false} NoneTooEarly(p: Plan, es: seq<Event>, base: real)
    requires Follows(WithRate(p), es) && Rising(es, base) && p.start <= base && p.slice > 0.0
    ensures Paced(SendTimes(es), p.total, p.slices, p.start, p.slice)
    decreases |es|
  {
    if es != [] {
      var front := es[..|es| - 1];
      NoneTooEarly(p, front, base);
      if Last(es).SendTo? {
        StaysInSchedule(p, front);
        ReadingInTime(p, front, base);
        NsecBeforeLast(front, base, p.start);
        PacedExtends(SendTimes(front), Last(es).time, p, SlicesDone(p, front));
      }
    }
  }

  lemma PacedExtends(times: seq<real>, t: real, p: Plan, z: nat)
    requires z < p.slices && p.slice > 0.0
    requires Paced(times, p.total, p.slices, p.start, p.slice)
    requires |times| < p.SentBy(z + 1) && t >= Deadline(p.start, p.slice, z)
    ensures Paced(times + [t], p.total, p.slices, p.start, p.slice)
  {
    hide SentAfter;
    var log := times + [t];
    forall k, y | 0 <= k < |log| && 0 <= y <= p.slices && k >= SentAfter(p.total, p.slices, y)
      ensures log[k] >= Deadline(p.start, p.slice, y)
    {
      if k < |times| {
        assert times[k] >= Deadline(p.start, p.slice, y);
      } else {
        if y > z {
          SentMonotone(p.total, p.slices, z + 1, y);
          assert false;
        }
        assert (z - y) as real * p.slice >= 0.0;
      }
    }
  }

  /** The last reading did not end its slice: the wait goes on. */
  predicate StillWaiting(p: Plan, h: seq<Event>) {
    h != [] && Last(h).Nsec? && !EndsSlice(p, SlicesDone(p, h[..|h| - 1]), Last(h))
  }

  /** The loop goes on, with no check due or under way. */
  predicate GoesOn(p: Plan, h: seq<Event>) {
    h != [] ==> !Last(h).StopAsked? && !CheckDue(p, h) && (Last(h).Microtime? ==> Last(h).time < p.end)
  }

  /** Whenever the loop goes on, the stop flag was last looked at before the end of the runtime, and no
      more than a tenth of a second before the last end of a slice. */
  lemma {:induction false} LooksOften(p: Plan, es: seq<Event>, base: real)
    requires Follows(WithRate(p), es) && Rising(es, base) && p.start <= base <= p.end
    ensures es != [] && Last(es).StopAsked? ==> LastLook(es, p.start) == LastNsec(es, p.start)
    ensures GoesOn(p, es) ==> LastLook(es, p.start) <= p.end
    ensures GoesOn(p, es) && !StillWaiting(p, es)
            ==> LastNsec(es, p.start) <= LastLook(es, p.start) + CHECK_INTERVAL
    decreases |es|
  {
    if es != [] {
      var front, e := es[..|es| - 1], Last(es);
      LooksOften(p, front, base);
      hide SlicesDone, Deadline, Sends, CheckDue;
      match e {
        case Nsec(_) =>
          CallGoesOn(p, front);
          NotDue(p, es);
        case StopAsked(_) =>
          DueAfterReading(p, front);
        case Microtime(_) =>
          assert front != [] && Last(front).StopAsked?;
          NsecBeforeLast(front, base, p.start);
        case _ =>
          CallGoesOn(p, front);
          NotWaiting(p, front);
      }
    }
  }

  lemma CallGoesOn(p: Plan, h: seq<Event>)
    requires var call := NextCall(WithRate(p), h);
             call.ReadNsec? || call.ReadTimeOfDay? || call.Send?
    ensures GoesOn(p, h)
  {
    hide SlicesDone, Deadline, Sends, LastLook;
  }

  lemma NotDue(p: Plan, h: seq<Event>)
    requires h != [] && Last(h).Nsec?
    ensures !CheckDue(p, h) && !StillWaiting(p, h)
            ==> Last(h).time <= LastLook(h[..|h| - 1], p.start) + CHECK_INTERVAL
  {
    hide SlicesDone, Deadline, LastLook;
  }

  lemma DueAfterReading(p: Plan, h: seq<Event>)
    requires NextCall(WithRate(p), h).AskStop?
    ensures h != [] && Last(h).Nsec? && LastTime(h, p.start) == LastNsec(h, p.start) == Last(h).time
  {
    hide SlicesDone, Deadline, Sends, LastLook;
  }

  lemma NotWaiting(p: Plan, h: seq<Event>)
    requires Follows(WithRate(p), h)
    requires var call := NextCall(WithRate(p), h); call.ReadTimeOfDay? || call.Send?
    ensures !StillWaiting(p, h)
  {
    StaysInSchedule(p, h);
    hide Deadline, Sends, LastLook, Plan.SentBy;
  }

  /** So no slice begins to send on a reading more than a tenth of a second after the last look at the
      stop flag, nor more than that after the end of the runtime. */
  lemma NoneTooLate(p: Plan, es: seq<Event>, base: real, i: nat)
    requires Follows(WithRate(p), es) && Rising(es, base) && p.start <= base <= p.end
    requires i < |es| && es[i].SendTo?
    ensures LastNsec(es[..i], p.start) <= LastLook(es[..i], p.start) + CHECK_INTERVAL
    ensures LastNsec(es[..i], p.start) <= p.end + CHECK_INTERVAL
  {
    FollowsAt(WithRate(p), es, i);
    FollowsPrefix(WithRate(p), es, i);
    RisingPrefix(es, base, i);
    LooksOften(p, es[..i], base);
    hide SlicesDone, Deadline;
  }

  /** A stop flag that is found raised, or a time that is found to be up, is the last thing a loop
      sees; and it makes no other call after looking at a flag that is not raised than to look at the
      time. */
  lemma StopEndsLoop(rule: Rule, es: seq<Event>, i: nat)
    requires Follows(rule, es) && i < |es|
    ensures es[i] == StopAsked(true) ==> i == |es| - 1
    ensures (es[i].Microtime? && NextCall(rule, es[..i + 1]).NoCall?) ==> i == |es| - 1
    ensures es[i] == StopAsked(false) && i + 1 < |es| ==> es[i + 1].Microtime?
  {
    assert Last(es[..i + 1]) == es[i];
    if i + 1 < |es| {
      FollowsAt(rule, es, i + 1);
    }
  }

  /** Without a rate, a loop that ends has sent a positive multiple of 10001 packets. */
  lemma WholeBatches(end: real, es: seq<Event>, ending: Ending)
    requires WholeLoop(WithoutRate(end), es, ending) && !ending.Overread?
    ensures Sends(es) > 0 && Sends(es) % BATCH == 0
    ensures ending.Asked? || ending.TimeUp?
  {
    var front := es[..|es| - 1];
    if Last(es).StopAsked? {
      AtBatchEnd(end, front);
    } else {
      assert Last(front).StopAsked? && Follows(WithoutRate(end), front);
      AtBatchEnd(end, front[..|front| - 1]);
    }
  }

  lemma AtBatchEnd(end: real, h: seq<Event>)
    requires NextCall(WithoutRate(end), h).AskStop?
    ensures Sends(h) > 0 && Sends(h) % BATCH == 0
  {
  }
}
