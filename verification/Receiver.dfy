/** The receiving side: `RawSocketReceiver::Counter`, `count_packet`, the Linux `receive` and the loop
    of the receiver thread. Round-trip times are in ticks of 100 microseconds. */
module Receiver {
  import Arith
  import opened Bytes
  import opened PacketFilter
  import opened Query

  const RCODES := 16
  const BUFLEN := 4096
  const SAMPLE_END := 46 // the two flag bytes of a DNS header behind all others

  /** What `count_packet` takes from a packet. */
  datatype Sample = Sample(size: nat, rtt: nat, rcode: nat, truncated: bool)

  /** The value of a `Counter`. */
  datatype Stats = Stats(num: nat, bytes: nat, truncated: nat, rcodes: seq<nat>,
                         total: nat, min: nat, max: nat)

  /** `clear`: the last rcode bucket is not reset. */
  function Cleared(carry: nat): Stats {
    Stats(0, 0, 0, seq(RCODES, i => if i == 15 then carry else 0), 0, 0, 0)
  }

  /** One more packet. A minimum of zero counts as "none yet". */
  function CountOne(s: Stats, p: Sample): Stats
    requires |s.rcodes| == RCODES && p.rcode < RCODES
  {
    Stats(s.num + 1, s.bytes + p.size, s.truncated + (if p.truncated then 1 else 0),
          s.rcodes[p.rcode := s.rcodes[p.rcode] + 1], s.total + p.rtt,
          if p.rtt < s.min || s.min == 0 then p.rtt else s.min,
          if p.rtt > s.max then p.rtt else s.max)
  }

  predicate GoodSamples(ps: seq<Sample>) {
    forall i :: 0 <= i < |ps| ==> ps[i].rcode < RCODES
  }

  /** A counter that is cleared, `carry` standing in its last bucket, and then counts some packets. */
  function CountedAll(carry: nat, ps: seq<Sample>): (s: Stats)
    requires GoodSamples(ps)
    ensures |s.rcodes| == RCODES
  {
    if ps == [] then Cleared(carry)
    else CountOne(CountedAll(carry, ps[..|ps| - 1]), ps[|ps| - 1])
  }

  function Rtts(ps: seq<Sample>): (r: seq<nat>)
    ensures |r| == |ps| && forall i :: 0 <= i < |ps| ==> r[i] == ps[i].rtt
  {
    seq(|ps|, i requires 0 <= i < |ps| => ps[i].rtt)
  }

  function Sizes(ps: seq<Sample>): (r: seq<nat>)
    ensures |r| == |ps| && forall i :: 0 <= i < |ps| ==> r[i] == ps[i].size
  {
    seq(|ps|, i requires 0 <= i < |ps| => ps[i].size)
  }

  function Codes(ps: seq<Sample>): (r: seq<nat>)
    ensures |r| == |ps| && forall i :: 0 <= i < |ps| ==> r[i] == ps[i].rcode
  {
    seq(|ps|, i requires 0 <= i < |ps| => ps[i].rcode)
  }

  function Truncations(ps: seq<Sample>): (r: seq<bool>)
    ensures |r| == |ps| && forall i :: 0 <= i < |ps| ==> r[i] == ps[i].truncated
  {
    seq(|ps|, i requires 0 <= i < |ps| => ps[i].truncated)
  }

  /** How many packets had this answer code. */
  function CountRcode(ps: seq<Sample>, rcode: nat): nat {
    multiset(Codes(ps))[rcode]
  }

  /** Number, bytes, sum of the times and truncated answers are what they are called. */
  lemma {:induction false} SumIsTrue(carry: nat, ps: seq<Sample>)
    requires GoodSamples(ps)
    ensures CountedAll(carry, ps).num == |ps|
    ensures CountedAll(carry, ps).total == Arith.Sum(Rtts(ps))
    ensures CountedAll(carry, ps).bytes == Arith.Sum(Sizes(ps))
    ensures CountedAll(carry, ps).truncated == multiset(Truncations(ps))[true]
    decreases |ps|
  {
    if ps != [] {
      var n := |ps| - 1;
      SumIsTrue(carry, ps[..n]);
      assert Rtts(ps)[..n] == Rtts(ps[..n]) && Sizes(ps)[..n] == Sizes(ps[..n]);
      assert Truncations(ps) == Truncations(ps[..n]) + [ps[n].truncated];
    }
  }

  predicate IsMaximum(m: nat, xs: seq<nat>) {
    m in xs && forall x :: x in xs ==> x <= m
  }

  lemma {:induction false} MaximumIsTrue(carry: nat, ps: seq<Sample>)
    requires GoodSamples(ps)
    ensures if ps == [] then CountedAll(carry, ps).max == 0
            else IsMaximum(CountedAll(carry, ps).max, Rtts(ps))
    decreases |ps|
  {
    if ps != [] {
      var n := |ps| - 1;
      MaximumIsTrue(carry, ps[..n]);
      assert Rtts(ps) == Rtts(ps[..n]) + [ps[n].rtt];
    }
  }

  lemma OneMoreCode(ps: seq<Sample>, c: nat)
    requires ps != []
    ensures var n := |ps| - 1;
            CountRcode(ps, c) == CountRcode(ps[..n], c) + (if ps[n].rcode == c then 1 else 0)
  {
    assert Codes(ps) == Codes(ps[..|ps| - 1]) + [ps[|ps| - 1].rcode];
  }

  /** Every answer code is counted in its own bucket, on top of what the last bucket carried over;
      together the buckets hold every packet once. */
  lemma {:induction false} RcodesAreTrue(carry: nat, ps: seq<Sample>)
    requires GoodSamples(ps)
    ensures var rcodes := CountedAll(carry, ps).rcodes;
            && (forall c :: 0 <= c < RCODES ==>
                  rcodes[c] == CountRcode(ps, c) + (if c == 15 then carry else 0))
            && Arith.Sum(rcodes) == |ps| + carry
    decreases |ps|
  {
    if ps == [] {
      BucketsOfCleared(carry);
    } else {
      var n := |ps| - 1;
      RcodesAreTrue(carry, ps[..n]);
      forall c: nat
        ensures CountRcode(ps, c) == CountRcode(ps[..n], c) + (if ps[n].rcode == c then 1 else 0)
      {
        OneMoreCode(ps, c);
      }
      hide CountRcode;
      var before, c := CountedAll(carry, ps[..n]).rcodes, ps[n].rcode;
      Arith.SumUpdate(before, c, before[c] + 1);
    }
  }

  /** So the reported answer codes add up to the number of packets exactly when the last bucket was
      empty before the run. */
  lemma RcodesAddUp(carry: nat, ps: seq<Sample>)
    requires GoodSamples(ps)
    ensures Arith.Sum(CountedAll(carry, ps).rcodes) == CountedAll(carry, ps).num <==> carry == 0
  {
    RcodesAreTrue(carry, ps);
    SumIsTrue(carry, ps);
  }

  /** What the last bucket holds after some runs of one receiver, each of which clears the counter. */
  function CarryAfter(carry: nat, runs: seq<seq<Sample>>): nat
    requires forall i :: 0 <= i < |runs| ==> GoodSamples(runs[i])
  {
    if runs == [] then carry
    else CountedAll(CarryAfter(carry, runs[..|runs| - 1]), runs[|runs| - 1]).rcodes[15]
  }

  function Joined(runs: seq<seq<Sample>>): seq<Sample> {
    if runs == [] then [] else Joined(runs[..|runs| - 1]) + runs[|runs| - 1]
  }

  lemma CountRcodeConcat(a: seq<Sample>, b: seq<Sample>, rcode: nat)
    ensures CountRcode(a + b, rcode) == CountRcode(a, rcode) + CountRcode(b, rcode)
  {
    assert Codes(a + b) == Codes(a) + Codes(b);
  }

  /** Over a series of runs the last bucket collects the answers with code 15 of all of them. */
  lemma {:induction false} CarryOverRuns(carry: nat, runs: seq<seq<Sample>>)
    requires forall i :: 0 <= i < |runs| ==> GoodSamples(runs[i])
    ensures CarryAfter(carry, runs) == carry + CountRcode(Joined(runs), 15)
    decreases |runs|
  {
    if runs != [] {
      var front, last := runs[..|runs| - 1], runs[|runs| - 1];
      CarryOverRuns(carry, front);
      RcodesAreTrue(CarryAfter(carry, front), last);
      CountRcodeConcat(Joined(front), last, 15);
    }
  }

  /** So the answer codes that a run reports add up to its packets exactly when the memory of the
      counter was clear and no answer of an earlier run had code 15. */
  lemma RcodesOfLaterRun(garbage: nat, earlier: seq<seq<Sample>>, ps: seq<Sample>)
    requires (forall i :: 0 <= i < |earlier| ==> GoodSamples(earlier[i])) && GoodSamples(ps)
    ensures var s := CountedAll(CarryAfter(garbage, earlier), ps);
            Arith.Sum(s.rcodes) == s.num <==> garbage == 0 && CountRcode(Joined(earlier), 15) == 0
  {
    CarryOverRuns(garbage, earlier);
    RcodesAddUp(CarryAfter(garbage, earlier), ps);
  }

  /** A first run with one answer of code 15, and a second one with no answers that reports it. */
  lemma CodeOfEarlierRun(first: Sample, runs: seq<seq<Sample>>, second: seq<Sample>)
    requires first.rcode == 15 && |runs| == 1 && runs[0] == [first] && |second| == 0
    ensures var s := CountedAll(CarryAfter(0, runs), second);
            s.num == 0 && s.rcodes[15] == 1 && Arith.Sum(s.rcodes) == 1
  {
    CarryOverRuns(0, runs);
    OnlyRun(runs, first);
    hide CountRcode, Joined, CarryAfter;
    RcodesAreTrue(CarryAfter(0, runs), second);
    SumIsTrue(CarryAfter(0, runs), second);
    hide CountedAll;
    assert CountRcode(second, 15) == 0 by { NoCodes(second, 15); }
  }

  lemma OnlyRun(runs: seq<seq<Sample>>, first: Sample)
    requires |runs| == 1 && runs[0] == [first]
    ensures CountRcode(Joined(runs), first.rcode) == 1
  {
    assert |runs[..0]| == 0 && Joined(runs) == Joined(runs[..0]) + runs[0];
    assert Joined(runs) == [first];
    assert Codes([first]) == [first.rcode];
  }

  lemma NoCodes(ps: seq<Sample>, c: nat)
    requires |ps| == 0
    ensures CountRcode(ps, c) == 0
  {
    assert Codes(ps) == [];
  }

  lemma BucketsOfCleared(carry: nat)
    ensures Arith.Sum(Cleared(carry).rcodes) == carry
  {
    var zeros := seq(RCODES, i => 0);
    Arith.SumConstant(zeros, 0);
    Arith.SumUpdate(zeros, 15, carry);
    assert Cleared(carry).rcodes == zeros[15 := carry];
  }

  /** The samples after the last one that was zero. */
  function SinceZero(rtts: seq<nat>): seq<nat> {
    if rtts == [] || rtts[|rtts| - 1] == 0 then []
    else SinceZero(rtts[..|rtts| - 1]) + [rtts[|rtts| - 1]]
  }

  predicate IsMinimum(m: nat, xs: seq<nat>) {
    m in xs && forall x :: x in xs ==> m <= x
  }

  /** The reported minimum is that of the samples since the last zero, or zero if there are none. */
  lemma {:induction false} MinimumSinceZero(carry: nat, ps: seq<Sample>)
    requires GoodSamples(ps)
    ensures var m, tail := CountedAll(carry, ps).min, SinceZero(Rtts(ps));
            && (m == 0 <==> tail == [])
            && (tail != [] ==> IsMinimum(m, tail))
    decreases |ps|
  {
    if ps != [] {
      var n := |ps| - 1;
      MinimumSinceZero(carry, ps[..n]);
      assert Rtts(ps)[..n] == Rtts(ps[..n]);
    }
  }

  lemma {:induction false} SinceZeroIsSuffix(rtts: seq<nat>)
    ensures forall x :: x in SinceZero(rtts) ==> x in rtts && x > 0
    ensures 0 !in rtts ==> SinceZero(rtts) == rtts
    ensures SinceZero(rtts) == [] <==> rtts == [] || rtts[|rtts| - 1] == 0
    decreases |rtts|
  {
    if rtts != [] {
      var n := |rtts| - 1;
      SinceZeroIsSuffix(rtts[..n]);
      assert rtts == rtts[..n] + [rtts[n]];
    }
  }

  /** So it is the minimum of all samples exactly when none of them was zero or the last one was: a
      zero followed by a longer time is forgotten. */
  lemma TrueMinimum(carry: nat, ps: seq<Sample>)
    requires GoodSamples(ps) && ps != []
    ensures IsMinimum(CountedAll(carry, ps).min, Rtts(ps))
            <==> 0 !in Rtts(ps) || ps[|ps| - 1].rtt == 0
  {
    var rtts := Rtts(ps);
    MinimumSinceZero(carry, ps);
    SinceZeroIsSuffix(rtts);
    assert rtts[|ps| - 1] in rtts;
  }

  /** The case that goes wrong: a zero, then five ticks. */
  lemma ForgottenMinimum()
    ensures var ps := [Sample(60, 0, 0, false), Sample(60, 5, 0, false)];
            GoodSamples(ps) && CountedAll(0, ps).min == 5 && !IsMinimum(5, Rtts(ps))
  {
    var ps := [Sample(60, 0, 0, false), Sample(60, 5, 0, false)];
    assert ps[..1] == [Sample(60, 0, 0, false)] && ps[..1][..0] == [];
    assert CountedAll(0, ps[..1]).min == 0;
    assert Rtts(ps)[0] == 0 && 0 in Rtts(ps);
  }

  /** Without zero samples, minimum <= average <= maximum. */
  lemma AverageBetween(carry: nat, ps: seq<Sample>)
    requires GoodSamples(ps) && ps != [] && 0 !in Rtts(ps)
    ensures var s := CountedAll(carry, ps);
            s.num * s.min <= s.total <= s.num * s.max
  {
    var s, rtts := CountedAll(carry, ps), Rtts(ps);
    SumIsTrue(carry, ps);
    MaximumIsTrue(carry, ps);
    TrueMinimum(carry, ps);
    var lows, highs := seq(|ps|, _ => s.min), seq(|ps|, _ => s.max);
    Arith.SumConstant(lows, s.min);
    Arith.SumConstant(highs, s.max);
    forall i | 0 <= i < |ps|
      ensures lows[i] <= rtts[i] <= highs[i]
    {
      assert rtts[i] in rtts;
    }
    Arith.SumMonotone(lows, rtts);
    Arith.SumMonotone(rtts, highs);
  }

  /** What `count_packet` reads from a buffer: the DNS ID as a send time, rcode and TC. */
  function SampleOf(order: ByteOrder, buffer: seq<byte>, size: nat, now: Option<TimeVal>): (p: Sample)
    requires |buffer| >= SAMPLE_END && (now.Some? ==> IsReading(now.value))
    ensures p.rcode < RCODES
  {
    Sample(size, RttTicks(Net16At(buffer, 42), QueryTimestamp(now)), Rcode(order, buffer[45]),
           Tc(order, buffer[44]) == 1)
  }

  /** Whether a frame gives the same sample whatever the receive buffer held before. */
  ghost predicate SampleDecided(order: ByteOrder, frame: seq<byte>, now: Option<TimeVal>)
    requires now.Some? ==> IsReading(now.value)
  {
    forall b, c :: |b| == BUFLEN && |c| == BUFLEN ==>
      SampleOf(order, Received(b, frame), Used(b, frame), now)
      == SampleOf(order, Received(c, frame), Used(c, frame), now)
  }

  /** Frames of 36 to 45 bytes can pass the checks, and part of what is counted for them is what an
      earlier frame left in the buffer: the sample depends on the frame alone from 46 bytes on. */
  lemma ShortSamples(order: ByteOrder, frame: seq<byte>, now: Option<TimeVal>)
    requires now.Some? ==> IsReading(now.value)
    ensures SampleDecided(order, frame, now) <==> |frame| >= SAMPLE_END
  {
    if |frame| < SAMPLE_END {
      var b: seq<byte>, c: seq<byte> := seq(BUFLEN, _ => 0), seq(BUFLEN, _ => 17);
      assert Received(b, frame)[45] == 0 && Received(c, frame)[45] == 17;
      assert SampleOf(order, Received(b, frame), Used(b, frame), now).rcode == 0;
      assert SampleOf(order, Received(c, frame), Used(c, frame), now).rcode == 1;
    }
  }

  class Counter {
    var numPkgs: nat
    var bytesRcv: nat
    var truncated: nat
    var rttTotal: nat
    var rttMin: nat
    var rttMax: nat
    const rcodes: array<nat>

    ghost predicate Valid()
    {
      rcodes.Length == RCODES
    }

    ghost function View(): Stats
      reads this, rcodes
    {
      Stats(numPkgs, bytesRcv, truncated, rcodes[..], rttTotal, rttMin, rttMax)
    }

    /** The constructor leaves the last bucket as it finds it in memory. */
    constructor (garbage: nat)
      ensures Valid() && fresh(rcodes) && View() == Cleared(garbage)
    {
      numPkgs, bytesRcv, truncated, rttTotal, rttMin, rttMax := 0, 0, 0, 0, 0, 0;
      rcodes := new nat[RCODES](_ => 0);
      new;
      rcodes[15] := garbage;
      assert rcodes[..] == Cleared(garbage).rcodes;
    }

    method Clear()
      requires Valid()
      modifies this, rcodes
      ensures View() == Cleared(old(rcodes[15]))
    {
      numPkgs, bytesRcv, truncated := 0, 0, 0;
      for i := 0 to 15
        invariant forall j :: 0 <= j < i ==> rcodes[j] == 0
        invariant rcodes[15] == old(rcodes[15])
        invariant numPkgs == bytesRcv == truncated == 0
      {
        rcodes[i] := 0;
      }
      rttTotal, rttMin, rttMax := 0, 0, 0;
      assert rcodes[..] == Cleared(old(rcodes[15])).rcodes;
    }

    method CountPacket(order: ByteOrder, buffer: array<byte>, size: nat, now: Option<TimeVal>)
      requires Valid() && buffer.Length >= SAMPLE_END && (now.Some? ==> IsReading(now.value))
      modifies this, rcodes
      ensures View() == CountOne(old(View()), SampleOf(order, old(buffer[..]), size, now))
    {
      hide RttTicks, QueryTimestamp, Rcode, Tc;
      numPkgs := numPkgs + 1;
      bytesRcv := bytesRcv + size;
      var rd := RttTicks(Word16(buffer[42], buffer[43]), QueryTimestamp(now));
      rttTotal := rttTotal + rd;
      if rd < rttMin || rttMin == 0 {
        rttMin := rd;
      }
      if rd > rttMax {
        rttMax := rd;
      }
      var rcode := Rcode(order, buffer[45]);
      if Tc(order, buffer[44]) == 1 {
        truncated := truncated + 1;
      }
      if rcode < 16 {
        rcodes[rcode] := rcodes[rcode] + 1;
      }
    }
  }

  /** A frame that arrives, and the clock reading when it is counted. */
  datatype Arrival = Arrival(frame: seq<byte>, now: Option<TimeVal>)

  predicate GoodArrivals(arrivals: seq<Arrival>) {
    forall i :: 0 <= i < |arrivals| ==>
      arrivals[i].now.Some? ==> IsReading(arrivals[i].now.value)
  }

  /** The receive buffer after some frames. */
  function BufferAfter(buffer: seq<byte>, arrivals: seq<Arrival>): (r: seq<byte>)
    ensures |r| == |buffer|
  {
    if arrivals == [] then buffer
    else Received(BufferAfter(buffer, arrivals[..|arrivals| - 1]), arrivals[|arrivals| - 1].frame)
  }

  /** The samples that some frames give: one for each that the checks accept. */
  function SamplesOf(order: ByteOrder, buffer: seq<byte>, arrivals: seq<Arrival>, ip: seq<byte>,
                     port: word):
    (ps: seq<Sample>)
    requires |buffer| == BUFLEN && GoodArrivals(arrivals)
    ensures GoodSamples(ps)
  {
    if arrivals == [] then []
    else
      var n := |arrivals| - 1;
      var b := BufferAfter(buffer, arrivals);
      var used := Used(buffer, arrivals[n].frame);
      SamplesOf(order, buffer, arrivals[..n], ip, port) +
      (if LinuxAccepts(b, used, ip, port) then [SampleOf(order, b, used, arrivals[n].now)] else [])
  }

  lemma OneMoreArrival(order: ByteOrder, carry: nat, buffer: seq<byte>, arrivals: seq<Arrival>,
                       more: Arrival, ip: seq<byte>, port: word)
    requires |buffer| == BUFLEN && GoodArrivals(arrivals) && GoodArrivals(arrivals + [more])
    ensures var b := BufferAfter(buffer, arrivals + [more]);
            var used := Used(buffer, more.frame);
            var s := CountedAll(carry, SamplesOf(order, buffer, arrivals, ip, port));
            && b == Received(BufferAfter(buffer, arrivals), more.frame)
            && CountedAll(carry, SamplesOf(order, buffer, arrivals + [more], ip, port))
               == if LinuxAccepts(b, used, ip, port)
                  then CountOne(s, SampleOf(order, b, used, more.now)) else s
  {
    assert (arrivals + [more])[..|arrivals|] == arrivals;
    var ps := SamplesOf(order, buffer, arrivals, ip, port);
    var p := SampleOf(order, BufferAfter(buffer, arrivals + [more]), Used(buffer, more.frame), more.now);
    assert (ps + [p])[..|ps|] == ps && ps + [] == ps;
  }

  lemma NoArrivals(order: ByteOrder, carry: nat, buffer: seq<byte>, ip: seq<byte>, port: word)
    requires |buffer| == BUFLEN
    ensures BufferAfter(buffer, []) == buffer
    ensures CountedAll(carry, SamplesOf(order, buffer, [], ip, port)) == Cleared(carry)
  {
  }

  lemma PutIsReceived(b: seq<byte>, frame: seq<byte>)
    ensures Put(b, 0, frame[..Used(b, frame)]) == Received(b, frame)
    ensures Used(b, frame) == if |frame| >= |b| then |b| else |frame|
  {
    if |frame| < |b| {
      assert frame[..|frame|] == frame;
    }
  }

  class RawSocketReceiver {
    const order: ByteOrder
    const buffer: array<byte>
    const sourceIP: seq<byte>
    const sourcePort: word // as `htons` leaves it

    ghost predicate Valid() {
      buffer.Length == BUFLEN && |sourceIP| == 4
    }

    /** The port the receiver was set to. */
    ghost function Port(): word {
      Htons(order, sourcePort)
    }

    constructor (order: ByteOrder, ip: seq<byte>, port: word)
      requires |ip| == 4
      ensures Valid() && fresh(buffer) && sourceIP == ip && Port() == port
    {
      this.order := order;
      buffer := new byte[BUFLEN](_ => 0);
      sourceIP, sourcePort := ip, Htons(order, port);
      new;
      StoreHtons(order, port);
    }

    /** The Linux `receive`, for a frame that `recvfrom` delivers into the buffer. */
    method Receive(counter: Counter, frame: seq<byte>, now: Option<TimeVal>)
      requires Valid() && counter.Valid() && (now.Some? ==> IsReading(now.value))
      modifies buffer, counter, counter.rcodes
      ensures buffer[..] == Received(old(buffer[..]), frame)
      ensures var used := Used(old(buffer[..]), frame);
              counter.View() ==
              if LinuxAccepts(buffer[..], used, sourceIP, Port())
              then CountOne(old(counter.View()), SampleOf(order, buffer[..], used, now))
              else old(counter.View())
    {
      hide CountOne, SampleOf, LinuxAccepts, Received, Used;
      var bufused := Recvfrom(frame);
      var answer := IsAnswer(bufused);
      if answer {
        counter.CountPacket(order, buffer, bufused, now);
      }
    }

    /** `recvfrom`: the rest of the buffer keeps what it held. */
    method Recvfrom(frame: seq<byte>) returns (bufused: nat)
      requires Valid()
      modifies buffer
      ensures buffer[..] == Received(old(buffer[..]), frame)
      ensures bufused == Used(old(buffer[..]), frame)
    {
      bufused := if |frame| >= BUFLEN then BUFLEN else |frame|;
      Poke(buffer, 0, frame[..bufused]);
      hide Received, Used;
      PutIsReceived(old(buffer[..]), frame);
    }

    /** The checks of `receive`, in their order. */
    method IsAnswer(bufused: nat) returns (ok: bool)
      requires Valid()
      ensures ok == LinuxAccepts(buffer[..], bufused, sourceIP, Port())
    {
      if bufused < 34 {
        return false;
      }
      NativeComparison(order, buffer[12], buffer[13], 0x0800);
      if Load16(order, buffer[12], buffer[13]) != Htons(order, 0x0800) {
        return false;
      }
      if buffer[14] / 16 != 4 {
        return false;
      }
      if buffer[26..30] != sourceIP {
        return false;
      }
      StoreHtons(order, sourcePort);
      NativeComparison(order, buffer[34], buffer[35], Port());
      if Load16(order, buffer[34], buffer[35]) != sourcePort {
        return false;
      }
      return true;
    }

    /** `DNSReceiverThread::run` until it is told to stop: a cleared counter, then every frame. */
    method Run(counter: Counter, arrivals: seq<Arrival>)
      requires Valid() && counter.Valid() && GoodArrivals(arrivals)
      modifies buffer, counter, counter.rcodes
      ensures counter.View() ==
              CountedAll(old(counter.rcodes[15]),
                         SamplesOf(order, old(buffer[..]), arrivals, sourceIP, Port()))
    {
      hide Cleared, CountOne, CountedAll, SamplesOf, BufferAfter;
      NoArrivals(order, counter.rcodes[15], buffer[..], sourceIP, Port());
      assert arrivals[..0] == [];
      counter.Clear();
      for i := 0 to |arrivals|
        invariant buffer[..] == BufferAfter(old(buffer[..]), arrivals[..i])
        invariant counter.View() ==
                  CountedAll(old(counter.rcodes[15]),
                             SamplesOf(order, old(buffer[..]), arrivals[..i], sourceIP, Port()))
      {
        assert arrivals[..i + 1] == arrivals[..i] + [arrivals[i]];
        OneMoreArrival(order, old(counter.rcodes[15]), old(buffer[..]), arrivals[..i], arrivals[i],
                       sourceIP, Port());
        Receive(counter, arrivals[i].frame, arrivals[i].now);
      }
      assert arrivals[..|arrivals|] == arrivals;
    }
  }
}
