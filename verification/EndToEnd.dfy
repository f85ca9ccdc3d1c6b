/** What the pieces give together: from a line of the query file to the datagram on the wire, from the
    answer back to a round-trip time, and from the configured rate to what all threads send. */
module EndToEnd {
  import Arith
  import opened Bytes
  import opened Datagram
  import opened DnsMessage
  import DnssecSpread
  import opened Environment
  import opened PacketBuffer
  import opened PacketFilter
  import opened Payload
  import opened Query
  import opened Receiver
  import opened Runs
  import opened Schedule
  import opened SentPackets
  import opened SenderThread
  import opened Trace
  import Sender
  import Workers

  // Meaning of the packets.

  /** Stamping the ID of a message changes its ID and nothing else. */
  lemma StampKeepsMeaning(b: seq<byte>, id: word)
    requires ParseMessage(b).Some?
    ensures ParseMessage(Stamp(b, id)) == Some(ParseMessage(b).value.(id := id))
  {
    hide Stamp, ParseBody;
    StampParts(b, id);
  }

  lemma StampParts(b: seq<byte>, id: word)
    requires |b| >= HEADER_BYTES
    ensures var r := Stamp(b, id);
            && r[HEADER_BYTES..] == b[HEADER_BYTES..]
            && Net16At(r, 0) == id && forall i :: 2 <= i < |b| ==> r[i] == b[i]
  {
  }

  /** What a text query has become when it is sent. */
  function SentMessage(order: ByteOrder, m: Message, flagged: bool, stamp: word): Message {
    (if flagged then WithOpt(order, m, UDP_PAYLOAD_SIZE) else m).(id := stamp)
  }

  /** From the cache to the wire: the payload made from a compiled query parses to that query with the
      timestamp as its ID and, when flagged, AD set and one OPT record. */
  lemma TextQueryOnTheWire(order: ByteOrder, entry: seq<byte>, flagged: bool, stamp: word)
    requires PlainQuery(entry)
    ensures Sized(entry, false)
    ensures ParseMessage(Stamp(Prepared(order, entry, false, flagged), stamp))
            == Some(SentMessage(order, ParseMessage(entry).value, flagged, stamp))
  {
    hide ParseMessage;
    PlainQueryIsShort(entry);
    if flagged {
      AddDnssecKeepsMeaning(order, entry, UDP_PAYLOAD_SIZE);
    }
    StampKeepsMeaning(Prepared(order, entry, false, flagged), stamp);
  }

  /** The message in a datagram, if a receiver takes it for one. */
  function MessageIn(b: seq<byte>): Option<Message> {
    match ParseDatagram(b)
    case None => None
    case Some(d) => ParseMessage(d.payload)
  }

  /** A packet of a run over a text file reaches the target's receiver as the query of some line of
      that file, with the time of its sending as ID. */
  lemma GoodPacketIsQuery(aim: Aim, b: seq<byte>, flagged: bool, tp: Option<TimeVal>)
    requires GoodPacket(aim, b, flagged, tp) && !aim.pcap
    requires forall e :: e in aim.cache ==> PlainQuery(e)
    ensures (tp.Some? ==> IsReading(tp.value))
            && exists e :: e in aim.cache && ParseMessage(e).Some?
                 && MessageIn(b) == Some(SentMessage(aim.order, ParseMessage(e).value, flagged,
                                                     QueryTimestamp(tp)))
  {
    hide ParseDatagram, SourceAllowed, ParseMessage, SentMessage, Stamp, Prepared, QueryTimestamp;
    var d := ParseDatagram(b).value;
    var e :| Carries(aim, d, e, flagged, tp);
    TextQueryOnTheWire(aim.order, e, flagged, QueryTimestamp(tp));
    assert ParseMessage(e).Some?;
  }

  // Captured packets.

  /** A packet made from a captured frame carries what is behind its Ethernet, IP and UDP headers, with
      the first two bytes replaced by the time of its sending; if that is a DNS message, the receiver
      gets this message with that time as ID. */
  lemma CarriedCapture(aim: Aim, d: Datagram, eth: seq<byte>, ip: seq<byte>, udp: seq<byte>,
                       dns: seq<byte>, flagged: bool, tp: Option<TimeVal>)
    requires aim.pcap && |eth| == 14 && |ip| == 20 && |udp| == 8
    requires Carries(aim, d, eth + ip + udp + dns, flagged, tp)
    ensures (tp.Some? ==> IsReading(tp.value)) && d.payload == Stamp(dns, QueryTimestamp(tp))
    ensures ParseMessage(dns).Some? ==>
              ParseMessage(d.payload) == Some(ParseMessage(dns).value.(id := QueryTimestamp(tp)))
    ensures aim.mode.FromPcap? ==> d.src == ip[12..16] && d.sport == Net16At(udp, 0)
  {
    hide ParseMessage, Stamp, QueryTimestamp;
    var entry := eth + ip + udp + dns;
    assert entry[42..] == dns;
    if ParseMessage(dns).Some? {
      StampKeepsMeaning(dns, QueryTimestamp(tp));
    }
    if aim.mode.FromPcap? {
      assert entry[26..30] == ip[12..16];
      assert entry[34] == udp[0] && entry[35] == udp[1];
    }
  }

  /** What a captured frame has behind 14 bytes of Ethernet, 20 of IP and 8 of UDP header. */
  function BehindHeaders(frame: seq<byte>): seq<byte>
    requires |frame| >= 14 + 20 + 8
  {
    frame[14 + 20 + 8..]
  }

  /** Every packet of a run over a capture reaches the target's receiver with the DNS message of some
      frame in the cache, under the time of its sending as ID. */
  lemma GoodPacketIsCapture(aim: Aim, b: seq<byte>, flagged: bool, tp: Option<TimeVal>)
    requires GoodPacket(aim, b, flagged, tp) && aim.pcap
    requires forall e :: e in aim.cache ==> |e| >= 42 && ParseMessage(BehindHeaders(e)).Some?
    ensures (tp.Some? ==> IsReading(tp.value))
            && exists e :: e in aim.cache
                 && MessageIn(b) == Some(ParseMessage(BehindHeaders(e)).value.(id := QueryTimestamp(tp)))
  {
    hide ParseDatagram, SourceAllowed, ParseMessage, Stamp, QueryTimestamp;
    var d := ParseDatagram(b).value;
    var e :| Carries(aim, d, e, flagged, tp);
    var dns := BehindHeaders(e);
    assert e == e[..14] + e[14..34] + e[34..42] + dns;
    CarriedCapture(aim, d, e[..14], e[14..34], e[34..42], dns, flagged, tp);
  }

  /** A captured datagram that is played back with its own source differs from what was captured in its
      destination, its IP identification and its ID alone. */
  lemma PlayedBack(aim: Aim, d: Datagram, eth: seq<byte>, c: Datagram, flagged: bool,
                   tp: Option<TimeVal>)
    requires aim.pcap && aim.mode.FromPcap? && |eth| == 14 && WellFormed(c)
    requires Carries(aim, d, eth + Wire(c), flagged, tp)
    ensures (tp.Some? ==> IsReading(tp.value))
            && d == Datagram(c.src, aim.dst, aim.ipId, c.sport, aim.dport,
                             Stamp(c.payload, QueryTimestamp(tp)))
  {
    hide ParseMessage, Stamp, QueryTimestamp, IpChecksum, UdpChecksum;
    var w := Wire(c);
    var ip, udp := w[..20], w[20..28];
    assert w == ip + udp + c.payload;
    assert eth + w == eth + ip + udp + c.payload;
    CarriedCapture(aim, d, eth, ip, udp, c.payload, flagged, tp);
    assert ip[12..16] == c.src;
    assert udp[0..2] == Net16(c.sport) && udp[0] == udp[0..2][0] && udp[1] == udp[0..2][1];
    Net16Inverse(c.sport);
  }

  /** Where a packet comes from and goes to: from the configured address, from some address of the
      configured network, or from where the entry says; to the configured target. */
  lemma FromAndTo(aim: Aim, d: Datagram, entry: seq<byte>, flagged: bool, tp: Option<TimeVal>)
    requires Carries(aim, d, entry, flagged, tp)
    ensures d.dst == aim.dst && d.dport == aim.dport
    ensures aim.mode.NoSpoofing? ==> d.src == aim.own && d.sport >= 1024
    ensures aim.mode.FromNet? ==>
              && |d.src| == 4 && d.sport >= 1024
              && aim.mode.start <= Word32At(d.src, 0) < aim.mode.start + aim.mode.size
    ensures aim.mode.FromPcap? ==>
              |entry| >= 36 && d.src == entry[26..30] && d.sport == Net16At(entry, 34)
  {
    if aim.mode.FromNet? {
      InNet(d, aim.mode.start, aim.mode.size);
    }
  }

  lemma InNet(d: Datagram, start: nat, size: nat)
    requires exists a :: start <= a < start + size && a < 0x1_0000_0000 && d.src == Net32(a)
    ensures |d.src| == 4 && start <= Word32At(d.src, 0) < start + size
  {
    var a :| start <= a < start + size && a < 0x1_0000_0000 && d.src == Net32(a);
    Net16Inverse(a / 0x1_0000);
    Net16Inverse(a % 0x1_0000);
    assert Net16At(d.src, 0) == a / 0x1_0000 && Net16At(d.src, 2) == a % 0x1_0000;
  }

  /** The packets that carry an OPT record. */
  function WithOptRecord(es: seq<Event>): set<nat> {
    set i: nat | i < |es| && HasOpt(es[i])
  }

  predicate HasOpt(e: Event) {
    e.SendTo? && MessageIn(e.packet).Some? && AsksForDnssec(MessageIn(e.packet).value)
  }

  /** One OPT record for the root name, with version and extended RCODE zero, room for 4096 bytes and
      the bit of section 3 of RFC 3225 set, and no other one of its word. */
  predicate AsksForDnssec(m: Message) {
    && |m.additional| == 1
    && var opt := m.additional[0];
       && opt.name == [] && opt.rtype == 41 && opt.rclass == 4096 && opt.rdata == []
       && |opt.ttl| == 4 && opt.ttl[0] == 0 && opt.ttl[1] == 0 && opt.ttl[2] == 0x80 && opt.ttl[3] == 0
  }

  lemma FlagIsOpt(aim: Aim, e: Event, flagged: bool, tp: Option<TimeVal>)
    requires e.SendTo? && GoodPacket(aim, e.packet, flagged, tp) && !aim.pcap
    requires forall entry :: entry in aim.cache ==> PlainQuery(entry)
    ensures HasOpt(e) <==> flagged
  {
    hide GoodPacket, ParseMessage, MessageIn, QueryTimestamp, SetAd;
    GoodPacketIsQuery(aim, e.packet, flagged, tp);
  }

  /** Of the packets that a run over a text file has handed to the socket, exactly the configured
      percentage, rounded down, carry the OPT record. */
  lemma OptShare(aim: Aim, es: seq<Event>)
    requires AllGood(aim, es) && !aim.pcap && aim.rate <= 100
    requires forall e :: e in aim.cache ==> PlainQuery(e)
    ensures |WithOptRecord(es)| == (aim.rate * |Packets(es)|) / 100
  {
    OptsAreFlags(aim, es);
    PacketsMeaning(es, 0.0);
    DnssecSpread.ExactShare(aim.rate, Sends(es));
  }

  lemma {:induction false} OptsAreFlags(aim: Aim, es: seq<Event>)
    requires AllGood(aim, es) && !aim.pcap
    requires forall e :: e in aim.cache ==> PlainQuery(e)
    ensures |WithOptRecord(es)| == DnssecSpread.FlaggedAfter(aim.rate, Sends(es))
    decreases |es|
  {
    hide HasOpt, PlainQuery, GoodPacket;
    if es == [] {
      assert WithOptRecord(es) == {};
    } else {
      var n := |es| - 1;
      var front := es[..n];
      OptsAreFlags(aim, front);
      Arith.OneMoreIn(WithOptRecord(es), WithOptRecord(front), n);
      if Last(es).SendTo? {
        FlagIsOpt(aim, Last(es), aim.Due(Sends(front)), Last(front).tp);
      } else {
        NotSent(Last(es));
      }
    }
  }

  lemma NotSent(e: Event)
    requires !e.SendTo?
    ensures !HasOpt(e)
  {
  }

  // Sources taken from entries that are no captures.

  /** A query for the root name is 17 bytes long and has no source to take: reading one would go past
      its end. */
  lemma WithoutSource(aim: Aim, id: word, flags1: byte, flags2: byte, q: Question)
    requires aim.mode.FromPcap? && ValidName(q.name) && |q.name| == 0
    ensures |EncodeQuery(id, flags1, flags2, q)| == 17
    ensures PlainQuery(EncodeQuery(id, flags1, flags2, q))
    ensures !aim.HasSource(EncodeQuery(id, flags1, flags2, q))
  {
    hide PlainQuery;
    QueryRoundTrip(id, flags1, flags2, q);
  }

  /** A captured entry always has one. */
  lemma CapturesHaveSources(aim: Aim)
    requires aim.pcap && forall entry :: entry in aim.cache ==> GoodEntry(aim.order, entry, aim.pcap)
    ensures !aim.SomeWithoutSource()
  {
  }

  /** A longer text entry gives letters of its first first, where a capture has the addresses. */
  lemma SourceFromText(id: word, flags1: byte, flags2: byte, q: Question)
    requires ValidName(q.name) && q.name != [] && |q.name[0]| >= 23
    ensures var entry, first := EncodeQuery(id, flags1, flags2, q), q.name[0];
            && |entry| >= SOURCE_FIELDS
            && entry[26..30] == first[13..17] && entry[34..36] == first[21..23]
  {
  }

  // The round trip of the timestamp.

  /** An answer from the target: it repeats the ID of the query it answers. */
  predicate AnswerTo(frame: seq<byte>, ip: seq<byte>, port: word, query: seq<byte>) {
    && |frame| >= SAMPLE_END && FrontMatches(frame, ip) && Net16At(frame, 34) == port
    && |query| >= 2 && Net16At(frame, 42) == Net16At(query, 0)
  }

  /** An answer is accepted and counted once, whatever the receiver has seen before. The time measured
      is the time since its query was stamped: exactly, in ticks of 100 microseconds, when that is less
      than six seconds, and modulo six seconds otherwise. */
  lemma MeasuredTime(order: ByteOrder, buffer: seq<byte>, arrivals: seq<Arrival>, ip: seq<byte>,
                     port: word, payload: seq<byte>, sent: TimeVal, frame: seq<byte>, received: TimeVal)
    requires IsReading(sent) && IsReading(received) && Micros(sent) <= Micros(received)
    requires |payload| >= 2 && |buffer| == BUFLEN && GoodArrivals(arrivals)
    requires AnswerTo(frame, ip, port, Stamp(payload, QueryTimestamp(Some(sent))))
    ensures GoodArrivals(arrivals + [Arrival(frame, Some(received))])
    ensures var elapsed := Micros(received) / 100 - Micros(sent) / 100;
            SamplesOf(order, buffer, arrivals + [Arrival(frame, Some(received))], ip, port)
            == SamplesOf(order, buffer, arrivals, ip, port)
               + [Sample(if |frame| < 4096 then |frame| else 4096, elapsed % TICKS, Rcode(order, frame[45]),
                         Tc(order, frame[44]) == 1)]
  {
    hide QueryTimestamp, LinuxAccepts, FrontMatches, Rcode, Tc, Received, Used, Stamp, SampleOf,
         SamplesOf, BufferAfter, Micros;
    var before := BufferAfter(buffer, arrivals);
    FrontThenPort(before, frame, ip, port);
    HeaderReceived(before, frame);
    NextSample(order, buffer, arrivals, Arrival(frame, Some(received)), ip, port);
    AnswerSample(order, before, frame, Stamp(payload, QueryTimestamp(Some(sent))), sent, received) by {
      StampedId(payload, QueryTimestamp(Some(sent)));
    }
  }

  lemma NextSample(order: ByteOrder, buffer: seq<byte>, arrivals: seq<Arrival>, a: Arrival,
                   ip: seq<byte>, port: word)
    requires |buffer| == BUFLEN && GoodArrivals(arrivals) && (a.now.Some? ==> IsReading(a.now.value))
    ensures GoodArrivals(arrivals + [a])
    ensures var before := BufferAfter(buffer, arrivals);
            var b, used := Received(before, a.frame), Used(before, a.frame);
            SamplesOf(order, buffer, arrivals + [a], ip, port)
            == SamplesOf(order, buffer, arrivals, ip, port)
               + (if LinuxAccepts(b, used, ip, port) then [SampleOf(order, b, used, a.now)] else [])
  {
    hide SampleOf, LinuxAccepts, Received;
    assert (arrivals + [a])[..|arrivals|] == arrivals;
  }

  lemma AnswerSample(order: ByteOrder, before: seq<byte>, frame: seq<byte>, query: seq<byte>,
                     sent: TimeVal, received: TimeVal)
    requires IsReading(sent) && IsReading(received) && Micros(sent) <= Micros(received)
    requires |before| == BUFLEN && |frame| >= SAMPLE_END && |query| >= 2
    requires Net16At(frame, 42) == Net16At(query, 0) == QueryTimestamp(Some(sent))
    ensures SampleOf(order, Received(before, frame), Used(before, frame), Some(received))
            == Sample(if |frame| < 4096 then |frame| else 4096,
                      (Micros(received) / 100 - Micros(sent) / 100) % TICKS, Rcode(order, frame[45]),
                      Tc(order, frame[44]) == 1)
  {
    HeaderReceived(before, frame);
    RttRoundTrip(sent, received);
    hide RttTicks, QueryTimestamp, Rcode, Tc, Received, Used, Micros, Net16At;
  }

  lemma StampedId(payload: seq<byte>, stamp: word)
    requires |payload| >= 2
    ensures Net16At(Stamp(payload, stamp), 0) == stamp
  {
    Net16Inverse(stamp);
  }

  lemma HeaderReceived(before: seq<byte>, frame: seq<byte>)
    requires |before| == BUFLEN && |frame| >= SAMPLE_END
    ensures Used(before, frame) == if |frame| < 4096 then |frame| else 4096
    ensures var b := Received(before, frame);
            && Net16At(b, 34) == Net16At(frame, 34) && Net16At(b, 42) == Net16At(frame, 42)
            && b[44] == frame[44] && b[45] == frame[45]
  {
  }

  /** Any other frame of 36 bytes or more leaves the statistics as they are: one that is not IPv4, not
      from the target's address, or not from its port. */
  lemma OtherFrame(order: ByteOrder, buffer: seq<byte>, arrivals: seq<Arrival>, ip: seq<byte>,
                   port: word, a: Arrival)
    requires |buffer| == BUFLEN && GoodArrivals(arrivals) && GoodArrivals(arrivals + [a])
    requires |a.frame| >= 36
    requires a.frame[12..14] != [8, 0] || a.frame[14] / 16 != 4 || a.frame[26..30] != ip
             || Net16At(a.frame, 34) != port
    ensures SamplesOf(order, buffer, arrivals + [a], ip, port)
            == SamplesOf(order, buffer, arrivals, ip, port)
  {
    hide LinuxAccepts, SamplesOf, SampleOf, BufferAfter, Received;
    TwoBytes(a.frame, 12, 8, 0);
    FrontThenPort(BufferAfter(buffer, arrivals), a.frame, ip, port);
    assert (arrivals + [a])[|arrivals|] == a;
    NextSample(order, buffer, arrivals, a, ip, port);
  }

  // The results.

  /** How many answers of a kind all logs hold. */
  function InAll(logs: seq<seq<Event>>, kind: seq<Event> -> set<nat>): nat {
    Arith.Sum(seq(|logs|, i requires 0 <= i < |logs| => |kind(logs[i])|))
  }

  function BytesInAll(logs: seq<seq<Event>>): nat {
    Arith.Sum(seq(|logs|, i requires 0 <= i < |logs| => Arith.Sum(WholeSizes(logs[i]))))
  }

  /** What `getResults` reports of the threads: of all that the sockets have answered in their runs, the
      whole packets and their bytes, the errors by their codes, and the rest. */
  lemma SentIsTrue(s: Sender.DNSSender, result: Sender.Results, logs: seq<seq<Event>>)
    requires s.Valid() && s.Gathered(result) && |logs| == |s.threads|
    requires forall i :: 0 <= i < |logs| ==>
               && s.threads[i].Valid() && s.threads[i].Counting() && s.threads[i].log == logs[i]
    ensures result.send == InAll(logs, Whole) && result.errors == InAll(logs, Refused)
    ensures result.zeroBytes == InAll(logs, CutShort) && result.bytesSend == BytesInAll(logs)
    ensures forall c :: 0 <= c < 255 ==> result.errorcodes[c] == InAll(logs, es => RefusedWith(es, c))
  {
    ThreadsAreTrue(s.threads, logs);
    forall c | 0 <= c < 255
      ensures Sender.SumCode(s.threads, c) == InAll(logs, es => RefusedWith(es, c))
    {
      CodesAreTrue(s.threads, logs, c);
    }
    hide DNSSenderThread.Valid, DNSSenderThread.Counting, InAll, BytesInAll;
  }

  /** And of the receiver, when it has counted some answers: their number, bytes, times, codes and
      truncations, and as lost the whole packets for which there was no answer. */
  lemma ReceivedIsTrue(s: Sender.DNSSender, result: Sender.Results, carry: nat, ps: seq<Sample>)
    requires s.Valid() && s.Gathered(result) && s.counter != null
    requires GoodSamples(ps) && s.counter.View() == CountedAll(carry, ps)
    ensures result.received == |ps| && result.bytesReceived == Arith.Sum(Sizes(ps))
    ensures result.rttTotal == Arith.Sum(Rtts(ps)) && result.truncated == multiset(Truncations(ps))[true]
    ensures result.rttMin == CountedAll(carry, ps).min
    ensures ps != [] ==> exists m :: result.rttMax == m && IsMaximum(m, Rtts(ps))
    ensures |result.rcodes| == 16
    ensures forall c :: 0 <= c < 16 ==>
              result.rcodes[c] == multiset(Codes(ps))[c] + (if c == 15 then carry else 0)
    ensures result.lost == if result.send > |ps| then result.send - |ps| else 0
  {
    ReceiverFigures(s, result, CountedAll(carry, ps));
    hide Sender.DNSSender.Gathered, Sender.DNSSender.Valid;
    SumIsTrue(carry, ps);
    MaximumIsTrue(carry, ps);
    CodesCounted(carry, ps);
    hide *;
    var all := CountedAll(carry, ps);
    assert ps != [] ==> result.rttMax == all.max && IsMaximum(all.max, Rtts(ps));
  }

  lemma CodesCounted(carry: nat, ps: seq<Sample>)
    requires GoodSamples(ps)
    ensures |CountedAll(carry, ps).rcodes| == 16
    ensures forall c :: 0 <= c < 16 ==>
              CountedAll(carry, ps).rcodes[c]
              == multiset(Codes(ps))[c] + (if c == 15 then carry else 0)
  {
    RcodesAreTrue(carry, ps);
  }

  /** The average is the sum of the times over the number of answers, or zero when there are none. */
  lemma AverageIsTrue(s: Sender.DNSSender, result: Sender.Results, carry: nat, ps: seq<Sample>)
    requires s.Valid() && s.Gathered(result) && s.counter != null
    requires GoodSamples(ps) && s.counter.View() == CountedAll(carry, ps)
    ensures result.rttAvg == if |ps| == 0 then 0.0 else Arith.Sum(Rtts(ps)) as real / |ps| as real
  {
    ReceiverFigures(s, result, CountedAll(carry, ps));
    SumIsTrue(carry, ps);
    hide *;
  }

  lemma ReceiverFigures(s: Sender.DNSSender, result: Sender.Results, all: Stats)
    requires s.Valid() && s.Gathered(result) && s.counter != null && s.counter.View() == all
    ensures result.received == all.num && result.bytesReceived == all.bytes
    ensures result.rttTotal == all.total && result.truncated == all.truncated
    ensures result.rttMin == all.min && result.rttMax == all.max && result.rcodes == all.rcodes
    ensures result.rttAvg == if all.num == 0 then 0.0 else all.total as real / all.num as real
    ensures result.lost == if result.send > all.num then result.send - all.num else 0
  {
    hide Sender.SumSend, Sender.SumBytes, Sender.SumErrors, Sender.SumZero, Sender.SumTotal, Sender.SumCode;
  }

  lemma ThreadsAreTrue(ts: seq<DNSSenderThread>, logs: seq<seq<Event>>)
    requires |logs| == |ts|
    requires forall i :: 0 <= i < |ts| ==> ts[i].Valid() && ts[i].Counting() && ts[i].log == logs[i]
    ensures Sender.SumSend(ts) == InAll(logs, Whole) && Sender.SumErrors(ts) == InAll(logs, Refused)
    ensures Sender.SumZero(ts) == InAll(logs, CutShort) && Sender.SumBytes(ts) == BytesInAll(logs)
  {
    forall i | 0 <= i < |ts|
      ensures Tally(ts[i].packetsSend, ts[i].errors, ts[i].zeroBytes, ts[i].bytesSend)
              == Tally(|Whole(logs[i])|, |Refused(logs[i])|, |CutShort(logs[i])|,
                       Arith.Sum(WholeSizes(logs[i])))
    {
      TallyMeaning(logs[i]);
    }
    hide DNSSenderThread.Valid, DNSSenderThread.Counting, Whole, Refused, CutShort, WholeSizes;
    Sender.SumsOfThreads(ts, seq(|logs|, i requires 0 <= i < |logs| => |Whole(logs[i])|),
                         seq(|logs|, i requires 0 <= i < |logs| => Arith.Sum(WholeSizes(logs[i]))),
                         seq(|logs|, i requires 0 <= i < |logs| => |Refused(logs[i])|),
                         seq(|logs|, i requires 0 <= i < |logs| => |CutShort(logs[i])|));
    InAllIs(logs);
  }

  lemma InAllIs(logs: seq<seq<Event>>)
    ensures InAll(logs, Whole)
            == Arith.Sum(seq(|logs|, i requires 0 <= i < |logs| => |Whole(logs[i])|))
    ensures InAll(logs, Refused)
            == Arith.Sum(seq(|logs|, i requires 0 <= i < |logs| => |Refused(logs[i])|))
    ensures InAll(logs, CutShort)
            == Arith.Sum(seq(|logs|, i requires 0 <= i < |logs| => |CutShort(logs[i])|))
  {
    SameSums(seq(|logs|, i requires 0 <= i < |logs| => |Whole(logs[i])|), logs, Whole);
    SameSums(seq(|logs|, i requires 0 <= i < |logs| => |Refused(logs[i])|), logs, Refused);
    SameSums(seq(|logs|, i requires 0 <= i < |logs| => |CutShort(logs[i])|), logs, CutShort);
  }

  lemma SameSums(counts: seq<nat>, logs: seq<seq<Event>>, kind: seq<Event> -> set<nat>)
    requires |counts| == |logs| && forall i :: 0 <= i < |logs| ==> counts[i] == |kind(logs[i])|
    ensures InAll(logs, kind) == Arith.Sum(counts)
  {
    assert counts == seq(|logs|, i requires 0 <= i < |logs| => |kind(logs[i])|);
  }

  lemma CodesAreTrue(ts: seq<DNSSenderThread>, logs: seq<seq<Event>>, code: nat)
    requires |logs| == |ts| && code < 255
    requires forall i :: 0 <= i < |ts| ==> ts[i].Valid() && ts[i].Counting() && ts[i].log == logs[i]
    requires forall t :: t in ts ==> t.errorcodes.Length == 255
    ensures Sender.SumCode(ts, code) == InAll(logs, es => RefusedWith(es, code))
  {
    var counts: seq<nat> := seq(|logs|, i requires 0 <= i < |logs| => |RefusedWith(logs[i], code)|);
    forall i | 0 <= i < |ts|
      ensures ts[i] in ts && ts[i].errorcodes[code] == counts[i]
    {
      CodesMeaning(logs[i], code);
    }
    Sender.SumOfCodes(ts, code, counts);
    SameSums(counts, logs, es => RefusedWith(es, code));
  }

  // The rate.

  /** The workers' configuration for a rate, a thread count and a runtime. */
  function ConfigFor(queryrate: nat, threadCount: nat, runtime: nat, entries: nat, dnssecRate: nat):
    Workers.Config
    requires 1 <= threadCount <= queryrate
  {
    Sender.RejectedRates(queryrate, threadCount);
    var slices := TotalTimeslices(runtime, Sender.SliceMs(queryrate, threadCount) / 1000.0);
    Workers.Config(threadCount, entries, Quota(runtime, queryrate / threadCount),
                   if slices < 0 then 0 else slices, dnssecRate)
  }

  /** Never more than was asked for: in every state of every interleaving of the threads, all that they
      have sent or tried to send is at most rate times runtime. When all are through undisturbed it is
      short of that by runtime * (rate mod threads), so equal exactly when the threads divide the rate. */
  lemma WholeRun(queryrate: nat, threadCount: nat, runtime: nat, entries: nat, dnssecRate: nat,
                 run: seq<Workers.State>, steps: seq<Workers.Step>, i: nat)
    requires 1 <= threadCount <= queryrate && runtime >= 1 && entries >= 1 && dnssecRate <= 100
    requires var c := ConfigFor(queryrate, threadCount, runtime, entries, dnssecRate);
             Workers.IsRun(c, run, steps) && i < |run|
    ensures Workers.Total(run[i]) <= runtime * queryrate
    ensures Workers.AllDone(run[i], false) ==>
              Workers.Total(run[i]) == runtime * queryrate - runtime * (queryrate % threadCount)
  {
    var c := ConfigFor(queryrate, threadCount, runtime, entries, dnssecRate);
    hide Workers.IsRun, Workers.Total, Workers.AllDone, Quota, TotalTimeslices, Sender.SliceMs;
    Sender.SlicesPerRun(queryrate, threadCount, runtime);
    AtLeastOneSlice(runtime, Sender.SliceMs(queryrate, threadCount) / 1000.0);
    Workers.QuotaConservation(c, run, steps, i);
    Sender.QuotaOfAllThreads(queryrate, threadCount, runtime);
  }

  // Never ahead of the rate.

  /** What one run of a thread has sent by time `t`. */
  function SentBy(events: seq<Event>, t: real): nat {
    |PacketsBy(events, t)|
  }

  lemma SentByIsCount(events: seq<Event>, t: real)
    requires |events| >= 2 && events[0].Nsec? && events[1].Microtime?
    ensures SentBy(events, t) == CountUpTo(SendTimes(events[2..]), t)
  {
    var two, loop := [events[0], events[1]], events[2..];
    assert events == two + loop;
    SendTimesConcat(two, loop);
    OneMoreEvent([], events[0]);
    OneMoreEvent([events[0]], events[1]);
    assert [] + [events[0]] == [events[0]] && [events[0]] + [events[1]] == two;
    assert SendTimes(events) == SendTimes(loop);
    PacketsMeaning(events, t);
  }

  /** A run of one of the threads, as `DNSSenderThread.Run` leaves it. */
  ghost predicate ThreadRun(events: seq<Event>, queryrate: nat, threadCount: nat, runtime: nat)
    requires 1 <= threadCount <= queryrate && runtime >= 1
  {
    Sender.SlicesPerRun(queryrate, threadCount, runtime);
    var timeslice := Sender.SliceMs(queryrate, threadCount) / 1000.0;
    AtLeastOneSlice(runtime, timeslice);
    exists ending ::
      PacedRun(events, Quota(runtime, queryrate / threadCount), TotalTimeslices(runtime, timeslice),
               timeslice, runtime, ending)
  }

  /** A paced run has sent nothing before its start, at no time more than its share of the timeslices
      begun, and in all no more than its quota. */
  lemma NeverAhead(events: seq<Event>, total: nat, slices: nat, slice: real, runtime: nat,
                   ending: Ending, t: real)
    requires slices >= 1 && slice > 0.0 && PacedRun(events, total, slices, slice, runtime, ending)
    ensures t < events[0].time ==> SentBy(events, t) == 0
    ensures t >= events[0].time ==>
              slices * SentBy(events, t) <= SlicesBegun(slices, events[0].time, slice, t) * total
    ensures SentBy(events, t) <= total
  {
    hide Follows, NextCall, Rising, Sends, SendTimes, RestAfter, SlicesBegun, SlicesDone;
    var p, loop := PlanOf(events, total, slices, slice, runtime), events[2..];
    var times := SendTimes(loop);
    NoneTooEarly(p, loop, events[1].time);
    SentByIsCount(events, t);
    hide SentBy;
    ScheduleKept(p, loop, ending);
    if t >= p.start {
      RateCap(times, total, slices, p.start, slice, t);
    } else {
      NothingSent(total, slices);
      hide SentAfter;
      NextDeadline(p.start, slice, 0);
      CountAtMost(times, t, 0);
    }
  }

  /** How much more than rate times time the threads together can have sent: one query for each of
      them, or the queries of a tenth of a millisecond when the timeslices are clamped to that. */
  function Slack(queryrate: nat, threadCount: nat): real {
    if Sender.Clamped(queryrate, threadCount) then queryrate as real / 10000.0 else threadCount as real
  }

  lemma BegunAtMost(slices: nat, start: real, slice: real, t: real, x: real)
    requires slice > 0.0 && t >= start && x * slice == t - start
    ensures SlicesBegun(slices, start, slice, t) as real <= x + 1.0
  {
    assert x == (t - start) / slice && x >= 0.0;
  }

  /** Slices of one query or none, and of `n / q` seconds. */
  lemma ShortSlices(count: nat, y: nat, slices: nat, quota: nat, q: nat, n: nat, slice: real,
                    x: real, d: real)
    requires slices >= 1 && quota <= slices && slices * count <= y * quota
    requires slice * q as real == n as real && x * slice == d && y as real <= x + 1.0
    ensures n as real * count as real <= q as real * d + n as real
  {
    Arith.MulLe(y, quota, slices);
    Arith.Cancel(slices, count, y);
    assert q as real * d == n as real * x;
    Sender.ScaleUp(count as real, x + 1.0, n as real);
  }

  /** Slices of a tenth of a millisecond. */
  lemma ClampedSlices(count: nat, y: nat, runtime: nat, k: nat, q: nat, n: nat, d: real)
    requires runtime >= 1 && (10000 * runtime) * count <= y * (runtime * k) && n * k <= q
    requires y as real <= 10000.0 * d + 1.0
    ensures n as real * count as real <= q as real * d + q as real / 10000.0
  {
    var sent, due := 10000 * count, y * k;
    assert sent <= due by {
      Arith.Regroup(10000, runtime, count);
      Arith.Regroup(runtime, 10000, count);
      Arith.Regroup(y, runtime, k);
      Arith.Cancel(runtime, sent, due);
    }
    assert n * sent <= y * q by {
      Arith.MulLe(n, sent, due);
      Arith.Regroup(n, y, k);
      Arith.MulLe(y, n * k, q);
    }
    assert 10000 * (n * count) == n * sent by {
      Arith.Regroup(10000, n, count);
    }
    ClampedAsReals(n * count, y, q, d);
    Sender.ProductAsReal(n, count);
  }

  lemma ClampedAsReals(product: nat, y: nat, q: nat, d: real)
    requires 10000 * product <= y * q && y as real <= 10000.0 * d + 1.0
    ensures product as real <= q as real * d + q as real / 10000.0
  {
    Sender.ProductAsReal(y, q);
    Sender.ScaleUp(y as real, 10000.0 * d + 1.0, q as real);
    Sender.DistributeReal(q as real, 10000.0 * d, 1.0);
  }

  /** What all threads together may have sent by time `t` when they began at `from`. */
  function Allowed(queryrate: nat, threadCount: nat, from: real, t: real): real {
    queryrate as real * (t - from) + Slack(queryrate, threadCount)
  }

  /** `count` packets of `k` out of `n` threads are no more than these threads' part of a bound. */
  predicate PartOf(count: nat, k: nat, n: nat, bound: real) {
    n as real * count as real <= k as real * bound
  }

  /** One thread, against its part of what is allowed to all. */
  lemma ThreadNeverAhead(events: seq<Event>, queryrate: nat, threadCount: nat, runtime: nat,
                         from: real, t: real)
    requires 1 <= threadCount <= queryrate && runtime >= 1
    requires ThreadRun(events, queryrate, threadCount, runtime)
    requires |events| >= 1 && events[0].Nsec? && from <= events[0].time && from <= t
    ensures PartOf(SentBy(events, t), 1, threadCount, Allowed(queryrate, threadCount, from, t))
    ensures SentBy(events, t) <= Quota(runtime, queryrate / threadCount)
  {
    hide PacedRun, SlicesBegun, SentBy, Sender.SliceMs, TotalTimeslices, Quota, PartOf, Allowed;
    var q, n, start := queryrate, threadCount, events[0].time;
    Sender.SlicesPerRun(q, n, runtime);
    var slice := Sender.SliceMs(q, n) / 1000.0;
    AtLeastOneSlice(runtime, slice);
    var slices: nat, quota := TotalTimeslices(runtime, slice), Quota(runtime, q / n);
    var ending :| PacedRun(events, quota, slices, slice, runtime, ending);
    NeverAhead(events, quota, slices, slice, runtime, ending, t);
    var count := SentBy(events, t);
    if t >= start {
      CountedBySlices(count, q, n, runtime, start, t);
      LaterStart(count, q, n, from, start, t);
    } else {
      NothingYet(q, n, from, t);
    }
  }

  lemma LaterStart(count: nat, queryrate: nat, threadCount: nat, from: real, start: real, t: real)
    requires from <= start <= t
    requires PartOf(count, 1, threadCount, Allowed(queryrate, threadCount, start, t))
    ensures PartOf(count, 1, threadCount, Allowed(queryrate, threadCount, from, t))
  {
    AllowedGrows(queryrate, threadCount, from, start, t);
    hide Allowed;
  }

  lemma AllowedGrows(queryrate: nat, threadCount: nat, from: real, start: real, t: real)
    requires from <= start <= t
    ensures 0.0 <= Allowed(queryrate, threadCount, start, t) <= Allowed(queryrate, threadCount, from, t)
  {
    MoreTime(queryrate as real, t - start, t - from);
    hide Slack;
    assert Slack(queryrate, threadCount) >= 0.0 by { SlackNonNegative(queryrate, threadCount); }
  }

  lemma SlackNonNegative(queryrate: nat, threadCount: nat)
    ensures Slack(queryrate, threadCount) >= 0.0
  {
  }

  lemma MoreTime(rate: real, less: real, more: real)
    requires rate >= 0.0 && 0.0 <= less <= more
    ensures 0.0 <= rate * less <= rate * more
  {
    Sender.ScaleUp(less, more, rate);
    Sender.ScaleUp(0.0, less, rate);
  }

  lemma NothingYet(queryrate: nat, threadCount: nat, from: real, t: real)
    requires from <= t
    ensures PartOf(0, 1, threadCount, Allowed(queryrate, threadCount, from, t))
  {
    AllowedGrows(queryrate, threadCount, from, t, t);
    hide Allowed;
  }

  lemma CountedBySlices(count: nat, queryrate: nat, threadCount: nat, runtime: nat, start: real, t: real)
    requires 1 <= threadCount <= queryrate && runtime >= 1 && t >= start
    requires var slice := Sender.SliceMs(queryrate, threadCount) / 1000.0;
             && slice > 0.0 && TotalTimeslices(runtime, slice) >= 1
             && TotalTimeslices(runtime, slice) * count
                <= SlicesBegun(TotalTimeslices(runtime, slice), start, slice, t)
                   * Quota(runtime, queryrate / threadCount)
    ensures PartOf(count, 1, threadCount, Allowed(queryrate, threadCount, start, t))
  {
    hide SlicesBegun, TotalTimeslices, Sender.SliceMs;
    var q, n, d := queryrate, threadCount, t - start;
    var slice := Sender.SliceMs(q, n) / 1000.0;
    var slices := TotalTimeslices(runtime, slice);
    var x := d / slice;
    Sender.SlicesPerRun(q, n, runtime);
    BegunAtMost(slices, start, slice, t, x);
    var y, k := SlicesBegun(slices, start, slice, t), q / n;
    Sender.ClampedSlice(q, n);
    if Sender.Clamped(q, n) {
      Arith.DivMod(q, n);
      ClampedSlices(count, y, runtime, k, q, n, d);
    } else {
      Sender.OneOrNone(q, n, runtime);
      Sender.Ratio(q, n);
      ShortSlices(count, y, slices, Quota(runtime, k), q, n, slice, x, d);
    }
  }

  /** What all threads have sent by time `t`. */
  function SentByAll(runs: seq<seq<Event>>, t: real): nat {
    if runs == [] then 0 else SentByAll(runs[..|runs| - 1], t) + SentBy(runs[|runs| - 1], t)
  }

  lemma AddPart(before: nat, more: nat, k: nat, n: nat, bound: real)
    requires PartOf(before, k, n, bound) && PartOf(more, 1, n, bound)
    ensures PartOf(before + more, k + 1, n, bound)
  {
    Sender.DistributeReal(n as real, before as real, more as real);
    Sender.DistributeReal(bound, k as real, 1.0);
  }

  lemma {:induction false} SumOfThreads(runs: seq<seq<Event>>, t: real, n: nat, bound: real)
    requires forall i :: 0 <= i < |runs| ==> PartOf(SentBy(runs[i], t), 1, n, bound)
    ensures PartOf(SentByAll(runs, t), |runs|, n, bound)
    decreases |runs|
  {
    hide SentBy;
    if runs != [] {
      hide PartOf;
      var front, last := runs[..|runs| - 1], runs[|runs| - 1];
      SumOfThreads(front, t, n, bound);
      AddPart(SentByAll(front, t), SentBy(last, t), |front|, n, bound);
    }
  }

  lemma {:induction false} SumOfQuotas(runs: seq<seq<Event>>, t: real, quota: nat)
    requires forall i :: 0 <= i < |runs| ==> SentBy(runs[i], t) <= quota
    ensures SentByAll(runs, t) <= |runs| * quota
    decreases |runs|
  {
    hide SentBy;
    if runs != [] {
      SumOfQuotas(runs[..|runs| - 1], t, quota);
      Arith.Distribute(quota, |runs| - 1, 1);
    }
  }

  /** By any time, all threads together have sent no more than the rate allows since the first of
      them began, and one query for each thread; and never more than rate times runtime. */
  lemma AllNeverAhead(runs: seq<seq<Event>>, queryrate: nat, threadCount: nat, runtime: nat,
                      from: real, t: real)
    requires 1 <= threadCount <= queryrate && runtime >= 1 && |runs| == threadCount && from <= t
    requires forall i :: 0 <= i < |runs| ==>
               && ThreadRun(runs[i], queryrate, threadCount, runtime)
               && |runs[i]| >= 1 && runs[i][0].Nsec? && from <= runs[i][0].time
    ensures SentByAll(runs, t) as real <= queryrate as real * (t - from) + Slack(queryrate, threadCount)
    ensures SentByAll(runs, t) <= runtime * queryrate
  {
    hide ThreadRun, SentBy, SentByAll, Slack, PartOf, Quota;
    var bound := Allowed(queryrate, threadCount, from, t);
    var quota := Quota(runtime, queryrate / threadCount);
    forall i | 0 <= i < |runs|
      ensures PartOf(SentBy(runs[i], t), 1, threadCount, bound)
      ensures SentBy(runs[i], t) <= quota
    {
      ThreadNeverAhead(runs[i], queryrate, threadCount, runtime, from, t);
    }
    SumOfThreads(runs, t, threadCount, bound);
    SumOfQuotas(runs, t, quota);
    AllParts(SentByAll(runs, t), threadCount, bound);
    Sender.QuotaOfAllThreads(queryrate, threadCount, runtime);
  }

  lemma AllParts(count: nat, n: nat, bound: real)
    requires n >= 1 && PartOf(count, n, n, bound)
    ensures count as real <= bound
  {
    Sender.ScaleBack(count as real, bound, n as real);
  }
}
