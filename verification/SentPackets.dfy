/** The packets of a sender thread: what a packet is made of, and what it means that all packets in a
    record of events are as they should be (src/dns_sender_thread.cpp:135-165). */
module SentPackets {
  import opened Bytes
  import opened Datagram
  import DnssecSpread
  import opened Environment
  import opened PacketBuffer
  import opened Payload
  import opened Query
  import opened Trace

  const UDP_PAYLOAD_SIZE := 4096
  const SOURCE_FIELDS := 36

  datatype Spoofing = NoSpoofing | FromNet(start: nat, size: nat) | FromPcap

  /** What stays the same from one packet of a run to the next. */
  datatype Aim = Aim(dst: seq<byte>, dport: word, ipId: word, mode: Spoofing, own: seq<byte>,
                     cache: seq<seq<byte>>, pcap: bool, rate: nat, order: ByteOrder)
  {
    /** Whether the query after `k` others carries the DNSSEC flags. */
    predicate Due(k: nat) {
      !pcap && DnssecSpread.Fires(DnssecSpread.AccumulatorAfter(rate, k), rate)
    }

    /** Whether the source can be taken from this entry without reading past its end. */
    predicate HasSource(entry: seq<byte>) {
      mode.FromPcap? ==> |entry| >= SOURCE_FIELDS
    }

    ghost predicate SomeWithoutSource() {
      exists entry :: entry in cache && !HasSource(entry)
    }
  }

  /** The payload of the next packet before its ID is stamped. */
  function Prepared(order: ByteOrder, entry: seq<byte>, pcap: bool, flagged: bool): (r: seq<byte>)
    requires Sized(entry, pcap)
    ensures 2 <= |r| <= MAX_PAYLOAD
  {
    if pcap then entry[PCAP_HEADER_SIZE..]
    else if flagged then WithDnssec(order, entry, UDP_PAYLOAD_SIZE)
    else entry
  }

  /** Whether a datagram's source is what the spoofing mode allows for this entry. */
  ghost predicate SourceAllowed(d: Datagram, mode: Spoofing, own: seq<byte>, entry: seq<byte>)
    requires mode.FromPcap? ==> |entry| >= SOURCE_FIELDS
  {
    match mode
    case NoSpoofing => d.src == own && d.sport >= 1024
    case FromPcap => d.src == entry[26..30] && d.sport == Net16At(entry, 34)
    case FromNet(start, size) =>
      d.sport >= 1024 &&
      exists a :: start <= a < start + size && a < 0x1_0000_0000 && d.src == Net32(a)
  }

  /** A datagram that carries this entry, flagged or not, under the time that was read for it. */
  ghost predicate Carries(aim: Aim, d: Datagram, entry: seq<byte>, flagged: bool, tp: Option<TimeVal>) {
    && entry in aim.cache && Sized(entry, aim.pcap) && aim.HasSource(entry)
    && (tp.Some? ==> IsReading(tp.value))
    && d.dst == aim.dst && d.dport == aim.dport && d.ipId == aim.ipId
    && SourceAllowed(d, aim.mode, aim.own, entry)
    && d.payload == Stamp(Prepared(aim.order, entry, aim.pcap, flagged), QueryTimestamp(tp))
  }

  /** Bytes that a receiver accepts as such a datagram, for some entry of the cache. */
  ghost predicate GoodPacket(aim: Aim, b: seq<byte>, flagged: bool, tp: Option<TimeVal>) {
    ParseDatagram(b).Some? &&
    exists entry :: Carries(aim, ParseDatagram(b).value, entry, flagged, tp)
  }

  lemma PacketIsGood(aim: Aim, d: Datagram, entry: seq<byte>, flagged: bool, tp: Option<TimeVal>)
    requires WellFormed(d) && Carries(aim, d, entry, flagged, tp)
    ensures GoodPacket(aim, Wire(d), flagged, tp)
  {
    hide ParseDatagram, Wire, Carries;
    WireRoundTrip(d);
  }

  /** Directly before each packet the time was read that it is stamped with, and the number of packets
      before it decides whether it is flagged. */
  ghost predicate AllGood(aim: Aim, es: seq<Event>) {
    es == [] ||
    (var front, e := es[..|es| - 1], Last(es);
     && AllGood(aim, front)
     && (e.SendTo? ==>
           && front != [] && Last(front).TimeOfDay?
           && GoodPacket(aim, e.packet, aim.Due(Sends(front)), Last(front).tp)))
  }

  lemma OneMoreGood(aim: Aim, es: seq<Event>, e: Event)
    ensures AllGood(aim, es + [e]) <==>
            && AllGood(aim, es)
            && (e.SendTo? ==>
                  && es != [] && Last(es).TimeOfDay?
                  && GoodPacket(aim, e.packet, aim.Due(Sends(es)), Last(es).tp))
  {
    hide GoodPacket;
    assert (es + [e])[..|es|] == es;
  }

  lemma {:induction false} AllGoodPrefix(aim: Aim, es: seq<Event>, i: nat)
    requires AllGood(aim, es) && i <= |es|
    ensures AllGood(aim, es[..i])
    decreases |es|
  {
    if i < |es| {
      AllGoodPrefix(aim, es[..|es| - 1], i);
      assert es[..|es| - 1][..i] == es[..i];
    } else {
      assert es[..i] == es;
    }
  }

  /** What `AllGood` says of each packet. */
  lemma {:induction false} EveryPacket(aim: Aim, es: seq<Event>, i: nat)
    requires AllGood(aim, es) && i < |es| && es[i].SendTo?
    ensures 0 < i && es[i - 1].TimeOfDay?
    ensures GoodPacket(aim, es[i].packet, aim.Due(|Packets(es[..i])|), es[i - 1].tp)
    decreases |es|
  {
    hide GoodPacket;
    var front := es[..|es| - 1];
    if i < |front| {
      EveryPacket(aim, front, i);
      assert front[..i] == es[..i] && front[i - 1] == es[i - 1];
    } else {
      PacketsMeaning(front, 0.0);
      assert es[..i] == front;
    }
  }
}
