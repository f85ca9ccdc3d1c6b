/** src/query.cpp: adding DNSSEC flags to a compiled query in place, and the clock that is hidden in
    the query ID. */
module Query {
  import Arith
  import opened Bytes
  import opened DnsMessage

  const OPT_SIZE := 11

  // The bit-fields of `DNS_HEADER`. Compilers fill a byte from its low end on little-endian hosts and
  // from its high end on big-endian ones, and the structure is declared in one order only.

  function Qr(order: ByteOrder, flags1: byte): nat {
    if order.LittleEndian? then flags1 / 128 else flags1 % 2
  }

  function Opcode(order: ByteOrder, flags1: byte): nat {
    if order.LittleEndian? then (flags1 / 8) % 16 else (flags1 / 2) % 16
  }

  function Tc(order: ByteOrder, flags1: byte): nat {
    if order.LittleEndian? then (flags1 / 2) % 2 else (flags1 / 64) % 2
  }

  function Rcode(order: ByteOrder, flags2: byte): (r: nat)
    ensures r < 16
  {
    if order.LittleEndian? then flags2 % 16 else flags2 / 16
  }

  /** Setting the `ad` bit-field of the second flag byte. */
  function SetAd(order: ByteOrder, flags2: byte): byte {
    var bit := if order.LittleEndian? then 32 else 4;
    if (flags2 / bit) % 2 == 1 then flags2 else flags2 + bit
  }

  /** The flags of section 4.1.1 of RFC 1035 and section 6.1 of RFC 2535, most significant bit first:
      QR, OPCODE (4), AA, TC, RD and RA, Z, AD, CD, RCODE (4). */
  predicate FieldsOfHeader(order: ByteOrder, flags1: byte, flags2: byte) {
    && FirstFlags(order, flags1)
    && Rcode(order, flags2) == flags2 % 16
    && AdFlag(order, flags2)
  }

  predicate FirstFlags(order: ByteOrder, flags1: byte) {
    && Qr(order, flags1) == flags1 / 128
    && Opcode(order, flags1) == (flags1 % 128) / 8
    && Tc(order, flags1) == (flags1 % 4) / 2
  }

  predicate AdFlag(order: ByteOrder, flags2: byte) {
    && SetAd(order, flags2) / 64 == flags2 / 64
    && (SetAd(order, flags2) % 64) / 32 == 1
    && SetAd(order, flags2) % 32 == flags2 % 32
  }

  /** The structure names the header's fields on little-endian hosts, and on no others: on a big-endian
      host an ordinary answer looks like a query, and setting AD changes RCODE. */
  lemma HeaderFields(order: ByteOrder)
    ensures (forall flags1: byte, flags2: byte :: FieldsOfHeader(order, flags1, flags2))
            <==> order.LittleEndian?
    ensures Qr(BigEndian, 0x80) == 0 && SetAd(BigEndian, 0) == 4
  {
    if order.BigEndian? {
      assert !FieldsOfHeader(order, 0x80, 0);
    } else {
      forall flags1: byte, flags2: byte
        ensures FieldsOfHeader(order, flags1, flags2)
      {
        FirstOnLittleEndian(flags1);
        AdOnLittleEndian(flags2);
      }
    }
  }

  lemma FirstOnLittleEndian(flags1: byte)
    ensures FirstFlags(LittleEndian, flags1)
  {
    var qr, opcode := flags1 / 128, (flags1 % 128) / 8;
    Arith.DivModUnique(flags1 / 8, 16, qr, opcode);
    var high, tc := flags1 / 4, (flags1 % 4) / 2;
    Arith.DivModUnique(flags1 / 2, 2, high, tc);
  }

  lemma AdOnLittleEndian(flags2: byte)
    ensures AdFlag(LittleEndian, flags2)
  {
    var high, low := flags2 / 32, flags2 % 32;
    assert flags2 == 32 * high + low;
  }

  /** The bytes of the `DNS_OPT` structure: root name, type 41, payload size, and a TTL field whose
      only bit is DO. */
  function OptBytes(udpPayloadSize: word): (s: seq<byte>)
    ensures |s| == OPT_SIZE
  {
    [0] + Net16(41) + Net16(udpPayloadSize) + [0, 0] + Net16(0x8000) + [0, 0]
  }

  /** A query of at least header size, with the DNSSEC flags added. */
  function WithDnssec(order: ByteOrder, q: seq<byte>, udpPayloadSize: word): (r: seq<byte>)
    requires |q| >= HEADER_BYTES
    ensures |r| == |q| + OPT_SIZE
  {
    q[..3] + [SetAd(order, q[3])] + q[4..10] + Net16(1) + q[12..] + OptBytes(udpPayloadSize)
  }

  /** The one OPT record (section 6.1.2 of RFC 6891) with the DO bit of section 3 of RFC 3225:
      extended RCODE and version zero, and no options. */
  function OptRecord(udpPayloadSize: word): Record {
    Record([], 41, udpPayloadSize, [0, 0, 0x80, 0], [])
  }

  function WithOpt(order: ByteOrder, m: Message, udpPayloadSize: word): Message {
    m.(flags2 := SetAd(order, m.flags2), additional := [OptRecord(udpPayloadSize)])
  }

  /** The header writes come first, then the record is written after the query; for a query shorter
      than a header the two overlap, and the record wins. */
  method AddDnssecToQuery(order: ByteOrder, buffer: array<byte>, querysize: nat, udpPayloadSize: word)
    returns (size: nat)
    requires HEADER_BYTES <= buffer.Length && querysize + OPT_SIZE <= buffer.Length
    modifies buffer
    ensures size == querysize + OPT_SIZE
    ensures buffer[..] == Put(Put(Put(old(buffer[..]), 3, [SetAd(order, old(buffer[3]))]), 10, Net16(1)),
                              querysize, OptBytes(udpPayloadSize))
    ensures querysize >= HEADER_BYTES ==>
              buffer[..size] == WithDnssec(order, old(buffer[..querysize]), udpPayloadSize)
  {
    hide SetAd, OptBytes, WithDnssec;
    buffer[3] := SetAd(order, buffer[3]);
    assert buffer[..] == Put(old(buffer[..]), 3, [SetAd(order, old(buffer[3]))]);
    Poke(buffer, 10, Net16(1));
    Poke(buffer, querysize, OptBytes(udpPayloadSize));
    size := querysize + OPT_SIZE;
    if querysize >= HEADER_BYTES {
      FlagsInPlace(order, old(buffer[..]), querysize, udpPayloadSize);
      hide Put;
      assert old(buffer[..querysize]) == old(buffer[..])[..querysize];
      assert buffer[..size] == buffer[..][..size];
    }
  }

  lemma FlagsInPlace(order: ByteOrder, s: seq<byte>, querysize: nat, udpPayloadSize: word)
    requires HEADER_BYTES <= querysize && querysize + OPT_SIZE <= |s|
    ensures Put(Put(Put(s, 3, [SetAd(order, s[3])]), 10, Net16(1)), querysize, OptBytes(udpPayloadSize))
              [..querysize + OPT_SIZE]
            == WithDnssec(order, s[..querysize], udpPayloadSize)
  {
    hide Put, SetAd, OptBytes, WithDnssec;
    var ad, one := [SetAd(order, s[3])], Net16(1);
    var a := Put(s, 3, ad);
    var b := Put(a, 10, one);
    PutAtEnd(b, querysize, OptBytes(udpPayloadSize));
    PutWithin(a, querysize, 10, one);
    PutWithin(s, querysize, 3, ad);
    HeaderInPlace(order, s[..querysize], udpPayloadSize);
  }

  lemma PutWithin(s: seq<byte>, n: nat, off: nat, b: seq<byte>)
    requires off + |b| <= n <= |s|
    ensures Put(s, off, b)[..n] == Put(s[..n], off, b)
  {
  }

  lemma PutAtEnd(s: seq<byte>, n: nat, b: seq<byte>)
    requires n + |b| <= |s|
    ensures Put(s, n, b)[..n + |b|] == s[..n] + b
  {
  }

  lemma HeaderInPlace(order: ByteOrder, q: seq<byte>, udpPayloadSize: word)
    requires HEADER_BYTES <= |q|
    ensures Put(Put(q, 3, [SetAd(order, q[3])]), 10, Net16(1)) + OptBytes(udpPayloadSize)
            == WithDnssec(order, q, udpPayloadSize)
  {
    hide SetAd, OptBytes;
    var a := Put(q, 3, [SetAd(order, q[3])]);
    assert a[..10] == q[..3] + [SetAd(order, q[3])] + q[4..10];
    assert a[12..] == q[12..];
  }

  lemma ParsedOpt(udpPayloadSize: word)
    ensures ParseRecord(OptBytes(udpPayloadSize)) == Read(OptRecord(udpPayloadSize), OPT_SIZE)
  {
    var s := OptBytes(udpPayloadSize);
    assert ParseName(s) == Read([], 1);
    assert Net16At(s, 1) == 41 && Net16At(s, 3) == udpPayloadSize && Net16At(s, 9) == 0;
    assert s[5..9] == [0, 0, 0x80, 0];
    assert s[11..11] == [];
  }

  lemma ParsedOpts(udpPayloadSize: word)
    ensures ParseRecords(OptBytes(udpPayloadSize), 1) == Read([OptRecord(udpPayloadSize)], OPT_SIZE)
  {
    ParsedOpt(udpPayloadSize);
    var rest := OptBytes(udpPayloadSize)[OPT_SIZE..];
    assert ParseRecords(rest, 0) == Read([], 0);
    assert [OptRecord(udpPayloadSize)] + [] == [OptRecord(udpPayloadSize)];
  }

  /** Adding the flags keeps the meaning of a message, apart from the AD bit and one OPT record,
      exactly when it has no additional records; otherwise the result is not a message at all. */
  lemma AddDnssecKeepsMeaning(order: ByteOrder, q: seq<byte>, udpPayloadSize: word)
    requires ParseMessage(q).Some?
    ensures var m := ParseMessage(q).value;
            ParseMessage(WithDnssec(order, q, udpPayloadSize))
            == if m.additional == [] then Some(WithOpt(order, m, udpPayloadSize)) else None
  {
    DnssecParts(order, q, udpPayloadSize);
    BodyWithOpt(q[HEADER_BYTES..], Net16At(q, 4), Net16At(q, 6), Net16At(q, 8), Net16At(q, 10),
                udpPayloadSize);
  }

  lemma DnssecParts(order: ByteOrder, q: seq<byte>, udpPayloadSize: word)
    requires |q| >= HEADER_BYTES
    ensures var r := WithDnssec(order, q, udpPayloadSize);
            && r[HEADER_BYTES..] == q[HEADER_BYTES..] + OptBytes(udpPayloadSize)
            && Net16At(r, 0) == Net16At(q, 0) && r[2] == q[2] && r[3] == SetAd(order, q[3])
            && Net16At(r, 4) == Net16At(q, 4) && Net16At(r, 6) == Net16At(q, 6)
            && Net16At(r, 8) == Net16At(q, 8) && Net16At(r, 10) == 1
  {
    var r := WithDnssec(order, q, udpPayloadSize);
    assert r[4..10] == q[4..10];
    assert r[4] == r[4..10][0] && r[5] == r[4..10][1] && r[6] == r[4..10][2];
    assert r[7] == r[4..10][3] && r[8] == r[4..10][4] && r[9] == r[4..10][5];
  }

  lemma BodyWithOpt(s: seq<byte>, qd: nat, an: nat, ns: nat, ar: nat, udpPayloadSize: word)
    requires ParseBody(s, qd, an, ns, ar).Some?
    ensures ParseBody(s, qd, an, ns, ar).value.additional == [] <==> ar == 0
    ensures ParseBody(s + OptBytes(udpPayloadSize), qd, an, ns, 1)
            == if ar == 0
               then Some(Body(ParseBody(s, qd, an, ns, ar).value.front, [OptRecord(udpPayloadSize)]))
               else None
  {
    SectionsExtend(s, OptBytes(udpPayloadSize), qd, an, ns);
    RestWithOpt(ParseSections(s, qd, an, ns), s, ar, udpPayloadSize);
  }

  lemma RestWithOpt(front: Parsed<Sections>, s: seq<byte>, ar: nat, udpPayloadSize: word)
    requires front.Read? && front.used <= |s|
    requires ParseRest(front, s, ar).Some?
    ensures ParseRest(front, s, ar).value.additional == [] <==> ar == 0
    ensures ParseRest(front, s, ar).value.front == front.value
    ensures ParseRest(front, s + OptBytes(udpPayloadSize), 1)
            == if ar == 0 then Some(Body(front.value, [OptRecord(udpPayloadSize)])) else None
  {
    var rest := s[front.used..];
    assert (s + OptBytes(udpPayloadSize))[front.used..] == rest + OptBytes(udpPayloadSize);
    OptAfterRecords(rest, ar, udpPayloadSize);
  }

  /** Reading one record where some records, taking all of the bytes, are followed by OPT. */
  lemma OptAfterRecords(rest: seq<byte>, count: nat, udpPayloadSize: word)
    requires ParseRecords(rest, count).Read? && ParseRecords(rest, count).used == |rest|
    ensures var one := ParseRecords(rest + OptBytes(udpPayloadSize), 1);
            if count == 0
            then one == Read([OptRecord(udpPayloadSize)], |rest| + OPT_SIZE)
            else one.Read? && one.used < |rest| + OPT_SIZE
  {
    if count == 0 {
      assert rest + OptBytes(udpPayloadSize) == OptBytes(udpPayloadSize);
      ParsedOpts(udpPayloadSize);
    } else {
      FirstRecordOnly(rest, OptBytes(udpPayloadSize), count);
    }
  }

  /** Of several records followed by an OPT record, reading one leaves bytes over. */
  lemma FirstRecordOnly(s: seq<byte>, opt: seq<byte>, count: nat)
    requires count > 0 && |opt| > 0 && ParseRecords(s, count).Read?
    ensures ParseRecords(s + opt, 1).Read? && ParseRecords(s + opt, 1).used < |s + opt|
  {
    RecordExtend(s, opt);
    var u := ParseRecord(s).used;
    assert ParseRecords((s + opt)[u..], 0) == Read([], 0);
  }

  /** Applying it a second time destroys the message. */
  lemma AddDnssecTwice(order: ByteOrder, q: seq<byte>, u1: word, u2: word)
    requires ParseMessage(q).Some? && ParseMessage(q).value.additional == []
    ensures ParseMessage(WithDnssec(order, WithDnssec(order, q, u1), u2)) == None
  {
    AddDnssecKeepsMeaning(order, q, u1);
    AddDnssecKeepsMeaning(order, WithDnssec(order, q, u1), u2);
  }

  // The clock in the query ID.

  /** A `gettimeofday` reading: whole seconds and microseconds. */
  datatype TimeVal = TimeVal(sec: nat, usec: nat)

  predicate IsReading(tp: TimeVal) {
    tp.usec < 1_000_000
  }

  function Micros(tp: TimeVal): nat {
    1_000_000 * tp.sec + tp.usec
  }

  const TICKS := 60000 // per six seconds

  /** `None` stands for a failing `gettimeofday`. */
  function QueryTimestamp(now: Option<TimeVal>): (r: word)
    requires now.Some? ==> IsReading(now.value)
    ensures r < TICKS
    ensures now.Some? ==> r == (Micros(now.value) / 100) % TICKS
  {
    match now
    case None => 0
    case Some(tp) =>
      TimestampIsTicks(tp);
      (tp.sec % 6) * 10000 + tp.usec / 100
  }

  lemma TimestampIsTicks(tp: TimeVal)
    requires IsReading(tp)
    ensures (tp.sec % 6) * 10000 + tp.usec / 100 == (Micros(tp) / 100) % TICKS
  {
    var k, r, ticks, left := tp.sec / 6, tp.sec % 6, tp.usec / 100, tp.usec % 100;
    assert tp.sec == 6 * k + r && tp.usec == 100 * ticks + left;
    Arith.DivModUnique(Micros(tp), 100, 10000 * tp.sec + ticks, left);
    Arith.DivModUnique(10000 * tp.sec + ticks, TICKS, k, 10000 * r + ticks);
  }

  /** `getQueryRTT` in ticks of 100 microseconds, before its division by 10000; the subtraction is
      that of 16-bit unsigned integers. */
  function RttTicks(start: word, now: word): word {
    if now < start then (TICKS - start + now) % 0x1_0000 else (now - start) % 0x1_0000
  }

  /** For two timestamps the result is their distance on the six-second circle. */
  lemma RttIsDistance(start: word, now: word)
    requires start < TICKS && now < TICKS
    ensures RttTicks(start, now) == (now - start) % TICKS
  {
  }

  /** A query ID that is no timestamp still counts as an answer; its round-trip time looks possible
      (below six seconds) exactly when the ID is at most 60000 ahead of the clock. */
  lemma ForeignId(start: word, now: word)
    requires now < TICKS && TICKS <= start
    ensures RttTicks(start, now) < TICKS <==> start <= now + TICKS
  {
  }

  /** Round trip of the hidden clock: the measured time is the elapsed ticks modulo 60000, so exact
      below six seconds and then within 100 microseconds of the true time; never otherwise. */
  lemma RttRoundTrip(sent: TimeVal, received: TimeVal)
    requires IsReading(sent) && IsReading(received) && Micros(sent) <= Micros(received)
    ensures var elapsed := Micros(received) / 100 - Micros(sent) / 100;
            var rtt := RttTicks(QueryTimestamp(Some(sent)), QueryTimestamp(Some(received)));
            && rtt == elapsed % TICKS
            && (rtt == elapsed <==> elapsed < TICKS)
            && (elapsed < TICKS
                <==> -100 < 100 * rtt - (Micros(received) - Micros(sent)) < 100)
  {
    var a, b := Micros(sent) / 100, Micros(received) / 100;
    RttIsDistance(a % TICKS, b % TICKS);
    DistanceModulo(a, b);
    hide RttTicks, QueryTimestamp, Micros;
    WithinOneTick(Micros(sent), Micros(received), a, b);
  }

  /** `a` and `b` ticks at `x` and `y` microseconds: what is left of their distance modulo the circle
      is close to that of the microseconds exactly when the circle was not completed. */
  lemma WithinOneTick(x: nat, y: nat, a: nat, b: nat)
    requires x <= y && a == x / 100 && b == y / 100
    ensures var rtt := (b - a) % TICKS;
            && 0 <= b - a && (rtt == b - a <==> b - a < TICKS)
            && (b - a < TICKS <==> -100 < 100 * rtt - (y - x) < 100)
  {
    var d, q := b - a, (b - a) / TICKS;
    assert 100 * a <= x < 100 * a + 100 && 100 * b <= y < 100 * b + 100;
    assert d == TICKS * q + d % TICKS;
    assert d >= TICKS ==> q >= 1;
  }

  lemma DistanceModulo(a: nat, b: nat)
    ensures (b % TICKS - a % TICKS) % TICKS == (b - a) % TICKS
  {
    var i, j := a / TICKS, b / TICKS;
    assert a == TICKS * i + a % TICKS && b == TICKS * j + b % TICKS;
    assert b - a == TICKS * (j - i) + (b % TICKS - a % TICKS);
  }
}
