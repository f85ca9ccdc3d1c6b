/** `Packet`: a 4096-byte buffer holding an IPv4/UDP datagram, written in place by setters, with
    checksums that are recomputed only when the buffer is read. */
module PacketBuffer {
  import opened Bytes
  import opened Checksum
  import opened Datagram

  const MAX_PACKET_SIZE := 4096
  const MAX_PAYLOAD := MAX_PACKET_SIZE - HEADER_SIZE

  /** The fields no setter leaves to choice: constants, and the two lengths. */
  ghost predicate Layout(s: seq<byte>, size: nat) {
    && |s| == MAX_PACKET_SIZE && size <= MAX_PAYLOAD
    && s[0] == 0x45 && s[1] == 0 && s[6] == 0 && s[7] == 0 && s[8] == 64 && s[9] == 17
    && s[2..4] == Net16(HEADER_SIZE + size)
    && s[24..26] == Net16(8 + size)
  }

  /** The datagram a buffer stands for. */
  ghost function Decode(s: seq<byte>, size: nat): (d: Datagram)
    requires Layout(s, size)
    ensures WellFormed(d)
  {
    Datagram(s[12..16], s[16..20], Net16At(s, 4), Net16At(s, 20), Net16At(s, 22), s[28..28 + size])
  }

  ghost predicate ChecksumsCurrent(s: seq<byte>, size: nat)
    requires Layout(s, size)
  {
    && s[10..12] == Net16(IpChecksum(Decode(s, size)))
    && s[26..28] == Net16(UdpChecksum(Decode(s, size)))
  }

  lemma Net16OfAt(s: seq<byte>, i: nat)
    requires i + 2 <= |s|
    ensures Net16(Net16At(s, i)) == s[i..i + 2]
  {
  }

  lemma FrontsOfImage(s: seq<byte>, size: nat)
    requires Layout(s, size)
    ensures s[..10] == IpFront(Decode(s, size))
    ensures s[20..26] == UdpFront(Decode(s, size))
  {
    Net16OfAt(s, 4);
    Net16OfAt(s, 20);
    Net16OfAt(s, 22);
    assert s[..10] == s[0..2] + s[2..4] + s[4..6] + s[6..10];
    assert s[20..26] == s[20..22] + s[22..24] + s[24..26];
  }

  /** A buffer with current checksums holds, in its first `size + 28` bytes, exactly the wire form
      of the datagram it stands for. */
  lemma ImageIsWire(s: seq<byte>, size: nat)
    requires Layout(s, size) && ChecksumsCurrent(s, size)
    ensures s[..HEADER_SIZE + size] == Wire(Decode(s, size))
  {
    FrontsOfImage(s, size);
    assert s[..HEADER_SIZE + size]
        == s[..10] + s[10..12] + s[12..16] + s[16..20] + s[20..26] + s[26..28] + s[28..28 + size];
  }

  lemma IpMessageOfImage(s: seq<byte>, size: nat)
    requires Layout(s, size) && s[10] == 0 && s[11] == 0
    ensures InternetChecksum(s[..IP_SIZE]) == IpChecksum(Decode(s, size))
  {
    FrontsOfImage(s, size);
    assert s[..IP_SIZE] == s[..10] + [0, 0] + (s[12..16] + s[16..20]);
  }

  lemma UdpMessageOfImage(s: seq<byte>, size: nat)
    requires Layout(s, size) && s[26] == 0 && s[27] == 0
    ensures InternetChecksum(Pseudo(s[12..16], s[16..20], s[24..26]) + s[20..28] + s[28..28 + size])
            == UdpChecksum(Decode(s, size))
  {
    hide OnesSum;
    var d := Decode(s, size);
    FrontsOfImage(s, size);
    assert s[20..28] == s[20..26] + [0, 0];
    assert Pseudo(s[12..16], s[16..20], s[24..26]) + s[20..28] + s[28..28 + size]
        == UdpPrefix(d) + [0, 0] + d.payload;
  }

  /** Padding to an even length with a zero byte keeps the checksum. */
  lemma PaddedMessage(message: seq<byte>, padded: seq<byte>)
    requires |padded| == |message| + |message| % 2
    requires padded[..|message|] == message
    requires |message| % 2 == 1 ==> padded[|message|] == 0
    ensures InternetChecksum(padded) == InternetChecksum(message)
  {
    if |message| % 2 == 1 {
      PadIsNeutral(message);
      assert padded == message + [0];
    } else {
      assert padded == message;
    }
  }

  /** The image the constructor leaves, whatever it has put into the checksum field. */
  lemma InitialImage(s: seq<byte>)
    requires |s| == MAX_PACKET_SIZE && s[0] == 0x45 && s[8] == 64 && s[9] == 17
    requires s[2] == 0 && s[3] == HEADER_SIZE && s[24] == 0 && s[25] == 8
    requires forall i :: 0 <= i < |s| && i !in {0, 2, 3, 8, 9, 10, 11, 24, 25} ==> s[i] == 0
    ensures Layout(s, 0)
    ensures Decode(s, 0) == Datagram([0, 0, 0, 0], [0, 0, 0, 0], 0, 0, 0, [])
  {
  }

  /** The effect of `setDnsId` on a payload: its first two bytes, as far as it has them. */
  function Stamp(payload: seq<byte>, id: word): (r: seq<byte>)
    ensures |r| == |payload|
  {
    if |payload| >= 2 then Net16(id) + payload[2..]
    else if |payload| == 1 then [id / 256]
    else []
  }

  lemma StampedImage(s: seq<byte>, size: nat, id: word)
    requires |s| == MAX_PACKET_SIZE && size <= MAX_PAYLOAD
    ensures Put(s, HEADER_SIZE, Net16(id))[28..28 + size] == Stamp(s[28..28 + size], id)
  {
    var r := Put(s, HEADER_SIZE, Net16(id));
    assert r[28..30] == Net16(id);
    if size >= 2 {
      assert r[28..28 + size] == r[28..30] + r[30..28 + size];
      assert r[30..28 + size] == s[28..28 + size][2..];
    } else if size == 1 {
      assert r[28] == r[28..30][0];
    }
  }

  /** Changing the source address and port under checksums that are current leaves them current
      exactly when the new source has the same address sum and the same port, in one's complement. */
  lemma SourceUnderCurrentChecksums(s: seq<byte>, size: nat, ip: seq<byte>, port: seq<byte>)
    requires Layout(s, size) && ChecksumsCurrent(s, size) && |ip| == 4 && |port| == 2
    ensures var r := Put(Put(s, 12, ip), 20, port);
            && Layout(r, size)
            && (ChecksumsCurrent(r, size) <==>
                && SameInOnes(OnesSum(Decode(s, size).src), OnesSum(ip))
                && SameInOnes(Decode(s, size).sport, Net16At(port, 0)))
  {
    var r := Put(Put(s, 12, ip), 20, port);
    SourceWritten(s, size, ip, port);
    hide Put, Layout, Decode, OnesSum, SameInOnes, IpChecksum, UdpChecksum;
    var a := Decode(s, size);
    var b := a.(src := ip, sport := Net16At(port, 0));
    SameNet16(IpChecksum(a), IpChecksum(b));
    SameNet16(UdpChecksum(a), UdpChecksum(b));
    hide Net16, Net16At;
    SourceMatters(a, ip, Net16At(port, 0));
  }

  lemma SourceWritten(s: seq<byte>, size: nat, ip: seq<byte>, port: seq<byte>)
    requires Layout(s, size) && |ip| == 4 && |port| == 2
    ensures var r := Put(Put(s, 12, ip), 20, port);
            && Layout(r, size) && r[10..12] == s[10..12] && r[26..28] == s[26..28]
            && Decode(r, size) == Decode(s, size).(src := ip, sport := Net16At(port, 0))
            && OnlyWrote(s, r, 12, 16, 20, 22)
  {
    hide WellFormed;
    var q := Put(s, 12, ip);
    var r := Put(q, 20, port);
    FieldsWritten(s, q, r, size, ip, port);
    Net16Inverse(Net16At(port, 0));
  }

  lemma DestinationWritten(s: seq<byte>, size: nat, ip: seq<byte>, port: word)
    requires Layout(s, size) && |ip| == 4
    ensures var r := Put(Put(s, 16, ip), 22, Net16(port));
            && Layout(r, size) && OnlyWrote(s, r, 16, 20, 22, 24)
            && Decode(r, size) == Decode(s, size).(dst := ip, dport := port)
  {
    hide WellFormed;
    var q := Put(s, 16, ip);
    var r := Put(q, 22, Net16(port));
    assert r[22] == r[22..24][0] && r[23] == r[22..24][1];
    assert q[16..20] == ip && r[16..20] == q[16..20];
    Untouched(s, r, size);
    Net16Inverse(port);
  }

  lemma FieldsWritten(s: seq<byte>, q: seq<byte>, r: seq<byte>, size: nat, ip: seq<byte>,
                      port: seq<byte>)
    requires |s| == |q| == |r| == MAX_PACKET_SIZE && size <= MAX_PAYLOAD && |ip| == 4 && |port| == 2
    requires q == Put(s, 12, ip) && r == Put(q, 20, port)
    ensures r[2..4] == s[2..4] && r[24..26] == s[24..26]
    ensures r[10..12] == s[10..12] && r[26..28] == s[26..28]
    ensures r[12..16] == ip && r[16..20] == s[16..20] && r[28..28 + size] == s[28..28 + size]
    ensures Net16At(r, 20) == Net16At(port, 0)
  {
    assert r[20] == r[20..22][0] && r[21] == r[20..22][1];
    assert q[12..16] == ip && r[12..16] == q[12..16];
  }

  /** Nothing differs but a payload of this size and the two lengths. */
  ghost predicate OnlyPayloadWritten(s: seq<byte>, r: seq<byte>, size: nat) {
    |r| == |s| && forall i :: 0 <= i < |s| && !(2 <= i < 4) && !(24 <= i < 26) && !(28 <= i < 28 + size)
                    ==> r[i] == s[i]
  }

  /** Writing a payload and the two lengths that go with it. */
  lemma PayloadWritten(s: seq<byte>, size: nat, p: seq<byte>)
    requires Layout(s, size) && |p| <= MAX_PAYLOAD
    ensures var r := Put(Put(Put(s, 28, p), 2, Net16(HEADER_SIZE + |p|)), 24, Net16(8 + |p|));
            && Layout(r, |p|) && Decode(r, |p|) == Decode(s, size).(payload := p)
            && OnlyPayloadWritten(s, r, |p|)
  {
    hide Put, Net16;
    var a := Put(s, 28, p);
    var b := Put(a, 2, Net16(HEADER_SIZE + |p|));
    var r := Put(b, 24, Net16(8 + |p|));
    assert r[28..28 + |p|] == a[28..28 + |p|];
    assert r[2..4] == b[2..4];
    assert r[12..16] == s[12..16] && r[16..20] == s[16..20];
  }

  lemma SameNet16(v: word, w: word)
    ensures Net16(v) == Net16(w) <==> v == w
  {
    Net16Inverse(v);
    Net16Inverse(w);
  }

  /** Two sources for which it goes wrong: 0.0.0.0, and 10.0.0.1 with any port, leave a packet with
      current checksums stale. */
  lemma StaleSource(d: Datagram, port: word)
    requires WellFormed(d) && d.src == [0, 0, 0, 0]
    ensures IpChecksum(d.(src := [10, 0, 0, 1], sport := port)) != IpChecksum(d)
  {
    var ip: seq<byte> := [10, 0, 0, 1];
    assert ip[2..] == [0, 1] && ip[2..][2..] == [] && OnesSum(ip[2..]) == 1;
    assert OnesSum(ip) == 2561;
    assert d.src[2..] == [0, 0] && d.src[2..][2..] == [] && OnesSum(d.src[2..]) == 0;
    assert OnesSum(d.src) == 0;
    SourceAddressMatters(d, ip);
    assert IpFront(d.(src := ip, sport := port)) == IpFront(d.(src := ip));
  }

  /** Only two ranges of bytes differ. */
  ghost predicate OnlyWrote(s: seq<byte>, r: seq<byte>, lo1: nat, hi1: nat, lo2: nat, hi2: nat) {
    |r| == |s| && forall i :: 0 <= i < |s| && !(lo1 <= i < hi1) && !(lo2 <= i < hi2) ==> r[i] == s[i]
  }

  class Packet {
    const order: ByteOrder
    const buffer: array<byte>
    var payloadSize: nat
    var chksumValid: bool

    ghost predicate Valid()
      reads this, buffer
    {
      && Layout(buffer[..], payloadSize)
      && (chksumValid ==> ChecksumsCurrent(buffer[..], payloadSize))
    }

    ghost function View(): Datagram
      requires Valid()
      reads this, buffer
    {
      Decode(buffer[..], payloadSize)
    }

    constructor (order: ByteOrder)
      ensures Valid() && fresh(buffer) && !chksumValid
      ensures this.order == order
      ensures View() == Datagram([0, 0, 0, 0], [0, 0, 0, 0], 0, 0, 0, [])
    {
      this.order := order;
      buffer := new byte[MAX_PACKET_SIZE](_ => 0);
      payloadSize := 0;
      chksumValid := false;
      new;
      WriteHeaders();
    }

    /** The part of the constructor that fills the zeroed buffer. */
    method WriteHeaders()
      requires buffer.Length == MAX_PACKET_SIZE && payloadSize == 0
      requires forall i :: 0 <= i < buffer.Length ==> buffer[i] == 0
      modifies buffer
      ensures Layout(buffer[..], 0)
      ensures Decode(buffer[..], 0) == Datagram([0, 0, 0, 0], [0, 0, 0, 0], 0, 0, 0, [])
    {
      buffer[0] := 0x45;
      buffer[8] := 64;
      buffer[9] := 17;
      WriteHtons(2, HEADER_SIZE + payloadSize);
      var sum := InCksum(order, buffer, IP_SIZE);
      WriteShort(10, sum);
      WriteHtons(24, 8 + payloadSize);
      assert buffer[2] == 0 && buffer[3] == HEADER_SIZE;
      InitialImage(buffer[..]);
    }

    /** `*(unsigned short*)(buffer + off) = w` */
    method WriteShort(off: nat, w: word)
      requires off + 2 <= buffer.Length
      modifies buffer
      ensures buffer[..] == Put(old(buffer[..]), off, Store16(order, w))
      ensures buffer[off] == Store16(order, w)[0] && buffer[off + 1] == Store16(order, w)[1]
      ensures forall i :: 0 <= i < buffer.Length && i != off && i != off + 1
                ==> buffer[i] == old(buffer[i])
    {
      var s := Store16(order, w);
      buffer[off] := s[0];
      buffer[off + 1] := s[1];
    }

    /** `*(unsigned short*)(buffer + off) = htons(w)` */
    method WriteHtons(off: nat, w: word)
      requires off + 2 <= buffer.Length
      modifies buffer
      ensures buffer[..] == Put(old(buffer[..]), off, Net16(w))
    {
      StoreHtons(order, w);
      WriteShort(off, Htons(order, w));
    }

    method SetSource(ip: seq<byte>, port: word)
      requires Valid() && |ip| == 4
      modifies this`chksumValid, buffer
      ensures Valid() && !chksumValid
      ensures View() == old(View()).(src := ip, sport := port)
      ensures OnlyWrote(old(buffer[..]), buffer[..], 12, 16, 20, 22)
    {
      assert buffer.Length == MAX_PACKET_SIZE;
      hide ChecksumsCurrent, Layout, Decode, Put, OnlyWrote, Net16At;
      Poke(buffer, 12, ip);
      WriteHtons(20, port);
      chksumValid := false;
      SourceWritten(old(buffer[..]), payloadSize, ip, Net16(port));
      Net16Inverse(port);
    }

    /** The port comes from a random number generator that stays in 1024..65535. */
    method RandomSourcePort(port: word)
      requires Valid()
      modifies this`chksumValid, buffer
      ensures Valid() && !chksumValid
      ensures View() == old(View()).(sport := port)
      ensures OnlyWrote(old(buffer[..]), buffer[..], 20, 22, 20, 22)
    {
      WriteHtons(20, port);
      chksumValid := false;
      Untouched(old(buffer[..]), buffer[..], payloadSize);
    }

    /** The address is a random host-order number, stored through `htonl`. */
    method RandomSourceIP(address: nat)
      requires Valid() && address < 0x1_0000_0000
      modifies this`chksumValid, buffer
      ensures Valid() && !chksumValid
      ensures View() == old(View()).(src := Net32(address))
      ensures OnlyWrote(old(buffer[..]), buffer[..], 12, 16, 12, 16)
    {
      Poke(buffer, 12, Net32(address));
      chksumValid := false;
      Untouched(old(buffer[..]), buffer[..], payloadSize);
    }

    /** Copies address and port from a captured frame. It reads 36 bytes of it; `ok` is false where
        the frame has fewer, and the program reads past its end. It is the one setter that does not
        clear `chksumValid`: after it the packet is valid exactly when the flag was not set, or the
        new source has the same address sum and the same port, in one's complement. */
    method UseSourceFromPcap(frame: seq<byte>) returns (ok: bool)
      requires Valid()
      modifies buffer
      ensures ok <==> |frame| >= 36
      ensures !ok ==> buffer[..] == old(buffer[..]) && Valid() && View() == old(View())
      ensures Layout(buffer[..], payloadSize)
      ensures ok ==> Decode(buffer[..], payloadSize)
                     == old(View()).(src := frame[26..30], sport := Net16At(frame, 34))
      ensures OnlyWrote(old(buffer[..]), buffer[..], 12, 16, 20, 22)
      ensures ok ==> (Valid() <==> !chksumValid
                                   || (SameInOnes(OnesSum(old(View().src)), OnesSum(frame[26..30]))
                                       && SameInOnes(old(View().sport), Net16At(frame, 34))))
    {
      assert buffer.Length == MAX_PACKET_SIZE;
      if |frame| < 36 {
        return false;
      }
      hide ChecksumsCurrent, SameInOnes, OnesSum, Layout, Decode, Put, OnlyWrote;
      Poke(buffer, 12, frame[26..30]);
      Poke(buffer, 20, frame[34..36]);
      SourceWritten(old(buffer[..]), payloadSize, frame[26..30], frame[34..36]);
      if chksumValid {
        SourceUnderCurrentChecksums(old(buffer[..]), payloadSize, frame[26..30], frame[34..36]);
      }
      return true;
    }

    method SetDestination(ip: seq<byte>, port: word)
      requires Valid() && |ip| == 4
      modifies this`chksumValid, buffer
      ensures Valid() && !chksumValid
      ensures View() == old(View()).(dst := ip, dport := port)
      ensures OnlyWrote(old(buffer[..]), buffer[..], 16, 20, 22, 24)
    {
      assert buffer.Length == MAX_PACKET_SIZE;
      hide ChecksumsCurrent, Layout, Decode, Put, OnlyWrote, Net16At;
      Poke(buffer, 16, ip);
      WriteHtons(22, port);
      chksumValid := false;
      DestinationWritten(old(buffer[..]), payloadSize, ip, port);
    }

    method SetIpId(id: word)
      requires Valid()
      modifies this`chksumValid, buffer
      ensures Valid() && !chksumValid
      ensures View() == old(View()).(ipId := id)
      ensures OnlyWrote(old(buffer[..]), buffer[..], 4, 6, 4, 6)
    {
      WriteHtons(4, id);
      chksumValid := false;
      Untouched(old(buffer[..]), buffer[..], payloadSize);
    }

    /** Writes two bytes after the headers even when the payload is shorter than that. */
    method SetDnsId(id: word)
      requires Valid()
      modifies this`chksumValid, buffer
      ensures Valid() && !chksumValid
      ensures View() == old(View()).(payload := Stamp(old(View()).payload, id))
      ensures OnlyWrote(old(buffer[..]), buffer[..], 28, 30, 28, 30)
    {
      WriteHtons(HEADER_SIZE, id);
      chksumValid := false;
      Untouched(old(buffer[..]), buffer[..], payloadSize);
      StampedImage(old(buffer[..]), payloadSize, id);
    }

    /** `ok` is false where the source throws `BufferOverflow`, before it changes anything. */
    method SetPayload(payload: array<byte>, size: nat) returns (ok: bool)
      requires Valid() && payload != buffer && size <= payload.Length
      modifies this, buffer
      ensures Valid()
      ensures ok <==> size <= 4068
      ensures ok ==> payloadSize == size && !chksumValid
      ensures ok ==> View() == old(View()).(payload := payload[..size])
      ensures ok ==> OnlyPayloadWritten(old(buffer[..]), buffer[..], size)
      ensures !ok ==> buffer[..] == old(buffer[..]) && payloadSize == old(payloadSize)
                      && chksumValid == old(chksumValid)
    {
      assert buffer.Length == MAX_PACKET_SIZE;
      hide ChecksumsCurrent, Layout, Decode, Put, OnlyPayloadWritten, Net16;
      if size + HEADER_SIZE > MAX_PACKET_SIZE {
        return false;
      }
      CopyPayload(payload, size);
      PayloadWritten(old(buffer[..]), old(payloadSize), old(payload[..size]));
      return true;
    }

    /** The part of `setPayload` that writes. */
    method CopyPayload(payload: array<byte>, size: nat)
      requires buffer.Length == MAX_PACKET_SIZE && payload != buffer
      requires size <= payload.Length && size <= MAX_PAYLOAD
      modifies this, buffer
      ensures payloadSize == size && !chksumValid
      ensures buffer[..] == Put(Put(Put(old(buffer[..]), 28, payload[..size]),
                                    2, Net16(HEADER_SIZE + size)), 24, Net16(8 + size))
    {
      hide Put;
      Memcpy(buffer, HEADER_SIZE, payload, 0, size);
      assert payload[0..size] == payload[..size];
      payloadSize := size;
      WriteHtons(2, HEADER_SIZE + payloadSize);
      WriteHtons(24, 8 + payloadSize);
      chksumValid := false;
    }

    method UdpCksum() returns (answer: word)
      requires Valid() && buffer[26] == 0 && buffer[27] == 0
      ensures Store16(order, answer) == Net16(UdpChecksum(View()))
    {
      hide OnesSum, Decode, UdpChecksum, InternetChecksum;
      ghost var s := buffer[..];
      var cbuf := new byte[MAX_PACKET_SIZE](_ => 0);
      var end := FillPseudo(cbuf);
      answer := InCksum(order, cbuf, 12 + 8 + payloadSize + payloadSize % 2);
      PaddedMessage(cbuf[..end], cbuf[..end + payloadSize % 2]);
      UdpMessageOfImage(s, payloadSize);
      assert buffer[12..16] == s[12..16] && buffer[16..20] == s[16..20] && buffer[24..26] == s[24..26]
             && buffer[20..28] == s[20..28];
    }

    /** The part of `udp_cksum` that lays out pseudo-header, header and payload. */
    method FillPseudo(cbuf: array<byte>) returns (p: nat)
      requires Valid() && cbuf != buffer && cbuf.Length == MAX_PACKET_SIZE
      requires forall i :: 0 <= i < cbuf.Length ==> cbuf[i] == 0
      modifies cbuf
      ensures p == 12 + 8 + payloadSize
      ensures cbuf[..p] == Pseudo(buffer[12..16], buffer[16..20], buffer[24..26]) + buffer[20..28]
                           + buffer[28..28 + payloadSize]
      ensures cbuf[p] == 0
    {
      assert buffer[9] == 17 && buffer.Length == MAX_PACKET_SIZE;
      hide ChecksumsCurrent, Layout;
      ghost var src, dst := buffer[12..16], buffer[16..20];
      p := Append(cbuf, 0, buffer, 12, 4);
      p := Append(cbuf, p, buffer, 16, 4);
      assert cbuf[..p] == src + dst;
      p := AppendByte(cbuf, p, 0);
      p := AppendByte(cbuf, p, buffer[9]);
      assert cbuf[..p] == src + dst + [0, 17];
      p := Append(cbuf, p, buffer, 24, 2);
      p := Append(cbuf, p, buffer, IP_SIZE, 8);
      p := Append(cbuf, p, buffer, HEADER_SIZE, payloadSize);
    }

    method UpdateChecksums()
      requires Valid()
      modifies this`chksumValid, buffer
      ensures Valid() && chksumValid
      ensures View() == old(View())
      ensures forall i :: 0 <= i < MAX_PACKET_SIZE && i !in {10, 11, 26, 27}
                ==> buffer[i] == old(buffer[i])
    {
      StoreIpSum();
      label ip:
      StoreUdpSum();
      assert buffer[10..12] == old@ip(buffer[10..12]);
      chksumValid := true;
    }

    method StoreIpSum()
      requires Valid()
      modifies this`chksumValid, buffer
      ensures Valid() && !chksumValid && View() == old(View())
      ensures buffer[10..12] == Net16(IpChecksum(View()))
      ensures OnlyWrote(old(buffer[..]), buffer[..], 10, 12, 10, 12)
    {
      hide OnesSum, IpFront;
      chksumValid := false;
      WriteShort(10, 0);
      Untouched(old(buffer[..]), buffer[..], payloadSize);
      assert View() == old(View());
      var sum := InCksum(order, buffer, IP_SIZE);
      IpMessageOfImage(buffer[..], payloadSize);
      assert buffer[..IP_SIZE] == buffer[..][..IP_SIZE];
      WriteShort(10, sum);
      Untouched(old(buffer[..]), buffer[..], payloadSize);
    }

    method StoreUdpSum()
      requires Valid() && !chksumValid
      modifies buffer
      ensures Valid() && View() == old(View())
      ensures buffer[26..28] == Net16(UdpChecksum(View()))
      ensures OnlyWrote(old(buffer[..]), buffer[..], 26, 28, 26, 28)
    {
      hide OnesSum, UdpPrefix, UdpChecksum;
      WriteShort(26, 0);
      Untouched(old(buffer[..]), buffer[..], payloadSize);
      assert View() == old(View());
      var sum := UdpCksum();
      WriteShort(26, sum);
      Untouched(old(buffer[..]), buffer[..], payloadSize);
    }

    function Size(): nat
      reads this
    {
      HEADER_SIZE + payloadSize
    }

    /** Hands out the buffer, checksums first made current: what is read from it is the wire form
        of the datagram, which any receiver accepts. */
    method Ptr() returns (p: array<byte>)
      requires Valid()
      modifies this`chksumValid, buffer
      ensures p == buffer
      ensures Valid() && chksumValid && View() == old(View())
      ensures p[..Size()] == Wire(View())
      ensures ParseDatagram(p[..Size()]) == Some(View())
      ensures forall i :: 0 <= i < MAX_PACKET_SIZE && i !in {10, 11, 26, 27}
                ==> buffer[i] == old(buffer[i])
    {
      if !chksumValid {
        UpdateChecksums();
      }
      ImageIsWire(buffer[..], payloadSize);
      WireRoundTrip(View());
      p := buffer;
    }
  }

  /** Bytes that agree have slices that agree, for every field of the header and the payload. */
  lemma Untouched(s: seq<byte>, r: seq<byte>, size: nat)
    requires |s| == |r| == MAX_PACKET_SIZE && size <= MAX_PAYLOAD
    ensures (forall i :: 2 <= i < 4 ==> r[i] == s[i]) ==> r[2..4] == s[2..4]
    ensures (forall i :: 24 <= i < 26 ==> r[i] == s[i]) ==> r[24..26] == s[24..26]
    ensures (forall i :: 12 <= i < 16 ==> r[i] == s[i]) ==> r[12..16] == s[12..16]
    ensures (forall i :: 16 <= i < 20 ==> r[i] == s[i]) ==> r[16..20] == s[16..20]
    ensures (forall i :: 28 <= i < 28 + size ==> r[i] == s[i]) ==> r[28..28 + size] == s[28..28 + size]
  {
  }
}
