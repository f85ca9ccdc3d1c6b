/** An IPv4/UDP datagram as its receiver sees it. `Wire` lays the header fields out as section 3.1
    of RFC 791 and RFC 768 do; `ParseDatagram` is an independent receiver that checks every length
    and both checksums. Neither knows how the C++ `Packet` stores or updates anything. */
module Datagram {
  import opened Bytes
  import opened Checksum

  const IP_SIZE := 20
  const HEADER_SIZE := 28

  datatype Datagram = Datagram(
    src: seq<byte>, dst: seq<byte>, ipId: word, sport: word, dport: word, payload: seq<byte>)

  predicate WellFormed(d: Datagram) {
    |d.src| == 4 && |d.dst| == 4 && HEADER_SIZE + |d.payload| < 0x1_0000
  }

  /** The IPv4 header up to its checksum: version 4 with five words, no options, not a fragment,
      time to live 64, protocol 17. */
  function IpFront(d: Datagram): (s: seq<byte>)
    requires WellFormed(d)
    ensures |s| == 10
  {
    [0x45, 0] + Net16(HEADER_SIZE + |d.payload|) + Net16(d.ipId) + [0, 0, 64, 17]
  }

  /** The UDP header up to its checksum. */
  function UdpFront(d: Datagram): (s: seq<byte>)
    requires WellFormed(d)
    ensures |s| == 6
  {
    Net16(d.sport) + Net16(d.dport) + Net16(8 + |d.payload|)
  }

  /** The pseudo-header of RFC 768. */
  function Pseudo(src: seq<byte>, dst: seq<byte>, length: seq<byte>): seq<byte> {
    src + dst + [0, 17] + length
  }

  function IpChecksum(d: Datagram): word
    requires WellFormed(d)
  {
    InternetChecksum(IpFront(d) + [0, 0] + (d.src + d.dst))
  }

  function UdpPrefix(d: Datagram): (s: seq<byte>)
    requires WellFormed(d)
    ensures |s| == 18
  {
    Pseudo(d.src, d.dst, Net16(8 + |d.payload|)) + UdpFront(d)
  }

  function UdpChecksum(d: Datagram): word
    requires WellFormed(d)
  {
    InternetChecksum(UdpPrefix(d) + [0, 0] + d.payload)
  }

  function Wire(d: Datagram): (s: seq<byte>)
    requires WellFormed(d)
    ensures |s| == HEADER_SIZE + |d.payload|
  {
    IpFront(d) + Net16(IpChecksum(d)) + d.src + d.dst + UdpFront(d) + Net16(UdpChecksum(d)) + d.payload
  }

  /** The receiver: the IPv4 header words, and the words of the pseudo-header of RFC 768 (addresses,
      protocol and UDP length), UDP header and payload, must each add up to 0xffff with the stored
      checksum included. */
  function ParseDatagram(b: seq<byte>): Option<Datagram> {
    if && |b| >= 28
       && b[0] == 0x45 && Net16At(b, 2) == |b| && b[6] == 0 && b[7] == 0 && b[8] > 0 && b[9] == 17
       && OnesSum(b[..20]) == 0xffff
       && Net16At(b, 24) == |b| - 20
       && OnesSum(b[12..20] + [0, 17] + b[24..26] + b[20..]) == 0xffff
    then Some(Datagram(b[12..16], b[16..20], Net16At(b, 4), Net16At(b, 20), Net16At(b, 22), b[28..]))
    else None
  }

  /** A message whose words include a nonzero one does not add up to zero. */
  lemma {:induction false} NonzeroSum(s: seq<byte>, i: nat)
    requires i < |s| && s[i] != 0
    ensures OnesSum(s) != 0
  {
    if |s| > 1 && i > 1 {
      NonzeroSum(s[2..], i - 2);
    }
  }

  lemma IpHeaderVerifies(d: Datagram)
    requires WellFormed(d)
    ensures OnesSum(IpFront(d) + Net16(IpChecksum(d)) + (d.src + d.dst)) == 0xffff
  {
    NonzeroSum(IpFront(d) + [0, 0] + (d.src + d.dst), 0);
    ChecksumVerifies(IpFront(d), d.src + d.dst, IpChecksum(d));
  }

  lemma UdpVerifies(d: Datagram)
    requires WellFormed(d)
    ensures OnesSum(UdpPrefix(d) + Net16(UdpChecksum(d)) + d.payload) == 0xffff
  {
    NonzeroSum(UdpPrefix(d) + [0, 0] + d.payload, 9);
    ChecksumVerifies(UdpPrefix(d), d.payload, UdpChecksum(d));
  }

  /** Every datagram on the wire is accepted by the receiver and decodes to itself. */
  lemma WireRoundTrip(d: Datagram)
    requires WellFormed(d)
    ensures ParseDatagram(Wire(d)) == Some(d)
  {
    hide OnesSum;
    var b := Wire(d);
    assert b[..20] == IpFront(d) + Net16(IpChecksum(d)) + (d.src + d.dst);
    IpHeaderVerifies(d);
    assert b[12..16] == d.src && b[16..20] == d.dst && b[28..] == d.payload;
    assert b[12..20] == d.src + d.dst;
    assert b[20..] == UdpFront(d) + Net16(UdpChecksum(d)) + d.payload;
    assert b[24..26] == Net16(8 + |d.payload|);
    assert b[12..20] + [0, 17] + b[24..26] + b[20..]
        == UdpPrefix(d) + Net16(UdpChecksum(d)) + d.payload;
    UdpVerifies(d);
  }

  /** The checksum tells source ports apart, except for 0 and 0xffff, which are both zero in one's
      complement. */
  lemma SourcePortMatters(d: Datagram, port: word)
    requires WellFormed(d)
    ensures UdpChecksum(d.(sport := port)) == UdpChecksum(d)
            <==> SameInOnes(d.sport, port)
  {
    hide OnesSum;
    var e := d.(sport := port);
    var length := Net16(8 + |d.payload|);
    var before := Pseudo(d.src, d.dst, length);
    var after := Net16(d.dport) + length + [0, 0] + d.payload;
    assert UdpPrefix(d) + [0, 0] + d.payload == before + Net16(d.sport) + after;
    assert UdpPrefix(e) + [0, 0] + e.payload == before + Net16(port) + after;
    NonzeroSum(before, 9);
    NativeSumOfWord(d.sport);
    NativeSumOfWord(port);
    PartMatters(before, Net16(d.sport), Net16(port), after);
  }

  /** The checksums tell source addresses apart by the one's complement sum of their two words. */
  lemma SourceAddressMatters(d: Datagram, ip: seq<byte>)
    requires WellFormed(d) && |ip| == 4
    ensures IpChecksum(d.(src := ip)) == IpChecksum(d) <==> SameInOnes(OnesSum(d.src), OnesSum(ip))
    ensures UdpChecksum(d.(src := ip)) == UdpChecksum(d) <==> SameInOnes(OnesSum(d.src), OnesSum(ip))
  {
    hide OnesSum;
    var e := d.(src := ip);
    var pre := IpFront(d) + [0, 0];
    assert IpFront(d) + [0, 0] + (d.src + d.dst) == pre + d.src + d.dst;
    assert IpFront(e) + [0, 0] + (ip + d.dst) == pre + ip + d.dst;
    NonzeroSum(pre, 0);
    PartMatters(pre, d.src, ip, d.dst);
    var post := d.dst + [0, 17] + Net16(8 + |d.payload|) + UdpFront(d) + [0, 0] + d.payload;
    assert UdpPrefix(d) + [0, 0] + d.payload == [] + d.src + post;
    assert UdpPrefix(e) + [0, 0] + e.payload == [] + ip + post;
    NonzeroSum(post, 5);
    PartMatters([], d.src, ip, post);
  }

  /** Another source leaves both checksums as they are exactly when it has the same address sum and
      the same port, in one's complement. */
  lemma SourceMatters(d: Datagram, ip: seq<byte>, port: word)
    requires WellFormed(d) && |ip| == 4
    ensures var e := d.(src := ip, sport := port);
            IpChecksum(e) == IpChecksum(d) && UdpChecksum(e) == UdpChecksum(d)
            <==> SameInOnes(OnesSum(d.src), OnesSum(ip)) && SameInOnes(d.sport, port)
  {
    hide OnesSum, SameInOnes, UdpChecksum;
    SourceAddressMatters(d, ip);
    SourcePortMatters(d.(src := ip), port);
    assert IpFront(d.(src := ip, sport := port)) == IpFront(d.(src := ip));
  }

  /** The Internet checksum of all words that the UDP checksum covers, without the source port. */
  function OtherWords(d: Datagram): word
    requires WellFormed(d)
  {
    var length := Net16(8 + |d.payload|);
    InternetChecksum(Pseudo(d.src, d.dst, length) + [0, 0] + (Net16(d.dport) + length + d.payload))
  }

  lemma ZeroForOtherWords(d: Datagram)
    requires WellFormed(d)
    ensures UdpChecksum(d.(sport := OtherWords(d))) == 0
  {
    hide OnesSum;
    var e := d.(sport := OtherWords(d));
    var length := Net16(8 + |d.payload|);
    var before := Pseudo(d.src, d.dst, length);
    var after := Net16(d.dport) + length + d.payload;
    NonzeroSum(before + [0, 0] + after, 9);
    ChecksumVerifies(before, after, e.sport);
    WithoutZeroWord(UdpPrefix(e), e.payload);
    assert UdpPrefix(e) + e.payload == before + Net16(e.sport) + after;
  }

  lemma WithoutZeroWord(pre: seq<byte>, post: seq<byte>)
    requires |pre| % 2 == 0
    ensures OnesSum(pre + [0, 0] + post) == OnesSum(pre + post)
  {
    var zero: seq<byte> := [0, 0];
    assert NativeSum(BigEndian, zero) == 0 by { assert zero[2..] == []; }
    hide NativeSum, OnesSum;
    SumWithWord(pre, zero, post);
    NativeSumConcat(BigEndian, pre, post);
    OnesSumIsCanon(pre + post);
  }

  /** RFC 768 sends a computed checksum of zero as 0xffff, because zero means "none computed". The
      program does not. The field it sends is zero exactly when the source port is the checksum of
      all the other words; 0xffff in its place would verify just as well. */
  lemma ZeroUdpChecksum(d: Datagram)
    requires WellFormed(d)
    ensures UdpChecksum(d) == 0 <==> SameInOnes(d.sport, OtherWords(d))
    ensures UdpChecksum(d) == 0 ==> OnesSum(UdpPrefix(d) + Net16(0xffff) + d.payload) == 0xffff
  {
    hide OnesSum, SameInOnes, OtherWords;
    ZeroForOtherWords(d);
    var e := d.(sport := OtherWords(d));
    SourcePortMatters(e, d.sport);
    assert e.(sport := d.sport) == d;
    SameIsSymmetric(d.sport, e.sport);
    NonzeroSum(UdpPrefix(d) + [0, 0] + d.payload, 9);
    ChecksumVerifies(UdpPrefix(d), d.payload, 0xffff);
  }

  lemma SameIsSymmetric(v: word, w: word)
    ensures SameInOnes(v, w) <==> SameInOnes(w, v)
  {
  }

  /** Some port that `randomSourcePort` may draw gives a zero checksum exactly when the checksum of the
      other words is such a port, or zero, for which 0xffff stands in. */
  lemma RandomPortForZeroChecksum(d: Datagram)
    requires WellFormed(d)
    ensures (exists port: word :: port >= 1024 && UdpChecksum(d.(sport := port)) == 0)
            <==> OtherWords(d) >= 1024 || OtherWords(d) == 0
  {
    hide UdpChecksum, OnesSum;
    forall port: word
      ensures UdpChecksum(d.(sport := port)) == 0 <==> SameInOnes(port, OtherWords(d))
    {
      ZeroUdpChecksum(d.(sport := port));
      assert OtherWords(d.(sport := port)) == OtherWords(d);
    }
    if OtherWords(d) == 0 {
      assert UdpChecksum(d.(sport := 0xffff)) == 0;
    } else if OtherWords(d) >= 1024 {
      assert UdpChecksum(d.(sport := OtherWords(d))) == 0;
    }
  }

  const NOWHERE: Datagram := Datagram([0, 0, 0, 0], [0, 0, 0, 0], 0, 0, 0, [])

  /** The zero does occur: an empty datagram between the zero addresses, from port 65502 to port 0. */
  lemma ZeroUdpChecksumExample()
    ensures OtherWords(NOWHERE) == 65502 && UdpChecksum(NOWHERE.(sport := 65502)) == 0
  {
    hide SameInOnes, UdpChecksum;
    var zero: seq<byte> := [0, 0, 0, 0];
    assert NativeSum(BigEndian, zero) == 0 by {
      assert zero[2..] == [0, 0] && zero[2..][2..] == [];
    }
    var length := Net16(8);
    NativeSumOfWord(8);
    NativeSumOfWord(17);
    NativeSumOfWord(0);
    hide NativeSum, OnesSum;
    var a := zero + zero;
    NativeSumConcat(BigEndian, zero, zero);
    NativeSumConcat(BigEndian, a, Net16(17));
    NativeSumConcat(BigEndian, a + Net16(17), length);
    NativeSumConcat(BigEndian, a + Net16(17) + length, Net16(0));
    NativeSumConcat(BigEndian, a + Net16(17) + length + Net16(0), Net16(0));
    var s := a + Net16(17) + length + Net16(0) + Net16(0) + length;
    NativeSumConcat(BigEndian, a + Net16(17) + length + Net16(0) + Net16(0), length);
    assert Pseudo(NOWHERE.src, NOWHERE.dst, length) + [0, 0] + (Net16(0) + length + []) == s;
    OnesSumIsCanon(s);
    CanonUnique(33, 33, 0);
    ZeroForOtherWords(NOWHERE);
  }
}
