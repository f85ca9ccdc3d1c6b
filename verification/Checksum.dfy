/** The Internet checksum. `OnesSum` and `InternetChecksum` are the definition (section 1 of
    RFC 1071): add 16-bit big-endian words with end-around carry and complement. `InCksum` is the
    loop of src/packet.cpp, which adds words in the host's byte order into a 32-bit int and folds
    the carries twice at the end. */
module Checksum {
  import opened Bytes

  /** One's complement addition: the carry out of bit 15 is added back in. */
  function OnesAdd(x: word, y: word): word {
    if x + y >= 0x1_0000 then x + y - 0x1_0000 + 1 else x + y
  }

  function OnesSum(s: seq<byte>): word {
    if |s| == 0 then 0
    else if |s| == 1 then Word16(s[0], 0)
    else OnesAdd(Word16(s[0], s[1]), OnesSum(s[2..]))
  }

  function InternetChecksum(s: seq<byte>): word {
    0xffff - OnesSum(s)
  }

  /** What the loop accumulates: a plain integer sum of words in host order, an odd last byte
      standing in the first byte of its word. */
  function NativeSum(order: ByteOrder, s: seq<byte>): (r: nat)
    ensures 2 * r <= 0xffff * (|s| + 1)
  {
    if |s| == 0 then 0
    else if |s| == 1 then Load16(order, s[0], 0)
    else Load16(order, s[0], s[1]) + NativeSum(order, s[2..])
  }

  /** The source's two folds of a non-negative 32-bit int and its truncation to 16 bits. */
  function FoldTwice(sum: nat): word {
    var once := sum / 0x1_0000 + sum % 0x1_0000;
    var twice := once + once / 0x1_0000;
    twice % 0x1_0000
  }

  /** The representative of x modulo 65535 in 1..65535, and 0 for 0 alone. */
  function Canon(x: nat): word {
    if x == 0 then 0 else (x - 1) % 0xffff + 1
  }

  lemma CanonUnique(x: nat, r: word, k: int)
    requires x == r + 0xffff * k
    requires x == 0 <==> r == 0
    ensures Canon(x) == r
  {
    if x != 0 {
      assert x - 1 == (r - 1) + 0xffff * k;
    }
  }

  lemma CanonQuotient(x: nat) returns (k: nat)
    ensures x == Canon(x) + 0xffff * k
    ensures x == 0 <==> Canon(x) == 0
  {
    k := if x == 0 then 0 else (x - 1) / 0xffff;
  }

  lemma CanonAdd(x: nat, y: nat)
    ensures Canon(x + y) == OnesAdd(Canon(x), Canon(y))
  {
    var i := CanonQuotient(x);
    var j := CanonQuotient(y);
    var carry := if Canon(x) + Canon(y) >= 0x1_0000 then 1 else 0;
    CanonUnique(x + y, OnesAdd(Canon(x), Canon(y)), i + j + carry);
  }

  /** Two folds are enough for every sum a non-negative 32-bit int can hold. */
  lemma TwoFoldsSuffice(sum: nat)
    requires sum < 0x8000_0000
    ensures FoldTwice(sum) == Canon(sum)
  {
    var q, r := sum / 0x1_0000, sum % 0x1_0000;
    assert sum == 0x1_0000 * q + r && q < 0x8000;
    var once := q + r;
    if once < 0x1_0000 {
      CanonUnique(sum, once, q);
    } else {
      assert once / 0x1_0000 == 1;
      CanonUnique(sum, once + 1 - 0x1_0000, q + 1);
    }
  }

  /** End-around carry at every step gives the same as one reduction of the plain sum. */
  lemma {:induction false} OnesSumIsCanon(s: seq<byte>)
    ensures OnesSum(s) == Canon(NativeSum(BigEndian, s))
  {
    if |s| == 1 {
      CanonUnique(Word16(s[0], 0), Word16(s[0], 0), 0);
    } else if |s| > 1 {
      OnesSumIsCanon(s[2..]);
      CanonUnique(Word16(s[0], s[1]), Word16(s[0], s[1]), 0);
      CanonAdd(Word16(s[0], s[1]), NativeSum(BigEndian, s[2..]));
    }
  }

  /** Swapping the bytes of every word multiplies the sum by 256 modulo 65535. */
  lemma {:induction false} SwappedSum(s: seq<byte>) returns (k: nat)
    ensures 256 * NativeSum(LittleEndian, s) == NativeSum(BigEndian, s) + 0xffff * k
    ensures NativeSum(LittleEndian, s) == 0 <==> NativeSum(BigEndian, s) == 0
  {
    k := 0;
    if |s| > 1 {
      var rest := SwappedSum(s[2..]);
      var second: int := s[1];
      k := second + rest;
      assert 256 * Load16(LittleEndian, s[0], s[1]) == Load16(BigEndian, s[0], s[1]) + 0xffff * second;
    }
  }

  /** Byte-order independence (section 2(B) of RFC 1071): the native sum, folded, is the byte swap
      of the big-endian one. */
  lemma ByteOrderIndependence(order: ByteOrder, s: seq<byte>)
    ensures Htons(order, Canon(NativeSum(order, s))) == OnesSum(s)
  {
    OnesSumIsCanon(s);
    if order == LittleEndian {
      var k := SwappedSum(s);
      CanonOfSwapped(NativeSum(LittleEndian, s), NativeSum(BigEndian, s), k);
    }
  }

  lemma CanonOfSwapped(little: nat, big: nat, k: nat)
    requires 256 * little == big + 0xffff * k
    requires little == 0 <==> big == 0
    ensures Swap16(Canon(little)) == Canon(big)
  {
    var i := CanonQuotient(little);
    var c := Canon(little);
    var h, l := c / 256, c % 256;
    assert c == 256 * h + l;
    CanonUnique(big, Swap16(c), 256 * i + h - k);
  }

  /** The checksum loop. Whatever the host's byte order, storing the answer natively leaves the
      bytes of the Internet checksum in memory; the 32-bit accumulator never overflows. */
  method InCksum(order: ByteOrder, addr: array<byte>, len: nat) returns (answer: word)
    requires len <= addr.Length && len <= 0x1_0000
    ensures Store16(order, answer) == Net16(InternetChecksum(addr[..len]))
  {
    hide OnesSum, InternetChecksum, Store16, Net16;
    ghost var s := addr[..len];
    var nleft: int := len;
    var w := 0;
    var sum := 0;
    while nleft > 1
      invariant 0 <= nleft && w == len - nleft
      invariant sum >= 0 && sum + NativeSum(order, s[w..]) == NativeSum(order, s)
      invariant sum < 0x8000_0000
    {
      assert s[w..][2..] == s[w + 2..];
      sum := sum + Load16(order, addr[w], addr[w + 1]);
      nleft := nleft - 2;
      w := w + 2;
    }
    if nleft == 1 {
      sum := sum + Load16(order, addr[w], 0);
    }
    assert sum == NativeSum(order, s);
    FoldedAnswer(order, s);
    sum := sum / 0x1_0000 + sum % 0x1_0000;
    sum := sum + sum / 0x1_0000;
    answer := 0xffff - sum % 0x1_0000;
  }

  lemma FoldedAnswer(order: ByteOrder, s: seq<byte>)
    requires NativeSum(order, s) < 0x8000_0000
    ensures Store16(order, 0xffff - FoldTwice(NativeSum(order, s))) == Net16(InternetChecksum(s))
  {
    hide FoldTwice, Canon, OnesSum, NativeSum;
    TwoFoldsSuffice(NativeSum(order, s));
    ByteOrderIndependence(order, s);
    ComplementCommutes(order, Canon(NativeSum(order, s)));
    StoreHtons(order, InternetChecksum(s));
  }

  lemma ComplementCommutes(order: ByteOrder, w: word)
    ensures Htons(order, 0xffff - Htons(order, w)) == 0xffff - w
  {
    var h, l := w / 256, w % 256;
    assert w == 256 * h + l;
    var v := 0xffff - Swap16(w);
    assert v == 256 * (255 - l) + (255 - h);
    assert v / 256 == 255 - l && v % 256 == 255 - h;
  }

  lemma {:induction false} NativeSumConcat(order: ByteOrder, a: seq<byte>, b: seq<byte>)
    requires |a| % 2 == 0
    ensures NativeSum(order, a + b) == NativeSum(order, a) + NativeSum(order, b)
  {
    if |a| == 0 {
      assert a + b == b;
    } else {
      assert (a + b)[2..] == a[2..] + b;
      NativeSumConcat(order, a[2..], b);
    }
  }

  /** A zero byte after an odd number of bytes changes nothing. */
  lemma {:induction false} PadIsNeutral(s: seq<byte>)
    requires |s| % 2 == 1
    ensures OnesSum(s + [0]) == OnesSum(s)
  {
    if |s| == 1 {
      assert (s + [0])[2..] == [];
      assert OnesSum((s + [0])[2..]) == 0;
    } else {
      assert (s + [0])[2..] == s[2..] + [0];
      PadIsNeutral(s[2..]);
    }
  }

  /** Which values of a checksum word make the whole message add up to 0xffff: the Internet
      checksum of the message with that word zero, and, because 0 and 0xffff are both zero in one's
      complement, the other of the two when the checksum is one of them. */
  lemma ChecksumVerifies(pre: seq<byte>, post: seq<byte>, w: word)
    requires |pre| % 2 == 0
    requires OnesSum(pre + [0, 0] + post) != 0
    ensures var good := InternetChecksum(pre + [0, 0] + post);
            OnesSum(pre + Net16(w) + post) == 0xffff
            <==> w == good || (good == 0 && w == 0xffff)
  {
    var rest := NativeSum(BigEndian, pre) + NativeSum(BigEndian, post);
    var zero: seq<byte> := [0, 0];
    SumWithWord(pre, Net16(w), post);
    SumWithWord(pre, zero, post);
    assert NativeSum(BigEndian, zero) == 0 by { assert zero[2..] == []; }
    assert NativeSum(BigEndian, Net16(w)) == w by { assert Net16(w)[2..] == []; }
    CanonAdd(rest, w);
    CanonUnique(w, w, 0);
  }

  lemma SumWithWord(pre: seq<byte>, mid: seq<byte>, post: seq<byte>)
    requires |pre| % 2 == 0 && |mid| % 2 == 0
    ensures OnesSum(pre + mid + post)
         == Canon(NativeSum(BigEndian, pre) + NativeSum(BigEndian, mid) + NativeSum(BigEndian, post))
  {
    hide *;
    NativeSumConcat(BigEndian, pre + mid, post);
    NativeSumConcat(BigEndian, pre, mid);
    OnesSumIsCanon(pre + mid + post);
  }

  /** Equal as one's complement numbers: 0 and 0xffff are both zero. */
  predicate SameInOnes(v: word, w: word) {
    v == w || (v == 0 && w == 0xffff) || (v == 0xffff && w == 0)
  }

  lemma SameCanon(rest: nat, v: word, w: word)
    requires rest > 0
    ensures Canon(rest + v) == Canon(rest + w) <==> SameInOnes(v, w)
  {
    var i := CanonQuotient(rest + v);
    var j := CanonQuotient(rest + w);
    if Canon(rest + v) == Canon(rest + w) {
      var quotients: int := i;
      quotients := quotients - j;
      assert v - w == 0xffff * quotients;
      assert -1 <= quotients <= 1;
    } else if v == 0 && w == 0xffff {
      CanonUnique(rest + w, Canon(rest + v), i + 1);
    } else if v == 0xffff && w == 0 {
      CanonUnique(rest + v, Canon(rest + w), j + 1);
    }
  }

  lemma NativeSumOfWord(w: word)
    ensures NativeSum(BigEndian, Net16(w)) == w && OnesSum(Net16(w)) == w
  {
    assert Net16(w)[2..] == [];
  }

  lemma CanonOfPart(rest: nat, part: nat)
    ensures Canon(rest + part) == Canon(rest + Canon(part))
  {
    CanonAdd(rest, part);
    CanonAdd(rest, Canon(part));
    CanonUnique(Canon(part), Canon(part), 0);
  }

  /** The sum of a message tells the values of one part of it apart, as one's complement numbers. */
  lemma PartMatters(pre: seq<byte>, x: seq<byte>, y: seq<byte>, post: seq<byte>)
    requires |pre| % 2 == 0 && |x| % 2 == 0 && |y| % 2 == 0
    requires OnesSum(pre) != 0 || OnesSum(post) != 0
    ensures OnesSum(pre + x + post) == OnesSum(pre + y + post) <==> SameInOnes(OnesSum(x), OnesSum(y))
  {
    hide NativeSum, OnesSum, SameInOnes;
    var rest := NativeSum(BigEndian, pre) + NativeSum(BigEndian, post);
    SumWithWord(pre, x, post);
    SumWithWord(pre, y, post);
    OnesSumIsCanon(pre);
    OnesSumIsCanon(post);
    OnesSumIsCanon(x);
    OnesSumIsCanon(y);
    CanonOfPart(rest, NativeSum(BigEndian, x));
    CanonOfPart(rest, NativeSum(BigEndian, y));
    SameCanon(rest, OnesSum(x), OnesSum(y));
  }
}
