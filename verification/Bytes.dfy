/** Bytes, 16-bit words and the host's byte order, as the C++ code sees them through
    `unsigned short*` casts, `htons` and `memcpy`. */
module Bytes {
  type byte = b: int | 0 <= b < 256
  type word = w: int | 0 <= w < 0x1_0000

  datatype Option<+T> = None | Some(value: T)

  datatype ByteOrder = LittleEndian | BigEndian

  /** `*(unsigned short*)p` where p points at `first`, `second`. */
  function Load16(order: ByteOrder, first: byte, second: byte): word {
    if order.LittleEndian? then first + 256 * second else 256 * first + second
  }

  /** The two bytes that `*(unsigned short*)p = w` leaves in memory. */
  function Store16(order: ByteOrder, w: word): (s: seq<byte>)
    ensures |s| == 2 && Load16(order, s[0], s[1]) == w
  {
    if order.LittleEndian? then [w % 256, w / 256] else [w / 256, w % 256]
  }

  function Swap16(w: word): word {
    256 * (w % 256) + w / 256
  }

  /** `htons`, which is its own inverse and so also `ntohs`. */
  function Htons(order: ByteOrder, w: word): word {
    if order.LittleEndian? then Swap16(w) else w
  }

  /** A word in network byte order. */
  function Net16(w: word): (s: seq<byte>)
    ensures |s| == 2
  {
    [w / 256, w % 256]
  }

  function Word16(hi: byte, lo: byte): word {
    256 * hi + lo
  }

  function Net16At(s: seq<byte>, i: nat): word
    requires i + 2 <= |s|
  {
    Word16(s[i], s[i + 1])
  }

  /** Comparing a field as it lies in memory with `htons(w)` compares its network-order value with
      `w`, on every host. */
  lemma NativeComparison(order: ByteOrder, hi: byte, lo: byte, w: word)
    ensures Load16(order, hi, lo) == Htons(order, w) <==> Word16(hi, lo) == w
  {
    var h, l := w / 256, w % 256;
    assert Htons(order, w) == if order.LittleEndian? then h + 256 * l else 256 * h + l;
    if order.LittleEndian? {
      Digits(lo, hi, l, h);
    }
    Digits(hi, lo, h, l);
  }

  lemma Digits(a: byte, b: byte, c: int, d: int)
    requires 0 <= c < 256 && 0 <= d < 256
    ensures 256 * a + b == 256 * c + d <==> a == c && b == d
  {
  }

  function Word32At(s: seq<byte>, i: nat): nat
    requires i + 4 <= |s|
  {
    0x1_0000 * Net16At(s, i) + Net16At(s, i + 2)
  }

  function Net32(n: nat): (s: seq<byte>)
    requires n < 0x1_0000_0000
    ensures |s| == 4
  {
    Net16(n / 0x1_0000) + Net16(n % 0x1_0000)
  }

  /** Storing `htons(w)` natively leaves network byte order in memory, on every host. */
  lemma StoreHtons(order: ByteOrder, w: word)
    ensures Store16(order, Htons(order, w)) == Net16(w)
    ensures Htons(order, Htons(order, w)) == w
  {
    var h, l := w / 256, w % 256;
    assert w == 256 * h + l;
    assert Swap16(w) / 256 == l && Swap16(w) % 256 == h;
  }

  lemma Net16Inverse(w: word)
    ensures Net16At(Net16(w), 0) == w
  {
  }

  /** `memcpy(s + off, b, |b|)` */
  function Put(s: seq<byte>, off: nat, b: seq<byte>): (r: seq<byte>)
    requires off + |b| <= |s|
    ensures |r| == |s|
    ensures r[off..off + |b|] == b
    ensures forall i :: 0 <= i < off || off + |b| <= i < |s| ==> r[i] == s[i]
  {
    s[..off] + b + s[off + |b|..]
  }

  /** `memcpy` between two different arrays. */
  method Memcpy(dst: array<byte>, at: nat, src: array<byte>, from: nat, size: nat)
    requires dst != src
    requires at + size <= dst.Length && from + size <= src.Length
    modifies dst
    ensures dst[..] == Put(old(dst[..]), at, src[from..from + size])
  {
    forall i | 0 <= i < size {
      dst[at + i] := src[from + i];
    }
    assert dst[at..at + size] == src[from..from + size];
    assert dst[..at] == old(dst[..at]);
  }

  /** `memcpy` to the end of what has been filled so far. */
  method Append(dst: array<byte>, at: nat, src: array<byte>, from: nat, size: nat) returns (end: nat)
    requires dst != src
    requires at + size <= dst.Length && from + size <= src.Length
    modifies dst
    ensures end == at + size
    ensures dst[..end] == old(dst[..at]) + src[from..from + size]
    ensures forall i :: end <= i < dst.Length ==> dst[i] == old(dst[i])
  {
    Memcpy(dst, at, src, from, size);
    end := at + size;
    assert dst[..end] == dst[..at] + dst[at..end];
  }

  /** `*p = b; p++` */
  method AppendByte(dst: array<byte>, at: nat, b: byte) returns (end: nat)
    requires at < dst.Length
    modifies dst
    ensures end == at + 1
    ensures dst[..end] == old(dst[..at]) + [b]
    ensures forall i :: end <= i < dst.Length ==> dst[i] == old(dst[i])
  {
    dst[at] := b;
    end := at + 1;
    assert dst[..at] == old(dst[..at]);
  }

  /** Stores a constant sequence of bytes. */
  method Poke(dst: array<byte>, at: nat, b: seq<byte>)
    requires at + |b| <= dst.Length
    modifies dst
    ensures dst[..] == Put(old(dst[..]), at, b)
  {
    forall i | 0 <= i < |b| {
      dst[at + i] := b[i];
    }
    assert dst[at..at + |b|] == b;
    assert dst[..at] == old(dst[..at]);
  }
}
