/** src/payload_file.cpp: telling a capture from text, the cache of compiled queries or captured
    frames, and the cursor that all sender threads share. */
module Payload {
  import Arith
  import opened Bytes
  import opened DnsMessage
  import opened Query

  const PCAP_HEADER_SIZE := 42
  const MAX_CAPTURE := 4096

  /** What the loader makes of a captured frame. It does not check that the fields it looks at were
      captured; `PastEnd` says that one was not. */
  datatype Verdict = Keep | Drop | PastEnd

  /** The loader's conditions, in its order: length, ethertype IPv4, version 4, destination port 53,
      and a DNS header with QR and OPCODE zero. */
  function Judge(order: ByteOrder, f: seq<byte>): (v: Verdict)
    ensures v.Keep? ==> 45 <= |f| <= MAX_CAPTURE
  {
    if |f| > MAX_CAPTURE then Drop
    else if |f| < 14 then PastEnd
    else if Net16At(f, 12) != 0x0800 then Drop
    else if |f| < 15 then PastEnd
    else if f[14] / 16 != 4 then Drop
    else if |f| < 38 then PastEnd
    else if Net16At(f, 36) != 53 then Drop
    else if |f| < 45 then PastEnd
    else if Qr(order, f[44]) != 0 || Opcode(order, f[44]) != 0 then Drop
    else Keep
  }

  /** The frames the loader keeps, in file order. */
  function Kept(order: ByteOrder, frames: seq<seq<byte>>): seq<seq<byte>> {
    if frames == [] then []
    else
      var n := |frames| - 1;
      Kept(order, frames[..n]) + (if Judge(order, frames[n]).Keep? then [frames[n]] else [])
  }

  /** The first frame that ends before a field the loader looks at; all frames if there is none. */
  function FirstPast(order: ByteOrder, frames: seq<seq<byte>>): (n: nat)
    ensures n <= |frames|
    ensures n < |frames| ==> Judge(order, frames[n]).PastEnd?
    ensures forall i :: 0 <= i < n ==> !Judge(order, frames[i]).PastEnd?
  {
    if frames == [] then 0
    else
      var n := FirstPast(order, frames[..|frames| - 1]);
      if n == |frames| - 1 && !Judge(order, frames[n]).PastEnd? then |frames| else n
  }

  type Compiler = string -> Option<seq<byte>>

  predicate Skipped(line: string) {
    line == "" || line[0] == '#'
  }

  /** The queries compiled from lines that are neither empty, nor comments, nor invalid. */
  function Compiled(lines: seq<string>, makeQuery: Compiler): seq<seq<byte>> {
    if lines == [] then []
    else
      var n := |lines| - 1;
      Compiled(lines[..n], makeQuery) +
      (if Skipped(lines[n]) || makeQuery(lines[n]).None? then [] else [makeQuery(lines[n]).value])
  }

  /** Loading is a filter that keeps order and repetitions. */
  lemma {:induction false} KeptConcat(order: ByteOrder, a: seq<seq<byte>>, b: seq<seq<byte>>)
    ensures Kept(order, a + b) == Kept(order, a) + Kept(order, b)
    decreases |b|
  {
    if b == [] {
      assert a + b == a;
    } else {
      var n := |b| - 1;
      assert (a + b)[..|a + b| - 1] == a + b[..n];
      KeptConcat(order, a, b[..n]);
    }
  }

  /** A frame that the loader keeps, byte by byte: from 45 to 4096 bytes of them, ethertype 0x0800,
      version 4, port 53 where the destination port is without IP options, and no query/response bit
      and operation code where the host's compiler puts them. */
  predicate QueryFrame(order: ByteOrder, f: seq<byte>) {
    && 45 <= |f| <= 4096
    && f[12..14] == [8, 0] && f[14] / 16 == 4 && f[36..38] == [0, 53]
    && (if order.LittleEndian? then f[44] < 8 else f[44] % 32 == 0)
  }

  /** A frame that ends before a byte the loader looks at. */
  predicate EndsTooEarly(f: seq<byte>) {
    || |f| < 14
    || (|f| <= 4096 && f[12..14] == [8, 0]
        && (|f| < 15 || (f[14] / 16 == 4 && (|f| < 38 || (f[36..38] == [0, 53] && |f| < 45)))))
  }

  lemma TwoBytes(f: seq<byte>, i: nat, hi: byte, lo: byte)
    requires i + 2 <= |f|
    ensures f[i..i + 2] == [hi, lo] <==> Net16At(f, i) == 256 * hi + lo
  {
    Digits(f[i], f[i + 1], hi, lo);
    assert f[i..i + 2] == [f[i], f[i + 1]];
    assert [f[i], f[i + 1]][0] == f[i] && [f[i], f[i + 1]][1] == f[i + 1];
    assert [hi, lo][0] == hi && [hi, lo][1] == lo;
  }

  lemma NoQuery(order: ByteOrder, flags: byte)
    ensures Qr(order, flags) == 0 && Opcode(order, flags) == 0
            <==> if order.LittleEndian? then flags < 8 else flags % 32 == 0
  {
    if order.LittleEndian? {
      if flags < 128 {
        assert flags / 8 < 16;
      }
    } else {
      var half := flags / 2;
      assert flags == 2 * half + flags % 2 && half == 16 * (half / 16) + half % 16;
      assert flags == 32 * (half / 16) + 2 * (half % 16) + flags % 2;
    }
  }

  lemma JudgeMeaning(order: ByteOrder, f: seq<byte>)
    ensures Judge(order, f).Keep? <==> QueryFrame(order, f)
    ensures Judge(order, f).PastEnd? <==> EndsTooEarly(f)
  {
    if 14 <= |f| {
      TwoBytes(f, 12, 8, 0);
    }
    if 38 <= |f| {
      TwoBytes(f, 36, 0, 53);
    }
    if 45 <= |f| {
      NoQuery(order, f[44]);
    }
    hide Net16At, Qr, Opcode;
  }

  /** One frame is kept or not; with `KeptConcat`, this is all that loading does. */
  lemma KeptOne(order: ByteOrder, f: seq<byte>)
    ensures Kept(order, [f]) == if QueryFrame(order, f) then [f] else []
  {
    JudgeMeaning(order, f);
    hide Judge, QueryFrame;
    assert [f][..0] == [];
  }

  lemma {:induction false} KeptExactly(order: ByteOrder, frames: seq<seq<byte>>, f: seq<byte>)
    ensures multiset(Kept(order, frames))[f]
            == if QueryFrame(order, f) then multiset(frames)[f] else 0
    decreases |frames|
  {
    hide Judge, QueryFrame;
    JudgeMeaning(order, f);
    if frames != [] {
      var n := |frames| - 1;
      assert frames == frames[..n] + [frames[n]];
      KeptExactly(order, frames[..n], f);
    }
  }

  lemma {:induction false} KeptAreGood(order: ByteOrder, frames: seq<seq<byte>>)
    ensures forall e :: e in Kept(order, frames) ==> GoodEntry(order, e, true)
    decreases |frames|
  {
    if frames != [] {
      KeptAreGood(order, frames[..|frames| - 1]);
    }
  }

  /** The loader calls what it keeps UDP queries, but never looks at the protocol byte. */
  lemma ProtocolIgnored(order: ByteOrder, f: seq<byte>, protocol: byte)
    requires |f| > 23
    ensures Judge(order, f[23 := protocol]) == Judge(order, f)
  {
  }

  lemma {:induction false} CompiledAreGood(order: ByteOrder, lines: seq<string>, makeQuery: Compiler)
    requires forall l :: makeQuery(l).Some? ==> PlainQuery(makeQuery(l).value)
    ensures forall e :: e in Compiled(lines, makeQuery) ==> GoodEntry(order, e, false)
    decreases |lines|
  {
    if lines != [] {
      CompiledAreGood(order, lines[..|lines| - 1], makeQuery);
    }
  }

  lemma {:induction false} CompiledConcat(a: seq<string>, b: seq<string>, makeQuery: Compiler)
    ensures Compiled(a + b, makeQuery) == Compiled(a, makeQuery) + Compiled(b, makeQuery)
    decreases |b|
  {
    if b == [] {
      assert a + b == a;
    } else {
      var n := |b| - 1;
      assert (a + b)[..|a + b| - 1] == a + b[..n];
      CompiledConcat(a, b[..n], makeQuery);
    }
  }

  /** One line is compiled or not; with `CompiledConcat`, this is all that loading does. */
  lemma CompiledOne(line: string, makeQuery: Compiler)
    ensures Compiled([line], makeQuery)
            == if line == "" || line[0] == '#' || makeQuery(line).None? then []
               else [makeQuery(line).value]
  {
    assert [line][..0] == [];
  }

  /** Where a query comes from: the lines that are not empty, no comments, and compile to it. */
  function LinesOf(lines: seq<string>, makeQuery: Compiler, query: seq<byte>): set<nat> {
    set i: nat | i < |lines| && lines[i] != "" && lines[i][0] != '#' && makeQuery(lines[i]) == Some(query)
  }

  lemma {:induction false} CompiledExactly(lines: seq<string>, makeQuery: Compiler, query: seq<byte>)
    ensures multiset(Compiled(lines, makeQuery))[query] == |LinesOf(lines, makeQuery, query)|
    decreases |lines|
  {
    if lines != [] {
      CompiledExactly(lines[..|lines| - 1], makeQuery, query);
      OneMoreLine(lines, makeQuery, query);
      hide LinesOf;
    }
  }

  lemma OneMoreLine(lines: seq<string>, makeQuery: Compiler, query: seq<byte>)
    requires lines != []
    ensures var n := |lines| - 1;
            |LinesOf(lines, makeQuery, query)|
            == |LinesOf(lines[..n], makeQuery, query)|
               + (if lines[n] != "" && lines[n][0] != '#' && makeQuery(lines[n]) == Some(query) then 1 else 0)
  {
    var n := |lines| - 1;
    var before, now := LinesOf(lines[..n], makeQuery, query), LinesOf(lines, makeQuery, query);
    forall i | i != n
      ensures i in now <==> i in before
    {
      InLinesOf(lines, makeQuery, query, i);
      InLinesOf(lines[..n], makeQuery, query, i);
    }
    InLinesOf(lines, makeQuery, query, n);
    InLinesOf(lines[..n], makeQuery, query, n);
    hide LinesOf;
    Arith.OneMoreIn(now, before, n);
  }

  lemma InLinesOf(lines: seq<string>, makeQuery: Compiler, query: seq<byte>, i: nat)
    ensures i in LinesOf(lines, makeQuery, query) <==>
            && i < |lines| && lines[i] != "" && lines[i][0] != '#'
            && makeQuery(lines[i]) == Some(query)
  {
  }

  /** What a sender may rely on for each cached entry. */
  predicate GoodEntry(order: ByteOrder, e: seq<byte>, pcap: bool) {
    if pcap then Judge(order, e).Keep? else PlainQuery(e)
  }

  /** The sizes a sender relies on: room for all captured headers and the query ID behind them, or
      for a DNS header and the flags to be added. */
  predicate Sized(e: seq<byte>, pcap: bool) {
    if pcap then PCAP_HEADER_SIZE + 3 <= |e| <= MAX_CAPTURE
    else HEADER_BYTES + 5 <= |e| <= HEADER_BYTES + MAX_NAME + 4
  }

  lemma GoodIsSized(order: ByteOrder, cache: seq<seq<byte>>, pcap: bool)
    requires forall e :: e in cache ==> GoodEntry(order, e, pcap)
    ensures forall e :: e in cache ==> Sized(e, pcap)
  {
    forall e | e in cache
      ensures Sized(e, pcap)
    {
      if !pcap {
        PlainQueryIsShort(e);
      }
    }
  }

  // Telling a capture from text.

  /** A 32-bit load in either byte order. */
  function Peek32(order: ByteOrder, s: seq<byte>): nat
    requires |s| >= 4
  {
    if order.BigEndian? then Word32At(s, 0)
    else 0x1_0000 * Load16(order, s[2], s[3]) + Load16(order, s[0], s[1])
  }

  /** `detectPcap`: a file of eight bytes or more that begins with one of four magic numbers. */
  predicate DetectPcap(order: ByteOrder, content: seq<byte>) {
    |content| >= 8 &&
    Peek32(order, content) in {0xa1b2c3d4, 0xa1b23c4d, 0xd4c3b2a1, 0x4d3cb2a1}
  }

  /** The magic numbers, of microsecond and nanosecond captures from hosts of either kind, are the
      same four whichever way they are read. */
  lemma MagicBytes(order: ByteOrder, content: seq<byte>)
    ensures DetectPcap(order, content) <==>
            |content| >= 8 && content[..4] in {
              [0xa1, 0xb2, 0xc3, 0xd4], [0xa1, 0xb2, 0x3c, 0x4d],
              [0xd4, 0xc3, 0xb2, 0xa1], [0x4d, 0x3c, 0xb2, 0xa1] }
  {
    if |content| >= 8 {
      var a, b, c, d := content[0], content[1], content[2], content[3];
      assert content[..4] == [a, b, c, d];
      assert Peek32(order, content) ==
             if order.BigEndian? then 0x1_0000 * Word16(a, b) + Word16(c, d)
             else 0x1_0000 * Word16(d, c) + Word16(b, a);
      hide Peek32, Load16;
      FourBytes(a, b, c, d, 0xa1, 0xb2, 0xc3, 0xd4);
      FourBytes(a, b, c, d, 0xa1, 0xb2, 0x3c, 0x4d);
      FourBytes(a, b, c, d, 0xd4, 0xc3, 0xb2, 0xa1);
      FourBytes(a, b, c, d, 0x4d, 0x3c, 0xb2, 0xa1);
      FourBytes(d, c, b, a, 0xa1, 0xb2, 0xc3, 0xd4);
      FourBytes(d, c, b, a, 0xa1, 0xb2, 0x3c, 0x4d);
      FourBytes(d, c, b, a, 0xd4, 0xc3, 0xb2, 0xa1);
      FourBytes(d, c, b, a, 0x4d, 0x3c, 0xb2, 0xa1);
    }
  }

  lemma FourBytes(a: byte, b: byte, c: byte, d: byte, i: byte, j: byte, k: byte, l: byte)
    ensures 0x1_0000 * Word16(a, b) + Word16(c, d) == 0x1_0000 * Word16(i, j) + Word16(k, l)
            <==> [a, b, c, d] == [i, j, k, l]
  {
    Digits(a, b, i, j);
    Digits(c, d, k, l);
    assert [a, b, c, d][0] == a && [a, b, c, d][1] == b && [a, b, c, d][2] == c && [a, b, c, d][3] == d;
    assert [i, j, k, l][0] == i && [i, j, k, l][1] == j && [i, j, k, l][2] == k && [i, j, k, l][3] == l;
  }

  /** What libpcap, the text reader and `MakeQuery` make of their inputs: the frames of a capture, or
      `None` if it cannot be read; trimmed lines; and compiled queries. */
  datatype Readers = Readers(
    frames: seq<byte> -> Option<seq<seq<byte>>>, lines: seq<byte> -> seq<string>, makeQuery: Compiler)

  /** `InvalidQueryFile` and its reasons; `TruncatedFrame` for a frame that is read past its end. */
  datatype Opening = Opened | NoName | CannotOpen | EmptyFile | CannotRead | NoQueries | TruncatedFrame

  /** The frames that are loaded before the end of the file, or before one that ends too early. */
  function Complete(order: ByteOrder, frames: seq<seq<byte>>): seq<seq<byte>> {
    frames[..FirstPast(order, frames)]
  }

  /** What a file of these contents is turned into. */
  function Loaded(order: ByteOrder, content: seq<byte>, readers: Readers): seq<seq<byte>> {
    if DetectPcap(order, content) then
      match readers.frames(content)
      case None => []
      case Some(frames) => Kept(order, Complete(order, frames))
    else Compiled(readers.lines(content), readers.makeQuery)
  }

  class PayloadFile {
    const order: ByteOrder
    var querycache: seq<seq<byte>>
    var it: nat
    var validLines: nat
    var payloadIsPcap: bool

    ghost predicate Valid()
      reads this
    {
      && it < |querycache|
      && forall e :: e in querycache ==> Sized(e, payloadIsPcap)
    }

    constructor (order: ByteOrder)
      ensures querycache == [] && validLines == 0 && !payloadIsPcap
    {
      this.order := order;
      querycache, it, validLines, payloadIsPcap := [], 0, 0, false;
    }

    method LoadAndCompilePcapFile(capture: Option<seq<seq<byte>>>) returns (r: Opening)
      modifies this
      ensures payloadIsPcap && it == old(it)
      ensures capture.None? ==>
                r == CannotRead && querycache == old(querycache) && validLines == 0
      ensures capture.Some? ==>
                var frames := capture.value;
                var kept := Kept(order, Complete(order, frames));
                && querycache == old(querycache) + kept && validLines == |kept|
                && r == (if exists f :: f in frames && EndsTooEarly(f) then TruncatedFrame
                         else if kept == [] then NoQueries
                         else Opened)
    {
      payloadIsPcap := true;
      validLines := 0;
      if capture.None? {
        return CannotRead;
      }
      var frames := capture.value;
      for i := 0 to |frames|
        invariant payloadIsPcap && it == old(it)
        invariant i <= FirstPast(order, frames)
        invariant querycache == old(querycache) + Kept(order, frames[..i])
        invariant validLines == |Kept(order, frames[..i])|
      {
        var pkt := frames[i];
        assert frames[..i + 1][..i] == frames[..i];
        JudgeMeaning(order, pkt);
        if Judge(order, pkt).PastEnd? {
          assert pkt in frames && EndsTooEarly(pkt);
          return TruncatedFrame;
        }
        if |pkt| > MAX_CAPTURE { continue; }
        NativeComparison(order, pkt[12], pkt[13], 0x0800);
        if Load16(order, pkt[12], pkt[13]) != Htons(order, 0x0800) { continue; }
        if pkt[14] / 16 != 4 { continue; }
        NativeComparison(order, pkt[36], pkt[37], 53);
        if Load16(order, pkt[36], pkt[37]) != Htons(order, 53) { continue; }
        if Qr(order, pkt[44]) != 0 || Opcode(order, pkt[44]) != 0 { continue; }
        querycache := querycache + [pkt];
        validLines := validLines + 1;
      }
      assert frames[..|frames|] == frames;
      forall f | f in frames
        ensures !EndsTooEarly(f)
      {
        JudgeMeaning(order, f);
      }
      return if validLines == 0 then NoQueries else Opened;
    }

    method LoadAndCompile(lines: seq<string>, makeQuery: Compiler) returns (ok: bool)
      modifies this
      ensures payloadIsPcap == old(payloadIsPcap) && it == old(it)
      ensures querycache == old(querycache) + Compiled(lines, makeQuery)
      ensures validLines == |Compiled(lines, makeQuery)|
      ensures ok <==> Compiled(lines, makeQuery) != []
    {
      validLines := 0;
      for i := 0 to |lines|
        invariant payloadIsPcap == old(payloadIsPcap) && it == old(it)
        invariant querycache == old(querycache) + Compiled(lines[..i], makeQuery)
        invariant validLines == |Compiled(lines[..i], makeQuery)|
      {
        var line := lines[i];
        assert lines[..i + 1][..i] == lines[..i];
        if line == "" { continue; }
        if line[0] == '#' { continue; }
        var compiled := makeQuery(line);
        if compiled.None? { continue; }
        querycache := querycache + [compiled.value];
        validLines := validLines + 1;
      }
      assert lines[..|lines|] == lines;
      ok := validLines != 0;
    }

    /** Opening a file either throws or leaves a non-empty cache with the cursor on its first entry,
        so that `*it` is always valid afterwards. `file` is what the name stands for. */
    method OpenQueryFile(name: string, file: Option<seq<byte>>, readers: Readers) returns (r: Opening)
      requires querycache == [] && !payloadIsPcap
      requires forall l :: readers.makeQuery(l).Some? ==> PlainQuery(readers.makeQuery(l).value)
      modifies this
      ensures r.NoName? <==> name == ""
      ensures r.CannotOpen? <==> name != "" && file == None
      ensures r.EmptyFile? <==> name != "" && file == Some([])
      ensures r in {NoName, CannotOpen, EmptyFile} ==> querycache == []
      ensures r !in {NoName, CannotOpen, EmptyFile} ==>
                var content := file.value;
                && payloadIsPcap == DetectPcap(order, content)
                && querycache == Loaded(order, content, readers) && validLines == |querycache|
                && (r.CannotRead? <==> payloadIsPcap && readers.frames(content).None?)
                && (r.TruncatedFrame? <==>
                      (payloadIsPcap && readers.frames(content).Some?
                       && exists f :: f in readers.frames(content).value && EndsTooEarly(f)))
                && (r.NoQueries? ==> querycache == [])
      ensures r.Opened? ==> Valid() && it == 0
      ensures forall e :: e in querycache ==> GoodEntry(order, e, payloadIsPcap)
    {
      if name == "" {
        return NoName;
      }
      if file.None? {
        return CannotOpen;
      }
      var content := file.value;
      if content == [] {
        return EmptyFile;
      }
      if DetectPcap(order, content) {
        r := LoadAndCompilePcapFile(readers.frames(content));
        if readers.frames(content).Some? {
          KeptAreGood(order, Complete(order, readers.frames(content).value));
        }
      } else {
        var ok := LoadAndCompile(readers.lines(content), readers.makeQuery);
        CompiledAreGood(order, readers.lines(content), readers.makeQuery);
        r := if ok then Opened else NoQueries;
      }
      GoodIsSized(order, querycache, payloadIsPcap);
      if r.Opened? {
        it := 0;
      }
    }

    /** One turn of the round robin; runs under the mutex. */
    method GetQuery() returns (entry: seq<byte>)
      requires Valid()
      modifies this`it
      ensures Valid()
      ensures entry == querycache[old(it)] && Sized(entry, payloadIsPcap)
      ensures it == NextTurn(|querycache|, old(it))
    {
      entry := querycache[it];
      it := it + 1;
      if it == |querycache| {
        it := 0;
      }
    }

    /** Any number of turns taken by other threads. */
    method OtherThreads()
      requires Valid()
      modifies this`it
      ensures Valid()
    {
      var turns: nat :| turns >= 0;
      for i := 0 to turns
        invariant Valid()
      {
        var _ := GetQuery();
      }
    }
  }

  function NextTurn(n: nat, turn: nat): (r: nat)
    requires turn < n
    ensures r < n
  {
    if turn + 1 == n then 0 else turn + 1
  }

  /** The entry handed out by the `m`-th call, from zero, after opening the file. */
  function TurnAt(n: nat, m: nat): (r: nat)
    requires n >= 1
    ensures r < n
  {
    if m == 0 then 0 else NextTurn(n, TurnAt(n, m - 1))
  }

  /** How often the first `m` calls hand out entry `j`. */
  function TimesHandedOut(n: nat, m: nat, j: nat): nat
    requires n >= 1
  {
    if m == 0 then 0
    else TimesHandedOut(n, m - 1, j) + (if TurnAt(n, m - 1) == j then 1 else 0)
  }

  /** `m mod n` and `m div n`, one step further. */
  lemma NextQuotient(n: nat, m: nat)
    requires n >= 1
    ensures (m + 1) % n == NextTurn(n, m % n)
    ensures (m + 1) / n == m / n + (if m % n + 1 == n then 1 else 0)
  {
    var q, r := m / n, m % n;
    assert m == n * q + r;
    if r + 1 == n {
      assert m + 1 == n * (q + 1) + 0;
      Arith.DivModUnique(m + 1, n, q + 1, 0);
    } else {
      Arith.DivModUnique(m + 1, n, q, r + 1);
    }
  }

  lemma {:induction false} TurnIsModulo(n: nat, m: nat)
    requires n >= 1
    ensures TurnAt(n, m) == m % n
  {
    if m > 0 {
      TurnIsModulo(n, m - 1);
      NextQuotient(n, m - 1);
    }
  }

  /** Fairness: after `m` calls each entry has been handed out `m div n` times, and the first
      `m mod n` of them once more. */
  lemma {:induction false} Fairness(n: nat, m: nat, j: nat)
    requires j < n
    ensures TimesHandedOut(n, m, j) == m / n + (if j < m % n then 1 else 0)
  {
    if m > 0 {
      Fairness(n, m - 1, j);
      TurnIsModulo(n, m - 1);
      NextQuotient(n, m - 1);
    }
  }
}
