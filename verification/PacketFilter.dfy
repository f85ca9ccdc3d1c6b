/** The two ways of recognising an answer in src/raw_socket_receiver.cpp: the BPF program installed on
    FreeBSD, and the checks written out for Linux. */
module PacketFilter {
  import opened Bytes

  datatype Width = B | H | W

  datatype Instruction =
    | LoadAbs(width: Width, at: nat)
    | JumpEq(value: nat, ifTrue: nat, ifFalse: nat)
    | Return(bytes: nat)

  function Octets(width: Width): nat {
    match width
    case B => 1
    case H => 2
    case W => 4
  }

  /** A load in network byte order. */
  function Load(frame: seq<byte>, width: Width, at: nat): nat
    requires at + Octets(width) <= |frame|
  {
    match width
    case B => frame[at]
    case H => Net16At(frame, at)
    case W => Word32At(frame, at)
  }

  /** The filter machine: how many bytes of the frame to pass on. A load beyond the frame ends the
      program with 0. Jumps are relative to the next instruction and only go forward, so every
      program ends on every frame. */
  function Execute(program: seq<Instruction>, frame: seq<byte>, pc: nat, a: nat): nat
    decreases |program| - pc
  {
    if pc >= |program| then 0
    else
      match program[pc]
      case LoadAbs(width, at) =>
        if at + Octets(width) > |frame| then 0
        else Execute(program, frame, pc + 1, Load(frame, width, at))
      case JumpEq(value, ifTrue, ifFalse) =>
        Execute(program, frame, pc + 1 + (if a == value then ifTrue else ifFalse), a)
      case Return(bytes) => bytes
  }

  function Program(sip: nat, port: nat): seq<Instruction> {
    [ LoadAbs(H, 12), JumpEq(0x0800, 0, 7),
      LoadAbs(W, 26), JumpEq(sip, 0, 5),
      LoadAbs(B, 23), JumpEq(17, 0, 3),
      LoadAbs(H, 34), JumpEq(port, 0, 1),
      Return(0xffff_ffff),
      Return(0) ]
  }

  predicate BpfAccepts(frame: seq<byte>, ip: seq<byte>, port: word)
    requires |ip| == 4
  {
    Execute(Program(Word32At(ip, 0), port), frame, 0, 0) != 0
  }

  /** Running one comparison: a load, a test, and the way to the next one or to the final `Return(0)`. */
  lemma OneTest(program: seq<Instruction>, frame: seq<byte>, pc: nat, a: nat, width: Width, at: nat,
                value: nat)
    requires pc + 2 < |program| && program[pc] == LoadAbs(width, at)
    requires program[pc + 1] == JumpEq(value, 0, |program| - pc - 3)
    requires program[|program| - 1] == Return(0)
    ensures Execute(program, frame, pc, a)
            == if at + Octets(width) <= |frame| && Load(frame, width, at) == value
               then Execute(program, frame, pc + 2, value) else 0
  {
    if at + Octets(width) <= |frame| {
      var v := Load(frame, width, at);
      assert Execute(program, frame, pc, a) == Execute(program, frame, pc + 1, v);
      if v != value {
        assert Execute(program, frame, pc + 1, v) == Execute(program, frame, |program| - 1, v);
      }
    }
  }

  lemma SameAddress(s: seq<byte>, i: nat, ip: seq<byte>)
    requires i + 4 <= |s| && |ip| == 4
    ensures Word32At(s, i) == Word32At(ip, 0) <==> s[i..i + 4] == ip
  {
    Halves(Net16At(s, i), Net16At(s, i + 2), Net16At(ip, 0), Net16At(ip, 2));
    Digits(s[i], s[i + 1], ip[0], ip[1]);
    Digits(s[i + 2], s[i + 3], ip[2], ip[3]);
    var t := s[i..i + 4];
    assert t[0] == s[i] && t[1] == s[i + 1] && t[2] == s[i + 2] && t[3] == s[i + 3];
    hide Word32At, Net16At;
    if s[i] == ip[0] && s[i + 1] == ip[1] && s[i + 2] == ip[2] && s[i + 3] == ip[3] {
      assert t == ip;
    }
  }

  lemma Halves(a: word, b: word, c: word, d: word)
    ensures 0x1_0000 * a + b == 0x1_0000 * c + d <==> a == c && b == d
  {
  }

  /** The ten instructions accept exactly the frames with ethertype IPv4, the wanted source address,
      protocol UDP and, taking the IP header to have no options, the wanted source port. */
  lemma BpfMeaning(frame: seq<byte>, ip: seq<byte>, port: word)
    requires |ip| == 4
    ensures BpfAccepts(frame, ip, port) <==>
            && |frame| >= 36 && Net16At(frame, 12) == 0x0800
            && frame[26..30] == ip && frame[23] == 17 && Net16At(frame, 34) == port
  {
    var sip := Word32At(ip, 0);
    var p := Program(sip, port);
    OneTest(p, frame, 0, 0, H, 12, 0x0800);
    OneTest(p, frame, 2, 0x0800, W, 26, sip);
    OneTest(p, frame, 4, sip, B, 23, 17);
    OneTest(p, frame, 6, 17, H, 34, port);
    assert Execute(p, frame, 8, port) == 0xffff_ffff;
    if |frame| >= 30 {
      SameAddress(frame, 26, ip);
    }
  }

  /** The checks made on Linux, on the receive buffer: `used` bytes of it are the frame. */
  predicate LinuxAccepts(buffer: seq<byte>, used: int, ip: seq<byte>, port: word)
    requires |buffer| >= 36
  {
    && used >= 34
    && Net16At(buffer, 12) == 0x0800
    && buffer[14] / 16 == 4
    && buffer[26..30] == ip
    && Net16At(buffer, 34) == port
  }

  /** `recvfrom` into a buffer that still holds what it held before. */
  function Received(buffer: seq<byte>, frame: seq<byte>): (r: seq<byte>)
    ensures |r| == |buffer|
  {
    if |frame| >= |buffer| then frame[..|buffer|] else frame + buffer[|frame|..]
  }

  function Used(buffer: seq<byte>, frame: seq<byte>): nat {
    if |frame| >= |buffer| then |buffer| else |frame|
  }

  /** The two filters agree on version-4 frames with all the fields, except that the Linux checks take
      any protocol. */
  lemma FiltersAgree(buffer: seq<byte>, frame: seq<byte>, ip: seq<byte>, port: word)
    requires |buffer| >= 36 && |frame| >= 36 && |ip| == 4
    ensures BpfAccepts(frame, ip, port) && frame[14] / 16 == 4
            <==> LinuxAccepts(Received(buffer, frame), Used(buffer, frame), ip, port) && frame[23] == 17
  {
    BpfMeaning(frame, ip, port);
    assert Received(buffer, frame)[26..30] == frame[26..30];
  }

  /** What the Linux checks see of a frame before they come to the port. */
  predicate FrontMatches(frame: seq<byte>, ip: seq<byte>) {
    |frame| >= 34 && Net16At(frame, 12) == 0x0800 && frame[14] / 16 == 4 && frame[26..30] == ip
  }

  ghost predicate DecidedByFrame(size: nat, frame: seq<byte>, ip: seq<byte>, port: word)
    requires size >= 36
  {
    forall b, c :: |b| == size && |c| == size ==>
      LinuxAccepts(Received(b, frame), Used(b, frame), ip, port)
      == LinuxAccepts(Received(c, frame), Used(c, frame), ip, port)
  }

  /** The length check lets frames of 34 and 35 bytes through although the port lies in bytes 34 and
      35; for those the answer depends on what an earlier frame left in the buffer. It depends on the
      frame alone exactly when the frame is long enough, or is turned away before. */
  lemma ShortFrames(size: nat, frame: seq<byte>, ip: seq<byte>, port: word)
    requires size >= 36 && |ip| == 4
    ensures DecidedByFrame(size, frame, ip, port) <==>
            || |frame| >= 36 || !FrontMatches(frame, ip)
            || (|frame| == 35 && frame[34] != port / 256)
  {
    hide Received, LinuxAccepts, FrontMatches;
    forall b | |b| == size
      ensures LinuxAccepts(Received(b, frame), Used(b, frame), ip, port) <==>
              FrontMatches(frame, ip) && Net16At(Received(b, frame), 34) == port
      ensures |frame| >= 36 ==> Net16At(Received(b, frame), 34) == Net16At(frame, 34)
    {
      FrontThenPort(b, frame, ip, port);
    }
    if |frame| < 36 && FrontMatches(frame, ip) {
      ShortFramePort(size, frame, ip, port);
    }
  }

  lemma FrontThenPort(b: seq<byte>, frame: seq<byte>, ip: seq<byte>, port: word)
    requires |b| >= 36
    ensures FrontMatches(frame, ip) ==> |frame| >= 34
    ensures LinuxAccepts(Received(b, frame), Used(b, frame), ip, port) <==>
            FrontMatches(frame, ip) && Net16At(Received(b, frame), 34) == port
    ensures |frame| >= 36 ==> Net16At(Received(b, frame), 34) == Net16At(frame, 34)
  {
    if |frame| >= 34 {
      assert Received(b, frame)[26..30] == frame[26..30];
    }
  }

  /** Two buffers that decide a short frame differently, or its own byte 34 decides it. */
  lemma ShortFramePort(size: nat, frame: seq<byte>, ip: seq<byte>, port: word)
    requires size >= 36 && |frame| < 36 && FrontMatches(frame, ip)
    ensures DecidedByFrame(size, frame, ip, port) <==> |frame| == 35 && frame[34] != port / 256
  {
    hide LinuxAccepts, Received, PortByte;
    var hi: byte, lo: byte := port / 256, port % 256;
    forall b | |b| == size
      ensures LinuxAccepts(Received(b, frame), Used(b, frame), ip, port) <==>
              PortByte(b, frame) == hi && b[35] == lo
    {
      ShortFrameDecision(b, frame, ip, port);
    }
    hide FrontMatches;
    TwoBuffers(size, frame, hi, lo);
  }

  /** Two buffers that decide a short frame differently exist unless its own byte 34 decides it. */
  lemma TwoBuffers(size: nat, frame: seq<byte>, hi: byte, lo: byte)
    requires size >= 36 && 34 <= |frame| < 36
    ensures (forall b, c :: |b| == size && |c| == size ==>
               (PortByte(b, frame) == hi && b[35] == lo <==> PortByte(c, frame) == hi && c[35] == lo))
            <==> |frame| == 35 && frame[34] != hi
  {
    var other: byte := if lo == 0 then 1 else 0;
    var good: seq<byte> := seq(size, i => if i == 34 then hi else lo);
    var bad: seq<byte> := seq(size, i => other);
    if |frame| == 34 || frame[34] == hi {
      assert PortByte(good, frame) == hi && good[35] == lo;
      assert bad[35] != lo;
      assert PortByte(bad, frame) == PortByte(bad, frame);
    }
  }

  /** The first byte of the port after receiving a frame of 34 or 35 bytes. */
  function PortByte(b: seq<byte>, frame: seq<byte>): byte
    requires |b| >= 36
  {
    if |frame| == 35 then frame[34] else b[34]
  }

  lemma ShortFrameDecision(b: seq<byte>, frame: seq<byte>, ip: seq<byte>, port: word)
    requires |b| >= 36 && |frame| < 36 && FrontMatches(frame, ip)
    ensures LinuxAccepts(Received(b, frame), Used(b, frame), ip, port) <==>
            PortByte(b, frame) == port / 256 && b[35] == port % 256
  {
    FrontThenPort(b, frame, ip, port);
    hide LinuxAccepts, Received;
    ReceivedPort(b, frame);
    Digits(PortByte(b, frame), b[35], port / 256, port % 256);
  }

  lemma ReceivedPort(b: seq<byte>, frame: seq<byte>)
    requires |b| >= 36 && 34 <= |frame| < 36
    ensures Net16At(Received(b, frame), 34) == Word16(PortByte(b, frame), b[35])
  {
    assert b[|frame|..][35 - |frame|] == b[35];
  }
}
