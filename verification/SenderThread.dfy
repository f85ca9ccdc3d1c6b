/** src/dns_sender_thread.cpp: one worker thread with its packet, socket, counters and DNSSEC
    accumulator. */
module SenderThread {
  import opened Bytes
  import opened Datagram
  import DnssecSpread
  import opened Environment
  import opened PacketBuffer
  import opened Payload
  import opened Query
  import opened Runs
  import opened Schedule
  import opened SentPackets
  import opened Trace

  const ERROR_CODES := 255

  lemma NothingSent(total: nat, slices: nat)
    ensures RestAfter(total, slices, 0) == total && SentAfter(total, slices, 0) == 0
  {
  }

  lemma RestStep(total: nat, slices: nat, z: nat)
    requires z < slices
    ensures RestAfter(total, slices, z) - SliceAt(total, slices, z) == RestAfter(total, slices, z + 1)
    ensures SliceAt(total, slices, z) == SliceQuota(RestAfter(total, slices, z), slices - z)
    ensures SentAfter(total, slices, z + 1) == SentAfter(total, slices, z) + SliceAt(total, slices, z)
  {
    RestIsBounded(total, slices, z + 1);
  }

  /** `queries_rest` before the first slice. */
  function Quota(runtime: nat, queryrate: nat): nat {
    runtime * queryrate
  }

  /** `total_timeslices`, over exact numbers. */
  function TotalTimeslices(runtime: nat, timeslice: real): int
    requires timeslice > 0.0
  {
    (runtime as real * 1000.0 / (timeslice * 1000.0)).Floor
  }

  lemma AtLeastOneSlice(runtime: nat, timeslice: real)
    requires runtime >= 1 && 0.0 < timeslice <= 1.0
    ensures TotalTimeslices(runtime, timeslice) >= 1
  {
    var x := runtime as real * 1000.0 / (timeslice * 1000.0);
    assert x * (timeslice * 1000.0) == runtime as real * 1000.0;
    if x < 1.0 {
      assert false;
    }
  }

  class DNSSenderThread {
    const payload: PayloadFile
    const payloadIsPcap: bool
    const pkt: Packet
    const host: Host
    const socket: RawSocketSender
    const buffer: array<byte>
    const errorcodes: array<nat>

    var queryrate: nat
    var runtime: nat
    var timeout: nat
    var timeslice: real
    var sourceip: seq<byte>
    var spoofing: Spoofing
    var dnssecRate: nat
    var dnsseccounter: nat
    var packetsSend: nat
    var errors: nat
    var zeroBytes: nat
    var bytesSend: nat
    var duration: real

    /** What the host answered within the loop of this run. */
    ghost var log: seq<Event>

    function Total(): nat
      reads this
    {
      packetsSend + errors + zeroBytes
    }

    ghost predicate Valid()
      reads this, pkt, pkt.buffer, payload, host
    {
      && buffer.Length == MAX_PACKET_SIZE && errorcodes.Length == ERROR_CODES
      && buffer != pkt.buffer && socket.host == host && host.Valid()
      && pkt.Valid() && payload.Valid() && payload.payloadIsPcap == payloadIsPcap
      && dnssecRate <= 100 && |sourceip| == 4
      && (spoofing.FromNet? ==>
            spoofing.size >= 1 && spoofing.start + spoofing.size <= 0x1_0000_0000)
    }

    ghost function CurrentAim(): Aim
      requires pkt.Valid()
      reads this, pkt, pkt.buffer, payload
    {
      Aim(pkt.View().dst, pkt.View().dport, pkt.View().ipId, spoofing, sourceip,
          payload.querycache, payloadIsPcap, dnssecRate, pkt.order)
    }

    /** Every packet that was handed to the socket is a good one, and its answer is in exactly one
        counter, under its error code if it has one. */
    ghost predicate Counting()
      requires Valid()
      reads this, pkt, pkt.buffer, payload, host, errorcodes
    {
      && Tally(packetsSend, errors, zeroBytes, bytesSend) == TallyOf(log)
      && (forall c :: 0 <= c < ERROR_CODES ==> errorcodes[c] == CodesOf(log, c))
      && AllGood(CurrentAim(), log)
    }

    /** The accumulator has seen as many queries as the socket, and the source is the configured one. */
    ghost predicate InStep()
      requires Valid()
      reads this, pkt, pkt.buffer, payload, host
    {
      && dnsseccounter == DnssecSpread.AccumulatorAfter(dnssecRate, if payloadIsPcap then 0 else Sends(log))
      && (spoofing.NoSpoofing? ==> pkt.View().src == sourceip)
    }

    constructor (payload: PayloadFile, host: Host, order: ByteOrder, dst: seq<byte>, port: word,
                 runtime: nat, timeout: nat, dnssecRate: nat, spoofing: Spoofing, sourceip: seq<byte>)
      requires payload.Valid() && host.Valid()
      requires |dst| == 4 && |sourceip| == 4 && dnssecRate <= 100
      requires spoofing.FromNet? ==>
                 spoofing.size >= 1 && spoofing.start + spoofing.size <= 0x1_0000_0000
      ensures Valid() && Total() == 0 && queryrate == 0
      ensures this.payload == payload && this.host == host && host.trace == old(host.trace)
      ensures CurrentAim() == Aim(dst, port, 0, spoofing, sourceip, payload.querycache,
                                  payload.payloadIsPcap, dnssecRate, order)
      ensures fresh(pkt) && fresh(pkt.buffer) && fresh(socket) && fresh(buffer) && fresh(errorcodes)
    {
      hide Layout, ChecksumsCurrent, Rising, LastTime;
      this.payload, this.host := payload, host;
      payloadIsPcap := payload.payloadIsPcap;
      var p := new Packet(order);
      p.SetDestination(dst, port);
      pkt := p;
      socket := new RawSocketSender(host);
      buffer := new byte[MAX_PACKET_SIZE](_ => 0);
      errorcodes := new nat[ERROR_CODES](_ => 0);
      queryrate, timeslice, this.runtime, this.timeout := 0, 0.0, runtime, timeout;
      this.sourceip, this.spoofing, this.dnssecRate := sourceip, spoofing, dnssecRate;
      dnsseccounter, packetsSend, errors, zeroBytes, bytesSend := 0, 0, 0, 0, 0;
      duration := 0.0;
      log := [];
    }

    /** One packet. The retry loop of the source runs once, since nothing inside throws one of the
        two exceptions it retries on, and `BufferOverflow` does not occur either. `ok` is false where
        the source address is to come from an entry of fewer than 36 bytes, and the program reads past
        its end. `asked` and `sent` are what the host answered. */
    method SendPacket() returns (ok: bool, ghost entry: seq<byte>, ghost asked: Event, ghost sent: Event)
      requires Valid() && Counting() && InStep()
      modifies this`dnsseccounter, this`packetsSend, this`errors, this`zeroBytes, this`bytesSend,
               this`log, buffer, errorcodes, pkt, pkt.buffer, payload`it, host
      ensures Valid() && Counting() && CurrentAim() == old(CurrentAim())
      // which entry
      ensures entry == payload.querycache[old(payload.it)]
      ensures payload.it == NextTurn(|payload.querycache|, old(payload.it))
      ensures ok <==> CurrentAim().HasSource(entry)
      ensures !ok ==> host.trace == old(host.trace) && log == old(log)
      // what goes out
      ensures ok ==>
                && host.trace == old(host.trace) + [asked, sent] && log == old(log) + [asked, sent]
                && asked.TimeOfDay? && sent.SendTo? && sent.packet == Wire(pkt.View())
                && Carries(CurrentAim(), pkt.View(), entry, CurrentAim().Due(Sends(old(log))), asked.tp)
      // exactly one counter moves
      ensures ok ==>
                var whole := sent.n > 0 && sent.n == |sent.packet|;
                && packetsSend == old(packetsSend) + (if whole then 1 else 0)
                && errors == old(errors) + (if sent.n < 0 then 1 else 0)
                && zeroBytes == old(zeroBytes) + (if sent.n >= 0 && !whole then 1 else 0)
                && bytesSend == old(bytesSend) + (if whole then |sent.packet| else 0)
                && forall i :: 0 <= i < ERROR_CODES ==>
                     errorcodes[i]
                     == old(errorcodes[i]) + (if sent.n < 0 && sent.errno == i then 1 else 0)
      ensures ok ==> InStep()
      ensures host.ns >= old(host.ns) && (ok ==> host.ns > old(host.ns))
    {
      hide Layout, ChecksumsCurrent, Decode, Wire, WellFormed, Carries, AllGood, TallyOf, CodesOf,
           DnssecSpread.AccumulatorAfter, Sends, Rising, LastTime, SourceAllowed, Prepared;
      var bap := payload.GetQuery();
      entry := bap;
      ghost var aim := CurrentAim();
      var built, question := BuildPacket(bap);
      asked, sent := question, question;
      if !built {
        return false, entry, asked, sent;
      }
      ghost var answer := Transmit();
      sent := answer;
      log := log + [asked, sent];
      PacketCounted(old(log), asked, sent);
      PacketRecorded(aim, old(log), asked, sent, pkt.View(), entry);
      return true, entry, asked, sent;
    }

    /** The middle of `sendPacket`: from an entry to a packet that is ready to be sent. */
    method BuildPacket(bap: seq<byte>) returns (ok: bool, ghost asked: Event)
      requires Valid() && InStep() && bap in payload.querycache && Sized(bap, payloadIsPcap)
      modifies this`dnsseccounter, buffer, pkt, pkt.buffer, host
      ensures Valid() && CurrentAim() == old(CurrentAim())
      ensures ok <==> CurrentAim().HasSource(bap)
      ensures !ok ==> host.trace == old(host.trace) && host.ns == old(host.ns)
      ensures ok ==>
                && host.trace == old(host.trace) + [asked] && asked.TimeOfDay?
                && Carries(CurrentAim(), pkt.View(), bap, CurrentAim().Due(Sends(log)), asked.tp)
                && (spoofing.NoSpoofing? ==> pkt.View().src == sourceip)
                && dnsseccounter
                   == DnssecSpread.AccumulatorAfter(dnssecRate, if payloadIsPcap then 0 else Sends(log) + 1)
                && host.ns > old(host.ns)
    {
      hide Layout, ChecksumsCurrent, Decode, WellFormed, Prepared, Stamp, Rising, LastTime, Sends,
           QueryTimestamp;
      ghost var aim := CurrentAim();
      var querySize := FillBuffer(bap);
      var fits := pkt.SetPayload(buffer, querySize);
      assert fits;
      asked := StopAsked(true);
      ok := ChooseSource(bap);
      if ok {
        var now := host.GetTimeOfDay();
        asked := TimeOfDay(host.Seconds(), now);
        pkt.SetDnsId(QueryTimestamp(now));
      }
    }

    /** The first part of `sendPacket`: copies the entry, without its captured headers, and flags
        every so many text queries. */
    method FillBuffer(bap: seq<byte>) returns (querySize: nat)
      requires buffer.Length == MAX_PACKET_SIZE && dnssecRate <= 100
      requires Sized(bap, payloadIsPcap)
      modifies this`dnsseccounter, buffer
      ensures querySize <= MAX_PAYLOAD
      ensures var flagged := !payloadIsPcap && DnssecSpread.Fires(old(dnsseccounter), dnssecRate);
              buffer[..querySize] == Prepared(pkt.order, bap, payloadIsPcap, flagged)
      ensures dnsseccounter == if payloadIsPcap then old(dnsseccounter)
                               else DnssecSpread.NextAccumulator(old(dnsseccounter), dnssecRate)
    {
      hide WithDnssec, SetAd, OptBytes;
      querySize := |bap|;
      if payloadIsPcap {
        querySize := querySize - PCAP_HEADER_SIZE;
        Poke(buffer, 0, bap[PCAP_HEADER_SIZE..]);
      } else {
        Poke(buffer, 0, bap);
        assert buffer[..querySize] == bap;
        dnsseccounter := dnsseccounter + dnssecRate;
        if dnsseccounter >= 100 {
          querySize := AddDnssecToQuery(pkt.order, buffer, querySize, UDP_PAYLOAD_SIZE);
          dnsseccounter := dnsseccounter - 100;
        }
      }
    }

    /** The spoofing branches of `sendPacket`; `useSourceFromPcap` runs with the checksums already
        marked stale by `setPayload`, and `ok` is false where it reads past the end of the entry. */
    method ChooseSource(bap: seq<byte>) returns (ok: bool)
      requires pkt.Valid() && !pkt.chksumValid && (spoofing.NoSpoofing? ==> pkt.View().src == sourceip)
      requires spoofing.FromNet? ==>
                 spoofing.size >= 1 && spoofing.start + spoofing.size <= 0x1_0000_0000
      modifies pkt`chksumValid, pkt.buffer
      ensures pkt.Valid() && !pkt.chksumValid && pkt.payloadSize == old(pkt.payloadSize)
      ensures ok <==> (spoofing.FromPcap? ==> |bap| >= SOURCE_FIELDS)
      ensures !ok ==> pkt.View() == old(pkt.View())
      ensures pkt.View() == old(pkt.View()).(src := pkt.View().src, sport := pkt.View().sport)
      ensures ok ==> SourceAllowed(pkt.View(), spoofing, sourceip, bap)
    {
      hide Layout, ChecksumsCurrent, Decode, WellFormed;
      match spoofing {
        case FromPcap =>
          ok := pkt.UseSourceFromPcap(bap);
        case FromNet(start, size) =>
          var address: nat :| start <= address < start + size;
          pkt.RandomSourceIP(address);
          var port: word :| port >= 1024;
          pkt.RandomSourcePort(port);
          ok := true;
        case NoSpoofing =>
          var port: word :| port >= 1024;
          pkt.RandomSourcePort(port);
          ok := true;
      }
    }

    /** The last part of `sendPacket`: what the socket answers goes into exactly one counter. */
    method Transmit() returns (ghost sent: Event)
      requires errorcodes.Length == ERROR_CODES && pkt.Valid() && host.Valid() && socket.host == host
      modifies this`packetsSend, this`errors, this`zeroBytes, this`bytesSend, errorcodes, host,
               pkt`chksumValid, pkt.buffer
      ensures pkt.Valid() && pkt.View() == old(pkt.View()) && host.Valid()
      ensures host.trace == old(host.trace) + [sent] && host.ns > old(host.ns)
      ensures sent.SendTo? && sent.packet == Wire(pkt.View()) && |sent.packet| == pkt.Size()
      ensures var whole := sent.n > 0 && sent.n == |sent.packet|;
              && packetsSend == old(packetsSend) + (if whole then 1 else 0)
              && errors == old(errors) + (if sent.n < 0 then 1 else 0)
              && zeroBytes == old(zeroBytes) + (if sent.n >= 0 && !whole then 1 else 0)
              && bytesSend == old(bytesSend) + (if whole then |sent.packet| else 0)
              && forall i :: 0 <= i < ERROR_CODES ==>
                   errorcodes[i]
                   == old(errorcodes[i]) + (if sent.n < 0 && sent.errno == i then 1 else 0)
    {
      hide ChecksumsCurrent, Rising, LastTime;
      assert |Wire(pkt.View())| == pkt.Size();
      hide Layout, Decode;
      var result, code := socket.Send(pkt);
      sent := SendTo(host.Seconds(), Wire(pkt.View()), result, code);
      hide Wire;
      if result > 0 && result == pkt.Size() {
        packetsSend := packetsSend + 1;
        bytesSend := bytesSend + pkt.Size();
      } else if result < 0 {
        if code < ERROR_CODES {
          errorcodes[code] := errorcodes[code] + 1;
        }
        errors := errors + 1;
      } else {
        zeroBytes := zeroBytes + 1;
      }
    }

    method SetQueryRate(qps: nat)
      modifies this`queryrate
      ensures queryrate == qps
    {
      queryrate := qps;
    }

    /** Milliseconds in, seconds stored; false where the source throws `InvalidArguments`. */
    method SetTimeslice(ms: real) returns (ok: bool)
      modifies this`timeslice
      ensures ok <==> ms != 0.0 && ms <= 1000.0
      ensures timeslice == if ok then ms / 1000.0 else old(timeslice)
    {
      if ms == 0.0 || ms > 1000.0 {
        return false;
      }
      timeslice := ms / 1000.0;
      return true;
    }

    // The run loops.

    /** The record `log` of a loop that began after `base`: packets, counters and the loop's rule. */
    ghost predicate Recorded(aim: Aim, rule: Rule, base: seq<Event>)
      reads this, pkt, pkt.buffer, payload, host, errorcodes
    {
      && Valid() && Counting() && CurrentAim() == aim
      && host.trace == base + log && Follows(rule, log)
    }

    ghost predicate OnTrack(aim: Aim, rule: Rule, base: seq<Event>)
      reads this, pkt, pkt.buffer, payload, host, errorcodes
    {
      Recorded(aim, rule, base) && InStep()
    }

    lemma RecordFollows(aim: Aim, rule: Rule, base: seq<Event>)
      requires Recorded(aim, rule, base)
      ensures Follows(rule, log)
    {
    }

    /** One call of `sendPacket` from the run loops. Other threads may have moved the shared cursor
        since the last one. */
    method SendNext(ghost aim: Aim, ghost rule: Rule, ghost base: seq<Event>) returns (ok: bool)
      requires OnTrack(aim, rule, base) && NextCall(rule, log).ReadTimeOfDay?
      modifies this`dnsseccounter, this`packetsSend, this`errors, this`zeroBytes, this`bytesSend,
               this`log, buffer, errorcodes, pkt, pkt.buffer, payload`it, host
      ensures Recorded(aim, rule, base)
      ensures ok ==> OnTrack(aim, rule, base)
      ensures ok ==> Sends(log) == Sends(old(log)) + 1 && log != [] && Last(log).SendTo?
      ensures ok && rule.WithRate? ==>
                && SlicesDone(rule.plan, log) == SlicesDone(rule.plan, old(log))
                && LastLook(log, rule.plan.start) == LastLook(old(log), rule.plan.start)
                && !CheckDue(rule.plan, log)
      ensures !ok ==> log == old(log) && aim.SomeWithoutSource()
      ensures host.ns >= old(host.ns) && (ok ==> host.ns > old(host.ns))
    {
      hide Layout, ChecksumsCurrent, Decode, Wire, Carries, Follows, NextCall, CheckDue, SlicesDone,
           AllGood, TallyOf, CodesOf, DnssecSpread.AccumulatorAfter, Sends, Rising, LastTime, LastNsec,
           LastLook;
      payload.OtherThreads();
      ghost var entry, asked, sent;
      ok, entry, asked, sent := SendPacket();
      if ok {
        PacketFollows(rule, old(log), asked, sent);
        assert base + old(log) + [asked, sent] == base + (old(log) + [asked, sent]);
      } else {
        assert entry in aim.cache;
      }
    }

    /** The inner loop of one timeslice. */
    method SendSlice(quota: nat, ghost aim: Aim, ghost p: Plan, ghost base: seq<Event>, ghost z: nat)
      returns (ok: bool)
      requires OnTrack(aim, WithRate(p), base) && z < p.slices
      requires Stands(p, log, z, SentAfter(p.total, p.slices, z))
      requires quota == SliceAt(p.total, p.slices, z)
      modifies this`dnsseccounter, this`packetsSend, this`errors, this`zeroBytes, this`bytesSend,
               this`log, buffer, errorcodes, pkt, pkt.buffer, payload`it, host
      ensures ok ==> OnTrack(aim, WithRate(p), base)
      ensures ok ==> Stands(p, log, z, SentAfter(p.total, p.slices, z + 1))
      ensures ok ==> LastLook(log, p.start) == LastLook(old(log), p.start)
      ensures !ok ==> Recorded(aim, WithRate(p), base) && WholeLoop(WithRate(p), log, Overread)
                      && aim.SomeWithoutSource()
    {
      hide DNSSenderThread.Recorded, DNSSenderThread.InStep, Follows, NextCall, CheckDue, SlicesDone,
           Sends, LastNsec, LastLook, SliceAt, SentAfter;
      RestStep(p.total, p.slices, z);
      for i := 0 to quota
        invariant OnTrack(aim, WithRate(p), base)
        invariant Stands(p, log, z, SentAfter(p.total, p.slices, z) + i)
        invariant LastLook(log, p.start) == LastLook(old(log), p.start)
      {
        NextFrom(p, log, z, SentAfter(p.total, p.slices, z) + i);
        var sent := SendNext(aim, WithRate(p), base);
        if !sent {
          RecordFollows(aim, WithRate(p), base);
          return false;
        }
      }
      return true;
    }

    /** One reading of the clock in the wait at the end of a timeslice. */
    method ReadNsec(ghost aim: Aim, ghost p: Plan, ghost base: seq<Event>) returns (now: real)
      requires OnTrack(aim, WithRate(p), base) && NextCall(WithRate(p), log).ReadNsec?
      modifies this`log, host
      ensures OnTrack(aim, WithRate(p), base)
      ensures log == old(log) + [Nsec(now)] && now == host.Seconds() && host.ns > old(host.ns)
      ensures Sends(log) == Sends(old(log))
      ensures LastLook(log, p.start) == LastLook(old(log), p.start)
    {
      hide Layout, ChecksumsCurrent, Decode, AllGood, TallyOf, CodesOf, DnssecSpread.AccumulatorAfter,
           Sends, Rising, LastTime, LastNsec, LastLook, Follows, NextCall;
      now := host.GetNsec();
      log := log + [Nsec(now)];
      EventRecorded(aim, WithRate(p), old(log), Nsec(now));
      assert base + old(log) + [Nsec(now)] == base + log;
    }

    /** The wait at the end of slice `z`; each sleep, however short it is cut, lets time pass. */
    method WaitUntil(nextTimeslice: real, ghost aim: Aim, ghost p: Plan, ghost base: seq<Event>,
                     ghost z: nat) returns (now: real)
      requires OnTrack(aim, WithRate(p), base) && z < p.slices
      requires Stands(p, log, z, SentAfter(p.total, p.slices, z + 1))
      requires nextTimeslice == Deadline(p.start, p.slice, z + 1)
      modifies this`log, host
      ensures OnTrack(aim, WithRate(p), base)
      ensures now >= nextTimeslice && old(log) < log && Last(log) == Nsec(now)
      ensures forall i :: |old(log)| <= i < |log| - 1 ==> log[i].Nsec? && log[i].time < nextTimeslice
      ensures SlicesDone(p, log) == z + 1 && Sends(log) == SentAfter(p.total, p.slices, z + 1)
      ensures LastLook(log, p.start) == LastLook(old(log), p.start)
      ensures CheckDue(p, log) <==> now > LastLook(log, p.start) + CHECK_INTERVAL
    {
      hide DNSSenderThread.OnTrack, NextCall, CheckDue, SlicesDone, LastNsec, LastLook, Sends,
           SentAfter, Deadline;
      NextFrom(p, log, z, SentAfter(p.total, p.slices, z + 1));
      ghost var before := log;
      now := ReadNsec(aim, p, base);
      OneMoreReading(p, before, Nsec(now));
      while now < nextTimeslice
        invariant OnTrack(aim, WithRate(p), base) && now == host.Seconds()
        invariant old(log) < log && Last(log) == Nsec(now)
        invariant forall i :: |old(log)| <= i < |log| - 1 ==> log[i].Nsec? && log[i].time < nextTimeslice
        invariant now < nextTimeslice ==> Stands(p, log, z, SentAfter(p.total, p.slices, z + 1))
        invariant now >= nextTimeslice ==> SlicesDone(p, log) == z + 1
        invariant Sends(log) == SentAfter(p.total, p.slices, z + 1)
        invariant LastLook(log, p.start) == LastLook(old(log), p.start)
        invariant CheckDue(p, log) <==>
                    now >= nextTimeslice && now > LastLook(log, p.start) + CHECK_INTERVAL
        decreases (nextTimeslice * NANOS).Floor - host.ns
      {
        NextFrom(p, log, z, SentAfter(p.total, p.slices, z + 1));
        before := log;
        now := ReadNsec(aim, p, base);
        OneMoreReading(p, before, Nsec(now));
      }
    }

    /** A look at the stop flag. */
    method AskStop(ghost aim: Aim, ghost rule: Rule, ghost base: seq<Event>) returns (stop: bool)
      requires OnTrack(aim, rule, base) && NextCall(rule, log).AskStop?
      modifies this`log, host
      ensures OnTrack(aim, rule, base)
      ensures log == old(log) + [StopAsked(stop)] && host.ns == old(host.ns)
      ensures Sends(log) == Sends(old(log))
      ensures forall start :: LastLook(log, start) == LastTime(old(log), start)
    {
      hide Layout, ChecksumsCurrent, Decode, AllGood, TallyOf, CodesOf, DnssecSpread.AccumulatorAfter,
           Sends, Rising, LastTime, LastNsec, LastLook, Follows, NextCall;
      stop := host.ThreadShouldStop();
      log := log + [StopAsked(stop)];
      EventRecorded(aim, rule, old(log), StopAsked(stop));
      assert base + old(log) + [StopAsked(stop)] == base + log;
    }

    /** A look at the time. */
    method ReadMicrotime(ghost aim: Aim, ghost rule: Rule, ghost base: seq<Event>) returns (now: real)
      requires OnTrack(aim, rule, base) && NextCall(rule, log).ReadMicrotime?
      modifies this`log, host
      ensures OnTrack(aim, rule, base)
      ensures log == old(log) + [Microtime(now)] && now == host.Seconds() && host.ns > old(host.ns)
      ensures Sends(log) == Sends(old(log))
      ensures forall start :: LastLook(log, start) == LastLook(old(log), start)
    {
      hide Layout, ChecksumsCurrent, Decode, AllGood, TallyOf, CodesOf, DnssecSpread.AccumulatorAfter,
           Sends, Rising, LastTime, LastNsec, LastLook, Follows, NextCall;
      now := host.GetMicrotime();
      log := log + [Microtime(now)];
      EventRecorded(aim, rule, old(log), Microtime(now));
      assert base + old(log) + [Microtime(now)] == base + log;
    }

    /** The check after a timeslice, at most every tenth of a second; `Completed` means go on. A raised
        flag ends the run, and so does the end of the runtime. */
    method CheckEnd(now: real, nextChecktime: real, end: real, ghost aim: Aim, ghost p: Plan,
                    ghost base: seq<Event>) returns (next: real, ending: Ending)
      requires OnTrack(aim, WithRate(p), base) && end == p.end
      requires log != [] && Last(log) == Nsec(now)
      requires nextChecktime == LastLook(log, p.start) + CHECK_INTERVAL
      requires CheckDue(p, log) <==> now > nextChecktime
      modifies this`log, host
      ensures OnTrack(aim, WithRate(p), base)
      ensures log == old(log) + (if now <= nextChecktime then []
                                 else if ending.Asked? then [StopAsked(true)]
                                 else [StopAsked(false), Microtime(host.Seconds())])
      ensures if ending.Completed? then Stands(p, log, SlicesDone(p, old(log)), Sends(old(log)))
              else WholeLoop(WithRate(p), log, ending) && !ending.Overread?
      ensures next == LastLook(log, p.start) + CHECK_INTERVAL
      ensures SlicesDone(p, log) == SlicesDone(p, old(log)) && Sends(log) == Sends(old(log))
    {
      hide DNSSenderThread.Recorded, DNSSenderThread.InStep, Follows, Sends, SlicesDone, LastLook,
           CheckDue;
      next, ending := nextChecktime, Completed;
      assert log == old(log) + [];
      if now > nextChecktime {
        next := now + CHECK_INTERVAL;
        var shouldStop := AskStop(aim, WithRate(p), base);
        OneMoreReading(p, old(log), StopAsked(shouldStop));
        if shouldStop {
          RecordFollows(aim, WithRate(p), base);
          return next, Asked;
        }
        ghost var asked := log;
        var current := ReadMicrotime(aim, WithRate(p), base);
        OneMoreReading(p, asked, Microtime(current));
        assert log == old(log) + [StopAsked(false), Microtime(current)];
        if current >= end {
          RecordFollows(aim, WithRate(p), base);
          ending := TimeUp;
        }
      }
    }

    /** The loop over the timeslices, entered with the variables as `RunWithRateLimit` sets them up. */
    method PacedLoop(begin: real, end: real, queries: nat, totalTimeslices: nat,
                     ghost aim: Aim, ghost p: Plan, ghost base: seq<Event>) returns (ending: Ending)
      requires OnTrack(aim, WithRate(p), base) && log == []
      requires p == Plan(queries, totalTimeslices, timeslice, begin, end)
      modifies this`dnsseccounter, this`packetsSend, this`errors, this`zeroBytes, this`bytesSend,
               this`log, buffer, errorcodes, pkt, pkt.buffer, payload`it, host
      ensures Recorded(aim, WithRate(p), base) && WholeLoop(WithRate(p), log, ending)
      ensures ending.Overread? ==> aim.SomeWithoutSource()
    {
      hide DNSSenderThread.Recorded, DNSSenderThread.InStep, NextCall, CheckDue, SlicesDone, LastLook,
           Follows, Sends, Stands, SentAfter, RestAfter, SliceQuota, SliceAt, Deadline, EndingOf;
      var nextTimeslice, nextChecktime := begin, begin + CHECK_INTERVAL;
      var queriesRest := queries;
      ending := Completed;
      NextDeadline(begin, timeslice, 0);
      NothingSent(queries, totalTimeslices);
      AtStart(p);
      var z := 0;
      while z < totalTimeslices
        invariant z <= totalTimeslices && ending == Completed
        invariant OnTrack(aim, WithRate(p), base)
        invariant Stands(p, log, z, SentAfter(queries, totalTimeslices, z))
        invariant queriesRest == RestAfter(queries, totalTimeslices, z)
        invariant nextTimeslice == Deadline(begin, timeslice, z)
        invariant nextChecktime == LastLook(log, begin) + CHECK_INTERVAL
      {
        NextDeadline(begin, timeslice, z);
        RestStep(queries, totalTimeslices, z);
        nextTimeslice := nextTimeslice + timeslice;
        var quota := SliceQuota(queriesRest, totalTimeslices - z);
        var ok := SendSlice(quota, aim, p, base, z);
        if !ok {
          return Overread;
        }
        queriesRest := queriesRest - quota;
        var now := WaitUntil(nextTimeslice, aim, p, base, z);
        nextChecktime, ending := CheckEnd(now, nextChecktime, end, aim, p, base);
        if ending != Completed {
          return;
        }
        z := z + 1;
      }
      NextFrom(p, log, z, SentAfter(queries, totalTimeslices, z));
      RecordFollows(aim, WithRate(p), base);
    }

    /** The paced loop, for any number of timeslices: its calls are, one by one, those of the rule, and
        it ends when and as the rule says. */
    method RunWithRateLimit(totalTimeslices: nat) returns (ghost events: seq<Event>, ending: Ending)
      requires Valid() && Counting() && InStep() && log == []
      modifies this`dnsseccounter, this`packetsSend, this`errors, this`zeroBytes, this`bytesSend,
               this`log, buffer, errorcodes, pkt, pkt.buffer, payload`it, host
      ensures Valid() && Counting() && CurrentAim() == old(CurrentAim())
      ensures host.trace == old(host.trace) + events
      ensures PacedRun(events, Quota(runtime, queryrate), totalTimeslices, timeslice, runtime, ending)
      ensures events[2..] == log
      ensures ending.Overread? ==> CurrentAim().SomeWithoutSource()
    {
      hide Layout, ChecksumsCurrent, Decode, AllGood, TallyOf, CodesOf, DnssecSpread.AccumulatorAfter,
           Rising, LastTime, LastNsec, LastLook, NextCall, Quota;
      ghost var aim := CurrentAim();
      var queriesRest := Quota(runtime, queryrate);
      var now := host.GetNsec();
      var began := host.GetMicrotime();
      var end := began + runtime as real;
      ghost var p := Plan(queriesRest, totalTimeslices, timeslice, now, end);
      ghost var base := host.trace;
      assert base == base + log;
      ending := PacedLoop(now, end, queriesRest, totalTimeslices, aim, p, base);
      events := [Nsec(now), Microtime(began)] + log;
      assert base == old(host.trace) + [Nsec(now), Microtime(began)];
      assert base + log == old(host.trace) + events;
      RisingAfterTwo(old(host.trace), now, began, log);
    }

    /** The loop without a rate: it looks at the clock and the stop flag after every 10001 packets
        and at no other time. */
    method RunWithoutRateLimit() returns (ghost events: seq<Event>, ending: Ending)
      requires Valid() && Counting() && InStep() && log == []
      modifies this`dnsseccounter, this`packetsSend, this`errors, this`zeroBytes, this`bytesSend,
               this`log, buffer, errorcodes, pkt, pkt.buffer, payload`it, host
      ensures Valid() && Counting() && CurrentAim() == old(CurrentAim())
      ensures host.trace == old(host.trace) + events
      ensures UnpacedRun(events, runtime, ending) && events[1..] == log
      ensures ending.TimeUp? ==>
                Last(events).Microtime? && Last(events).time > events[0].time + runtime as real
      ensures forall i :: 0 < i < |events| - 1 && events[i].Microtime? ==>
                events[i].time <= events[0].time + runtime as real
      ensures forall i :: 0 < i < |events| - 1 ==> events[i] != StopAsked(true)
      ensures ending.Overread? ==> CurrentAim().SomeWithoutSource()
    {
      hide Layout, ChecksumsCurrent, Decode, AllGood, TallyOf, CodesOf, DnssecSpread.AccumulatorAfter,
           Rising, LastTime, LastNsec, LastLook, NextCall;
      ghost var aim := CurrentAim();
      var start := host.GetMicrotime();
      var end := start + runtime as real;
      ghost var base := host.trace;
      assert base == base + log;
      ending := UnpacedLoop(end, aim, base);
      events := [Microtime(start)] + log;
      assert base + log == old(host.trace) + events;
      RisingAfterOne(old(host.trace), start, log);
      UnpacedEnds(events, runtime, ending);
      forall i | 0 < i < |events|
        ensures events[i] == log[i - 1]
      {
      }
    }

    method UnpacedLoop(end: real, ghost aim: Aim, ghost base: seq<Event>) returns (ending: Ending)
      requires OnTrack(aim, WithoutRate(end), base) && log == []
      modifies this`dnsseccounter, this`packetsSend, this`errors, this`zeroBytes, this`bytesSend,
               this`log, buffer, errorcodes, pkt, pkt.buffer, payload`it, host
      ensures Recorded(aim, WithoutRate(end), base) && WholeLoop(WithoutRate(end), log, ending)
      ensures ending.Overread? ==> aim.SomeWithoutSource()
    {
      hide DNSSenderThread.Recorded, DNSSenderThread.InStep, LastLook, Follows;
      ghost var limit := (end * NANOS).Floor + 1;
      ghost var batches := 0;
      var pc := 0;
      while true
        invariant OnTrack(aim, WithoutRate(end), base) && NextCall(WithoutRate(end), log).ReadTimeOfDay?
        invariant 0 <= pc <= 10000 && Sends(log) == BATCH * batches + pc
        decreases if host.ns < limit then limit - host.ns else 0, 10001 - pc
      {
        hide Sends;
        var sent := SendNext(aim, WithoutRate(end), base);
        RecordFollows(aim, WithoutRate(end), base);
        if !sent {
          return Overread;
        }
        pc := pc + 1;
        if pc > 10000 {
          pc, batches := 0, batches + 1;
          PlaceInBatch(Sends(log), batches, 0);
          var shouldStop := AskStop(aim, WithoutRate(end), base);
          RecordFollows(aim, WithoutRate(end), base);
          if shouldStop {
            return Asked;
          }
          var now := ReadMicrotime(aim, WithoutRate(end), base);
          RecordFollows(aim, WithoutRate(end), base);
          if now > end {
            return TimeUp;
          }
        } else {
          PlaceInBatch(Sends(log), batches, pc);
        }
      }
    }

    /** Resets all that `run` resets. */
    method ResetCounters()
      requires Valid()
      modifies this`dnsseccounter, this`packetsSend, this`errors, this`zeroBytes, this`bytesSend,
               this`duration, this`log, errorcodes
      ensures Valid() && Counting() && log == [] && duration == 0.0
      ensures CurrentAim() == old(CurrentAim())
      ensures dnsseccounter == packetsSend == errors == zeroBytes == bytesSend == 0
      ensures forall i :: 0 <= i < ERROR_CODES ==> errorcodes[i] == 0
    {
      hide Layout, ChecksumsCurrent, Decode, Rising, LastTime, TallyOf, CodesOf, AllGood, Sized;
      ghost var aim := CurrentAim();
      dnsseccounter, packetsSend, bytesSend, zeroBytes, errors := 0, 0, 0, 0, 0;
      duration := 0.0;
      log := [];
      ClearCodes();
      NothingCounted(aim);
    }

    method ClearCodes()
      requires errorcodes.Length == ERROR_CODES
      modifies errorcodes
      ensures forall i :: 0 <= i < ERROR_CODES ==> errorcodes[i] == 0
    {
      for i := 0 to ERROR_CODES
        invariant forall j :: 0 <= j < i ==> errorcodes[j] == 0
      {
        errorcodes[i] := 0;
      }
    }

    /** The final wait for late answers: it ends on a reading not before the timeout, or when a check,
        at most every tenth of a second, finds the stop flag raised. */
    method WaitForTimeout() returns (ghost start: real, ghost waited: seq<Event>, ghost ending: Ending)
      requires host.Valid()
      modifies host
      ensures host.Valid() && host.trace == old(host.trace) + [Microtime(start)] + waited
      ensures WholeLoop(Waiting(start, start + timeout as real), waited, ending)
      ensures ending.Asked? || ending.TimeUp?
    {
      hide Rising, Follows, LastLook, Sends, SendTimes, LastNsec, SlicesDone, CheckDue;
      var begin := host.GetMicrotime();
      start := begin;
      var end := begin + timeout as real;
      ghost var rule := Waiting(begin, end);
      var nextChecktime := begin + CHECK_INTERVAL;
      assert host.trace == old(host.trace) + [Microtime(start)] + [];
      NothingFollows(rule);
      var now := host.GetMicrotime();
      waited, ending := [] + [Microtime(now)], TimeUp;
      OneMoreEvent([], Microtime(now));
      while now < end
        invariant host.Valid() && now == host.Seconds()
        invariant host.trace == old(host.trace) + [Microtime(start)] + waited
        invariant Follows(rule, waited) && waited != [] && Last(waited) == Microtime(now)
        invariant nextChecktime == LastLook(waited, begin) + CHECK_INTERVAL
        decreases (end * NANOS).Floor - host.ns
      {
        if now > nextChecktime {
          nextChecktime := now + CHECK_INTERVAL;
          var shouldStop := host.ThreadShouldStop();
          OneMoreEvent(waited, StopAsked(shouldStop));
          waited := waited + [StopAsked(shouldStop)];
          if shouldStop {
            ending := Asked;
            break;
          }
        }
        now := host.GetMicrotime();
        OneMoreEvent(waited, Microtime(now));
        waited := waited + [Microtime(now)];
      }
    }

    /** How the loop of a run went, with or without a rate. */
    ghost predicate LoopWent(loop: seq<Event>, ending: Ending)
      requires queryrate > 0 ==> timeslice > 0.0
      reads this
    {
      if queryrate > 0 then
        var slices := TotalTimeslices(runtime, timeslice);
        && slices >= 1
        && PacedRun(loop, Quota(runtime, queryrate), slices, timeslice, runtime, ending)
        && loop[2..] == log
      else UnpacedRun(loop, runtime, ending) && loop[1..] == log
    }

    /** One run of the thread. `loop` is what the host answered within the loop, and `after` what it
        answered in the final wait, which does not take place after a read that went wrong. */
    method Run() returns (ghost start: real, ghost loop: seq<Event>, ghost after: seq<Event>,
                          ending: Ending)
      requires Valid() && runtime >= 1
      requires queryrate > 0 ==> 0.0 < timeslice <= 1.0
      modifies this`dnsseccounter, this`packetsSend, this`errors, this`zeroBytes, this`bytesSend,
               this`duration, this`log, buffer, errorcodes, pkt, pkt.buffer, payload`it, host
      ensures Valid() && Counting() && CurrentAim() == old(CurrentAim()) && Total() == Sends(log)
      ensures host.trace == old(host.trace) + [Microtime(start)] + loop + after
      ensures LoopWent(loop, ending)
      ensures ending.Overread? ==> after == [] && CurrentAim().SomeWithoutSource()
      ensures !ending.Overread? ==> FinalWait(after, timeout) && duration == after[0].time - start
    {
      hide DNSSenderThread.Valid, DNSSenderThread.Counting, DNSSenderThread.InStep,
           DNSSenderThread.CurrentAim, PacedRun, UnpacedRun, FinalWait, Sends;
      Prepare();
      var begin := ReadClock();
      start := begin;
      loop, ending := RunLoop();
      after := [];
      if ending.Overread? {
        assert host.trace == old(host.trace) + [Microtime(start)] + loop + after;
        return;
      }
      after := Finish(begin);
    }

    /** What `run` does before its loop. */
    method Prepare()
      requires Valid()
      modifies this`dnsseccounter, this`packetsSend, this`errors, this`zeroBytes, this`bytesSend,
               this`duration, this`log, errorcodes, pkt, pkt.buffer
      ensures Valid() && Counting() && InStep() && log == []
      ensures CurrentAim() == old(CurrentAim())
    {
      hide Layout, ChecksumsCurrent, Decode, AllGood, TallyOf, CodesOf, Rising, LastTime;
      if spoofing.NoSpoofing? {
        pkt.SetSource(sourceip, 0x4567);
      }
      ResetCounters();
    }

    /** A reading of the clock outside the loops. */
    method ReadClock() returns (now: real)
      requires Valid() && Counting()
      modifies host
      ensures Valid() && Counting() && CurrentAim() == old(CurrentAim())
      ensures old(InStep()) ==> InStep()
      ensures host.trace == old(host.trace) + [Microtime(now)]
    {
      hide Layout, ChecksumsCurrent, Decode, AllGood, TallyOf, CodesOf, Rising, LastTime;
      now := host.GetMicrotime();
    }

    method RunLoop() returns (ghost loop: seq<Event>, ending: Ending)
      requires Valid() && Counting() && InStep() && log == [] && runtime >= 1
      requires queryrate > 0 ==> 0.0 < timeslice <= 1.0
      modifies this`dnsseccounter, this`packetsSend, this`errors, this`zeroBytes, this`bytesSend,
               this`log, buffer, errorcodes, pkt, pkt.buffer, payload`it, host
      ensures Valid() && Counting() && CurrentAim() == old(CurrentAim()) && Total() == Sends(log)
      ensures host.trace == old(host.trace) + loop && LoopWent(loop, ending)
      ensures ending.Overread? ==> CurrentAim().SomeWithoutSource()
    {
      hide DNSSenderThread.Valid, DNSSenderThread.InStep, DNSSenderThread.CurrentAim, AllGood, CodesOf,
           TallyOf, PacedRun, UnpacedRun, Quota, TotalTimeslices;
      if queryrate > 0 {
        AtLeastOneSlice(runtime, timeslice);
        loop, ending := RunWithRateLimit(TotalTimeslices(runtime, timeslice));
      } else {
        loop, ending := RunWithoutRateLimit();
      }
      TallyIsSends(log);
    }

    /** The duration, and the final wait. */
    method Finish(begin: real) returns (ghost after: seq<Event>)
      requires Valid() && Counting()
      modifies this`duration, host
      ensures Valid() && Counting() && CurrentAim() == old(CurrentAim())
      ensures host.trace == old(host.trace) + after
      ensures FinalWait(after, timeout) && duration == after[0].time - begin
    {
      hide Layout, ChecksumsCurrent, Decode, AllGood, TallyOf, CodesOf, Rising, LastTime, WholeLoop;
      var finish := host.GetMicrotime();
      duration := finish - begin;
      ghost var start, waited, verdict := WaitForTimeout();
      after := [Microtime(finish), Microtime(start)] + waited;
      assert after[2..] == waited;
      assert host.trace == old(host.trace) + after;
      RisingAfterOne(old(host.trace) + [Microtime(finish)], start, waited);
    }
  }

  lemma NothingCounted(aim: Aim)
    ensures TallyOf([]) == Tally(0, 0, 0, 0) && AllGood(aim, [])
    ensures forall c :: CodesOf([], c) == 0
  {
  }

  lemma PlaceInBatch(n: nat, batches: nat, pc: nat)
    requires n == BATCH * batches + pc && pc < BATCH
    ensures n % BATCH == pc
  {
  }

  lemma NothingFollows(rule: Rule)
    ensures Follows(rule, [])
    ensures forall start :: LastLook([], start) == start
  {
  }

  lemma RisingAfterTwo(before: seq<Event>, start: real, began: real, es: seq<Event>)
    requires Rising(before + [Nsec(start), Microtime(began)] + es, 0.0)
    ensures start < began && Rising(es, began)
  {
    var two := before + [Nsec(start), Microtime(began)];
    assert two == before + [Nsec(start)] + [Microtime(began)];
    RisingSuffix(two, es, 0.0);
    OneMoreRising(before + [Nsec(start)], Microtime(began), 0.0);
    OneMoreRising(before, Nsec(start), 0.0);
  }

  lemma RisingAfterOne(before: seq<Event>, start: real, es: seq<Event>)
    requires Rising(before + [Microtime(start)] + es, 0.0)
    ensures Rising(es, start)
  {
    RisingSuffix(before + [Microtime(start)], es, 0.0);
    OneMoreRising(before, Microtime(start), 0.0);
  }

  /** Takes the host's last answer into the record. */
  lemma EventRecorded(aim: Aim, rule: Rule, es: seq<Event>, e: Event)
    requires Follows(rule, es) && CallOf(e) == NextCall(rule, es) && !e.SendTo?
    ensures Follows(rule, es + [e]) && TallyOf(es + [e]) == TallyOf(es) && Sends(es + [e]) == Sends(es)
    ensures forall c :: CodesOf(es + [e], c) == CodesOf(es, c)
    ensures AllGood(aim, es + [e]) <==> AllGood(aim, es)
    ensures forall start :: LastLook(es + [e], start)
                            == if e.StopAsked? then LastTime(es, start) else LastLook(es, start)
  {
    hide Follows, NextCall, TallyOf, CodesOf, AllGood, Sends, LastNsec, LastLook;
    OneMoreEvent(es, e);
    OneMoreCounted(es, e);
    OneMoreGood(aim, es, e);
  }

  lemma PacketCounted(log: seq<Event>, asked: Event, sent: Event)
    requires asked.TimeOfDay? && sent.SendTo?
    ensures var t, whole := TallyOf(log), sent.n > 0 && sent.n == |sent.packet|;
            TallyOf(log + [asked, sent]) == Tally(t.sent + (if whole then 1 else 0),
                                                  t.errors + (if sent.n < 0 then 1 else 0),
                                                  t.zero + (if sent.n >= 0 && !whole then 1 else 0),
                                                  t.bytes + (if whole then |sent.packet| else 0))
    ensures forall c :: CodesOf(log + [asked, sent], c)
                        == CodesOf(log, c) + (if sent.n < 0 && sent.errno == c then 1 else 0)
    ensures Sends(log + [asked, sent]) == Sends(log) + 1
  {
    hide TallyOf, CodesOf, Sends, Follows;
    assert log + [asked, sent] == (log + [asked]) + [sent];
    OneMoreCounted(log, asked);
    OneMoreCounted(log + [asked], sent);
    OneMoreEvent(log, asked);
    OneMoreEvent(log + [asked], sent);
  }

  lemma PacketRecorded(aim: Aim, log: seq<Event>, asked: Event, sent: Event, d: Datagram,
                       entry: seq<byte>)
    requires asked.TimeOfDay? && sent.SendTo? && WellFormed(d) && sent.packet == Wire(d)
    requires AllGood(aim, log) && Carries(aim, d, entry, aim.Due(Sends(log)), asked.tp)
    ensures AllGood(aim, log + [asked, sent])
  {
    hide AllGood, Sends, Carries, GoodPacket, Wire, WellFormed, DnssecSpread.AccumulatorAfter;
    assert log + [asked, sent] == (log + [asked]) + [sent];
    OneMoreEvent(log, asked);
    OneMoreGood(aim, log, asked);
    PacketIsGood(aim, d, entry, aim.Due(Sends(log)), asked.tp);
    OneMoreGood(aim, log + [asked], sent);
  }
}
