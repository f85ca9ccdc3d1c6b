/** What a sender thread meets outside its own code: a clock, the stop flag and a raw socket. All may
    answer anything their contracts allow; every answer is recorded in the order it was given. */
module Environment {
  import opened Bytes
  import opened Datagram
  import opened PacketBuffer
  import opened Query

  const NANOS := 1_000_000_000.0

  /** One call and its answer: `getNsec`, `GetMicrotime`, `gettimeofday` (`None` when it fails),
      `threadShouldStop`, and `sendto` with the bytes handed over, its result and `errno`. */
  datatype Event =
    | Nsec(time: real)
    | Microtime(time: real)
    | TimeOfDay(time: real, tp: Option<TimeVal>)
    | StopAsked(raised: bool)
    | SendTo(time: real, packet: seq<byte>, n: int, errno: nat)

  /** When the last of some events happened, of those that have a time. */
  function LastTime(es: seq<Event>, base: real): real {
    if es == [] then base
    else
      var e := es[|es| - 1];
      if e.StopAsked? then LastTime(es[..|es| - 1], base) else e.time
  }

  /** Each event is later than all before it, and than `base`. */
  predicate Rising(es: seq<Event>, base: real) {
    es == [] ||
    (var front, e := es[..|es| - 1], es[|es| - 1];
     Rising(front, base) && (!e.StopAsked? ==> e.time > LastTime(front, base)))
  }

  lemma OneMoreRising(es: seq<Event>, e: Event, base: real)
    ensures Rising(es + [e], base) <==>
            Rising(es, base) && (!e.StopAsked? ==> e.time > LastTime(es, base))
    ensures LastTime(es + [e], base) == if e.StopAsked? then LastTime(es, base) else e.time
  {
    assert (es + [e])[..|es|] == es;
  }

  /** The system as one thread sees it. One monotone clock stands behind `clock_gettime`,
      `gettimeofday` and `GetMicrotime`; every call takes at least a nanosecond. The stop flag may be
      raised at any time, and stays raised. */
  class Host {
    var ns: nat
    var stopRaised: bool
    ghost var trace: seq<Event>

    ghost predicate Valid()
      reads this
    {
      Rising(trace, 0.0) && LastTime(trace, 0.0) <= Seconds()
    }

    constructor ()
      ensures Valid() && trace == []
    {
      ns, stopRaised := 0, false;
      trace := [];
    }

    function Seconds(): real
      reads this
    {
      ns as real / NANOS
    }

    method Advance()
      modifies this`ns
      ensures ns > old(ns) && Seconds() > old(Seconds())
    {
      var d: nat :| d >= 1;
      ns := ns + d;
    }

    method GetNsec() returns (t: real)
      requires Valid()
      modifies this
      ensures Valid() && trace == old(trace) + [Nsec(t)]
      ensures ns > old(ns) && t == Seconds() > old(Seconds())
    {
      Advance();
      t := Seconds();
      trace := trace + [Nsec(t)];
      OneMoreRising(old(trace), Nsec(t), 0.0);
    }

    method GetMicrotime() returns (t: real)
      requires Valid()
      modifies this
      ensures Valid() && trace == old(trace) + [Microtime(t)]
      ensures ns > old(ns) && t == Seconds() > old(Seconds())
    {
      Advance();
      t := Seconds();
      trace := trace + [Microtime(t)];
      OneMoreRising(old(trace), Microtime(t), 0.0);
    }

    method GetTimeOfDay() returns (tp: Option<TimeVal>)
      requires Valid()
      modifies this
      ensures Valid() && trace == old(trace) + [TimeOfDay(Seconds(), tp)]
      ensures ns > old(ns) && Seconds() > old(Seconds())
      ensures tp.Some? ==> IsReading(tp.value) && Micros(tp.value) == ns / 1000
    {
      Advance();
      var fails: bool := *;
      tp := if fails then None else Some(TimeVal(ns / 1000 / 1_000_000, ns / 1000 % 1_000_000));
      trace := trace + [TimeOfDay(Seconds(), tp)];
      OneMoreRising(old(trace), TimeOfDay(Seconds(), tp), 0.0);
    }

    method ThreadShouldStop() returns (stop: bool)
      requires Valid()
      modifies this
      ensures Valid() && trace == old(trace) + [StopAsked(stop)]
      ensures ns == old(ns) && stop == stopRaised && (old(stopRaised) ==> stopRaised)
    {
      var now: bool := *;
      stopRaised := stopRaised || now;
      stop := stopRaised;
      trace := trace + [StopAsked(stop)];
      OneMoreRising(old(trace), StopAsked(stop), 0.0);
    }

    method SendTo(packet: seq<byte>) returns (n: int, errno: nat)
      requires Valid()
      modifies this
      ensures Valid() && trace == old(trace) + [Event.SendTo(Seconds(), packet, n, errno)]
      ensures ns > old(ns) && Seconds() > old(Seconds())
    {
      Advance();
      n := *;
      errno :| errno >= 0;
      trace := trace + [Event.SendTo(Seconds(), packet, n, errno)];
      OneMoreRising(old(trace), Event.SendTo(Seconds(), packet, n, errno), 0.0);
    }
  }

  /** src/raw_socket_sender.cpp */
  class RawSocketSender {
    const host: Host

    constructor (host: Host)
      ensures this.host == host
    {
      this.host := host;
    }

    /** Hands the packet's datagram, as it is on the wire, to `sendto`, and passes its answer on. */
    method Send(pkt: Packet) returns (n: int, errno: nat)
      requires pkt.Valid() && host.Valid()
      modifies host, pkt`chksumValid, pkt.buffer
      ensures pkt.Valid() && pkt.View() == old(pkt.View()) && host.Valid()
      ensures host.trace == old(host.trace) + [SendTo(host.Seconds(), Wire(pkt.View()), n, errno)]
      ensures host.ns > old(host.ns) && host.Seconds() > old(host.Seconds())
    {
      hide Rising, LastTime, ChecksumsCurrent, Decode;
      var p := pkt.Ptr();
      n, errno := host.SendTo(p[..pkt.Size()]);
    }
  }
}
