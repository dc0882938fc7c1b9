/** The outer receive loop of `main`: after `sendmsg`, keep calling `recv`
    and walking each datagram until a DONE message (exit status 0), or an
    ERROR message, a failed `sendmsg` or a failed `recv` (exit status -1).

    What `recv` returns is not computed here: it is the finite sequence
    `inbox` of receive results, in the order the calls return them. When it
    runs out before the dump has ended, the program would still be blocked
    in `recv`; the model reports that as `Starved`.

    `Loop` is the control flow of the outer loop over what each `recv`
    call led to (`Event`), independent of the bytes; `Drive` feeds it the
    passes of the inner loop and decodes the data payloads it collects.
 */
module Driver {
  import opened Bytes
  import opened Netlink
  import opened InetDiag
  import opened Demux

  /** The result of one `recv` call: a datagram, or a failure (-1). */
  datatype Recv = Datagram(bytes: seq<byte>) | RecvFailed

  /** What one `recv` call leads to: a pass of the inner loop over the
      datagram received, or a receive failure. */
  datatype Event = Walked(pass: Pass) | NoDatagram

  /** How the dump ended. */
  datatype Stop =
    | Finished      // a DONE message: `goto out`, status 0
    | ErrorMessage  // an NLMSG_ERROR message
    | SendFailed    // `sendmsg` returned -1
    | RecvError     // `recv` returned -1
    | Starved       // no input left: the program would still be waiting in `recv`

  /** How the outer loop ended and the data payloads it met before that, in order. */
  datatype Run = Run(stop: Stop, data: seq<seq<byte>>)

  /** How the dump ended and the records printed before that, in order. */
  datatype Dump = Dump(stop: Stop, records: seq<Item>)

  /** The value `main` returns once the dump has ended. */
  function ExitStatus(s: Stop): int
    requires !s.Starved?
  {
    if s.Finished? then 0 else -1
  }

  /** Only a DONE message makes `main` return 0; every other end is -1. */
  lemma ExitStatusIsZeroOnlyWhenDone(s: Stop)
    requires !s.Starved?
    ensures ExitStatus(s) == 0 <==> s == Finished
    ensures ExitStatus(s) != 0 ==> ExitStatus(s) == -1
  {
  }

  /** The program goes back to `recv` after this event: a pass that ran out
      without meeting ERROR or DONE. */
  predicate Continues(e: Event)
  {
    e.Walked? && e.pass.end == RanOut
  }

  /** The data payloads one event contributes. */
  function DataOf(e: Event): seq<seq<byte>>
  {
    if e.NoDatagram? then [] else e.pass.data
  }

  /** How an event after which the program does not go back to `recv`
      ends the dump. */
  function StopOf(e: Event): Stop
    requires !Continues(e)
  {
    if e.NoDatagram? then RecvError
    else if e.pass.end == ErrorSeen then ErrorMessage
    else Finished
  }

  /** The outer loop over the events of successive `recv` calls: a failed
      `recv` ends the dump; otherwise the pass's data payloads are handed
      on, and an ERROR or DONE message ends the dump while a pass that runs
      out goes back to `recv`. The loop is left waiting with no input to
      look at exactly when every event lets it go on. */
  function Loop(events: seq<Event>): (r: Run)
    ensures r.stop != SendFailed
    ensures r.stop == Starved <==> forall i :: 0 <= i < |events| ==> Continues(events[i])
    decreases |events|
  {
    if events == [] then Run(Starved, [])
    else
      var e := events[0];
      if e.NoDatagram? then Run(RecvError, [])
      else if e.pass.end == ErrorSeen then Run(ErrorMessage, e.pass.data)
      else if e.pass.end == DoneSeen then Run(Finished, e.pass.data)
      else
        var rest := Loop(events[1..]);
        assert forall i :: 1 <= i < |events| ==> events[i] == events[1..][i - 1];
        Run(rest.stop, e.pass.data + rest.data)
  }

  /** The data payloads of every event in `es`, back to back, paying no
      attention to where the loop stops. */
  function AllData(es: seq<Event>): seq<seq<byte>>
  {
    if es == [] then [] else DataOf(es[0]) + AllData(es[1..])
  }

  /** If event `j` is the first after which the program does not go back
      to `recv`, the dump ends as that event says, having met the data
      payloads of events 0 to `j` in arrival order; no later event is
      looked at. */
  lemma {:induction false} LoopStopsAtFirst(events: seq<Event>, j: nat)
    requires j < |events|
    requires forall i :: 0 <= i < j ==> Continues(events[i])
    requires !Continues(events[j])
    ensures Loop(events) == Run(StopOf(events[j]), AllData(events[..j + 1]))
    decreases j
  {
    if j == 0 {
      assert events[..1][1..] == [];
    } else {
      assert Continues(events[0]);
      assert forall i :: 0 <= i < j - 1 ==> events[1..][i] == events[i + 1];
      LoopStopsAtFirst(events[1..], j - 1);
      assert events[..j + 1][1..] == events[1..][..j];
    }
  }

  /** If the program may go back to `recv` after every event, it meets the
      data payloads of all of them in arrival order and is still waiting. */
  lemma {:induction false} LoopStarved(events: seq<Event>)
    requires forall i :: 0 <= i < |events| ==> Continues(events[i])
    ensures Loop(events) == Run(Starved, AllData(events))
    decreases |events|
  {
    if events != [] {
      assert Continues(events[0]);
      assert forall i :: 0 <= i < |events| - 1 ==> events[1..][i] == events[i + 1];
      LoopStarved(events[1..]);
    }
  }

  /** Events that come after the dump has ended are never looked at;
      events that come while the program is still waiting continue the
      same dump, their payloads met after the earlier ones. */
  lemma {:induction false} LoopAppend(events: seq<Event>, later: seq<Event>)
    ensures Loop(events).stop != Starved ==> Loop(events + later) == Loop(events)
    ensures Loop(events).stop == Starved ==>
              Loop(events + later) == Run(Loop(later).stop, Loop(events).data + Loop(later).data)
    decreases |events|
  {
    if events == [] {
      assert events + later == later;
    } else {
      assert (events + later)[0] == events[0];
      assert (events + later)[1..] == events[1..] + later;
      if Continues(events[0]) {
        LoopAppend(events[1..], later);
        var d, r := events[0].pass.data, Loop(events[1..]);
        assert d + (r.data + Loop(later).data) == (d + r.data) + Loop(later).data;
      }
    }
  }

  /** What `recv` leaves in the 4096-byte buffer: a shorter datagram whole,
      a longer one cut to the size of the buffer (the rest is discarded). */
  function Clip(d: seq<byte>): (b: seq<byte>)
    ensures |b| <= RECV_BUF_SIZE
    ensures b <= d
    ensures |d| <= RECV_BUF_SIZE ==> b == d
    ensures |d| > RECV_BUF_SIZE ==> |b| == RECV_BUF_SIZE
  {
    if |d| <= RECV_BUF_SIZE then d else d[..RECV_BUF_SIZE]
  }

  /** What a receive result leads to: the inner loop's pass over the bytes
      left in the buffer, or a receive failure. */
  function EventOf(host: Endian, r: Recv): Event
  {
    if r.RecvFailed? then NoDatagram else Walked(Walk(host, Clip(r.bytes), 0))
  }

  /** The events of successive receive results, in order. */
  function Events(host: Endian, inbox: seq<Recv>): (es: seq<Event>)
    ensures |es| == |inbox|
    ensures forall i :: 0 <= i < |inbox| ==> es[i] == EventOf(host, inbox[i])
  {
    if inbox == [] then [] else [EventOf(host, inbox[0])] + Events(host, inbox[1..])
  }

  /** The records printed for a run of data payloads, in order. */
  function DecodeAll(host: Endian, ps: seq<seq<byte>>): (rs: seq<Item>)
    ensures |rs| == |ps|
    ensures forall i :: 0 <= i < |ps| ==> rs[i] == DecodeRecord(host, ps[i])
  {
    if ps == [] then [] else [DecodeRecord(host, ps[0])] + DecodeAll(host, ps[1..])
  }

  /** The receive loop of `main` over the receive results `inbox`: how it
      ends, and the records it prints, in the order it prints them. */
  function Drive(host: Endian, inbox: seq<Recv>): (o: Dump)
  {
    var r := Loop(Events(host, inbox));
    Dump(r.stop, DecodeAll(host, r.data))
  }

  /** `main` once the socket is open: send the dump request, and on
      success run the receive loop. `sent` is whether `sendmsg` succeeded. */
  function RunDump(host: Endian, sent: bool, inbox: seq<Recv>): (o: Dump)
    ensures !sent ==> o == Dump(SendFailed, [])
    ensures sent ==> o.stop != SendFailed
  {
    if !sent then Dump(SendFailed, []) else Drive(host, inbox)
  }

  lemma {:induction false} EventsAppend(host: Endian, a: seq<Recv>, b: seq<Recv>)
    ensures Events(host, a + b) == Events(host, a) + Events(host, b)
    decreases |a|
  {
    if a == [] {
      assert a + b == b;
    } else {
      assert (a + b)[0] == a[0] && (a + b)[1..] == a[1..] + b;
      EventsAppend(host, a[1..], b);
      calc {
        Events(host, a + b);
        [EventOf(host, a[0])] + Events(host, a[1..] + b);
        [EventOf(host, a[0])] + (Events(host, a[1..]) + Events(host, b));
        ([EventOf(host, a[0])] + Events(host, a[1..])) + Events(host, b);
      }
    }
  }

  lemma {:induction false} DecodeAllAppend(host: Endian, a: seq<seq<byte>>, b: seq<seq<byte>>)
    ensures DecodeAll(host, a + b) == DecodeAll(host, a) + DecodeAll(host, b)
    decreases |a|
  {
    if a == [] {
      assert a + b == b;
    } else {
      assert (a + b)[0] == a[0] && (a + b)[1..] == a[1..] + b;
      DecodeAllAppend(host, a[1..], b);
      calc {
        DecodeAll(host, a + b);
        [DecodeRecord(host, a[0])] + DecodeAll(host, a[1..] + b);
        [DecodeRecord(host, a[0])] + (DecodeAll(host, a[1..]) + DecodeAll(host, b));
        ([DecodeRecord(host, a[0])] + DecodeAll(host, a[1..])) + DecodeAll(host, b);
      }
    }
  }

  /** Receive results that arrive after the dump has ended are never looked
      at; results that arrive while the program is still waiting continue
      the same dump, their records printed after the earlier ones. */
  lemma DriveAppend(host: Endian, inbox: seq<Recv>, later: seq<Recv>)
    ensures Drive(host, inbox).stop != Starved ==> Drive(host, inbox + later) == Drive(host, inbox)
    ensures Drive(host, inbox).stop == Starved ==>
              Drive(host, inbox + later)
              == Dump(Drive(host, later).stop, Drive(host, inbox).records + Drive(host, later).records)
  {
    var a, b := Events(host, inbox), Events(host, later);
    EventsAppend(host, inbox, later);
    LoopAppend(a, b);
    DecodeAllAppend(host, Loop(a).data, Loop(b).data);
  }

  /** If receive result `j` is the first after which the program does not
      go back to `recv`, the dump ends as it says, with the records of the
      data messages received up to it printed in arrival order (within and
      across datagrams); no later result is looked at. */
  lemma DriveStopsAtFirst(host: Endian, inbox: seq<Recv>, j: nat)
    requires j < |inbox|
    requires forall i :: 0 <= i < j ==> Continues(EventOf(host, inbox[i]))
    requires !Continues(EventOf(host, inbox[j]))
    ensures Drive(host, inbox)
         == Dump(StopOf(EventOf(host, inbox[j])), DecodeAll(host, AllData(Events(host, inbox[..j + 1]))))
  {
    var es := Events(host, inbox);
    LoopStopsAtFirst(es, j);
    assert es[..j + 1] == Events(host, inbox[..j + 1]);
  }

  /** A datagram that ends in a message cut short does not fail the dump:
      the payloads of its data messages are handed on, and the program goes
      on to the next `recv`. */
  lemma TruncatedDatagramContinues(host: Endian, es: seq<Envelope>, h: NlMsgHdr, tail: seq<byte>)
    requires AllWellFramed(es) && NoTerminal(es)
    requires |EncodeAll(host, es) + EncodeHeader(host, h) + tail| <= RECV_BUF_SIZE
    requires h.len > NLMSG_HDRLEN + |tail|
    ensures var e := EventOf(host, Datagram(EncodeAll(host, es) + EncodeHeader(host, h) + tail));
            Continues(e) && DataOf(e) == Payloads(es)
  {
    TruncatedTailIgnored(host, es, h, tail);
  }

  /** A datagram of well-framed messages laid out back to back, the first
      ERROR or DONE among them at `k`: the pass hands on the payloads of
      the messages before it and ends as it says. */
  lemma PackedEvent(host: Endian, es: seq<Envelope>, k: nat)
    requires AllWellFramed(es) && |EncodeAll(host, es)| <= RECV_BUF_SIZE
    requires k <= |es| && NoTerminal(es[..k])
    requires k < |es| ==> Terminal(es[k].hdr)
    ensures EventOf(host, Datagram(EncodeAll(host, es))) == Walked(Pass(PackedEnd(es, k), Payloads(es[..k])))
  {
    PackedDatagram(host, es, k);
  }

  lemma EventsOfTwo(host: Endian, r0: Recv, r1: Recv)
    ensures Events(host, [r0, r1]) == [EventOf(host, r0), EventOf(host, r1)]
  {
    assert [r0, r1][1..] == [r1];
  }

  /** One datagram holding two data messages, then one holding a DONE
      message: the dump finishes with status 0, having printed exactly the
      two records, in order. */
  lemma TwoRecordsThenDone(host: Endian, a: Envelope, b: Envelope, done: Envelope)
    requires WellFramed(a) && WellFramed(b) && WellFramed(done)
    requires !Terminal(a.hdr) && !Terminal(b.hdr) && done.hdr.kind == NLMSG_DONE
    requires |EncodeAll(host, [a, b])| <= RECV_BUF_SIZE
    requires |EncodeAll(host, [done])| <= RECV_BUF_SIZE
    ensures var o := RunDump(host, true, [Datagram(EncodeAll(host, [a, b])), Datagram(EncodeAll(host, [done]))]);
            && o.stop == Finished
            && ExitStatus(o.stop) == 0
            && o.records == [DecodeRecord(host, a.payload), DecodeRecord(host, b.payload)]
  {
    TwoDatagramEvents(host, a, b, done);
    DataThenDone(a.payload, b.payload);
    DecodeTwo(host, a.payload, b.payload);
  }

  /** The passes over those two datagrams: the first runs out with both
      payloads, the second meets DONE first. */
  lemma TwoDatagramEvents(host: Endian, a: Envelope, b: Envelope, done: Envelope)
    requires WellFramed(a) && WellFramed(b) && WellFramed(done)
    requires !Terminal(a.hdr) && !Terminal(b.hdr) && done.hdr.kind == NLMSG_DONE
    requires |EncodeAll(host, [a, b])| <= RECV_BUF_SIZE
    requires |EncodeAll(host, [done])| <= RECV_BUF_SIZE
    ensures Events(host, [Datagram(EncodeAll(host, [a, b])), Datagram(EncodeAll(host, [done]))])
         == [Walked(Pass(RanOut, [a.payload, b.payload])), Walked(Pass(DoneSeen, []))]
  {
    var r0, r1 := Datagram(EncodeAll(host, [a, b])), Datagram(EncodeAll(host, [done]));
    assert [a, b][..2] == [a, b] && [done][..0] == [];
    PackedEvent(host, [a, b], 2);
    PackedEvent(host, [done], 0);
    assert PackedEnd([a, b], 2) == RanOut && PackedEnd([done], 0) == DoneSeen;
    assert Payloads([a, b]) == [a.payload, b.payload] && Payloads([]) == [];
    EventsOfTwo(host, r0, r1);
  }

  /** A pass that runs out with two data payloads, then a pass that meets
      DONE first: the loop finishes, having met the two payloads. */
  lemma DataThenDone(p: seq<byte>, q: seq<byte>)
    ensures Loop([Walked(Pass(RanOut, [p, q])), Walked(Pass(DoneSeen, []))]) == Run(Finished, [p, q])
  {
    var e0, e1 := Walked(Pass(RanOut, [p, q])), Walked(Pass(DoneSeen, []));
    assert [e0, e1][1..] == [e1];
  }

  lemma DecodeTwo(host: Endian, p: seq<byte>, q: seq<byte>)
    ensures DecodeAll(host, [p, q]) == [DecodeRecord(host, p), DecodeRecord(host, q)]
  {
  }

  /** A reply that is a single ERROR message, whatever its payload (the
      program never reads the error code in it), fails the dump with
      status -1 before any record is printed, and nothing received after
      it is looked at. */
  lemma ErrorReplyFails(host: Endian, e: Envelope, later: seq<Recv>)
    requires WellFramed(e) && e.hdr.kind == NLMSG_ERROR
    requires |EncodeAll(host, [e])| <= RECV_BUF_SIZE
    ensures var o := RunDump(host, true, [Datagram(EncodeAll(host, [e]))] + later);
            && o == Dump(ErrorMessage, [])
            && ExitStatus(o.stop) == -1
  {
    var r0 := Datagram(EncodeAll(host, [e]));
    var e0 := Walked(Pass(ErrorSeen, []));
    assert [e][..0] == [];
    PackedEvent(host, [e], 0);
    var es := Events(host, [r0] + later);
    assert es[0] == e0;
    LoopStopsAtFirst(es, 0);
    assert es[..1] == [e0];
  }

  /** A failed `sendmsg` ends the program with status -1 before any `recv`. */
  lemma SendFailureFails(host: Endian, inbox: seq<Recv>)
    ensures RunDump(host, false, inbox).records == []
    ensures ExitStatus(RunDump(host, false, inbox).stop) == -1
  {
  }
}
