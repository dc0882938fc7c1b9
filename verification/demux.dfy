/** One pass of the inner receive loop over a single datagram: walk the
    messages `NLMSG_OK` admits, stop at an ERROR or DONE message, and
    hand the payload of every other message on to the record decoder.

    The pass is given two ways: `Walk` follows the loop step by step, and
    `Classify (Frames …)` separates the framing from the classification;
    `WalkIsClassify` shows they agree.
 */
module Demux {
  import opened Bytes
  import opened Netlink
  import opened InetDiag

  /** `sizeof(recv_buf)`: `recv` never delivers more than this. */
  const RECV_BUF_SIZE: nat := 4096

  /** A message the walk visits: where it starts and its header. */
  datatype Frame = Frame(off: nat, hdr: NlMsgHdr)

  /** The message's declared extent is a whole header and lies inside the buffer. */
  predicate InBuffer(buf: seq<byte>, f: Frame)
  {
    NLMSG_HDRLEN <= f.hdr.len && f.off + f.hdr.len <= |buf|
  }

  predicate AllInBuffer(buf: seq<byte>, fs: seq<Frame>)
  {
    forall i :: 0 <= i < |fs| ==> InBuffer(buf, fs[i])
  }

  /** `NLMSG_DATA`: the bytes after the header, up to the declared length. */
  function Payload(buf: seq<byte>, f: Frame): (p: seq<byte>)
    requires InBuffer(buf, f)
    ensures |p| == f.hdr.len - NLMSG_HDRLEN
  {
    buf[f.off + NLMSG_HDRLEN .. f.off + f.hdr.len]
  }

  /** Where `NLMSG_NEXT` leads after the last of `fs` (or `off` if none). */
  function EndOf(off: nat, fs: seq<Frame>): nat
  {
    if fs == [] then off else fs[|fs| - 1].off + NlmsgAlign(fs[|fs| - 1].hdr.len)
  }

  /** Each message starts where `NLMSG_NEXT` of the one before it points. */
  predicate Chained(fs: seq<Frame>)
  {
    forall i :: 0 < i < |fs| ==> fs[i].off == fs[i - 1].off + NlmsgAlign(fs[i - 1].hdr.len)
  }

  /** The walk visits `f`: `NLMSG_OK` holds at its offset and its header
      is the one read there. */
  predicate Admitted(host: Endian, buf: seq<byte>, f: Frame)
  {
    NlmsgOk(host, buf, f.off) && f.hdr == HeaderAt(host, buf, f.off)
  }

  /** The messages the loop condition admits from byte `off` on, in
      order; the walk visits a message exactly when `NLMSG_OK` holds, and
      every message it visits lies wholly inside the buffer. */
  function Frames(host: Endian, buf: seq<byte>, off: nat): (fs: seq<Frame>)
    requires |buf| <= RECV_BUF_SIZE
    ensures AllInBuffer(buf, fs)
    ensures |fs| > 0 <==> NlmsgOk(host, buf, off)
    decreases |buf| - off
  {
    if !NlmsgOk(host, buf, off) then []
    else
      var h := HeaderAt(host, buf, off);
      var rest := Frames(host, buf, NlmsgNext(host, buf, off));
      assert InBuffer(buf, Frame(off, h));
      [Frame(off, h)] + rest
  }

  /** One step of the walk: a message `NLMSG_OK` admits, then the walk from
      where `NLMSG_NEXT` leads. */
  lemma FramesStep(host: Endian, buf: seq<byte>, off: nat)
    requires |buf| <= RECV_BUF_SIZE
    requires NlmsgOk(host, buf, off)
    ensures Frames(host, buf, off)
         == [Frame(off, HeaderAt(host, buf, off))] + Frames(host, buf, NlmsgNext(host, buf, off))
  {
  }

  /** Every visited message is one `NLMSG_OK` admits, read where it starts. */
  lemma {:induction false} FramesAdmitted(host: Endian, buf: seq<byte>, off: nat)
    requires |buf| <= RECV_BUF_SIZE
    ensures forall i :: 0 <= i < |Frames(host, buf, off)| ==> Admitted(host, buf, Frames(host, buf, off)[i])
    decreases |buf| - off
  {
    if NlmsgOk(host, buf, off) {
      var next := NlmsgNext(host, buf, off);
      var fs := Frames(host, buf, off);
      var rest := Frames(host, buf, next);
      FramesStep(host, buf, off);
      FramesAdmitted(host, buf, next);
      forall i | 0 <= i < |fs|
        ensures Admitted(host, buf, fs[i])
      {
        if i > 0 {
          assert fs[i] == rest[i - 1];
        }
      }
    }
  }

  /** The visited messages start at `off`, each at least a header past
      the one before (so offsets strictly increase), and each where
      `NLMSG_NEXT` of the one before points. */
  lemma {:induction false} FramesChained(host: Endian, buf: seq<byte>, off: nat)
    requires |buf| <= RECV_BUF_SIZE
    ensures var fs := Frames(host, buf, off);
      && (|fs| > 0 ==> fs[0].off == off)
      && (forall i :: 0 <= i < |fs| ==> off + NLMSG_HDRLEN * i <= fs[i].off)
      && Chained(fs)
    decreases |buf| - off
  {
    if NlmsgOk(host, buf, off) {
      var next := NlmsgNext(host, buf, off);
      var fs := Frames(host, buf, off);
      var rest := Frames(host, buf, next);
      FramesStep(host, buf, off);
      FramesChained(host, buf, next);
      assert next >= off + NLMSG_HDRLEN;
      forall i | 0 < i < |fs|
        ensures off + NLMSG_HDRLEN * i <= fs[i].off
        ensures fs[i].off == fs[i - 1].off + NlmsgAlign(fs[i - 1].hdr.len)
      {
        assert fs[i] == rest[i - 1];
        if i > 1 {
          assert fs[i - 1] == rest[i - 2];
        }
      }
    }
  }

  /** `NLMSG_OK` fails where `NLMSG_NEXT` of the last visited message
      leads: that is where the loop gives up on the datagram. */
  lemma {:induction false} FramesStop(host: Endian, buf: seq<byte>, off: nat)
    requires |buf| <= RECV_BUF_SIZE
    ensures !NlmsgOk(host, buf, EndOf(off, Frames(host, buf, off)))
    decreases |buf| - off
  {
    if NlmsgOk(host, buf, off) {
      var next := NlmsgNext(host, buf, off);
      var fs := Frames(host, buf, off);
      var rest := Frames(host, buf, next);
      FramesStep(host, buf, off);
      FramesStop(host, buf, next);
      assert EndOf(off, fs) == EndOf(next, rest);
    }
  }

  /** Each message ends before any later one begins. */
  predicate Disjoint(fs: seq<Frame>)
  {
    forall i, j :: 0 <= i < j < |fs| ==> fs[i].off + fs[i].hdr.len <= fs[j].off
  }

  /** Visited messages do not overlap. */
  lemma {:induction false} FramesDisjoint(host: Endian, buf: seq<byte>, off: nat)
    requires |buf| <= RECV_BUF_SIZE
    ensures Disjoint(Frames(host, buf, off))
    decreases |buf| - off
  {
    if NlmsgOk(host, buf, off) {
      var h := HeaderAt(host, buf, off);
      var next := NlmsgNext(host, buf, off);
      var rest := Frames(host, buf, next);
      var fs := [Frame(off, h)] + rest;
      FramesStep(host, buf, off);
      FramesDisjoint(host, buf, next);
      FramesChained(host, buf, next);
      assert off + h.len <= next;
      forall i, j | 0 <= i < j < |fs|
        ensures fs[i].off + fs[i].hdr.len <= fs[j].off
      {
        assert fs[j] == rest[j - 1];
        if i > 0 {
          assert fs[i] == rest[i - 1];
        }
      }
    }
  }

  /** Message types that end the receive loop. */
  predicate Terminal(h: NlMsgHdr)
  {
    h.kind == NLMSG_ERROR || h.kind == NLMSG_DONE
  }

  /** How one pass over a datagram ended: `NLMSG_OK` failed (the program
      goes back to `recv`), or an ERROR or DONE message was met. */
  datatype PassEnd = RanOut | ErrorSeen | DoneSeen

  /** The outcome of one pass: how it ended, and the payloads of the data
      messages it handed to the record decoder, in order. */
  datatype Pass = Pass(end: PassEnd, data: seq<seq<byte>>)

  /** Index of the first terminal message, or `|fs|` when there is none. */
  function FirstTerminal(fs: seq<Frame>): (k: nat)
    ensures k <= |fs|
    ensures forall i :: 0 <= i < k ==> !Terminal(fs[i].hdr)
    ensures k < |fs| ==> Terminal(fs[k].hdr)
  {
    if fs == [] then 0
    else if Terminal(fs[0].hdr) then 0
    else 1 + FirstTerminal(fs[1..])
  }

  /** How a pass ends when its first terminal message is at `k`. */
  function EndAt(fs: seq<Frame>, k: nat): PassEnd
    requires k <= |fs|
  {
    if k == |fs| then RanOut
    else if fs[k].hdr.kind == NLMSG_ERROR then ErrorSeen
    else DoneSeen
  }

  /** Classifies a sequence of visited messages: every message before the
      first ERROR or DONE is handed on for decoding, in order; that first
      terminal message decides how the pass ends, and nothing after it is
      looked at. */
  function Classify(buf: seq<byte>, fs: seq<Frame>): (p: Pass)
    requires AllInBuffer(buf, fs)
    ensures |p.data| == FirstTerminal(fs)
    ensures forall i :: 0 <= i < |p.data| ==> p.data[i] == Payload(buf, fs[i])
    ensures p.end == EndAt(fs, FirstTerminal(fs))
  {
    if fs == [] then Pass(RanOut, [])
    else if fs[0].hdr.kind == NLMSG_ERROR then Pass(ErrorSeen, [])
    else if fs[0].hdr.kind == NLMSG_DONE then Pass(DoneSeen, [])
    else
      var rest := Classify(buf, fs[1..]);
      Pass(rest.end, [Payload(buf, fs[0])] + rest.data)
  }

  /** The inner loop of `main` over one received datagram, as written:
      while `NLMSG_OK`, fail on ERROR, finish on DONE, otherwise hand the
      payload (`NLMSG_DATA`) to the record decoder and move on with
      `NLMSG_NEXT`. */
  function Walk(host: Endian, buf: seq<byte>, off: nat): (p: Pass)
    requires |buf| <= RECV_BUF_SIZE
    decreases |buf| - off
  {
    if !NlmsgOk(host, buf, off) then Pass(RanOut, [])
    else
      var h := HeaderAt(host, buf, off);
      if h.kind == NLMSG_ERROR then Pass(ErrorSeen, [])
      else if h.kind == NLMSG_DONE then Pass(DoneSeen, [])
      else
        var rest := Walk(host, buf, NlmsgNext(host, buf, off));
        Pass(rest.end, [Payload(buf, Frame(off, h))] + rest.data)
  }

  /** The loop as written is framing followed by classification. */
  lemma {:induction false} WalkIsClassify(host: Endian, buf: seq<byte>, off: nat)
    requires |buf| <= RECV_BUF_SIZE
    ensures Walk(host, buf, off) == Classify(buf, Frames(host, buf, off))
    decreases |buf| - off
  {
    if NlmsgOk(host, buf, off) {
      var h := HeaderAt(host, buf, off);
      var next := NlmsgNext(host, buf, off);
      var fs := Frames(host, buf, off);
      FramesStep(host, buf, off);
      assert fs[1..] == Frames(host, buf, next);
      WalkIsClassify(host, buf, next);
    }
  }

  /** A pass over `buf` from its start hands on exactly the payloads of the
      messages before the first ERROR or DONE, each lying wholly inside the
      datagram, and ends as that message says, or runs out without failing
      when there is none. */
  lemma PassSpec(host: Endian, buf: seq<byte>)
    requires |buf| <= RECV_BUF_SIZE
    ensures var fs := Frames(host, buf, 0);
            var p := Walk(host, buf, 0);
            var k := FirstTerminal(fs);
            && |p.data| == k
            && (forall i :: 0 <= i < k ==> InBuffer(buf, fs[i]) && p.data[i] == Payload(buf, fs[i]))
            && (p.end == RanOut <==> k == |fs|)
            && (p.end == ErrorSeen <==> k < |fs| && fs[k].hdr.kind == NLMSG_ERROR)
            && (p.end == DoneSeen <==> k < |fs| && fs[k].hdr.kind == NLMSG_DONE)
  {
    WalkIsClassify(host, buf, 0);
  }

  /** A slice holding `a + b` holds `a` and then `b`. */
  lemma SliceSplit(buf: seq<byte>, off: nat, a: seq<byte>, b: seq<byte>)
    requires off + |a + b| <= |buf|
    requires buf[off..off + |a + b|] == a + b
    ensures buf[off..off + |a|] == a
    ensures buf[off + |a|..off + |a| + |b|] == b
  {
    assert buf[off..off + |a|] == (a + b)[..|a|];
    assert buf[off + |a|..off + |a| + |b|] == (a + b)[|a|..];
  }

  /** A well-framed message whose encoding sits at byte `off` is admitted
      by `NLMSG_OK` with its own header and payload, and `NLMSG_NEXT`
      leads just past its padding. */
  lemma PackedStep(host: Endian, buf: seq<byte>, off: nat, e: Envelope)
    requires WellFramed(e)
    requires |buf| <= RECV_BUF_SIZE
    requires off + |EncodeEnvelope(host, e)| <= |buf|
    requires buf[off..off + |EncodeEnvelope(host, e)|] == EncodeEnvelope(host, e)
    ensures NlmsgOk(host, buf, off)
    ensures HeaderAt(host, buf, off) == e.hdr
    ensures NlmsgNext(host, buf, off) == off + |EncodeEnvelope(host, e)|
    ensures InBuffer(buf, Frame(off, e.hdr)) && Payload(buf, Frame(off, e.hdr)) == e.payload
  {
    var hd := EncodeHeader(host, e.hdr);
    var enc := EncodeEnvelope(host, e);
    SliceSplit(buf, off, hd + e.payload, Zeros(|enc| - e.hdr.len));
    SliceSplit(buf, off, hd, e.payload);
    HeaderAtSlice(host, buf, off, hd);
    HeaderRoundTrip(host, e.hdr);
  }

  /** None of `es` is an ERROR or DONE message. */
  predicate NoTerminal(es: seq<Envelope>)
  {
    forall i :: 0 <= i < |es| ==> !Terminal(es[i].hdr)
  }

  /** The payloads of `es`, in order. */
  function Payloads(es: seq<Envelope>): (ps: seq<seq<byte>>)
    ensures |ps| == |es|
    ensures forall i :: 0 <= i < |es| ==> ps[i] == es[i].payload
  {
    if es == [] then [] else [es[0].payload] + Payloads(es[1..])
  }

  /** The payloads of the first `k` messages are the first message's,
      then those of the next `k - 1`. */
  lemma PayloadsPrefixCons(es: seq<Envelope>, k: nat)
    requires 0 < k <= |es|
    ensures Payloads(es[..k]) == [es[0].payload] + Payloads(es[1..][..k - 1])
  {
    assert es[..k][1..] == es[1..][..k - 1];
  }

  /** How a pass over packed messages ends when the first ERROR or DONE
      among them is message `k` (`k == |es|` when there is none). This is
      `EndAt` read off the sender's envelopes rather than the frames the
      walk finds; the lemmas about packed datagrams state their results in
      terms of the envelopes so that they need not construct the frames. */
  function PackedEnd(es: seq<Envelope>, k: nat): PassEnd
    requires k <= |es|
  {
    if k == |es| then RanOut else if es[k].hdr.kind == NLMSG_ERROR then ErrorSeen else DoneSeen
  }

  /** Packing a nonempty list is packing its head, then its tail. */
  lemma EncodeAllCons(host: Endian, es: seq<Envelope>)
    requires AllWellFramed(es) && es != []
    ensures AllWellFramed(es[1..])
    ensures EncodeAll(host, es) == EncodeEnvelope(host, es[0]) + EncodeAll(host, es[1..])
  {
    assert Encodings(host, es)[1..] == Encodings(host, es[1..]);
  }

  /** The messages `es` are laid out back to back in `buf`, the first at
      `off` and each after the padding of the one before, ending at `end`. */
  predicate PackedAt(host: Endian, buf: seq<byte>, off: nat, es: seq<Envelope>, end: nat)
    decreases |es|
  {
    if es == [] then off == end <= |buf|
    else
      && WellFramed(es[0])
      && off + |EncodeEnvelope(host, es[0])| <= |buf|
      && buf[off..off + |EncodeEnvelope(host, es[0])|] == EncodeEnvelope(host, es[0])
      && PackedAt(host, buf, off + |EncodeEnvelope(host, es[0])|, es[1..], end)
  }

  /** A packing that sits in `buf` from `off` lays its messages out there. */
  lemma {:induction false} EncodedPacked(host: Endian, buf: seq<byte>, off: nat, es: seq<Envelope>)
    requires AllWellFramed(es)
    requires off + |EncodeAll(host, es)| <= |buf|
    requires buf[off..off + |EncodeAll(host, es)|] == EncodeAll(host, es)
    ensures PackedAt(host, buf, off, es, off + |EncodeAll(host, es)|)
    decreases |es|
  {
    if es == [] {
      assert EncodeAll(host, es) == [];
    } else {
      var e0, tl := EncodeEnvelope(host, es[0]), EncodeAll(host, es[1..]);
      EncodeAllCons(host, es);
      SliceSplit(buf, off, e0, tl);
      EncodedPacked(host, buf, off + |e0|, es[1..]);
    }
  }

  /** The first of the messages packed at `off` is admitted with its own
      header and payload, and `NLMSG_NEXT` leads just past its padding.
      This is `PackedStep` for `es[0]`, taking its premises from `PackedAt`,
      so that `WalkPacked` does not unfold the packing itself. */
  lemma PackedHead(host: Endian, buf: seq<byte>, off: nat, es: seq<Envelope>, end: nat)
    requires |buf| <= RECV_BUF_SIZE
    requires PackedAt(host, buf, off, es, end) && es != []
    ensures NlmsgOk(host, buf, off)
    ensures HeaderAt(host, buf, off) == es[0].hdr
    ensures NlmsgNext(host, buf, off) == off + |EncodeEnvelope(host, es[0])|
    ensures InBuffer(buf, Frame(off, es[0].hdr)) && Payload(buf, Frame(off, es[0].hdr)) == es[0].payload
  {
    PackedStep(host, buf, off, es[0]);
  }

  /** The rest of the messages packed at `off` are packed just past the
      padding of the first. */
  lemma PackedTail(host: Endian, buf: seq<byte>, off: nat, es: seq<Envelope>, end: nat, next: nat)
    requires PackedAt(host, buf, off, es, end) && es != []
    requires next == off + |EncodeEnvelope(host, es[0])|
    ensures PackedAt(host, buf, next, es[1..], end)
  {
  }

  /** One step of the walk over a data message: its payload is handed on
      and the walk goes on where `NLMSG_NEXT` leads. */
  lemma WalkDataStep(host: Endian, buf: seq<byte>, off: nat)
    requires |buf| <= RECV_BUF_SIZE
    requires NlmsgOk(host, buf, off) && !Terminal(HeaderAt(host, buf, off))
    ensures var rest := Walk(host, buf, NlmsgNext(host, buf, off));
            Walk(host, buf, off) == Pass(rest.end, [Payload(buf, Frame(off, HeaderAt(host, buf, off)))] + rest.data)
  {
  }

  /** Whether the first ERROR or DONE among `es` is message `k` (`k ==
      |es|` when there is none and no further message follows at `end`). */
  predicate FirstTerminalAt(host: Endian, buf: seq<byte>, es: seq<Envelope>, k: nat, end: nat)
  {
    && k <= |es| && NoTerminal(es[..k])
    && (k < |es| ==> Terminal(es[k].hdr))
    && (k == |es| ==> !NlmsgOk(host, buf, end))
  }

  /** Past a data message, the first ERROR or DONE is one place earlier. */
  lemma FirstTerminalAtRest(host: Endian, buf: seq<byte>, es: seq<Envelope>, k: nat, end: nat)
    requires FirstTerminalAt(host, buf, es, k, end) && k > 0
    ensures !Terminal(es[0].hdr)
    ensures FirstTerminalAt(host, buf, es[1..], k - 1, end)
  {
    assert es[..k][0] == es[0];
    assert es[1..][..k - 1] == es[..k][1..];
  }

  /** Messages packed back to back from byte `off`, whatever precedes and
      follows them: if the first ERROR or DONE among them is message `k`,
      the pass hands on the payloads of the `k` messages before it, in
      order, and ends as message `k` says; if there is none and no further
      message follows, the pass hands on all of their payloads and runs out
      without failing. */
  lemma {:induction false} WalkPacked(host: Endian, buf: seq<byte>, off: nat, es: seq<Envelope>, k: nat, end: nat)
    requires |buf| <= RECV_BUF_SIZE
    requires PackedAt(host, buf, off, es, end) && FirstTerminalAt(host, buf, es, k, end)
    ensures Walk(host, buf, off) == Pass(PackedEnd(es, k), Payloads(es[..k]))
    decreases k
  {
    if es != [] {
      PackedHead(host, buf, off, es, end);
      if k > 0 {
        var next, tl := NlmsgNext(host, buf, off), es[1..];
        PackedTail(host, buf, off, es, end, next);
        FirstTerminalAtRest(host, buf, es, k, end);
        WalkPacked(host, buf, next, tl, k - 1, end);
        WalkDataStep(host, buf, off);
        PayloadsPrefixCons(es, k);
      }
    }
  }

  /** A datagram of well-framed messages laid out back to back (as the
      kernel sends them): if the first ERROR or DONE among them is message
      `k`, the pass hands on the payloads of the `k` messages before it, in
      order, and ends as message `k` says; messages after it are never
      looked at. Without one, it hands on every payload and runs out at the
      end of the datagram without failing. */
  lemma PackedDatagram(host: Endian, es: seq<Envelope>, k: nat)
    requires AllWellFramed(es)
    requires |EncodeAll(host, es)| <= RECV_BUF_SIZE
    requires k <= |es| && NoTerminal(es[..k])
    requires k < |es| ==> Terminal(es[k].hdr)
    ensures Walk(host, EncodeAll(host, es), 0) == Pass(PackedEnd(es, k), Payloads(es[..k]))
  {
    var buf := EncodeAll(host, es);
    assert buf[0..|buf|] == buf;
    EncodedPacked(host, buf, 0, es);
    WalkPacked(host, buf, 0, es, k, |buf|);
  }

  /** A datagram made of data messages only (a partial dump): the pass
      hands on the payload of every one of them, in order, and runs out at
      the end of the datagram without failing. */
  lemma DataDatagram(host: Endian, es: seq<Envelope>)
    requires AllWellFramed(es) && NoTerminal(es)
    requires |EncodeAll(host, es)| <= RECV_BUF_SIZE
    ensures Walk(host, EncodeAll(host, es), 0) == Pass(RanOut, Payloads(es))
  {
    assert es[..|es|] == es;
    PackedDatagram(host, es, |es|);
  }

  /** A header whose length field claims more than the bytes from it to
      the end of the buffer fails `NLMSG_OK`. */
  lemma CutHeaderNotOk(host: Endian, buf: seq<byte>, at: nat, h: NlMsgHdr)
    requires at + NLMSG_HDRLEN <= |buf|
    requires buf[at..at + NLMSG_HDRLEN] == EncodeHeader(host, h)
    requires h.len > |buf| - at
    ensures !NlmsgOk(host, buf, at)
  {
    HeaderAtSlice(host, buf, at, EncodeHeader(host, h));
    HeaderRoundTrip(host, h);
  }

  /** Data messages followed by a message cut short (its header declares
      more bytes than the datagram still holds): the payloads of the data
      messages are handed on in order, the cut message is neither decoded
      nor treated as an error, and the pass simply runs out so that the
      program goes back to `recv`. */
  lemma TruncatedTailIgnored(host: Endian, es: seq<Envelope>, h: NlMsgHdr, tail: seq<byte>)
    requires AllWellFramed(es) && NoTerminal(es)
    requires |EncodeAll(host, es) + EncodeHeader(host, h) + tail| <= RECV_BUF_SIZE
    requires h.len > NLMSG_HDRLEN + |tail|
    ensures Walk(host, EncodeAll(host, es) + EncodeHeader(host, h) + tail, 0) == Pass(RanOut, Payloads(es))
  {
    var body, hd := EncodeAll(host, es), EncodeHeader(host, h);
    var buf := body + hd + tail;
    assert buf[0..|body|] == body;
    EncodedPacked(host, buf, 0, es);
    assert buf[|body|..|body| + NLMSG_HDRLEN] == hd;
    CutHeaderNotOk(host, buf, |body|, h);
    assert es[..|es|] == es;
    assert FirstTerminalAt(host, buf, es, |es|, |body|);
    WalkPacked(host, buf, 0, es, |es|, |body|);
  }
}
