/** Netlink message framing (section 2.2 of RFC 3549, as Linux lays it
    out): every message starts with a 16-byte `nlmsghdr`
    {len: u32, type: u16, flags: u16, seq: u32, pid: u32} in host byte
    order, `len` counts the header itself, and consecutive messages in one
    datagram start on 4-byte boundaries.
 */
module Netlink {
  import opened Bytes

  const NLMSG_ALIGNTO: nat := 4
  const NLMSG_HDRLEN: nat := 16

  /** Message types the receive loop distinguishes. */
  const NLMSG_ERROR: u16 := 2
  const NLMSG_DONE: u16 := 3

  /** Header flags. `NLM_F_DUMP` is `NLM_F_ROOT | NLM_F_MATCH`. */
  const NLM_F_REQUEST: u16 := 0x1
  const NLM_F_ROOT: u16 := 0x100
  const NLM_F_MATCH: u16 := 0x200
  const NLM_F_DUMP: u16 := 0x300

  datatype NlMsgHdr = NlMsgHdr(len: u32, kind: u16, flags: u16, seqNo: u32, pid: u32)

  /** `NLMSG_ALIGN`: `(len + 3) & ~3` in unsigned 32-bit arithmetic, which
      rounds up to a multiple of 4, except that for the three largest
      lengths the addition wraps around and the result is 0. */
  function NlmsgAlign(len: u32): (r: u32)
    ensures len <= 0xFFFF_FFFC ==> r % NLMSG_ALIGNTO == 0 && len <= r < len + NLMSG_ALIGNTO
    ensures len > 0xFFFF_FFFC ==> r == 0
  {
    if len > 0xFFFF_FFFC then 0 else (len + 3) / 4 * 4
  }

  /** `NLMSG_LENGTH`: the declared length of a message with `n` payload bytes. */
  function NlmsgLength(n: nat): nat
  {
    n + NLMSG_HDRLEN
  }

  /** The sixteen header bytes `h` occupies in memory on a host of order `host`. */
  function EncodeHeader(host: Endian, h: NlMsgHdr): (b: seq<byte>)
    ensures |b| == NLMSG_HDRLEN
  {
    U32Bytes(host, h.len) + U16Bytes(host, h.kind) + U16Bytes(host, h.flags)
      + U32Bytes(host, h.seqNo) + U32Bytes(host, h.pid)
  }

  /** The header a `struct nlmsghdr *` overlay sees at byte `off` of a buffer. */
  function HeaderAt(host: Endian, buf: seq<byte>, off: nat): NlMsgHdr
    requires off + NLMSG_HDRLEN <= |buf|
  {
    NlMsgHdr(U32At(host, buf, off), U16At(host, buf, off + 4), U16At(host, buf, off + 6),
             U32At(host, buf, off + 8), U32At(host, buf, off + 12))
  }

  /** The header read in place depends only on the sixteen bytes it covers. */
  lemma HeaderAtSlice(host: Endian, buf: seq<byte>, off: nat, b: seq<byte>)
    requires off + NLMSG_HDRLEN <= |buf|
    requires buf[off..off + NLMSG_HDRLEN] == b
    ensures HeaderAt(host, buf, off) == HeaderAt(host, b, 0)
  {
    forall k | 0 <= k < NLMSG_HDRLEN
      ensures buf[off + k] == b[k]
    {
      assert buf[off + k] == buf[off..off + NLMSG_HDRLEN][k];
    }
  }

  lemma HeaderRoundTrip(host: Endian, h: NlMsgHdr)
    ensures HeaderAt(host, EncodeHeader(host, h), 0) == h
  {
    var b := EncodeHeader(host, h);
    assert b[0..4] == U32Bytes(host, h.len);
    assert b[4..6] == U16Bytes(host, h.kind);
    assert b[6..8] == U16Bytes(host, h.flags);
    assert b[8..12] == U32Bytes(host, h.seqNo);
    assert b[12..16] == U32Bytes(host, h.pid);
    U32AtOfBytes(host, b, 0, h.len);
    U16AtOfBytes(host, b, 4, h.kind);
    U16AtOfBytes(host, b, 6, h.flags);
    U32AtOfBytes(host, b, 8, h.seqNo);
    U32AtOfBytes(host, b, 12, h.pid);
  }

  lemma HeaderBytesRoundTrip(host: Endian, b: seq<byte>)
    requires |b| == NLMSG_HDRLEN
    ensures EncodeHeader(host, HeaderAt(host, b, 0)) == b
  {
    var h := HeaderAt(host, b, 0);
    U32AtBytes(host, b, 0);
    U16AtBytes(host, b, 4);
    U16AtBytes(host, b, 6);
    U32AtBytes(host, b, 8);
    U32AtBytes(host, b, 12);
    calc {
      EncodeHeader(host, h);
      b[0..4] + b[4..6] + b[6..8] + b[8..12] + b[12..16];
      { assert b[0..4] + b[4..6] == b[0..6];
        assert b[0..6] + b[6..8] == b[0..8];
        assert b[0..8] + b[8..12] == b[0..12];
        assert b[0..12] + b[12..16] == b[0..16]; }
      b[0..16];
      { assert b[0..16] == b; }
      b;
    }
  }

  /** `NLMSG_OK(nlh, len)` with `nlh` at byte `off` and `len` the bytes
      left after it, `|buf| - off`: at least a header's worth remains, and
      the declared length is at least a header and at most what remains.
      The header is only read once sixteen bytes are known to remain. */
  predicate NlmsgOk(host: Endian, buf: seq<byte>, off: nat)
  {
    && |buf| - off >= NLMSG_HDRLEN
    && var h := HeaderAt(host, buf, off);
       NLMSG_HDRLEN <= h.len <= |buf| - off
  }

  /** `NLMSG_NEXT`: the offset of the following message; the remaining
      count `|buf| - off` drops by the same amount. */
  function NlmsgNext(host: Endian, buf: seq<byte>, off: nat): (next: nat)
    requires NlmsgOk(host, buf, off)
    requires |buf| <= 0xFFFF_FFFC
    ensures off + HeaderAt(host, buf, off).len <= next
    ensures next < off + HeaderAt(host, buf, off).len + NLMSG_ALIGNTO
    ensures next >= off + NLMSG_HDRLEN
    ensures (next - off) % NLMSG_ALIGNTO == 0
  {
    off + NlmsgAlign(HeaderAt(host, buf, off).len)
  }

  /** A message as a sender lays it out: header, payload, then zero
      padding up to the next 4-byte boundary. */
  datatype Envelope = Envelope(hdr: NlMsgHdr, payload: seq<byte>)

  /** The header's length field counts exactly the header and the payload
      (and is small enough for its padding to be representable). */
  predicate WellFramed(e: Envelope)
  {
    && e.hdr.len == NLMSG_HDRLEN + |e.payload|
    && e.hdr.len <= 0xFFFF_FFFC
  }

  function EncodeEnvelope(host: Endian, e: Envelope): (b: seq<byte>)
    requires WellFramed(e)
    ensures |b| == NlmsgAlign(e.hdr.len)
  {
    var padded := NlmsgAlign(e.hdr.len);
    EncodeHeader(host, e.hdr) + e.payload + Zeros(padded - e.hdr.len)
  }

  predicate AllWellFramed(es: seq<Envelope>)
  {
    forall i :: 0 <= i < |es| ==> WellFramed(es[i])
  }

  /** Byte strings laid out back to back: how envelopes are packed into a
      datagram, and how `sendmsg` gathers the segments of an iovec. */
  function Concat(cs: seq<seq<byte>>): (b: seq<byte>)
  {
    if cs == [] then [] else cs[0] + Concat(cs[1..])
  }

  /** The encoding of each envelope, in order. */
  function Encodings(host: Endian, es: seq<Envelope>): (cs: seq<seq<byte>>)
    requires AllWellFramed(es)
    ensures |cs| == |es|
  {
    if es == [] then [] else [EncodeEnvelope(host, es[0])] + Encodings(host, es[1..])
  }

  /** Envelopes packed back to back into one datagram, each starting on a
      4-byte boundary. */
  function EncodeAll(host: Endian, es: seq<Envelope>): seq<byte>
    requires AllWellFramed(es)
  {
    Concat(Encodings(host, es))
  }
}
