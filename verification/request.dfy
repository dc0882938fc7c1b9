/** The dump request the program sends: a netlink header and an
    `inet_diag_req_v2` filter, handed to `sendmsg` as two scatter-gather
    segments addressed to the kernel.
 */
module Request {
  import opened Bytes
  import opened Netlink
  import opened InetDiag

  const AF_NETLINK: u16 := 16

  /** `struct sockaddr_nl`; a zero port id addresses the kernel. */
  datatype SockAddrNl = SockAddrNl(family: u16, pid: u32, groups: u32)

  datatype DumpRequest = DumpRequest(dest: SockAddrNl, hdr: NlMsgHdr, req: DiagReq)

  /** `1 << n`. */
  function Shl1(n: nat): (r: nat)
    ensures r > 0
  {
    if n == 0 then 1 else 2 * Shl1(n - 1)
  }

  /** `(mask >> s) & 1 == 1`: whether TCP state `s` is selected by `mask`. */
  predicate Selects(mask: nat, s: nat)
  {
    if s == 0 then mask % 2 == 1 else Selects(mask / 2, s - 1)
  }

  lemma {:induction false} EmptyMaskSelectsNothing(s: nat)
    ensures !Selects(0, s)
  {
    if s > 0 {
      EmptyMaskSelectsNothing(s - 1);
    }
  }

  /** Shifting `2 * h` right by one gives `h` back, with a clear low bit. */
  lemma Halve(h: nat)
    ensures (2 * h) / 2 == h && (2 * h) % 2 == 0
  {
  }

  /** The mask `1 << s` selects state `s` and no other. */
  lemma {:induction false} SingleStateMask(s: nat, t: nat)
    ensures Selects(Shl1(s), t) <==> t == s
  {
    if s == 0 {
      assert Shl1(s) == 1;
      if t > 0 {
        assert 1 / 2 == 0;
        assert Selects(1, t) == Selects(0, t - 1);
        EmptyMaskSelectsNothing(t - 1);
      }
    } else {
      var h := Shl1(s - 1);
      assert Shl1(s) == 2 * h;
      Halve(h);
      if t > 0 {
        assert Selects(2 * h, t) == Selects(h, t - 1);
        SingleStateMask(s - 1, t - 1);
      }
    }
  }

  /** The request `main` builds: addressed to the kernel, typed
      `SOCK_DIAG_BY_FAMILY` with `NLM_F_DUMP | NLM_F_REQUEST`, whose
      declared length covers the header and the whole filter, asking for
      IPv4 TCP sockets in the ESTABLISHED state only, with no extensions
      and no address, port, interface or cookie filtering. Everything not
      set explicitly is zero from the initial `memset`. */
  function Build(): (r: DumpRequest)
    ensures r.dest.family == AF_NETLINK && r.dest.pid == 0 && r.dest.groups == 0
    ensures ValidSockId(r.req.id)
    ensures r.hdr.kind == SOCK_DIAG_BY_FAMILY
    ensures r.hdr.flags == NLM_F_ROOT + NLM_F_MATCH + NLM_F_REQUEST
    ensures r.hdr.seqNo == 0 && r.hdr.pid == 0
    ensures r.req.family == AF_INET && r.req.protocol == IPPROTO_TCP
    ensures forall s :: 0 <= s < 32 ==> (Selects(r.req.states, s) <==> s == TCP_ESTABLISHED)
    ensures r.req.ext == 0 && r.req.pad == 0
    ensures r.req.id.sport == 0 && r.req.id.dport == 0
    ensures r.req.id.ifindex == 0 && r.req.id.cookie0 == 0 && r.req.id.cookie1 == 0
    ensures forall i :: 0 <= i < 16 ==> r.req.id.src[i] == 0 && r.req.id.dst[i] == 0
  {
    forall s | 0 <= s < 32
      ensures Selects(Shl1(TCP_ESTABLISHED), s) <==> s == TCP_ESTABLISHED
    {
      SingleStateMask(TCP_ESTABLISHED, s);
    }
    var req := DiagReq(AF_INET, IPPROTO_TCP, 0, 0, Shl1(TCP_ESTABLISHED), AnySocket());
    var hdr := NlMsgHdr(NlmsgLength(REQ_SIZE), SOCK_DIAG_BY_FAMILY, NLM_F_DUMP + NLM_F_REQUEST, 0, 0);
    DumpRequest(SockAddrNl(AF_NETLINK, 0, 0), hdr, req)
  }

  /** The two iovec segments: the header, then the filter, each as it
      sits in memory on a host of order `host`. */
  function IoVec(host: Endian, r: DumpRequest): (iov: seq<seq<byte>>)
    requires ValidSockId(r.req.id)
    ensures |iov| == 2
  {
    [EncodeHeader(host, r.hdr), EncodeDiagReq(host, r.req)]
  }

  /** The gathered request is the header's bytes followed by the filter's. */
  lemma GatherRequest(host: Endian)
    ensures Concat(IoVec(host, Build())) == EncodeHeader(host, Build().hdr) + EncodeDiagReq(host, Build().req)
  {
    var iov := IoVec(host, Build());
    assert Concat(iov[1..][1..]) == [];
  }

  /** The socket id that filters on nothing is 48 zero bytes on the wire. */
  lemma AnySocketWire(host: Endian)
    ensures forall i :: 0 <= i < SOCKID_SIZE ==> EncodeSockId(host, AnySocket())[i] == 0
  {
    assert U32Bytes(host, 0) == [0, 0, 0, 0] && U16Bytes(Big, 0) == [0, 0];
  }

  /** The wire request is self-consistent and carries the filter: the
      length field at its start equals the number of bytes gathered (72),
      the type and flags read back from the header, and the filter bytes
      hold AF_INET, TCP, no extensions, the ESTABLISHED-only mask, and an
      all-zero socket id. */
  lemma {:induction false} RequestWire(host: Endian)
    ensures var b := Concat(IoVec(host, Build()));
      && |b| == NlmsgLength(REQ_SIZE) == 72
      && HeaderAt(host, b, 0).len == |b|
      && HeaderAt(host, b, 0).kind == SOCK_DIAG_BY_FAMILY
      && HeaderAt(host, b, 0).flags == NLM_F_DUMP + NLM_F_REQUEST
      && HeaderAt(host, b, 0).seqNo == 0 && HeaderAt(host, b, 0).pid == 0
      && b[16] == AF_INET && b[17] == IPPROTO_TCP && b[18] == 0 && b[19] == 0
      && U32Of(host, b[20..24]) == 2
      && (forall i :: 24 <= i < 72 ==> b[i] == 0)
  {
    var r := Build();
    var hd, body := EncodeHeader(host, r.hdr), EncodeDiagReq(host, r.req);
    var b := Concat(IoVec(host, r));
    GatherRequest(host);
    assert b[0..16] == hd;
    HeaderAtSlice(host, b, 0, hd);
    HeaderRoundTrip(host, r.hdr);
    assert b[20..24] == U32Bytes(host, r.req.states);
    U32RoundTrip(host, r.req.states);
    AnySocketWire(host);
    assert b[24..72] == EncodeSockId(host, AnySocket());
    forall i | 24 <= i < 72
      ensures b[i] == 0
    {
      assert b[i] == b[24..72][i - 24];
    }
  }
}
