/** The sock_diag payloads for IPv4/TCP (`linux/inet_diag.h`):
    the `inet_diag_req_v2` filter a dump request carries, the
    `inet_diag_msg` record each data message carries, and the decoding the
    receive loop applies to such a record.
 */
module InetDiag {
  import opened Bytes

  const AF_INET: byte := 2
  const IPPROTO_TCP: byte := 6
  /** `TCP_ESTABLISHED` as the program defines it locally. */
  const TCP_ESTABLISHED: nat := 1
  /** The netlink message type of a sock_diag request. */
  const SOCK_DIAG_BY_FAMILY: u16 := 20

  /** `sizeof(struct inet_diag_sockid)`, `sizeof(struct inet_diag_req_v2)`
      and `sizeof(struct inet_diag_msg)`. */
  const SOCKID_SIZE: nat := 48
  const REQ_SIZE: nat := 56
  const MSG_SIZE: nat := 72

  /** `struct inet_diag_sockid`. Ports are kept as numbers (the wire holds
      them in network order); `src` and `dst` are the sixteen raw bytes of
      `idiag_src[4]` / `idiag_dst[4]`, network order, of which IPv4 uses
      the first four. */
  datatype SockId = SockId(sport: u16, dport: u16, src: seq<byte>, dst: seq<byte>,
                           ifindex: u32, cookie0: u32, cookie1: u32)

  predicate ValidSockId(id: SockId)
  {
    |id.src| == 16 && |id.dst| == 16
  }

  /** The socket id that filters on nothing: every field zero. */
  function AnySocket(): (id: SockId)
    ensures ValidSockId(id)
  {
    SockId(0, 0, Zeros(16), Zeros(16), 0, 0, 0)
  }

  /** The 48 bytes of a socket id: ports and addresses in network order,
      interface and cookie in host order. */
  function EncodeSockId(host: Endian, id: SockId): (b: seq<byte>)
    requires ValidSockId(id)
    ensures |b| == SOCKID_SIZE
  {
    U16Bytes(Big, id.sport) + U16Bytes(Big, id.dport) + id.src + id.dst
      + U32Bytes(host, id.ifindex) + U32Bytes(host, id.cookie0) + U32Bytes(host, id.cookie1)
  }

  /** `struct inet_diag_req_v2`: family, protocol, extension flags, a pad
      byte, the bitmask of TCP states to report, and the socket id filter. */
  datatype DiagReq = DiagReq(family: byte, protocol: byte, ext: byte, pad: byte,
                             states: u32, id: SockId)

  function EncodeDiagReq(host: Endian, r: DiagReq): (b: seq<byte>)
    requires ValidSockId(r.id)
    ensures |b| == REQ_SIZE
  {
    [r.family, r.protocol, r.ext, r.pad] + U32Bytes(host, r.states) + EncodeSockId(host, r.id)
  }

  /** `struct inet_diag_msg`, as the kernel fills it in a dump reply. */
  datatype DiagMsg = DiagMsg(family: byte, state: byte, timer: byte, retrans: byte,
                             id: SockId, expires: u32, rqueue: u32, wqueue: u32,
                             uid: u32, inode: u32)

  /** The 72 bytes of a reply record: socket id at offset 4 (so the source
      port is at 4, the destination port at 6, the source address at 8 and
      the destination address at 24), the inode at 68. */
  function EncodeDiagMsg(host: Endian, m: DiagMsg): (b: seq<byte>)
    requires ValidSockId(m.id)
    ensures |b| == MSG_SIZE
  {
    [m.family, m.state, m.timer, m.retrans] + EncodeSockId(host, m.id)
      + U32Bytes(host, m.expires) + U32Bytes(host, m.rqueue) + U32Bytes(host, m.wqueue)
      + U32Bytes(host, m.uid) + U32Bytes(host, m.inode)
  }

  /** What the receive loop reports about one socket: the two ports in
      host order, the four address octets in the order they are printed,
      and the inode. */
  datatype ConnRecord = ConnRecord(sport: u16, dport: u16, src: seq<byte>, dst: seq<byte>, inode: u32)

  /** One data message as the receive loop sees it. The loop never checks
      that the payload holds a whole `inet_diag_msg`; a payload shorter
      than 72 bytes would make it read past the message, so the model
      records that case instead of inventing the bytes it would read. */
  datatype Item = Conn(rec: ConnRecord) | ShortRecord(payloadLen: nat)

  /** The octets of the first `__be32` word of an address, printed by
      shifting the word as loaded on the host: wire order on a
      little-endian host, reversed on a big-endian one. */
  function PrintedOctets(host: Endian, word: seq<byte>): (o: seq<byte>)
    requires |word| == 4
    ensures o == if host.Little? then word else Reverse(word)
  {
    ShiftOctetsOfLoad(host, word);
    ShiftOctets(U32Of(host, word))
  }

  /** Decodes the payload of one data message through the `inet_diag_msg`
      overlay: `ntohs` of each port, the printed octets of each address,
      and the host-order inode. The payload itself is only read. */
  function DecodeRecord(host: Endian, payload: seq<byte>): (it: Item)
    ensures it.Conn? <==> |payload| >= MSG_SIZE
    ensures it.ShortRecord? ==> it.payloadLen == |payload|
    ensures it.Conn? ==> it.rec.sport == 0x100 * payload[4] as int + payload[5]
    ensures it.Conn? ==> it.rec.dport == 0x100 * payload[6] as int + payload[7]
  {
    if |payload| < MSG_SIZE then ShortRecord(|payload|)
    else
      NtohsReadsNetworkOrder(host, payload[4..6]);
      NtohsReadsNetworkOrder(host, payload[6..8]);
      Conn(ConnRecord(
        Ntohs(host, U16Of(host, payload[4..6])),
        Ntohs(host, U16Of(host, payload[6..8])),
        PrintedOctets(host, payload[8..12]),
        PrintedOctets(host, payload[24..28]),
        U32Of(host, payload[68..72])))
  }

  /** The address and inode fields of a decoded record: each address's
      first word printed octet by octet is its wire bytes on a
      little-endian host and those bytes reversed on a big-endian one, and
      the inode, stored back in host order, is the four bytes it was read
      from. */
  lemma DecodeRecordFields(host: Endian, payload: seq<byte>)
    requires |payload| >= MSG_SIZE
    ensures var r := DecodeRecord(host, payload).rec;
            && r.src == (if host.Little? then payload[8..12] else Reverse(payload[8..12]))
            && r.dst == (if host.Little? then payload[24..28] else Reverse(payload[24..28]))
            && U32Bytes(host, r.inode) == payload[68..72]
  {
    U32BytesOf(host, payload[68..72]);
  }

  /** Decoding a record the kernel encoded on the same host, whatever
      attribute bytes follow it in the payload, recovers its ports, its
      inode, and the first address word of each side (in wire order on a
      little-endian host). */
  lemma DecodeEncodedRecord(host: Endian, m: DiagMsg, attrs: seq<byte>)
    requires ValidSockId(m.id)
    ensures DecodeRecord(host, EncodeDiagMsg(host, m) + attrs)
         == Conn(ConnRecord(m.id.sport, m.id.dport,
                            PrintedOctets(host, m.id.src[0..4]),
                            PrintedOctets(host, m.id.dst[0..4]), m.inode))
  {
    var enc := EncodeDiagMsg(host, m);
    var b := enc + attrs;
    DiagMsgFields(host, m);
    assert b[4..6] == enc[4..6] && b[6..8] == enc[6..8];
    assert b[8..12] == enc[8..12] && b[24..28] == enc[24..28] && b[68..72] == enc[68..72];
    U16BytesOf(Big, b[4..6]);
    U16BytesOf(Big, b[6..8]);
    U32RoundTrip(host, m.inode);
  }

  /** Where the decoded fields sit in an encoded record. */
  lemma DiagMsgFields(host: Endian, m: DiagMsg)
    requires ValidSockId(m.id)
    ensures var enc := EncodeDiagMsg(host, m);
            && enc[4..6] == U16Bytes(Big, m.id.sport) && enc[6..8] == U16Bytes(Big, m.id.dport)
            && enc[8..12] == m.id.src[0..4] && enc[24..28] == m.id.dst[0..4]
            && enc[68..72] == U32Bytes(host, m.inode)
  {
  }

  /** Source port bytes `00 50` decode to port 80 on any host, and address
      bytes `7F 00 00 01` to the octets 127.0.0.1 on a little-endian host. */
  lemma DecodeExample(host: Endian, payload: seq<byte>)
    requires |payload| == MSG_SIZE
    requires payload[4] == 0x00 && payload[5] == 0x50
    requires payload[8..12] == [0x7F, 0x00, 0x00, 0x01]
    ensures DecodeRecord(host, payload).rec.sport == 80
    ensures host.Little? ==> DecodeRecord(host, payload).rec.src == [127, 0, 0, 1]
    ensures host.Big? ==> DecodeRecord(host, payload).rec.src == [1, 0, 0, 127]
  {
  }
}
