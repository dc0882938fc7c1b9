# socket_diag: a Dafny model of a netlink sock_diag client

`socket_diag.c` is a small Linux program. It enters a network namespace
and opens a `NETLINK_INET_DIAG` socket. It sends one `SOCK_DIAG_BY_FAMILY`
dump request asking for established IPv4 TCP sockets. It then receives
netlink datagrams until the kernel sends `NLMSG_DONE`. For every
`inet_diag_msg` record in between, it prints the ports, the first address
word of each side and the inode.

This project models the logic inside `main`. Each part is a module:

- `Bytes`: bytes, 16- and 32-bit values in a host byte order (`Endian`), `ntohs`, and the shift-and-mask octet printing.
- `Netlink`: the 16-byte `nlmsghdr`, `NLMSG_ALIGN`, `NLMSG_LENGTH`, `NLMSG_OK` and `NLMSG_NEXT`, written from the C macro definitions. It also has a sender-side encoder for well-framed messages, used to state properties.
- `InetDiag`: the `inet_diag_sockid`, `inet_diag_req_v2` and `inet_diag_msg` layouts (48, 56 and 72 bytes), and the record decoder (`DecodeRecord`).
- `Request`: the request builder (`Build`) and the two scatter-gather segments `sendmsg` gathers.
- `Demux`: one pass of the inner loop over one datagram.
  - `Walk` is the loop as written.
  - `Frames` + `Classify` split it into framing and classification.
  - `WalkIsClassify` shows the two agree.
- `Driver`: the outer receive loop.
  - `Loop` is the control flow over what each `recv` led to.
  - `Drive` / `RunDump` feed it the datagrams and decode the data payloads it collects.

Things the program gets from the operating system are parameters:
- The host byte order is a parameter (`Endian`).
- Whether `sendmsg` succeeded is a boolean.
- What the successive `recv` calls return is a finite sequence of receive results, each a datagram or a failure.

When that sequence runs out before a DONE, ERROR or failure, the real
program would still be blocked in `recv`. The model reports this as the
outcome `Starved`.

The model follows the code, including where a reader might expect
otherwise:

- A message whose declared length is too short, or longer than the bytes
  left, is not a framing error. `NLMSG_OK` fails, the inner loop ends
  silently, and the program calls `recv` again.
- The payload of an `NLMSG_ERROR` message is never read. Any ERROR
  message ends the program with status -1, whatever error code it carries.
- There is no attribute (TLV) scanning. The code only has a TODO for it.

The C code casts every data payload to `struct inet_diag_msg` without
checking its length. A payload shorter than 72 bytes would make it read
past the message. The model makes this case explicit: `DecodeRecord`
yields `ShortRecord(len)` instead of inventing the bytes the C code
would read.

## Model

| member | source | states |
|---|---|---|
| Bytes.Ntohs | socket_diag.c:147-148 | the big-endian bytes of `ntohs(v)` are the bytes of `v` as stored on the host: the conversion reads network order on either host |
| Bytes.NtohsReadsNetworkOrder | socket_diag.c:147-148 | on any host, `ntohs` of a port field loaded from wire bytes `b0 b1` is `256*b0 + b1` |
| Bytes.ShiftOctets | socket_diag.c:149-158 | the four octets `(v >> 0) & 0xff` … `(v >> 24) & 0xff` put back together least significant first give `v`: no bit is lost or duplicated |
| Bytes.ShiftOctetsOfLoad | socket_diag.c:149-158 | printing an address word loaded from wire bytes `b` gives `b` in wire order on a little-endian host and reversed on a big-endian host |
| Netlink.NlmsgOk | socket_diag.c:137 | `NLMSG_OK`: at least 16 bytes remain and the declared length is between 16 and the bytes remaining; `Frames` and `FramesAdmitted` state that the walk visits a message exactly when it holds |
| Netlink.HeaderAt | socket_diag.c:136-140 | the `nlmsghdr *` overlay at an offset; `HeaderAtSlice`, `HeaderRoundTrip` and `HeaderBytesRoundTrip` state that it reads exactly the 16 bytes under it, losing nothing |
| Netlink.NlmsgAlign | socket_diag.c:164 | `NLMSG_ALIGN` rounds a length up to the next multiple of 4, adding less than 4, and wraps to 0 in 32-bit arithmetic above 0xFFFFFFFC |
| Netlink.HeaderAtSlice | socket_diag.c:136-140 | the header an `nlmsghdr *` overlay reads depends only on the 16 bytes under it |
| Netlink.HeaderRoundTrip | socket_diag.c:104-106 | a header stored in host order and read back through the overlay gives the same five fields |
| Netlink.HeaderBytesRoundTrip | socket_diag.c:136-137 | any 16 bytes read as a header and stored back give the same bytes: the overlay loses nothing |
| Netlink.NlmsgNext | socket_diag.c:164 | `NLMSG_NEXT` moves forward by a multiple of 4 that is at least the declared length and less than 4 bytes past it, so at least a header (16 bytes): the declared length rounded up by `NLMSG_ALIGN` |
| InetDiag.PrintedOctets | socket_diag.c:149-158 | the octets printed for an address are its first four wire bytes on a little-endian host and those bytes reversed on a big-endian host |
| InetDiag.DecodeRecord | socket_diag.c:144-159 | a payload gives a connection record exactly when it holds a whole 72-byte `inet_diag_msg`, and otherwise a short-record item with its length; the ports are the network-order values of bytes 4-5 and 6-7 |
| InetDiag.DecodeRecordFields | socket_diag.c:149-159 | for every payload holding a whole record, the printed octets of each address are its first four wire bytes (offsets 8 and 24) on a little-endian host and those bytes reversed on a big-endian one, and the inode is the host-order value of bytes 68-71 |
| InetDiag.DecodeEncodedRecord | socket_diag.c:144-159 | decoding an `inet_diag_msg` that was encoded on the same host, whatever attribute bytes follow it in the payload, gives back its two ports, its inode, and the printed octets of each address's first word |
| InetDiag.DecodeExample | socket_diag.c:147-153 | port bytes `00 50` decode to 80 on any host; address bytes `7F 00 00 01` print as 127.0.0.1 on a little-endian host and as 1.0.0.127 on a big-endian one |
| Request.SingleStateMask | socket_diag.c:99 | the state mask `1 << s` selects TCP state `s` and no other |
| Request.Build | socket_diag.c:88-112 | the request is addressed to the kernel (AF_NETLINK, port id 0) and typed SOCK_DIAG_BY_FAMILY with NLM_F_DUMP, NLM_F_REQUEST; its filter asks for AF_INET and IPPROTO_TCP, selects ESTABLISHED and no other of the 32 states, asks for no extensions, and leaves every socket-id field (ports, addresses, interface, cookie) zero |
| Request.IoVec | socket_diag.c:114-117 | the request goes out as exactly two segments, the header then the filter; `GatherRequest` and `RequestWire` state the bytes `sendmsg` sends from them |
| Request.GatherRequest | socket_diag.c:114-122 | the bytes `sendmsg` gathers from the two segments are the header's 16 bytes followed by the filter's |
| Request.AnySocketWire | socket_diag.c:109-112 | the zeroed socket-id filter is 48 zero bytes on the wire |
| Request.RequestWire | socket_diag.c:104-122 | the gathered request is 72 bytes and its header's length field says 72 (`NLMSG_LENGTH(sizeof(conn_req))`); its header reads back as SOCK_DIAG_BY_FAMILY with NLM_F_DUMP, NLM_F_REQUEST, sequence number 0 and port id 0; its filter bytes hold AF_INET, TCP, no extensions, a zero pad byte, the state mask 2, and zeros for the whole socket id |
| Demux.Payload | socket_diag.c:144 | `NLMSG_DATA` gives exactly the declared length minus the header |
| Demux.Frames | socket_diag.c:136-164 | every message the walk visits lies wholly inside the received bytes, and the walk visits a message exactly when `NLMSG_OK` holds at its start |
| Demux.FramesStep | socket_diag.c:137-164 | from an offset `NLMSG_OK` admits, the walk visits that message and then the messages from where `NLMSG_NEXT` leads |
| Demux.FramesAdmitted | socket_diag.c:137 | every visited message is admitted by `NLMSG_OK` at its offset, with the header read there |
| Demux.FramesChained | socket_diag.c:137-164 | the visited messages start at the first offset, each starts where `NLMSG_NEXT` of the one before leads, and message `i` starts at least `16*i` bytes in: offsets strictly increase |
| Demux.FramesStop | socket_diag.c:137-164 | `NLMSG_OK` fails where `NLMSG_NEXT` of the last visited message leads |
| Demux.FramesDisjoint | socket_diag.c:137-164 | no visited message overlaps a later one |
| Demux.FirstTerminal | socket_diag.c:139-141 | the index it returns is that of the first ERROR or DONE message, or the number of messages when there is none |
| Demux.Classify | socket_diag.c:137-165 | the payloads handed on are those of the messages before the first ERROR or DONE, in order; that message decides how the pass ends, and a pass with none runs out |
| Demux.Walk | socket_diag.c:136-165 | the inner loop as written; `WalkIsClassify` and `PassSpec` state what a pass hands on and how it ends, and `WalkPacked` states it for packed datagrams |
| Demux.WalkIsClassify | socket_diag.c:136-165 | the inner loop as written equals framing followed by classification |
| Demux.PassSpec | socket_diag.c:136-165 | a pass over a datagram hands on exactly the in-bounds payloads of the messages before the first ERROR or DONE, in arrival order; it ends with ERROR, with DONE, or by running out, each exactly when the first terminal message is of that kind or missing |
| Demux.PackedStep | socket_diag.c:137-164 | a well-framed message stored at an offset is admitted by `NLMSG_OK` with its own header and payload, and `NLMSG_NEXT` leads just past its padding |
| Demux.WalkPacked | socket_diag.c:137-165 | over messages packed back to back, whatever precedes or follows them, the pass hands on the payloads before the first ERROR or DONE and ends as that message says |
| Demux.PackedDatagram | socket_diag.c:137-165 | a datagram packed the way the kernel packs it, whose first ERROR or DONE is message `k`, hands on the payloads of the first `k` messages in order and ends as message `k` says; messages after it are never looked at |
| Demux.DataDatagram | socket_diag.c:137-164 | a datagram of data messages only hands on every payload, in order, and runs out without failing |
| Demux.CutHeaderNotOk | socket_diag.c:137 | a header whose length claims more bytes than the datagram still holds fails `NLMSG_OK` |
| Demux.TruncatedTailIgnored | socket_diag.c:137-166 | data messages followed by a message that is cut short: their payloads are handed on, the cut message is not decoded, and the pass runs out instead of failing |
| Driver.ExitStatus | socket_diag.c:168-178 | the value `main` returns once the dump has ended; `ExitStatusIsZeroOnlyWhenDone` states it is 0 exactly on DONE and -1 otherwise |
| Driver.ExitStatusIsZeroOnlyWhenDone | socket_diag.c:168-178 | `main` returns 0 exactly when the dump ended on DONE, and -1 in every other case |
| Driver.Loop | socket_diag.c:130-166 | the receive loop never ends with a send failure, and it is left waiting exactly when every event lets it go back to `recv` |
| Driver.LoopStopsAtFirst | socket_diag.c:130-141 | the first event after which the program does not call `recv` again decides how the dump ends; the loop has met the data payloads of events 0 to that one, in arrival order, and never looks at later events |
| Driver.LoopStarved | socket_diag.c:130-166 | when every event lets the program go back to `recv`, it meets all their data payloads in arrival order and is still waiting |
| Driver.LoopAppend | socket_diag.c:130-166 | events after the dump ended change nothing; events while it is still waiting continue the same dump, their payloads after the earlier ones |
| Driver.Clip | socket_diag.c:131 | `recv` into the 4096-byte buffer keeps a shorter datagram whole and cuts a longer one to its first 4096 bytes |
| Driver.EventOf | socket_diag.c:131-137 | a receive result leads to a failure or to one pass over the bytes `recv` left in the buffer; `TruncatedDatagramContinues`, `ErrorReplyFails` and `TwoRecordsThenDone` state what it gives for concrete datagrams |
| Driver.Drive | socket_diag.c:130-166 | the receive loop over a sequence of receive results; `DriveStopsAtFirst` and `DriveAppend` state how it ends and which records it prints, in arrival order |
| Driver.RunDump | socket_diag.c:125-130 | a failed `sendmsg` ends the program with no record printed; after a successful one, the end is never a send failure |
| Driver.DriveAppend | socket_diag.c:130-166 | receive results after the dump ended are never looked at; results while it is still waiting continue it, their records printed after the earlier ones |
| Driver.DriveStopsAtFirst | socket_diag.c:130-166 | if receive result `j` is the first after which the program stops, the dump ends as it says and prints the records of every data message received up to it, in order within and across datagrams |
| Driver.TruncatedDatagramContinues | socket_diag.c:130-166 | a datagram ending in a message cut short does not fail the dump: its data payloads are handed on and the program calls `recv` again |
| Driver.TwoRecordsThenDone | socket_diag.c:137-170 | a datagram holding two data messages, then one holding DONE: status 0, with exactly the two records printed, in order |
| Driver.ErrorReplyFails | socket_diag.c:130-141 | a reply that is a single ERROR message, whatever its payload, ends the dump with status -1 and no records; nothing received after it is looked at |
| Driver.SendFailureFails | socket_diag.c:124-127 | a failed `sendmsg` means status -1 and no records, whatever `recv` would have returned |

## Left out

- Command-line check, `open` of the namespace link, `setns`, `socket`, `close`, and the `DIE`/`GOTO` cleanup paths (socket_diag.c:72-86, 172-176): operating-system calls. Only the `sendmsg` and `recv` outcomes are modelled.
- `printf` rendering: the model gives the decoded values (ports, printed octets, inode), not the text.
- Attribute (rtattr) scanning and `tcp_info`: the code does not implement them (a TODO at socket_diag.c:161), and the request asks for no extensions.
- The error code inside an `NLMSG_ERROR` payload: the code never reads it.
- Rejection of unsupported address families: the code has none.
- Blocking in `recv`: the input is a finite sequence of receive results, and running out of it is the outcome `Starved`.
- `recv` flags such as `MSG_TRUNC`: a datagram longer than 4096 bytes is cut by `Clip`, and the program cannot tell that it was cut.
- Sequence numbers and port ids of replies: the code does not check them, and neither does the model.
- topology.py: network set-up scripting with no logic of its own.
- InetDiag.DecodeRecord: its own contract states only when a record is short and what the ports are. The addresses and the inode are stated by the lemma DecodeRecordFields, for every payload holding a whole record.
- Netlink.NlmsgNext: requires the buffer to be at most 0xFFFFFFFC bytes, so that the 32-bit `NLMSG_ALIGN` of an admitted length cannot wrap; the receive buffer is 4096 bytes, so every call in the program meets it.
