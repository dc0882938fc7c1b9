/** Fixed-width unsigned integers and their byte layouts.

    The C program reads and writes every multi-byte field through a struct
    overlay, so a field's bytes are in the host's byte order unless the
    field is declared big-endian (`__be16`, `__be32`).  The host order is a
    parameter of the model rather than a fixed choice.
 */
module Bytes {

  type byte = x: int | 0 <= x < 0x100
  type u16 = x: int | 0 <= x < 0x1_0000
  type u32 = x: int | 0 <= x < 0x1_0000_0000

  /** Byte order of a machine word in memory. */
  datatype Endian = Little | Big

  /** `n` zero bytes, as `memset(…, 0, n)` leaves them. */
  function Zeros(n: nat): (z: seq<byte>)
    ensures |z| == n
    ensures forall i :: 0 <= i < n ==> z[i] == 0
  {
    if n == 0 then [] else [0] + Zeros(n - 1)
  }

  function Reverse(s: seq<byte>): (r: seq<byte>)
    ensures |r| == |s|
    ensures forall i :: 0 <= i < |s| ==> r[i] == s[|s| - 1 - i]
  {
    if s == [] then [] else Reverse(s[1..]) + [s[0]]
  }

  /** The two bytes of `v` in memory order `e`. */
  function U16Bytes(e: Endian, v: u16): (b: seq<byte>)
    ensures |b| == 2
  {
    var lo, hi := v % 0x100, v / 0x100;
    if e.Little? then [lo, hi] else [hi, lo]
  }

  /** The 16-bit value stored in the two bytes `b` in memory order `e`. */
  function U16Of(e: Endian, b: seq<byte>): u16
    requires |b| == 2
  {
    if e.Little? then b[0] as int + 0x100 * b[1] as int else 0x100 * b[0] as int + b[1]
  }

  /** The four bytes of `v` in memory order `e`. */
  function U32Bytes(e: Endian, v: u32): (b: seq<byte>)
    ensures |b| == 4
  {
    var q1 := v / 0x100;
    var q2 := q1 / 0x100;
    var b0, b1, b2, b3 := v % 0x100, q1 % 0x100, q2 % 0x100, q2 / 0x100;
    if e.Little? then [b0, b1, b2, b3] else [b3, b2, b1, b0]
  }

  /** The 32-bit value stored in the four bytes `b` in memory order `e`. */
  function U32Of(e: Endian, b: seq<byte>): u32
    requires |b| == 4
  {
    if e.Little? then b[0] as int + 0x100 * (b[1] as int + 0x100 * (b[2] as int + 0x100 * b[3] as int))
    else b[3] as int + 0x100 * (b[2] as int + 0x100 * (b[1] as int + 0x100 * b[0] as int))
  }

  /** The 16-bit value stored at byte `off` of `buf`. */
  function U16At(e: Endian, buf: seq<byte>, off: nat): u16
    requires off + 2 <= |buf|
  {
    if e.Little? then buf[off] as int + 0x100 * buf[off + 1] as int
    else 0x100 * buf[off] as int + buf[off + 1]
  }

  /** The 32-bit value stored at byte `off` of `buf`. */
  function U32At(e: Endian, buf: seq<byte>, off: nat): u32
    requires off + 4 <= |buf|
  {
    if e.Little? then
      buf[off] as int + 0x100 * (buf[off + 1] as int + 0x100 * (buf[off + 2] as int + 0x100 * buf[off + 3] as int))
    else
      buf[off + 3] as int + 0x100 * (buf[off + 2] as int + 0x100 * (buf[off + 1] as int + 0x100 * buf[off] as int))
  }

  /** Loading in place is loading the slice. */
  lemma LoadAtSlice(e: Endian, buf: seq<byte>, off: nat)
    ensures off + 2 <= |buf| ==> U16At(e, buf, off) == U16Of(e, buf[off..off + 2])
    ensures off + 4 <= |buf| ==> U32At(e, buf, off) == U32Of(e, buf[off..off + 4])
  {
  }

  lemma U16RoundTrip(e: Endian, v: u16)
    ensures U16Of(e, U16Bytes(e, v)) == v
  {
  }

  lemma U16BytesOf(e: Endian, b: seq<byte>)
    requires |b| == 2
    ensures U16Bytes(e, U16Of(e, b)) == b
  {
  }

  lemma U32RoundTrip(e: Endian, v: u32)
    ensures U32Of(e, U32Bytes(e, v)) == v
  {
    var q1 := v / 0x100;
    var q2 := q1 / 0x100;
    assert v == v % 0x100 + 0x100 * q1;
    assert q1 == q1 % 0x100 + 0x100 * q2;
    assert q2 == q2 % 0x100 + 0x100 * (q2 / 0x100);
  }

  lemma U32BytesOf(e: Endian, b: seq<byte>)
    requires |b| == 4
    ensures U32Bytes(e, U32Of(e, b)) == b
  {
    var le := if e.Little? then b else [b[3], b[2], b[1], b[0]];
    var v := U32Of(e, b);
    var q2: int := le[2] as int + 0x100 * le[3] as int;
    var q1: int := le[1] as int + 0x100 * q2;
    assert v == le[0] as int + 0x100 * q1;
    assert v / 0x100 == q1 && v % 0x100 == le[0];
    assert q1 / 0x100 == q2 && q1 % 0x100 == le[1];
    assert q2 / 0x100 == le[3] && q2 % 0x100 == le[2];
    assert U32Bytes(Little, v) == le;
  }

  /** Loading in place the bytes a value was stored as gives the value back. */
  lemma U16AtOfBytes(e: Endian, buf: seq<byte>, off: nat, v: u16)
    requires off + 2 <= |buf| && buf[off..off + 2] == U16Bytes(e, v)
    ensures U16At(e, buf, off) == v
  {
    LoadAtSlice(e, buf, off);
    U16RoundTrip(e, v);
  }

  lemma U32AtOfBytes(e: Endian, buf: seq<byte>, off: nat, v: u32)
    requires off + 4 <= |buf| && buf[off..off + 4] == U32Bytes(e, v)
    ensures U32At(e, buf, off) == v
  {
    LoadAtSlice(e, buf, off);
    U32RoundTrip(e, v);
  }

  /** Storing back a value loaded in place gives the bytes it was loaded from. */
  lemma U16AtBytes(e: Endian, buf: seq<byte>, off: nat)
    requires off + 2 <= |buf|
    ensures U16Bytes(e, U16At(e, buf, off)) == buf[off..off + 2]
  {
    LoadAtSlice(e, buf, off);
    U16BytesOf(e, buf[off..off + 2]);
  }

  lemma U32AtBytes(e: Endian, buf: seq<byte>, off: nat)
    requires off + 4 <= |buf|
    ensures U32Bytes(e, U32At(e, buf, off)) == buf[off..off + 4]
  {
    LoadAtSlice(e, buf, off);
    U32BytesOf(e, buf[off..off + 4]);
  }

  /** `ntohs`: a `__be16` field read as a host `u16` is byte-swapped on a
      little-endian host and left alone on a big-endian one. */
  function Ntohs(host: Endian, v: u16): (r: u16)
    ensures U16Bytes(Big, r) == U16Bytes(host, v)
  {
    if host.Little? then (v % 0x100) * 0x100 + v / 0x100 else v
  }

  /** Whatever the host order, `ntohs` of the field loaded from two wire
      bytes is the big-endian (network order) value of those bytes. */
  lemma NtohsReadsNetworkOrder(host: Endian, b: seq<byte>)
    requires |b| == 2
    ensures Ntohs(host, U16Of(host, b)) == 0x100 * b[0] as int + b[1]
  {
  }

  /** The four octets `(v >> 0) & 0xff`, `(v >> 8) & 0xff`, `(v >> 16) & 0xff`
      and `(v >> 24) & 0xff`, in that order. */
  function ShiftOctets(v: u32): (o: seq<byte>)
    ensures |o| == 4
    ensures U32Of(Little, o) == v
  {
    var o := [v % 0x100, (v / 0x100) % 0x100, (v / 0x1_0000) % 0x100, (v / 0x100_0000) % 0x100];
    assert v / 0x1_0000 == (v / 0x100) / 0x100;
    assert v / 0x100_0000 == ((v / 0x100) / 0x100) / 0x100;
    assert o == U32Bytes(Little, v);
    U32RoundTrip(Little, v);
    o
  }

  /** Printing a host-order word of an address octet by octet, least
      significant first, gives the wire bytes on a little-endian host and
      the wire bytes reversed on a big-endian host. */
  lemma ShiftOctetsOfLoad(host: Endian, b: seq<byte>)
    requires |b| == 4
    ensures ShiftOctets(U32Of(host, b)) == if host.Little? then b else Reverse(b)
  {
    var v := U32Of(host, b);
    var o := ShiftOctets(v);
    U32BytesOf(Little, o);
    U32BytesOf(host, b);
    assert o == U32Bytes(Little, v);
    if host.Big? {
      assert U32Bytes(Big, v) == Reverse(U32Bytes(Little, v));
    }
  }
}
