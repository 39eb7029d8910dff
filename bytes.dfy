/** Byte-level building blocks: unsigned integer widths, big-endian packing as the
    `bytes` crate's `put_u16`/`get_u16` do it, the growable `BytesMut` buffer, and
    the zero-initialised fixed receive buffer that a socket read fills. */
module Bytes {

  type byte = x: int | 0 <= x < 0x100
  type u16 = x: int | 0 <= x < 0x1_0000

  function Min(a: int, b: int): int { if a <= b then a else b }

  /** The two bytes `put_u16` writes for `v`, most significant first. */
  function U16Bytes(v: u16): (b: seq<byte>)
    ensures |b| == 2 && b[0] as int * 0x100 + b[1] == v
  {
    [v / 0x100, v % 0x100]
  }

  /** The value `get_u16` reads from a high byte and a low byte. */
  function BeU16(hi: byte, lo: byte): (v: u16)
    ensures U16Bytes(v) == [hi, lo]
  {
    hi as int * 0x100 + lo
  }

  /** A `[0; size]` buffer after one read has copied `received` into its front. */
  function ReceiveBuffer(received: seq<byte>, size: nat): (rx: seq<byte>)
    requires |received| <= size
    ensures |rx| == size && rx[..|received|] == received
    ensures forall i :: |received| <= i < size ==> rx[i] == 0
  {
    received + seq(size - |received|, _ => 0)
  }

  /** The `bytes::BytesMut` buffer: a byte sequence that `put_*` calls extend at the end.
      Its capacity only affects allocation, so it is not modelled. */
  class BytesMut {
    var data: seq<byte>

    constructor ()
      ensures data == []
    {
      data := [];
    }

    method PutU8(b: byte)
      modifies this
      ensures data == old(data) + [b]
    {
      data := data + [b];
    }

    method PutU16(v: u16)
      modifies this
      ensures data == old(data) + U16Bytes(v)
    {
      data := data + U16Bytes(v);
    }

    method PutSlice(s: seq<byte>)
      modifies this
      ensures data == old(data) + s
    {
      data := data + s;
    }
  }
}
