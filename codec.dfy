/** The Modbus/TCP codec shared by src/core.rs and src/modbus/core.rs: the 7-byte MBAP
    header (section 3.1.3 of the MODBUS Messaging on TCP/IP Implementation Guide V1.0b)
    and the Read Holding Registers PDUs (function code 0x03, section 6.3 of the Modbus
    Application Protocol Specification V1.1b3). All multi-byte fields are big-endian. */
module Codec {
  import opened Bytes

  const READ_HOLDING_REGISTERS: byte := 0x03

  /** `conv_u16`: a length narrowed to 16 bits, or 0 when it does not fit. */
  function ConvU16(len: nat): (r: u16)
    ensures len < 0x1_0000 ==> r == len
    ensures len >= 0x1_0000 ==> r == 0
  {
    if len < 0x1_0000 then len else 0
  }

  /** `ModbusTCPHeader`. */
  datatype Header = Header(transId: u16, protoId: u16, length: u16, unitId: byte)

  /** The header every frame built by `gen_write_buf` and `encode_req` carries. The
      length field given here is never written: the encoder computes its own. */
  const FIXED_HEADER: Header := Header(0, 0, 0, 255)

  /** The bytes `ModbusTCPHeader::encode` appends: the header fields, a length field
      computed from `inner` (the struct's own `length` is ignored), then `inner`. */
  function FrameBytes(h: Header, inner: seq<byte>): (f: seq<byte>)
    ensures |f| == 7 + |inner| && f[7..] == inner
    ensures f[0..2] == U16Bytes(h.transId) && f[2..4] == U16Bytes(h.protoId)
    ensures f[4..6] == U16Bytes(ConvU16(|inner| + 1)) && f[6] == h.unitId
  {
    U16Bytes(h.transId) + U16Bytes(h.protoId) + U16Bytes(ConvU16(|inner| + 1)) + [h.unitId] + inner
  }

  /** `ModbusTCPHeader::encode`: appends the frame for `h` and `inner` to `buf`. */
  method EncodeHeader(h: Header, buf: BytesMut, inner: seq<byte>)
    modifies buf
    ensures buf.data == old(buf.data) + FrameBytes(h, inner)
  {
    buf.PutU16(h.transId);
    buf.PutU16(h.protoId);
    buf.PutU16(ConvU16(|inner| + 1));
    buf.PutU8(h.unitId);
    buf.PutSlice(inner);
  }

  /** `ModbusTCPHeader::decode`: the header fields, the function-code byte and the rest
      of the buffer. It needs 8 bytes (fewer make `get_*` panic) and checks neither the
      protocol id nor the length field against the bytes present. */
  function DecodeHeader(p: seq<byte>): (r: (Header, byte, seq<byte>))
    requires |p| >= 8
    ensures U16Bytes(r.0.transId) == p[0..2] && U16Bytes(r.0.protoId) == p[2..4]
    ensures U16Bytes(r.0.length) == p[4..6] && r.0.unitId == p[6]
    ensures r.1 == p[7] && r.2 == p[8..]
  {
    (Header(BeU16(p[0], p[1]), BeU16(p[2], p[3]), BeU16(p[4], p[5]), p[6]), p[7], p[8..])
  }

  /** Decoding an encoded frame gives back the header with its computed length field,
      the first inner byte as function code, and the remaining inner bytes. */
  lemma DecodeEncodedFrame(h: Header, inner: seq<byte>)
    requires |inner| >= 1
    ensures DecodeHeader(FrameBytes(h, inner)) == (h.(length := ConvU16(|inner| + 1)), inner[0], inner[1..])
  {
  }

  /** A 16-bit value is determined by its two bytes. */
  lemma U16Injective(a: u16, b: u16)
    requires U16Bytes(a) == U16Bytes(b)
    ensures a == b
  {
  }

  /** `ModbusRequest`. */
  datatype ModbusRequest = ReadHoldingRegistersRequest(address: u16, quantity: u16) | NoRequest

  /** `ReadHoldingRegistersRequest::encode`: the 5-byte request PDU. */
  function EncodeRequest(address: u16, quantity: u16): (b: seq<byte>)
    ensures |b| == 5 && b[0] == READ_HOLDING_REGISTERS
    ensures b[1..3] == U16Bytes(address) && b[3..5] == U16Bytes(quantity)
  {
    [READ_HOLDING_REGISTERS] + U16Bytes(address) + U16Bytes(quantity)
  }

  /** `ModbusRequest::new_read_holding_register_request`: address and quantity from the
      first four bytes after the function code (fewer make `get_u16` panic). */
  function NewReadHoldingRegisterRequest(p: seq<byte>): (r: ModbusRequest)
    requires |p| >= 4
    ensures r.ReadHoldingRegistersRequest?
    ensures U16Bytes(r.address) == p[0..2] && U16Bytes(r.quantity) == p[2..4]
  {
    ReadHoldingRegistersRequest(BeU16(p[0], p[1]), BeU16(p[2], p[3]))
  }

  /** Decoding the bytes after an encoded request's function code, whatever follows
      them, recovers the address and quantity. */
  lemma RequestRoundTrip(address: u16, quantity: u16, trailing: seq<byte>)
    ensures NewReadHoldingRegisterRequest(EncodeRequest(address, quantity)[1..] + trailing)
            == ReadHoldingRegistersRequest(address, quantity)
  {
  }

  /** The PDU `encode_req` frames: the request bytes, or nothing for `ModbusRequest::None`. */
  function RequestPdu(req: ModbusRequest): seq<byte>
  {
    match req
    case ReadHoldingRegistersRequest(address, quantity) => EncodeRequest(address, quantity)
    case NoRequest => []
  }

  /** `encode_req` of src/core.rs: appends the request frame, under the fixed header, to
      the caller's buffer. */
  method EncodeReqInto(buf: BytesMut, req: ModbusRequest)
    modifies buf
    ensures buf.data == old(buf.data) + FrameBytes(FIXED_HEADER, RequestPdu(req))
  {
    var inner := match req
      case ReadHoldingRegistersRequest(address, quantity) => EncodeRequest(address, quantity)
      case NoRequest => [];
    EncodeHeader(FIXED_HEADER, buf, inner);
  }

  /** `ReadHoldingRegisterResponse::byte_len`: the low 8 bits of twice the value count. */
  function ByteLen(count: nat): (b: byte)
    ensures b % 2 == 0 && b / 2 == count % 128
  {
    (2 * count) % 0x100
  }

  /** The register values, each as two big-endian bytes, in order. */
  function ValuesBytes(values: seq<u16>): (b: seq<byte>)
    ensures |b| == 2 * |values|
  {
    if |values| == 0 then [] else ValuesBytes(values[..|values| - 1]) + U16Bytes(values[|values| - 1])
  }

  /** Value `i` occupies bytes `2i..2i+2` of the value bytes. */
  lemma {:induction false} ValuesBytesAt(values: seq<u16>, i: nat)
    requires i < |values|
    ensures ValuesBytes(values)[2 * i .. 2 * i + 2] == U16Bytes(values[i])
  {
    var n := |values|;
    var init := values[..n - 1];
    assert ValuesBytes(values) == ValuesBytes(init) + U16Bytes(values[n - 1]);
    if i < n - 1 {
      ValuesBytesAt(init, i);
      assert ValuesBytes(values)[2 * i .. 2 * i + 2] == ValuesBytes(init)[2 * i .. 2 * i + 2];
    }
  }

  /** The wire image of `ReadHoldingRegisterResponse::encode`. */
  function ResponseBytes(values: seq<u16>): (b: seq<byte>)
    ensures |b| == 2 + 2 * |values| && b[0] == READ_HOLDING_REGISTERS && b[1] == ByteLen(|values|)
    ensures forall i :: 0 <= i < |values| ==> b[2 + 2 * i .. 4 + 2 * i] == U16Bytes(values[i])
  {
    var b := [READ_HOLDING_REGISTERS, ByteLen(|values|)] + ValuesBytes(values);
    forall i | 0 <= i < |values|
      ensures b[2 + 2 * i .. 4 + 2 * i] == U16Bytes(values[i])
    {
      ValuesBytesAt(values, i);
      assert b[2 + 2 * i .. 4 + 2 * i] == ValuesBytes(values)[2 * i .. 2 * i + 2];
    }
    b
  }

  /** `ReadHoldingRegisterResponse::encode`: function code, byte count, then each value
      pushed with `put_u16`. */
  method EncodeResponse(values: seq<u16>) returns (b: seq<byte>)
    ensures b == ResponseBytes(values)
  {
    var buf := new BytesMut();
    buf.PutU8(READ_HOLDING_REGISTERS);
    buf.PutU8(ByteLen(|values|));
    var i := 0;
    while i < |values|
      invariant 0 <= i <= |values|
      invariant buf.data == [READ_HOLDING_REGISTERS, ByteLen(|values|)] + ValuesBytes(values[..i])
    {
      assert values[..i + 1][..i] == values[..i];
      buf.PutU16(values[i]);
      i := i + 1;
    }
    assert values[..i] == values;
    b := buf.data;
  }

  /** Whether `ReadHoldingRegisterResponse::decode` can read `p` without `get_*` panicking:
      a count byte and then as many whole values as it announces. */
  predicate ResponseDecodable(p: seq<byte>)
  {
    |p| >= 1 && |p| >= 1 + 2 * (p[0] / 2)
  }

  /** The values `ReadHoldingRegisterResponse::decode` reads: `p[0] / 2` of them, an odd
      count byte and any bytes after the last value being ignored. */
  function ResponseValues(p: seq<byte>): (values: seq<u16>)
    requires ResponseDecodable(p)
    ensures |values| == p[0] / 2
    ensures forall i :: 0 <= i < |values| ==> U16Bytes(values[i]) == p[1 + 2 * i .. 3 + 2 * i]
  {
    seq(p[0] / 2, i requires 0 <= i < p[0] / 2 => BeU16(p[1 + 2 * i], p[2 + 2 * i]))
  }

  /** `ReadHoldingRegisterResponse::decode` (src/core.rs only): reads the count byte, then
      advances a cursor over `count / 2` big-endian values. */
  method DecodeResponse(buf: seq<byte>) returns (values: seq<u16>)
    requires ResponseDecodable(buf)
    ensures values == ResponseValues(buf)
  {
    var n := buf[0] / 2;
    var p := buf[1..];
    values := [];
    var i := 0;
    while i < n
      invariant 0 <= i <= n
      invariant p == buf[1 + 2 * i ..]
      invariant |values| == i
      invariant forall j :: 0 <= j < i ==> values[j] == BeU16(buf[1 + 2 * j], buf[2 + 2 * j])
    {
      values := values + [BeU16(p[0], p[1])];
      p := p[2..];
      i := i + 1;
    }
  }

  /** Decoding the bytes after an encoded response's function code gives back the first
      `|values| % 128` values: the byte count keeps only the low 8 bits of `2 * |values|`. */
  lemma DecodeEncodedResponse(values: seq<u16>)
    ensures ResponseDecodable(ResponseBytes(values)[1..])
    ensures ResponseValues(ResponseBytes(values)[1..]) == values[..|values| % 128]
  {
    var p := ResponseBytes(values)[1..];
    var m := |values| % 128;
    var r := ResponseValues(p);
    forall i | 0 <= i < m
      ensures r[i] == values[i]
    {
      assert p[1 + 2 * i .. 3 + 2 * i] == ResponseBytes(values)[2 + 2 * i .. 4 + 2 * i];
      U16Injective(r[i], values[i]);
    }
  }

  /** Round trip for every response of at most 127 values. */
  lemma ResponseRoundTrip(values: seq<u16>)
    requires |values| <= 127
    ensures ResponseValues(ResponseBytes(values)[1..]) == values
  {
    DecodeEncodedResponse(values);
    assert values[..|values| % 128] == values;
  }

  /** Bytes after the last announced value do not change what is decoded. */
  lemma ResponseValuesIgnoreTrailing(p: seq<byte>, trailing: seq<byte>)
    requires ResponseDecodable(p)
    ensures ResponseDecodable(p + trailing)
    ensures ResponseValues(p + trailing) == ResponseValues(p)
  {
  }

  /** `ModbusResponse`: a Read Holding Registers response, or `None` (which, like
      `ErrorResponse`, encodes to no bytes). */
  datatype ModbusResponse = ReadHoldingRegisterResponse(values: seq<u16>) | NoResponse

  function ResponsePdu(resp: ModbusResponse): seq<byte>
  {
    match resp
    case ReadHoldingRegisterResponse(values) => ResponseBytes(values)
    case NoResponse => []
  }

  /** `gen_write_buf`: a fresh frame under the fixed header (transaction id 0, protocol
      id 0, unit id 255) holding the encoded response. */
  method GenWriteBuf(resp: ModbusResponse) returns (frame: seq<byte>)
    ensures frame == FrameBytes(FIXED_HEADER, ResponsePdu(resp))
    ensures frame[..4] == [0, 0, 0, 0] && frame[6] == 255
    ensures resp.NoResponse? ==> frame == [0, 0, 0, 0, 0, 1, 255]
  {
    var inner := [];
    match resp {
      case ReadHoldingRegisterResponse(values) =>
        inner := EncodeResponse(values);
      case NoResponse =>
    }
    var buf := new BytesMut();
    EncodeHeader(FIXED_HEADER, buf, inner);
    frame := buf.data;
  }

  /** The reply frame for `n` values: total size, fixed header fields, and a length
      field of `3 + 2 * n` while that fits in 16 bits. */
  lemma ResponseFrameLayout(values: seq<u16>)
    requires 3 + 2 * |values| < 0x1_0000
    ensures var f := FrameBytes(FIXED_HEADER, ResponsePdu(ReadHoldingRegisterResponse(values)));
      |f| == 9 + 2 * |values| && f[..4] == [0, 0, 0, 0] && f[6] == 255 && f[7] == READ_HOLDING_REGISTERS
      && BeU16(f[4], f[5]) == 3 + 2 * |values|
  {
  }
}
