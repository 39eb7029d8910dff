/** src/client.rs: `ModbusClient`, which stamps each request with a transaction id
    counter and a fixed unit id, writes it, reads one reply into a zero-filled buffer and
    decodes it by function code. The reader is the byte sequence it has yet to deliver;
    the writer is the byte sequence written to it so far. */
module Client {
  import opened Bytes
  import opened Codec

  datatype Option<T> = None | Some(value: T)

  const RX_BUF_SIZE: nat := 8096

  /** Whether `decode` can read `rx` without a `get_*` panic: a full header and function
      code, and for function code 3 a response the response decoder can read. */
  predicate ReplyDecodable(rx: seq<byte>)
  {
    |rx| >= 8 && (rx[7] == READ_HOLDING_REGISTERS ==> ResponseDecodable(rx[8..]))
  }

  /** What `read_holding_register` makes of a received buffer: the response's values for
      function code 3, nothing for any other code. The header is discarded. */
  function ReplyValues(rx: seq<byte>): Option<seq<u16>>
    requires ReplyDecodable(rx)
  {
    if rx[7] == READ_HOLDING_REGISTERS then Some(ResponseValues(rx[8..])) else None
  }

  /** The transaction id, protocol id, length field and unit id of a reply do not affect
      what is decoded: none of them is compared with the request's. */
  lemma ReplyIgnoresHeader(rx: seq<byte>, rx': seq<byte>)
    requires ReplyDecodable(rx) && |rx'| >= 8 && rx'[7..] == rx[7..]
    ensures ReplyDecodable(rx') && ReplyValues(rx') == ReplyValues(rx)
  {
    assert rx'[7] == rx[7..][0] == rx[7];
    assert rx'[8..] == rx'[7..][1..] == rx[7..][1..] == rx[8..];
  }

  /** A reply built by the server's `gen_write_buf` for at most 127 values, read into the
      client's buffer, decodes to exactly those values. */
  lemma ReplyRoundTrip(values: seq<u16>)
    requires |values| <= 127
    ensures |FrameBytes(FIXED_HEADER, ResponseBytes(values))| <= RX_BUF_SIZE
    ensures var rx := ReceiveBuffer(FrameBytes(FIXED_HEADER, ResponseBytes(values)), RX_BUF_SIZE);
      ReplyDecodable(rx) && ReplyValues(rx) == Some(values)
  {
    var inner := ResponseBytes(values);
    var f := FrameBytes(FIXED_HEADER, inner);
    var rx := ReceiveBuffer(f, RX_BUF_SIZE);
    FrameReply(f, inner, rx);
    DecodeEncodedResponse(values);
    ResponseValuesIgnoreTrailing(inner[1..], rx[7 + |inner|..]);
    ResponseRoundTrip(values);
  }

  /** A buffer that starts with a frame exposes the frame's PDU after the header. */
  lemma FrameReply(f: seq<byte>, inner: seq<byte>, rx: seq<byte>)
    requires |inner| >= 1 && |f| == 7 + |inner| && f[7..] == inner
    requires |rx| >= |f| && rx[..|f|] == f
    ensures rx[7] == inner[0] && rx[8..] == inner[1..] + rx[|f|..]
  {
  }

  class ModbusClient {
    var transId: u16
    const unitId: byte
    var input: seq<byte>
    var output: seq<byte>

    /** `ModbusClient::new`: transaction ids start at 0. */
    constructor (unitId: byte, input: seq<byte>)
      ensures this.transId == 0 && this.unitId == unitId
      ensures this.input == input && this.output == []
    {
      this.transId := 0;
      this.unitId := unitId;
      this.input := input;
      this.output := [];
    }

    /** `read`: one read into a zero-filled buffer of `RX_BUF_SIZE` bytes, which takes as
        many pending bytes as fit. */
    method Read() returns (rx: seq<byte>)
      modifies this`input
      ensures var n := Min(|old(input)|, RX_BUF_SIZE);
        rx == ReceiveBuffer(old(input)[..n], RX_BUF_SIZE) && input == old(input)[n..]
    {
      var n := Min(|input|, RX_BUF_SIZE);
      rx := ReceiveBuffer(input[..n], RX_BUF_SIZE);
      input := input[n..];
    }

    /** `write`: the whole buffer goes to the writer. */
    method Write(buf: seq<byte>)
      modifies this`output
      ensures output == old(output) + buf
    {
      output := output + buf;
    }

    /** `encode`: the request frame under the current transaction id and the client's unit
        id; the counter then goes up by one. `ModbusRequest::None` is `unimplemented!()`
        and `+= 1` at 65535 overflows, so both are excluded. */
    method Encode(request: ModbusRequest) returns (frame: seq<byte>)
      requires request.ReadHoldingRegistersRequest?
      requires transId < 0xFFFF
      modifies this`transId
      ensures transId == old(transId) + 1
      ensures frame == FrameBytes(Header(old(transId), 0, 0, unitId), EncodeRequest(request.address, request.quantity))
      ensures |frame| == 12 && frame[0..2] == U16Bytes(old(transId)) && frame[6] == unitId
    {
      var requestBuf := EncodeRequest(request.address, request.quantity);
      var header := Header(transId, 0, 0, unitId);
      transId := transId + 1;
      var buf := new BytesMut();
      EncodeHeader(header, buf, requestBuf);
      frame := buf.data;
    }

    /** `decode`: splits off the header, then decodes a Read Holding Registers response
        for function code 3 and yields no response for any other code. */
    method Decode(rx: seq<byte>) returns (response: ModbusResponse)
      requires ReplyDecodable(rx)
      ensures rx[7] == READ_HOLDING_REGISTERS ==> response == ReadHoldingRegisterResponse(ResponseValues(rx[8..]))
      ensures rx[7] != READ_HOLDING_REGISTERS ==> response == NoResponse
    {
      var (_, funcCode, p) := DecodeHeader(rx);
      if funcCode == READ_HOLDING_REGISTERS {
        var values := DecodeResponse(p);
        response := ReadHoldingRegisterResponse(values);
      } else {
        response := NoResponse;
      }
    }

    /** `read_holding_register`: encode and write the request, read one reply, and return
        its values if it is a Read Holding Registers response. */
    method ReadHoldingRegister(address: u16, quantity: u16) returns (values: Option<seq<u16>>)
      requires transId < 0xFFFF
      modifies this`transId, this`input, this`output
      ensures transId == old(transId) + 1
      ensures output == old(output) + FrameBytes(Header(old(transId), 0, 0, unitId), EncodeRequest(address, quantity))
      ensures var n := Min(|old(input)|, RX_BUF_SIZE);
        input == old(input)[n..] && values == ReplyValues(ReceiveBuffer(old(input)[..n], RX_BUF_SIZE))
    {
      var writeBuf := Encode(ReadHoldingRegistersRequest(address, quantity));
      Write(writeBuf);
      var rxBuf := Read();
      var response := Decode(rxBuf);
      match response {
        case ReadHoldingRegisterResponse(v) => values := Some(v);
        case NoResponse => values := None;
      }
    }
  }

  /** The first test of src/client.rs: a reply with byte count 2 yields one value. */
  method ReadHoldingRegisterOneValue() returns (data: Option<seq<u16>>, written: seq<byte>)
    ensures data == Some([0x1234])
    ensures written == [0x00, 0x00, 0x00, 0x00, 0x00, 0x06, 0xFF, 0x03, 0x00, 0x00, 0x00, 0x01]
  {
    var reply := [0x00, 0x00, 0x00, 0x00, 0x00, 0x05, 0xFF, 0x03, 0x02, 0x12, 0x34];
    var client := new ModbusClient(255, reply);
    data := client.ReadHoldingRegister(0x0000, 0x0001);
    written := client.output;
    assert reply[..Min(|reply|, RX_BUF_SIZE)] == reply;
    var rx := ReceiveBuffer(reply, RX_BUF_SIZE);
    assert rx[7] == 3 && rx[8] == 2 && rx[9] == 0x12 && rx[10] == 0x34;
    assert ResponseValues(rx[8..]) == [BeU16(0x12, 0x34)];
  }

  /** The second test of src/client.rs: the length field says 5 but the byte count says 4,
      and both announced values are decoded; the length field is not checked. */
  method ReadHoldingRegisterTwoValues() returns (data: Option<seq<u16>>, written: seq<byte>)
    ensures data == Some([0x1234, 0x5678])
    ensures written == [0x00, 0x00, 0x00, 0x00, 0x00, 0x06, 0xFF, 0x03, 0x00, 0x00, 0x00, 0x02]
  {
    var reply := [0x00, 0x00, 0x00, 0x00, 0x00, 0x05, 0xFF, 0x03, 0x04, 0x12, 0x34, 0x56, 0x78];
    var client := new ModbusClient(255, reply);
    data := client.ReadHoldingRegister(0x0000, 0x0002);
    written := client.output;
    assert reply[..Min(|reply|, RX_BUF_SIZE)] == reply;
    var rx := ReceiveBuffer(reply, RX_BUF_SIZE);
    assert rx[7] == 3 && rx[8] == 4 && rx[9] == 0x12 && rx[10] == 0x34 && rx[11] == 0x56 && rx[12] == 0x78;
    assert ResponseValues(rx[8..]) == [BeU16(0x12, 0x34), BeU16(0x56, 0x78)];
  }
}
