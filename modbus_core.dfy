/** What src/modbus/core.rs does differently from the shared codec: its `encode_req`
    returns a fresh buffer instead of appending to the caller's, and it has no response
    decoder. Its `conv_u16`, header codec, request codec, `byte_len`, response encoder and
    `gen_write_buf` behave byte for byte like those in module Codec. */
module ModbusCore {
  import opened Bytes
  import opened Codec

  /** `encode_req`: a fresh frame under the fixed header holding the request PDU. */
  method EncodeReq(req: ModbusRequest) returns (frame: seq<byte>)
    ensures frame == FrameBytes(FIXED_HEADER, RequestPdu(req))
    ensures req.ReadHoldingRegistersRequest? ==>
      |frame| == 12 && frame[4..6] == [0, 6] && frame[7..] == EncodeRequest(req.address, req.quantity)
    ensures req.NoRequest? ==> frame == [0, 0, 0, 0, 0, 1, 255]
  {
    var buf := new BytesMut();
    EncodeReqInto(buf, req);
    frame := buf.data;
  }

  /** A request frame decodes, through the header decoder and
      `new_read_holding_register_request`, to the request it was built from, whatever
      header it carries and whatever bytes follow it. */
  lemma DecodeEncodedRequest(h: Header, address: u16, quantity: u16, trailing: seq<byte>)
    ensures var f := FrameBytes(h, EncodeRequest(address, quantity)) + trailing;
      |f| >= 12 && DecodeHeader(f).1 == READ_HOLDING_REGISTERS
      && NewReadHoldingRegisterRequest(DecodeHeader(f).2) == ReadHoldingRegistersRequest(address, quantity)
  {
  }
}
