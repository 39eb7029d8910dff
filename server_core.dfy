/** src/server/core.rs: the `handle_server` loop, built on the codec of src/modbus/core.rs.
    Each iteration reads into a zero-filled 64-byte buffer, decodes and dispatches the
    frame, increments every register in place, copies the store into the response and
    writes the reply frame. */
module ServerCore {
  import opened Bytes
  import opened Codec
  import Server

  const BUF_SIZE: nat := 64

  /** The request one iteration decodes from the bytes a read delivered: `None` for
      fewer than 8 bytes; otherwise received byte 7 decides, and a frame cut short before
      byte 12 takes the missing address and quantity bytes from the zero padding. */
  function ReceivedRequest(received: seq<byte>): (request: ModbusRequest)
    requires |received| <= BUF_SIZE
    ensures |received| < 8 ==> request == NoRequest
    ensures |received| >= 8 ==> (request.ReadHoldingRegistersRequest? <==> received[7] == READ_HOLDING_REGISTERS)
    ensures |received| >= 8 && request.ReadHoldingRegistersRequest? ==>
      U16Bytes(request.address) + U16Bytes(request.quantity) == (received[8..] + [0, 0, 0, 0])[..4]
    ensures |received| >= 12 ==> request == Server.DispatchRequest(received)
  {
    var rx := ReceiveBuffer(received, BUF_SIZE);
    Server.PaddedRequestBytes(received, rx);
    Server.DispatchRequest(rx)
  }

  /** One iteration of `handle_server`: the decoded request (only printed by the source),
      the store incremented in place, and the reply frame holding an in-order copy of the
      updated store. */
  method HandleRequest(values: array<u16>, received: seq<byte>) returns (request: ModbusRequest, reply: seq<byte>)
    requires |received| <= BUF_SIZE
    requires Server.CanIncrement(values[..])
    modifies values
    ensures request == ReceivedRequest(received)
    ensures values[..] == Server.Incremented(old(values[..]))
    ensures reply == FrameBytes(FIXED_HEADER, ResponseBytes(values[..]))
  {
    var buf := ReceiveBuffer(received, BUF_SIZE);
    request := Server.DispatchRequest(buf);

    var i := 0;
    while i < values.Length
      invariant 0 <= i <= values.Length
      invariant forall j :: 0 <= j < i ==> values[j] == old(values[j]) + 1
      invariant forall j :: i <= j < values.Length ==> values[j] == old(values[j])
    {
      values[i] := values[i] + 1;
      i := i + 1;
    }
    assert values[..] == Server.Incremented(old(values[..]));

    var newValues: seq<u16> := [];
    i := 0;
    while i < values.Length
      invariant 0 <= i <= values.Length
      invariant newValues == values[..i]
    {
      newValues := newValues + [values[i]];
      i := i + 1;
    }
    assert newValues == values[..];

    reply := GenWriteBuf(ReadHoldingRegisterResponse(newValues));
  }

  /** The `handle_server` loop over the first `|requests|` reads of one connection: the
      store stays two registers long, and reply `k` carries the store after `k + 1`
      requests under the fixed header, whatever the requests held. */
  method HandleServer(requests: seq<seq<byte>>) returns (replies: seq<seq<byte>>)
    requires forall k :: 0 <= k < |requests| ==> |requests[k]| <= BUF_SIZE
    requires |requests| <= 0xFFFF - 12346
    ensures |replies| == |requests|
    ensures forall k :: 0 <= k < |replies| ==> replies[k] == Server.ReplyFrame(k + 1)
  {
    var values := new u16[2];
    values[0], values[1] := 12345, 12346;
    assert values[..] == Server.StoreAfter(0);
    replies := [];
    var k := 0;
    while k < |requests|
      invariant 0 <= k <= |requests|
      invariant values.Length == 2 && values[..] == Server.StoreAfter(k)
      invariant |replies| == k
      invariant forall j :: 0 <= j < k ==> replies[j] == Server.ReplyFrame(j + 1)
    {
      Server.StoreAfterStep(k);
      var request, writeBuf := HandleRequest(values, requests[k]);
      assert writeBuf == Server.ReplyFrame(k + 1);
      replies := replies + [writeBuf];
      k := k + 1;
    }
  }
}
