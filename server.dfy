/** src/server.rs: per connection, a register store starting at [12345, 12346]; each
    received frame is decoded and dispatched on its function code, every register is then
    incremented in place, and the updated values are sent back in a reply frame. The
    socket is modelled by the bytes each read delivers and the frames each write sends. */
module Server {
  import opened Bytes
  import opened Codec

  const RX_BUF_SIZE: nat := 8096

  /** The store `communicate` starts every connection with. */
  const INITIAL_STORE: seq<u16> := [12345, 12346]

  /** Whether a received buffer can be dispatched without a `get_*` panic. */
  predicate RequestDecodable(rx: seq<byte>)
  {
    |rx| >= 8 && (rx[7] == READ_HOLDING_REGISTERS ==> |rx| >= 12)
  }

  /** The decode-and-dispatch of `read`: function code 3 gives a Read Holding Registers
      request with address and quantity from bytes 8..12, any other code gives `None`. */
  function DispatchRequest(rx: seq<byte>): (request: ModbusRequest)
    requires RequestDecodable(rx)
    ensures request.ReadHoldingRegistersRequest? <==> rx[7] == READ_HOLDING_REGISTERS
    ensures request.ReadHoldingRegistersRequest? ==>
      U16Bytes(request.address) == rx[8..10] && U16Bytes(request.quantity) == rx[10..12]
  {
    var (_, funcCode, p) := DecodeHeader(rx);
    if funcCode == READ_HOLDING_REGISTERS then NewReadHoldingRegisterRequest(p) else NoRequest
  }

  /** `read`: one read into a zero-filled buffer of `RX_BUF_SIZE` bytes, then dispatch.
      Since the buffer is always full size, no input makes it panic; fewer than 8 bytes
      leave function code 0 in place and give `None`. From 8 bytes on, received byte 7
      decides; a frame cut short before byte 12 takes the missing address and quantity
      bytes from the zero padding. */
  function ReadRequest(received: seq<byte>): (request: ModbusRequest)
    requires |received| <= RX_BUF_SIZE
    ensures |received| < 8 ==> request == NoRequest
    ensures |received| >= 8 ==> (request.ReadHoldingRegistersRequest? <==> received[7] == READ_HOLDING_REGISTERS)
    ensures |received| >= 8 && request.ReadHoldingRegistersRequest? ==>
      U16Bytes(request.address) + U16Bytes(request.quantity) == (received[8..] + [0, 0, 0, 0])[..4]
    ensures |received| >= 12 ==> request == DispatchRequest(received)
  {
    var rx := ReceiveBuffer(received, RX_BUF_SIZE);
    PaddedRequestBytes(received, rx);
    DispatchRequest(rx)
  }

  /** In a zero-filled receive buffer, bytes 8..12 are the received bytes from 8 on,
      padded with zeros; a received frame of 12 bytes or more is dispatched as is. */
  lemma PaddedRequestBytes(received: seq<byte>, rx: seq<byte>)
    requires 12 <= |rx| && |received| <= |rx|
    requires rx[..|received|] == received && forall i :: |received| <= i < |rx| ==> rx[i] == 0
    ensures |received| >= 8 ==> rx[7] == received[7] && rx[8..12] == (received[8..] + [0, 0, 0, 0])[..4]
    ensures |received| >= 12 ==> RequestDecodable(received) && DispatchRequest(rx) == DispatchRequest(received)
  {
  }

  /** A request frame the client sends, under any header, is read back as that request. */
  lemma ReadEncodedRequest(h: Header, address: u16, quantity: u16)
    ensures |FrameBytes(h, EncodeRequest(address, quantity))| <= RX_BUF_SIZE
    ensures ReadRequest(FrameBytes(h, EncodeRequest(address, quantity))) == ReadHoldingRegistersRequest(address, quantity)
  {
  }

  /** No register is at 65535, so `+= 1` cannot overflow. */
  predicate CanIncrement(s: seq<u16>)
  {
    forall i :: 0 <= i < |s| ==> s[i] < 0xFFFF
  }

  /** Every register one higher. */
  function Incremented(s: seq<u16>): (r: seq<u16>)
    requires CanIncrement(s)
    ensures |r| == |s| && forall i :: 0 <= i < |s| ==> r[i] == s[i] + 1
  {
    if s == [] then [] else [s[0] + 1] + Incremented(s[1..])
  }

  /** `operate`: increments each register in place and collects the new values, in
      order, into the response. The decoded request is not an input. */
  method Operate(values: array<u16>) returns (response: ModbusResponse)
    requires CanIncrement(values[..])
    modifies values
    ensures values[..] == Incremented(old(values[..]))
    ensures response == ReadHoldingRegisterResponse(values[..])
  {
    var newValues: seq<u16> := [];
    var i := 0;
    while i < values.Length
      invariant 0 <= i <= values.Length
      invariant forall j :: 0 <= j < i ==> values[j] == old(values[j]) + 1
      invariant forall j :: i <= j < values.Length ==> values[j] == old(values[j])
      invariant newValues == values[..i]
    {
      values[i] := values[i] + 1;
      newValues := newValues + [values[i]];
      i := i + 1;
    }
    response := ReadHoldingRegisterResponse(newValues);
  }

  /** The store after `k` requests on one connection. */
  function StoreAfter(k: nat): (s: seq<u16>)
    requires k <= 0xFFFF - 12346
    ensures |s| == |INITIAL_STORE|
  {
    [12345 + k, 12346 + k]
  }

  /** Each request takes the store from `StoreAfter(k)` to `StoreAfter(k + 1)`, starting
      from the initial store. */
  lemma StoreAfterStep(k: nat)
    requires k < 0xFFFF - 12346
    ensures StoreAfter(0) == INITIAL_STORE
    ensures CanIncrement(StoreAfter(k)) && Incremented(StoreAfter(k)) == StoreAfter(k + 1)
  {
  }

  /** The frame `write` sends after the `k`-th request of a connection. */
  function ReplyFrame(k: nat): seq<byte>
    requires k <= 0xFFFF - 12346
  {
    FrameBytes(FIXED_HEADER, ResponseBytes(StoreAfter(k)))
  }

  /** The `communicate` loop over the first `|requests|` reads of one connection: reply
      `k` carries the store after `k + 1` requests, under the fixed header, whatever the
      requests held. The 53190th request would overflow register 1, so the model stops
      before it. */
  method Communicate(requests: seq<seq<byte>>) returns (replies: seq<seq<byte>>)
    requires forall k :: 0 <= k < |requests| ==> |requests[k]| <= RX_BUF_SIZE
    requires |requests| <= 0xFFFF - 12346
    ensures |replies| == |requests|
    ensures forall k :: 0 <= k < |replies| ==> replies[k] == ReplyFrame(k + 1)
  {
    var values := new u16[2];
    values[0], values[1] := 12345, 12346;
    assert values[..] == StoreAfter(0);
    replies := [];
    var k := 0;
    while k < |requests|
      invariant 0 <= k <= |requests|
      invariant values[..] == StoreAfter(k)
      invariant |replies| == k
      invariant forall j :: 0 <= j < k ==> replies[j] == ReplyFrame(j + 1)
    {
      var request := ReadRequest(requests[k]);
      StoreAfterStep(k);
      var response := Operate(values);
      assert response.values == StoreAfter(k + 1);
      var writeBuf := GenWriteBuf(response);
      assert writeBuf == ReplyFrame(k + 1);
      replies := replies + [writeBuf];
      k := k + 1;
    }
  }
}
