# Modbus/TCP codec, client and server step — a Dafny model

This project models the protocol core of `modbus_rs`, a small Modbus/TCP implementation in
Rust, and proves properties of it with Dafny.

- **Frame codec.** This is the 7-byte MBAP header of section 3.1.3 of the MODBUS Messaging
  on TCP/IP Implementation Guide V1.0b. It holds the transaction id, protocol id, length and
  unit id, all big-endian. The header wraps a PDU (protocol data unit).
- **Read Holding Registers PDUs.** These use function code 0x03, from section 6.3 of the
  Modbus Application Protocol Specification V1.1b3. The request is `0x03, address,
  quantity`. The response is `0x03, byte count, values`.
- **Client step.** A `ModbusClient` stamps a counting transaction id and a fixed unit id
  into each request. It then reads one reply and decodes it by function code.
- **Server step.** The server decodes and dispatches a request frame. It then increments
  every register of its store in place and replies with the updated values.

Bytes are `byte` (0..255) and 16-bit words are `u16` (0..65535), both subset types of `int`.
The `bytes` crate's growable `BytesMut` buffer is a class whose `put_*` methods append to a
byte sequence. A socket read into a zero-filled `[0; N]` array is `ReceiveBuffer`: the bytes
one read delivered, followed by zeros up to `N`. The client's reader is the byte sequence it
has yet to deliver, and its writer is the byte sequence written so far. The server loops
take the bytes each read delivers and return the frames each write sends.

Modules, one per source file:

- `Bytes` holds the byte types, big-endian packing, `BytesMut` and the receive buffer.
- `Codec` is the codec that src/core.rs and src/modbus/core.rs share.
- `ModbusCore` holds what src/modbus/core.rs does differently.
- `Client` models src/client.rs.
- `Server` models src/server.rs.
- `ServerCore` models src/server/core.rs.

src/core.rs and src/modbus/core.rs are two copies of the same codec. They agree byte for byte
on `conv_u16`, the header codec, the request codec, `byte_len`, the response encoder and
`gen_write_buf`. They differ in three ways:

- `encode_req` appends to a caller's buffer in src/core.rs (`Codec.EncodeReqInto`). In
  src/modbus/core.rs it returns a fresh buffer (`ModbusCore.EncodeReq`).
- Only src/core.rs has a response decoder.
- `gen_write_buf` takes an `Option` of any response type in src/core.rs. In
  src/modbus/core.rs it takes the `ModbusResponse` enum. Both write nothing after the header
  for `None` and for `ErrorResponse`, so one `GenWriteBuf` over `ModbusResponse` models both.

A panic in the source becomes a `requires`. This covers `get_*` on a short buffer,
`+= 1` on a `u16` at 65535 in a debug build, and `unimplemented!()`.

src/client.rs and src/server.rs do not compile as written:

- A `;` is missing at src/client.rs:85.
- `ModbwlusResponse` at src/client.rs:99 is a misspelling.
- `decode` returns a trait where a response value is meant.
- `operate` returns a `ReadHoldingRegisterResponse` where a `ModbusResponse` is expected
  (src/server.rs:67).

The model follows their evident intent. Function code 3 gives the response's values, and any
other code gives no values. `operate` yields a Read Holding Registers response with the
updated store.

The MODBUS Messaging on TCP/IP Implementation Guide V1.0b (section 3.1.3) asks a server
to copy the request's transaction id into its reply, and asks both ends to use protocol id 0
and a length field that counts the bytes that follow it. The MODBUS Application Protocol
Specification V1.1b3 (section 6.3) limits a Read Holding Registers quantity to 1..125 and
(section 7) asks for an exception response to a request the server cannot serve. The code
checks none of these, and the model follows the code. Lemmas state the resulting behaviour
outright:

- `Client.ReplyIgnoresHeader`: a reply's header fields are never compared with anything.
- `Client.ReadHoldingRegisterTwoValues`: the declared length is not checked.
- `Codec.GenWriteBuf`: every reply carries transaction id 0 and unit id 255.
- `Codec.DecodeEncodedResponse`: the byte count wraps for 128 or more values.

## Model

| member | source | states |
|---|---|---|
| `Codec.ConvU16` | src/core.rs:11-16 | A length below 65536 is returned unchanged, and any larger length gives 0 (identical at src/modbus/core.rs:10-15). |
| `Codec.FrameBytes` | src/core.rs:87-93 | An encoded frame is 7 + len(inner) bytes: big-endian transaction id, protocol id, a length field equal to `conv_u16(len(inner) + 1)` whatever the header's own `length` holds, the unit id, then `inner` verbatim. |
| `Codec.EncodeHeader` | src/core.rs:87-93 | Appends exactly the frame bytes to the caller's buffer and keeps what the buffer already held. |
| `Codec.DecodeHeader` | src/core.rs:73-85 | Needs only 8 bytes. The header fields are the big-endian readings of bytes 0..7, the function code is byte 7 and the payload is every byte from 8 on. The protocol id is not checked, and the length field is not compared with the bytes present. |
| `Codec.DecodeEncodedFrame` | src/modbus/core.rs:96-116 | For a non-empty inner PDU, decoding an encoded frame returns the same transaction id, protocol id and unit id. The length field is len(inner) + 1 (narrowed), the function code is `inner[0]` and the remainder is `inner[1..]`. |
| `Codec.EncodeRequest` | src/core.rs:127-134 | The request PDU is exactly 5 bytes: 0x03, then the address and the quantity, big-endian. |
| `Codec.NewReadHoldingRegisterRequest` | src/core.rs:103-111 | Needs 4 bytes. It always gives a Read Holding Registers request whose address and quantity encode back to bytes 0..2 and 2..4. |
| `Codec.RequestRoundTrip` | src/modbus/core.rs:126-160 | Decoding the bytes after an encoded request's function code returns the original address and quantity, whatever bytes follow. |
| `Codec.EncodeReqInto` | src/core.rs:48-62 | Appends to the caller's buffer the frame with transaction id 0, protocol id 0 and unit id 255 around the request PDU (nothing for `None`). |
| `Codec.ByteLen` | src/core.rs:157-160 | The byte count is even, and half of it is the value count modulo 128: only the low 8 bits of 2·len are kept. |
| `Codec.ResponseBytes` | src/modbus/core.rs:173-186 | The response is 2 + 2·len bytes: 0x03, the byte count `(2·len) & 0xFF`, then value i at bytes 2+2i..4+2i, big-endian, in order. |
| `Codec.EncodeResponse` | src/core.rs:167-176 | The buffer built by pushing the function code, the byte count and each value with `put_u16` equals the response wire image. |
| `Codec.ResponseValues` | src/core.rs:178-188 | Decoding yields `b / 2` values for count byte `b`. Value i encodes back to bytes 1+2i..3+2i, so an odd count byte drops its last byte and trailing bytes are ignored. |
| `Codec.DecodeResponse` | src/core.rs:178-188 | The cursor loop that reads the count byte and `b / 2` words returns exactly the decoded values. |
| `Codec.DecodeEncodedResponse` | src/core.rs:157-188 | Decoding an encoded response gives back the first `len mod 128` values: all of them when len ≤ 127, and none when len = 128. |
| `Codec.ResponseRoundTrip` | src/core.rs:167-188 | For every value sequence of length ≤ 127, decoding the encoded response after its function code returns the sequence. |
| `Codec.ResponseValuesIgnoreTrailing` | src/core.rs:178-188 | Bytes after the last announced value do not change the decoded values. |
| `Codec.GenWriteBuf` | src/core.rs:18-36 | The reply frame always has transaction id 0, protocol id 0 and unit id 255. It wraps the encoded response. For `None` it is exactly the 7 bytes `00 00 00 00 00 01 FF`, with length field 1. |
| `Codec.ResponseFrameLayout` | src/modbus/core.rs:17-35 | A reply for n values is 9 + 2n bytes with fixed header fields, function code 3 at byte 7, and length field 3 + 2n, while 3 + 2n < 65536; beyond that `conv_u16` gives 0. |
| `ModbusCore.EncodeReq` | src/modbus/core.rs:58-76 | Returns a fresh frame under the fixed header. For a Read Holding Registers request it is 12 bytes with length field 6, and bytes 7..12 are the request PDU. For `None` it is the bare 7-byte header. |
| `ModbusCore.DecodeEncodedRequest` | src/modbus/core.rs:96-134 | A request frame under any header, followed by anything, decodes to function code 3 and the original address and quantity. |
| `Client.ModbusClient.constructor` | src/client.rs:42-49 | A new client starts with transaction id 0, the given unit id, nothing written and all reader bytes pending. |
| `Client.ModbusClient.Read` | src/client.rs:51-53 | One read copies as many pending bytes as fit into a zero-filled 8096-byte buffer and consumes exactly those bytes. |
| `Client.ModbusClient.Write` | src/client.rs:55-57 | The whole frame is appended to what the writer received. |
| `Client.ModbusClient.Encode` | src/client.rs:59-79 | The frame carries the current transaction id and the client's unit id around the 5-byte request PDU, 12 bytes in all. The transaction id then increases by exactly 1. It requires a Read Holding Registers request and a transaction id below 65535. |
| `Client.ModbusClient.Decode` | src/client.rs:81-90 | For function code 3 the result is the Read Holding Registers response of the bytes after the header. For any other code there is no response. The transaction id is not examined. |
| `Client.ModbusClient.ReadHoldingRegister` | src/client.rs:92-104 | Writes the 12-byte frame for (address, quantity) under the current transaction id and unit id, which never changes. The transaction id increases by 1. The result is the values of the one reply read, or none when its function code is not 3. |
| `Client.ReplyIgnoresHeader` | src/client.rs:81-103 | Two replies that agree from byte 7 on give the same result. The transaction id, protocol id, length field and unit id are discarded, not compared. |
| `Client.ReplyRoundTrip` | src/client.rs:92-103 | A reply built by `gen_write_buf` for at most 127 values, received into the client's buffer, decodes to exactly those values. |
| `Client.ReadHoldingRegisterOneValue` | src/client.rs:114-121 | A client given reply `00 00 00 00 00 05 FF 03 02 12 34` returns `[0x1234]`, after writing the 12-byte request frame for address 0, quantity 1. |
| `Client.ReadHoldingRegisterTwoValues` | src/client.rs:123-130 | Reply `00 00 00 00 00 05 FF 03 04 12 34 56 78` gives `[0x1234, 0x5678]` although its length field says 5: the declared length is not checked. |
| `Server.DispatchRequest` | src/server.rs:48-54 | The result is a Read Holding Registers request exactly when byte 7 is 3. Its address and quantity are then bytes 8..10 and 10..12. Any other code gives `None`. |
| `Server.ReadRequest` | src/server.rs:45-55 | A read into the zero-filled 8096-byte buffer is dispatched for every input without panicking. Fewer than 8 received bytes leave code 0 and give `None`. From 8 bytes on, a request comes out exactly when received byte 7 is 3. Its address and quantity are received bytes 8..12, with any missing bytes taken from the zero padding. From 12 bytes on, the result equals `Server.DispatchRequest` of the received bytes. |
| `Server.PaddedRequestBytes` | src/server.rs:46-48 | In a zero-filled receive buffer, byte 7 is the received byte 7. Bytes 8..12 are the received bytes from 8 on, padded with zeros. A frame of 12 bytes or more dispatches the same as the buffer. |
| `Server.ReadEncodedRequest` | src/server.rs:45-55 | A client's request frame under any header is read back as the same request. |
| `Server.Incremented` | src/server.rs:62-65 | Every register is exactly one higher, and the length is unchanged. |
| `Server.Operate` | src/server.rs:57-68 | Increments every store element by 1 in place and leaves the store length unchanged. It requires each element below 65535. The response values equal the updated store element by element, in order. The request is not an input. |
| `Server.StoreAfterStep` | src/server.rs:33-42 | The store starts as [12345, 12346]. Each request takes [12345+k, 12346+k] to [12345+k+1, 12346+k+1]. |
| `Server.Communicate` | src/server.rs:33-43 | Over any sequence of reads, reply k is the frame `gen_write_buf` makes for [12345+k+1, 12346+k+1]. It does not depend on what was received, and it never echoes the request's transaction id. |
| `ServerCore.ReceivedRequest` | src/server/core.rs:30-39 | The 64-byte read buffer gives `None` for fewer than 8 bytes. From 8 bytes on, a request comes out exactly when received byte 7 is 3. Its address and quantity are received bytes 8..12, with any missing bytes taken from the zero padding. From 12 bytes on it gives the same dispatch as the received bytes. |
| `ServerCore.HandleRequest` | src/server/core.rs:30-53 | One iteration decodes the request and increments each store value by 1 in place. Its reply is the fixed-header frame of an in-order copy of the updated store. Neither depends on the request. |
| `ServerCore.HandleServer` | src/server/core.rs:26-54 | The store starts as [12345, 12346] and stays two registers long. Reply k carries [12345+k+1, 12346+k+1] under transaction id 0 and unit id 255, whatever was received. |

## Left out

- TCP connect, bind and accept are left out (`start_client`, `start_server`, src/client/core.rs, src/main.rs). So are threads, `mpsc` channels, and the threaded `read`/`send` of src/modbus/core.rs:37-46 and 78-85. These are I/O and concurrency. Streams are byte sequences instead.
- `dump` and every `println!` are left out: they only produce console output.
- `decode2` (src/core.rs:162-164) only forwards to the response decoder, which `Codec.DecodeResponse` models.
- `ReadHoldingRegistersRequest::new` and `ReadHoldingRegisterResponse::new` are the datatype constructors.
- `ErrorResponse` (src/core.rs:192-202) encodes to nothing. It appears only as the `NoResponse` branch.
- Client.ModbusClient.Read: a socket may deliver fewer bytes than are pending. The model's read takes every pending byte up to the buffer size, as the in-memory readers of the tests do.
- Client.ModbusClient.Write: a socket may accept only part of a frame, and the source ignores the count that `write` returns (src/client.rs:56, src/server.rs:72, src/server/core.rs:52). The model, `Server.Communicate` and `ServerCore.HandleServer` always write whole frames.
- Server.Communicate: the source loops forever. The model runs the loop over a finite list of reads of at most 8096 bytes each. It stops before the 53190th request, whose `+= 1` would overflow register 1 (a panic in a debug build, a wrap in release).
- ServerCore.HandleServer: this is the same finite loop as `Server.Communicate`, with reads of at most 64 bytes.
- Client.ModbusClient.Encode: the model requires `trans_id < 65535`, because a debug build panics on the overflow. Wrap-around to 0 in a release build is not modelled.
- Integer width: `usize` overflow of `len * 2` and `len + 1` is not modelled. It would need buffers longer than memory allows.
- Buffer capacities passed to `with_capacity` are not modelled. They affect only allocation, not contents.

No concurrency, timeout or transaction-matching behaviour is modelled, because the code has none.
