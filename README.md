# TCP client plugin: receive framing, hand-off queue, packet header

This project models the core of an asynchronous TCP client plugin in Dafny. The client turns a byte stream into length-prefixed messages and hands them from the network completion path to a polling consumer. The model covers three pieces:

- **Packet header** (`PacketHeader`, `packet_header.dfy`): the packed `TCPPacketHeader`. It is an `int32 Size` at offset 0 and an `int16 Id` at offset 4, six bytes with no padding. It is read in place from received bytes. The host is assumed to be little-endian, so reading the header is a little-endian two's-complement decode. The model proves that encoding and decoding are inverse in both directions, and that decoding reads nothing past byte 5.
- **Frame extraction** (`Framing`, `framing.dfy`; `ClientController`, `client_controller.dfy`): `IsOneMessage` and the `while (true)` loop of `RecvCallback`.
  - The specification function `Frames` gives the messages the loop pushes for an unread region. `Consumed` gives the final `processLen`.
  - The lemmas prove four things. The frames are consecutive slices from offset 0. Each frame has its declared length. What is left is not a complete message. A region made of well-formed messages followed by an incomplete tail yields exactly those messages, in order.
  - `TCPClientController.ExtractMessages` is the loop itself, with its invariant, proved against `Frames` and `Consumed`.
- **Hand-off queue** (`PacketQueue`, `packet_queue.dfy`): `TCPPacketQueue` is a class whose field `queue: seq<Message>` the methods update. `Push`, `Pop` and `PopAll` take the queue's mutex, and each is modelled as one atomic step. `IsQueueEmpty` reads the queue without taking the mutex. `CheckMessage` calls it with no lock held. It is modelled as one atomic read as well. `PopAll` keeps its drain loop.

The controller (`TCPClientController`) owns a `TCPRecvBuffer`: a fixed byte array with `readPos` and `writePos` cursors. It also owns the queue, a transport object (`TCPClient`) and a session object (`TCPSession`). Transport and session are outside this core. They are modelled as objects that record every call made on them. So each handler's contract says exactly:
- which transport calls it makes (connect, receive, send, disconnect with its cause string);
- which session notifications it sends;
- how the queue and the cursors change.

`ClientTypes` holds the `TCPClientError` enumeration with its integer codes, and `TCPAsyncResult`. `Common` holds the byte type, `int32`, `int16` and `Option`.

### Assumptions and behaviour worth knowing

- **Receive-buffer contracts.** The source of `TCPRecvBuffer` is not part of this model. `OnWrite(n)` succeeds iff `writePos + n <= capacity`. `OnRead(n)` succeeds iff `readPos + n <= writePos`. A refused call changes nothing. `DataSize = writePos - readPos` and `FreeSize = capacity - writePos`.
- **`Clean()` is an assumption.** It is modelled as resetting both cursors to 0 before every receive, whatever is still unread. So the model makes no claim that the bytes of a partial trailing message survive into the next read. After a successful `RecvCallback` the cursors are `(0, 0)`, and the bytes left after the last complete message are given up.
- **The framing loop has no guard in the C++ code against a header that declares a size of 0 or less** (`TCPClientController.cpp:142-154`). A size of 0 makes the loop push an empty message forever. A negative size is accepted by `IsOneMessage` as a complete message (lines 175-179). `PutMessage` then receives the negative length (line 151), and lines 186-187 pass it on as a negative count. `Memcpy` takes that count as a huge `size_t`: undefined behaviour. Only after that copy does line 153 move `processLen` backwards.
  - `RecvCallback` and `ExtractMessages` therefore require `Progressing` of the unread region: every header the loop reaches declares a positive size. Under that condition the loop terminates, and `processLen` ends with `0 <= processLen <= recvSize`.
  - `Framing.ZeroSizeStalls` shows the zero-size case falls outside that condition.
  - Declared sizes 1 to 5, shorter than a header, are accepted exactly as the C++ code accepts them.
- **The "OnRead Overflow" disconnect is dead code under that precondition.** `processLen` is never negative, never exceeds `recvSize`, and `OnRead(processLen)` always succeeds. The model proves that branch unreachable.
- **`StartConnect` does not return after its synthetic failure.** When no header component is attached, it reports a failed disconnect to the session and then still begins the connect. The model does the same.
- **`RecvCallback` with a negative byte count and a header attached does nothing.** It does not disconnect and does not re-arm.
- **The transport writes the received bytes.** It fills the region after `writePos` itself. `RecvCallback` sees only the byte count, as in the C++ code. The error codes that transport calls return only feed logging, so their values are left unconstrained.
- **Whether a header component is attached** is a constructor parameter (`hasHeader`). How `TCPHeaderComponent` is attached, is not part of this model. The framing rests on one assumption about it: `GetHeaderSize()` returns `sizeof(TCPPacketHeader)` = 6, and `ReadTotalSize` returns the header's little-endian `int32 Size` at offset 0. These are `PacketHeader.HeaderSizeIsPacked` and `PacketHeader.ReadTotalSize`.

## Model

| member | source | states |
|---|---|---|
| `PacketHeader.EncodeHeader` | Source/TCPClientPlugin/Private/TCPPacketHeader.h:7-14 | The packed header is exactly 6 bytes: `Size` is bytes 0..3, `Id` is bytes 4..5, no padding |
| `PacketHeader.Int32RoundTrip` | Source/TCPClientPlugin/Private/TCPPacketHeader.h:11 | The little-endian image of an `int32` decodes back to it, and every 4 bytes are the image of the value they decode to |
| `PacketHeader.Int16RoundTrip` | Source/TCPClientPlugin/Private/TCPPacketHeader.h:12 | The same for the `int16` identifier and 2 bytes |
| `PacketHeader.LittleEndianOfToLittleEndian` | Source/TCPClientPlugin/Private/TCPPacketHeader.h:11-12 | Reading back the n-byte little-endian image of a value below 256^n gives the value |
| `PacketHeader.ToLittleEndianOfLittleEndian` | Source/TCPClientPlugin/Private/TCPPacketHeader.h:11-12 | Every byte sequence is the little-endian image of the value it reads as |
| `PacketHeader.HeaderRoundTrip` | Source/TCPClientPlugin/Private/TCPPacketHeader.h:9-13 | Decoding an encoded header returns its `Size` and `Id`, whatever payload follows |
| `PacketHeader.HeaderEncodeDecode` | Source/TCPClientPlugin/Private/TCPPacketHeader.h:7-14 | Every 6-byte prefix is the encoding of the header decoded from it |
| `PacketHeader.HeaderSizeIsPacked` | Source/TCPClientPlugin/Private/TCPClientController.cpp:167 | `GetHeaderSize()` is assumed to be `sizeof(TCPPacketHeader)` = 6: the 4-byte `Size` and 2-byte `Id` laid end to end, `Id` at offset 4 |
| `PacketHeader.DecodeHeader` | Source/TCPClientPlugin/Private/TCPPacketHeader.h:9-13 | The struct read in place: `Size` is the `int32` whose little-endian image is bytes 0..3, `Id` the `int16` whose image is bytes 4..5 |
| `PacketHeader.ReadTotalSize` | Source/TCPClientPlugin/Private/TCPClientController.cpp:172 | Assumed: the `Size` field of the header decoded from bytes 0..5, an `int32` whose little-endian image is bytes 0..3 (see `HeaderRoundTrip`, `DecodeReadsPrefixOnly`) |
| `PacketHeader.DecodeReadsPrefixOnly` | Source/TCPClientPlugin/Private/TCPPacketHeader.h:9-13 | `Size` depends only on bytes 0..3 and `Id` only on bytes 4..5; payload bytes never change the decoded header |
| `Framing.IsOneMessage` | Source/TCPClientPlugin/Private/TCPClientController.cpp:165-180 | With fewer than a header's bytes available: false, out-parameter untouched. Otherwise the out-parameter is the decoded total size, and the result is true iff that many bytes are available |
| `Framing.FramesPartition` | Source/TCPClientPlugin/Private/TCPClientController.cpp:141-154 | The pushed messages, laid end to end, are exactly the first `processLen` bytes of the unread region: consecutive, non-overlapping, from offset 0. Also `processLen <= recvSize` |
| `Framing.FramesDeclaredLength` | Source/TCPClientPlugin/Private/TCPClientController.cpp:147-153 | Every pushed message is non-empty. Its length is the size declared by the header at its offset in the region, short declared sizes 1..5 included. That header lies inside the region |
| `Framing.RemainderIncomplete` | Source/TCPClientPlugin/Private/TCPClientController.cpp:144-150 | The `recvSize - processLen` bytes left after the loop are not a complete message: fewer than a header, or fewer than declared |
| `Framing.FramesOfConcat` | Source/TCPClientPlugin/Private/TCPClientController.cpp:141-154 | Well-formed messages followed by an incomplete tail meet the loop's precondition. The loop yields exactly those messages, in order, byte for byte, and consumes exactly their bytes |
| `Framing.EncodedMessageWellFormed` | Source/TCPClientPlugin/Private/TCPClientController.cpp:172-179 | A header encoded with the total length of header plus payload starts a message the check accepts at exactly that length |
| `Framing.ZeroSizeStalls` | Source/TCPClientPlugin/Private/TCPClientController.cpp:172-179 | A header declaring size 0 is taken as a complete message of 0 bytes, so that region falls outside the loop's precondition |
| `PacketQueue.TCPPacketQueue.constructor` | Source/TCPClientPlugin/Private/TCPPacketQueue.cpp:5-7 | A new queue is empty |
| `PacketQueue.TCPPacketQueue.IsQueueEmpty` | Source/TCPClientPlugin/Private/TCPPacketQueue.cpp:13-16 | True iff the queue holds no messages |
| `PacketQueue.TCPPacketQueue.Push` | Source/TCPClientPlugin/Private/TCPPacketQueue.cpp:18-22 | The new contents are the old contents followed by the message |
| `PacketQueue.TCPPacketQueue.Pop` | Source/TCPClientPlugin/Private/TCPPacketQueue.cpp:24-34 | On a non-empty queue, returns the head and removes only it. On an empty queue, returns no item and changes nothing |
| `PacketQueue.TCPPacketQueue.PopAll` | Source/TCPClientPlugin/Private/TCPPacketQueue.cpp:36-53 | Returns the whole contents in insertion order (the empty list for an empty queue) and leaves the queue empty |
| `PacketQueue.PushesThenPopAll` | Source/TCPClientPlugin/Private/TCPPacketQueue.cpp:18-53 | `Push` calls on a queue followed by `PopAll` return the earlier contents, then exactly the pushed messages, and leave the queue empty: no loss, no duplication (equal multisets), no reordering |
| `ClientTypes.Code` | Source/TCPClientPlugin/Private/TCPClientError.h:5-18 | Each error has its declaration-order code, 0 to 10; 0 is exactly "no error" |
| `ClientTypes.FromCode` | Source/TCPClientPlugin/Private/TCPClientError.h:5-18 | An integer names an error iff it is between 0 and 10 |
| `ClientTypes.CodeRoundTrip` | Source/TCPClientPlugin/Private/TCPClientError.h:5-18 | Codes and errors correspond one to one |
| `Common.Wrap32` | Source/TCPClientPlugin/Private/TCPClientController.cpp:58 | The value of `2 * size` that the compiled code yields on a two's-complement target: congruent to the exact product modulo 2^32, and equal to it when it fits (the overflowing case is undefined in C++) |
| `ClientController.Deliveries` | Source/TCPClientPlugin/Private/TCPClientController.cpp:70-74 | One message notification per message, in order |
| `ClientController.TCPRecvBuffer.constructor` | Source/TCPClientPlugin/Private/TCPClientController.cpp:57 | A new buffer of `size` bytes, both cursors at 0 |
| `ClientController.TCPRecvBuffer.DataSize` | Source/TCPClientPlugin/Private/TCPClientController.cpp:138 | The unread byte count: `readPos + DataSize == writePos` |
| `ClientController.TCPRecvBuffer.FreeSize` | Source/TCPClientPlugin/Private/TCPClientController.cpp:87 | The room after the write cursor: `writePos + FreeSize == capacity` |
| `ClientController.TCPRecvBuffer.OnWrite` | Source/TCPClientPlugin/Private/TCPClientController.cpp:132-136 | Succeeds iff the bytes fit, and then advances `writePos` by them. Otherwise changes nothing |
| `ClientController.TCPRecvBuffer.OnRead` | Source/TCPClientPlugin/Private/TCPClientController.cpp:156-160 | Succeeds iff that many bytes are unread, and then advances `readPos` by them. Otherwise changes nothing |
| `ClientController.TCPRecvBuffer.Clean` | Source/TCPClientPlugin/Private/TCPClientController.cpp:86 | Assumed reset: both cursors back to 0 |
| `ClientController.TCPClientController.constructor` | Source/TCPClientPlugin/Private/TCPClientController.cpp:14-21 | A 4096-byte receive buffer and an empty queue. The transport is asked for 8192-byte receive and send socket buffers, in that order |
| `ClientController.TCPClientController.SetReceiveBufferSize` | Source/TCPClientPlugin/Private/TCPClientController.cpp:50-59 | A fresh receive buffer of `size` bytes replaces the old one. The transport's socket buffer is set to the `int32` value of `2 * size` |
| `ClientController.TCPClientController.SetSendBufferSize` | Source/TCPClientPlugin/Private/TCPClientController.cpp:61-64 | The transport's send buffer is set to the `int32` value of `2 * size` |
| `ClientController.TCPClientController.StartConnect` | Source/TCPClientPlugin/Private/TCPClientController.cpp:39-48 | With no header, the session first gets a failed disconnect. In every case exactly one connect is begun |
| `ClientController.TCPClientController.CheckMessage` | Source/TCPClientPlugin/Private/TCPClientController.cpp:66-76 | Does nothing unless connected and the queue is non-empty. Otherwise delivers every queued message exactly once, in queue order, and leaves the queue empty |
| `ClientController.TCPClientController.StartSend` | Source/TCPClientPlugin/Private/TCPClientController.cpp:78-82 | Exactly one send of the message is begun |
| `ClientController.TCPClientController.StartRecv` | Source/TCPClientPlugin/Private/TCPClientController.cpp:84-89 | The buffer is cleaned, and exactly one receive is armed into all of its free space |
| `ClientController.TCPClientController.Disconnect` | Source/TCPClientPlugin/Private/TCPClientController.cpp:91-94 | The transport is asked to disconnect with the given cause and flag |
| `ClientController.TCPClientController.ConnectCallback` | Source/TCPClientPlugin/Private/TCPClientController.cpp:97-107 | A failed connect changes nothing. A successful one notifies the session, then arms exactly one receive |
| `ClientController.TCPClientController.SendCallback` | Source/TCPClientPlugin/Private/TCPClientController.cpp:109-112 | The session gets the byte count and state tag of the completed send |
| `ClientController.TCPClientController.RecvCallback` | Source/TCPClientPlugin/Private/TCPClientController.cpp:114-163 | Zero bytes: disconnect "by Server". No header: disconnect "Header is null". Overflowing bytes: disconnect "OnWrite Overflow". Each of these pushes nothing and arms no receive. Otherwise the queue grows by exactly `Frames` of the unread region and exactly one receive is armed |
| `ClientController.TCPClientController.ExtractMessages` | Source/TCPClientPlugin/Private/TCPClientController.cpp:141-154 | Under the positive-size precondition the loop terminates. It pushes `Frames` of the region in order, and returns `processLen == Consumed`, with `0 <= processLen <= recvSize` |
| `ClientController.TCPClientController.PutMessage` | Source/TCPClientPlugin/Private/TCPClientController.cpp:182-190 | Appends, at the queue's tail, an owned copy of exactly the first `sizeOfPacket` bytes |
| `ClientController.TCPClientController.DisconnectCallback` | Source/TCPClientPlugin/Private/TCPClientController.cpp:192-196 | The session is told of the disconnect, normal iff the result succeeded |

## Left out

- `Common.Wrap32`: signed overflow of `2 * size` (`TCPClientController.cpp:58`) is undefined in C++. The model fixes it to the two's-complement wrapped value.
- The mutex in `TCPPacketQueue` is not modelled. Each queue operation is one atomic step; concurrency between the completion context and the poll is out of scope.
- `PacketQueue.TCPPacketQueue.IsQueueEmpty` reads the queue without the mutex (`TCPPacketQueue.cpp:13-16`, called unlocked from `TCPClientController.cpp:68`). The model treats that read as atomic, so a race with a concurrent `Push` is not captured.
- The transport (`BeginConnect`, `BeginSend`, `BeginRecv`, `Disconnect`, `IsConnected`, the socket buffer sizes) is socket I/O in a class outside this core. It is modelled by `TCPClient`, which records calls and keeps a `connected` flag that only the environment changes. Its returned error codes are unconstrained. What it does with a send while not connected is not modelled.
- The session layer, `TCPClientSubsystem.cpp`, is Unreal object lifecycle and delegate plumbing. It is modelled only as the `TCPSession` recorder of notifications.
- `TCPSendPacketBase.h` (packet writers, including `WriteFloat`) is not part of this model: it wraps a byte writer that is outside this core, and it uses floating point.
- `PrintErrorMessage` only logs. The error enumeration is kept as `ClientTypes.ClientError`; the logging is not modelled.
- The `NEW_AYNC_CALLBACK` wrapper and shared-pointer ownership are memory-lifetime questions outside this model. Messages are plain byte sequences, and results are a plain datatype.
- `TCPRecvBuffer` and `TCPHeaderComponent` are not part of this model. Their behaviour is stated as the contracts above. In particular, the model does not claim that partial trailing messages survive across reads.
- `ClientController.TCPClientController.RecvCallback`: requires that every header the loop reaches declares a positive size. The C++ code does not check this. It loops forever on a declared size of 0. On a negative size it first copies with a negative length in `PutMessage` (undefined behaviour), and only then moves `processLen` backwards.
- `ClientController.TCPClientController.ExtractMessages`: the same precondition.
- `ClientController.TCPClientController.SetReceiveBufferSize`: requires a non-negative size, because what `TCPRecvBuffer` does with a negative capacity is not known.
- `ClientController.TCPRecvBuffer.OnWrite` and `ClientController.TCPRecvBuffer.OnRead` take a non-negative count. Their callers in `RecvCallback` only pass one. Cursor arithmetic is unbounded: a 32-bit overflow of `writePos + n` inside the buffer class is not modelled.
