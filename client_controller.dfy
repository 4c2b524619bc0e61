/** The connection controller: it owns the receive buffer and the message
    queue, runs the frame extractor on every completed read, and drives the
    transport. The transport (`TCPClient`) and the session it reports to are
    external; they are modelled as objects that record the calls made on
    them, so that every contract can say exactly which calls a handler makes. */
module ClientController {
  import opened Common
  import opened PacketHeader
  import opened Framing
  import opened PacketQueue
  import opened ClientTypes

  /** Capacity used for both buffers when a controller is created. */
  const DefaultBufferSize: int32 := 4096

  /** The linear receive buffer: a fixed byte region with a read cursor (start
      of unconsumed data) and a write cursor (end of received data). Its own
      source is not part of this model; the contracts of `OnWrite`, `OnRead`,
      `DataSize` and `FreeSize` are the ones its call sites rely on, and
      `Clean` is an assumption (see its comment). */
  class TCPRecvBuffer {
    const buffer: array<byte>
    var readPos: nat
    var writePos: nat

    ghost predicate Valid()
      reads this
    {
      readPos <= writePos <= buffer.Length
    }

    /** Bytes received and not yet consumed. */
    function DataSize(): (n: nat)
      reads this
      requires Valid()
      ensures readPos + n == writePos
    {
      writePos - readPos
    }

    /** Room left after the write cursor. */
    function FreeSize(): (n: nat)
      reads this
      requires Valid()
      ensures writePos + n == buffer.Length
    {
      buffer.Length - writePos
    }

    constructor (size: nat)
      ensures Valid() && fresh(buffer) && buffer.Length == size
      ensures readPos == 0 && writePos == 0
    {
      buffer := new byte[size];
      readPos, writePos := 0, 0;
    }

    /** Commits `numOfBytes` bytes written by the transport after the write
        cursor; refuses, changing nothing, when they do not fit. */
    method OnWrite(numOfBytes: nat) returns (ok: bool)
      requires Valid()
      modifies this
      ensures Valid() && readPos == old(readPos)
      ensures ok <==> old(writePos) + numOfBytes <= buffer.Length
      ensures writePos == if ok then old(writePos) + numOfBytes else old(writePos)
    {
      ok := writePos + numOfBytes <= buffer.Length;
      if ok {
        writePos := writePos + numOfBytes;
      }
    }

    /** Releases `numOfBytes` consumed bytes after the read cursor; refuses,
        changing nothing, when fewer bytes are unread. */
    method OnRead(numOfBytes: nat) returns (ok: bool)
      requires Valid()
      modifies this
      ensures Valid() && writePos == old(writePos)
      ensures ok <==> old(readPos) + numOfBytes <= old(writePos)
      ensures readPos == if ok then old(readPos) + numOfBytes else old(readPos)
    {
      ok := readPos + numOfBytes <= writePos;
      if ok {
        readPos := readPos + numOfBytes;
      }
    }

    /** Prepares the buffer for the next read. Assumed to reset both cursors
        to the start of the region, whatever is still unread: bytes of a
        partial trailing message are not carried into the next read. */
    method Clean()
      requires Valid()
      modifies this
      ensures Valid() && readPos == 0 && writePos == 0
    {
      readPos, writePos := 0, 0;
    }
  }

  /** A call made on the transport. A receive names the region it may fill
      by its offset in the receive buffer and its length. */
  datatype TransportCall =
    | BeginConnectCall(ip: string, port: int32)
    | BeginSendCall(message: Message)
    | BeginRecvCall(offset: nat, maxLen: nat)
    | DisconnectCall(cause: string, shutdownNormally: bool)
    | SetReceiveBufferSizeCall(size: int32)
    | SetSendBufferSizeCall(size: int32)

  /** The asynchronous socket transport, recording the calls it receives. Its
      completions arrive as calls of the controller's callbacks; the error
      codes and buffer-size results it returns are left unconstrained. */
  class TCPClient {
    var calls: seq<TransportCall>
    var connected: bool

    constructor ()
      ensures calls == [] && !connected
    {
      calls, connected := [], false;
    }

    method IsConnected() returns (b: bool)
      ensures b == connected
    {
      b := connected;
    }

    method BeginConnect(ip: string, port: int32) returns (error: ClientError)
      modifies this`calls
      ensures calls == old(calls) + [BeginConnectCall(ip, port)]
    {
      calls := calls + [BeginConnectCall(ip, port)];
      error := NoError;
    }

    method BeginSend(message: Message) returns (error: ClientError)
      modifies this`calls
      ensures calls == old(calls) + [BeginSendCall(message)]
    {
      calls := calls + [BeginSendCall(message)];
      error := NoError;
    }

    method BeginRecv(offset: nat, maxLen: nat) returns (error: ClientError)
      modifies this`calls
      ensures calls == old(calls) + [BeginRecvCall(offset, maxLen)]
    {
      calls := calls + [BeginRecvCall(offset, maxLen)];
      error := NoError;
    }

    method Disconnect(cause: string, shutdownNormally: bool)
      modifies this`calls
      ensures calls == old(calls) + [DisconnectCall(cause, shutdownNormally)]
    {
      calls := calls + [DisconnectCall(cause, shutdownNormally)];
    }

    method SetReceiveBufferSize(size: int32) returns (result: int32)
      modifies this`calls
      ensures calls == old(calls) + [SetReceiveBufferSizeCall(size)]
    {
      calls := calls + [SetReceiveBufferSizeCall(size)];
      result := 0;
    }

    method SetSendBufferSize(size: int32) returns (result: int32)
      modifies this`calls
      ensures calls == old(calls) + [SetSendBufferSizeCall(size)]
    {
      calls := calls + [SetSendBufferSizeCall(size)];
      result := 0;
    }
  }

  /** A notification delivered to the session. */
  datatype SessionEvent =
    | Connected(success: bool)
    | Disconnected(shutdownNormally: bool)
    | Received(message: Message)
    | Sent(bytesTransferred: int32, state: int32)

  /** The session layer above the controller, recording its notifications. */
  class TCPSession {
    var events: seq<SessionEvent>

    constructor ()
      ensures events == []
    {
      events := [];
    }

    method ConnectedCallback(success: bool)
      modifies this
      ensures events == old(events) + [Connected(success)]
    {
      events := events + [Connected(success)];
    }

    method DisconnectedCallback(shutdownNormally: bool)
      modifies this
      ensures events == old(events) + [Disconnected(shutdownNormally)]
    {
      events := events + [Disconnected(shutdownNormally)];
    }

    method RecvMessageCallback(message: Message)
      modifies this
      ensures events == old(events) + [Received(message)]
    {
      events := events + [Received(message)];
    }

    method SendMessageCallback(bytesTransferred: int32, state: int32)
      modifies this
      ensures events == old(events) + [Sent(bytesTransferred, state)]
    {
      events := events + [Sent(bytesTransferred, state)];
    }
  }

  /** The notifications that deliver `ms` to the session, one per message, in order. */
  function Deliveries(ms: seq<Message>): (r: seq<SessionEvent>)
    ensures |r| == |ms|
    ensures forall i :: 0 <= i < |ms| ==> r[i] == Received(ms[i])
  {
    if ms == [] then [] else [Received(ms[0])] + Deliveries(ms[1..])
  }

  class TCPClientController {
    const client: TCPClient
    const session: TCPSession
    const messageQueue: TCPPacketQueue
    var recvBuff: TCPRecvBuffer
    /** Whether a header component is attached (`Header != nullptr`). */
    const hasHeader: bool

    ghost predicate Valid()
      reads this, recvBuff
    {
      recvBuff.Valid()
    }

    /** Sets both buffer sizes to 4096 bytes and creates an empty queue. */
    constructor (session: TCPSession, hasHeader: bool)
      ensures Valid() && this.session == session && this.hasHeader == hasHeader
      ensures fresh(client) && fresh(messageQueue) && fresh(recvBuff) && fresh(recvBuff.buffer)
      ensures recvBuff.buffer.Length == 4096 && recvBuff.readPos == 0 && recvBuff.writePos == 0
      ensures messageQueue.queue == []
      ensures client.calls == [SetReceiveBufferSizeCall(8192), SetSendBufferSizeCall(8192)]
      ensures !client.connected
    {
      client := new TCPClient();
      this.session := session;
      recvBuff := new TCPRecvBuffer(0);
      this.hasHeader := hasHeader;
      messageQueue := new TCPPacketQueue();
      new;
      var receiveResult := SetReceiveBufferSize(DefaultBufferSize);
      var sendResult := SetSendBufferSize(DefaultBufferSize);
    }

    /** Replaces the receive buffer with a fresh one of `size` bytes and asks
        the transport for a socket buffer of twice that (an `int32` product). */
    method SetReceiveBufferSize(size: int32) returns (result: int32)
      requires size >= 0
      modifies this`recvBuff, client`calls
      ensures Valid() && fresh(recvBuff) && fresh(recvBuff.buffer)
      ensures recvBuff.buffer.Length == size as int && recvBuff.readPos == 0 && recvBuff.writePos == 0
      ensures client.calls == old(client.calls) + [SetReceiveBufferSizeCall(Wrap32(2 * size as int))]
    {
      recvBuff := new TCPRecvBuffer(size as nat);
      result := client.SetReceiveBufferSize(Wrap32(2 * size as int));
    }

    /** Asks the transport for a socket send buffer of twice `size` bytes. */
    method SetSendBufferSize(size: int32) returns (result: int32)
      modifies client`calls
      ensures client.calls == old(client.calls) + [SetSendBufferSizeCall(Wrap32(2 * size as int))]
    {
      result := client.SetSendBufferSize(Wrap32(2 * size as int));
    }

    /** Without a header component the session is first told of a failed
        (abnormal) disconnect; the connect is begun in either case. */
    method StartConnect(ip: string, port: int32)
      modifies session, client`calls
      ensures session.events == old(session.events) + (if hasHeader then [] else [Disconnected(false)])
      ensures client.calls == old(client.calls) + [BeginConnectCall(ip, port)]
    {
      if !hasHeader {
        var ret := AsyncResult(false, 0, 0);
        DisconnectCallback(ret);
      }
      var error := client.BeginConnect(ip, port);
    }

    /** Polls the queue: when connected and the queue holds messages, drains it
        and delivers every message to the session exactly once, in queue order. */
    method CheckMessage()
      modifies messageQueue, session
      ensures old(client.connected) && old(messageQueue.queue) != [] ==>
        messageQueue.queue == [] && session.events == old(session.events) + Deliveries(old(messageQueue.queue))
      ensures !(old(client.connected) && old(messageQueue.queue) != []) ==>
        messageQueue.queue == old(messageQueue.queue) && session.events == old(session.events)
    {
      var connected := client.IsConnected();
      if connected {
        var empty := messageQueue.IsQueueEmpty();
        if !empty {
          var messages := messageQueue.PopAll();
          for i := 0 to |messages|
            invariant session.events == old(session.events) + Deliveries(messages[..i])
            modifies session
          {
            assert messages[..i + 1] == messages[..i] + [messages[i]];
            session.RecvMessageCallback(messages[i]);
          }
          assert messages[..|messages|] == messages;
        }
      }
    }

    method StartSend(message: Message)
      modifies client`calls
      ensures client.calls == old(client.calls) + [BeginSendCall(message)]
    {
      var error := client.BeginSend(message);
    }

    /** Cleans the receive buffer and arms a receive into all of its free space. */
    method StartRecv()
      requires Valid()
      modifies recvBuff, client`calls
      ensures Valid() && recvBuff.readPos == 0 && recvBuff.writePos == 0
      ensures client.calls == old(client.calls) + [BeginRecvCall(0, recvBuff.buffer.Length)]
    {
      recvBuff.Clean();
      var error := client.BeginRecv(recvBuff.writePos, recvBuff.FreeSize());
    }

    method Disconnect(cause: string, shutdownNormally: bool)
      modifies client`calls
      ensures client.calls == old(client.calls) + [DisconnectCall(cause, shutdownNormally)]
    {
      client.Disconnect(cause, shutdownNormally);
    }

    /** A failed connect is only logged; a successful one is reported to the
        session and a receive is armed. */
    method ConnectCallback(result: AsyncResult)
      requires Valid()
      modifies session, recvBuff, client`calls
      ensures Valid()
      ensures !result.success ==>
        session.events == old(session.events) && client.calls == old(client.calls) && recvBuff.readPos == old(recvBuff.readPos) && recvBuff.writePos == old(recvBuff.writePos)
      ensures result.success ==>
        session.events == old(session.events) + [Connected(true)] &&
        client.calls == old(client.calls) + [BeginRecvCall(0, recvBuff.buffer.Length)] &&
        recvBuff.readPos == 0 && recvBuff.writePos == 0
    {
      if !result.success {
        return;
      }
      session.ConnectedCallback(result.success);
      StartRecv();
    }

    method SendCallback(result: AsyncResult)
      modifies session
      ensures session.events == old(session.events) + [Sent(result.bytesTransferred, result.state)]
    {
      session.SendMessageCallback(result.bytesTransferred, result.state);
    }

    /** Handles a completed read of `result.bytesTransferred` bytes, which the
        transport has written after the write cursor.
        - zero bytes: the peer closed; disconnect "by Server";
        - no header component: disconnect "Header is null";
        - a negative count: nothing at all;
        - more bytes than free space: disconnect "OnWrite Overflow";
        - otherwise: push every complete message of the unread region onto the
          queue, release them, and arm exactly one new receive.
        No failure path pushes a message or arms a receive. The precondition on
        the unread region is one the source does not check (see `Progressing`);
        under it the "OnRead Overflow" disconnect of the source cannot happen. */
    method RecvCallback(result: AsyncResult)
      requires Valid()
      requires (hasHeader && result.bytesTransferred > 0 &&
                recvBuff.writePos + result.bytesTransferred as int <= recvBuff.buffer.Length) ==>
        Progressing(recvBuff.buffer[recvBuff.readPos..recvBuff.writePos + result.bytesTransferred as int])
      modifies recvBuff, client`calls, messageQueue
      ensures Valid()
      ensures result.bytesTransferred == 0 ==>
        client.calls == old(client.calls) + [DisconnectCall("by Server", false)] &&
        messageQueue.queue == old(messageQueue.queue) && recvBuff.readPos == old(recvBuff.readPos) && recvBuff.writePos == old(recvBuff.writePos)
      ensures result.bytesTransferred != 0 && !hasHeader ==>
        client.calls == old(client.calls) + [DisconnectCall("Header is null", false)] &&
        messageQueue.queue == old(messageQueue.queue) && recvBuff.readPos == old(recvBuff.readPos) && recvBuff.writePos == old(recvBuff.writePos)
      ensures result.bytesTransferred < 0 && hasHeader ==>
        client.calls == old(client.calls) &&
        messageQueue.queue == old(messageQueue.queue) && recvBuff.readPos == old(recvBuff.readPos) && recvBuff.writePos == old(recvBuff.writePos)
      ensures (result.bytesTransferred > 0 && hasHeader &&
               old(recvBuff.writePos) + result.bytesTransferred as int > recvBuff.buffer.Length) ==>
        client.calls == old(client.calls) + [DisconnectCall("OnWrite Overflow", false)] &&
        messageQueue.queue == old(messageQueue.queue) && recvBuff.readPos == old(recvBuff.readPos) && recvBuff.writePos == old(recvBuff.writePos)
      ensures (result.bytesTransferred > 0 && hasHeader &&
               old(recvBuff.writePos) + result.bytesTransferred as int <= recvBuff.buffer.Length) ==>
        messageQueue.queue == old(messageQueue.queue) +
          Frames(old(recvBuff.buffer[recvBuff.readPos..recvBuff.writePos + result.bytesTransferred as int])) &&
        client.calls == old(client.calls) + [BeginRecvCall(0, recvBuff.buffer.Length)] &&
        recvBuff.readPos == 0 && recvBuff.writePos == 0
    {
      var bytesTransferred := result.bytesTransferred;

      if bytesTransferred == 0 {
        Disconnect("by Server", false);
        return;
      }

      if !hasHeader {
        Disconnect("Header is null", false);
        return;
      }

      if bytesTransferred > 0 {
        var written := recvBuff.OnWrite(bytesTransferred as nat);
        if !written {
          Disconnect("OnWrite Overflow", false);
          return;
        }

        var recvSize := recvBuff.DataSize();
        var buffer := recvBuff.buffer[recvBuff.readPos..recvBuff.writePos];
        var processLen := ExtractMessages(buffer, recvSize);

        // The source disconnects with "OnRead Overflow" when processLen is
        // negative, exceeds recvSize, or cannot be released; none can happen here.
        var released := recvBuff.OnRead(processLen);
        if !released {
          assert false;
        }
        StartRecv();
      }
    }

    /** The extraction loop of `RecvCallback`: walks `buffer`, the unread
        region seen through the read cursor (`recvSize` is its length, the
        buffer's `DataSize`), pushing each complete message onto the queue,
        and returns `processLen`, the number of bytes those messages take. */
    method ExtractMessages(buffer: seq<byte>, recvSize: nat) returns (processLen: nat)
      requires recvSize == |buffer|
      requires Progressing(buffer)
      modifies messageQueue
      ensures processLen <= |buffer|
      ensures processLen == Consumed(buffer)
      ensures messageQueue.queue == old(messageQueue.queue) + Frames(buffer)
    {
      processLen := 0;
      ghost var emitted: seq<Message> := [];
      ExtractStart(buffer);
      while true
        invariant Extracted(buffer, processLen, emitted)
        invariant messageQueue.queue == old(messageQueue.queue) + emitted
        decreases recvSize - processLen
      {
        var dataSize := recvSize - processLen;
        var check := IsOneMessage(buffer[processLen..], dataSize, 0);
        if !check.complete {
          ExtractStop(buffer, processLen, emitted);
          break;
        }
        ExtractStep(buffer, processLen, emitted);
        var sizeOfMessage := check.sizeOfMessage as nat;
        PutMessage(buffer[processLen..], sizeOfMessage);
        emitted := emitted + [buffer[processLen..][..sizeOfMessage]];
        processLen := processLen + sizeOfMessage;
      }
    }

    /** Copies the first `sizeOfPacket` bytes of `buffer` into a new, owned
        message and appends it to the queue. */
    method PutMessage(buffer: seq<byte>, sizeOfPacket: nat)
      requires sizeOfPacket <= |buffer|
      modifies messageQueue
      ensures messageQueue.queue == old(messageQueue.queue) + [buffer[..sizeOfPacket]]
    {
      var buffArr := new byte[sizeOfPacket];
      forall i | 0 <= i < sizeOfPacket {
        buffArr[i] := buffer[i];
      }
      assert buffArr[..] == buffer[..sizeOfPacket];
      messageQueue.Push(buffArr[..]);
    }

    /** Reports the transport's disconnect to the session; the result's success
        flag says whether the shutdown was normal. */
    method DisconnectCallback(result: AsyncResult)
      modifies session
      ensures session.events == old(session.events) + [Disconnected(result.success)]
    {
      session.DisconnectedCallback(result.success);
    }
  }
}
