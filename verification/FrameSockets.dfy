/** The loops that put frames on a socket and take them off; a socket may move any number of bytes at a time. */
module FrameSockets {
  import opened Words
  import opened FrameCodec

  /** A connected stream socket: the bytes the peer will send before it closes, and the bytes taken from us. */
  class Socket {
    var incoming: seq<byte>
    var outgoing: seq<byte>

    constructor (incoming: seq<byte>)
      ensures this.incoming == incoming && outgoing == []
    {
      this.incoming, outgoing := incoming, [];
    }

    /** Zero only at the end of the stream; otherwise any positive number of the bytes that remain. */
    method Receive(buffer: array<byte>, offset: nat, size: nat) returns (count: nat)
      requires offset + size <= buffer.Length && size > 0
      modifies this`incoming, buffer
      ensures count <= size && count <= |old(incoming)|
      ensures count == 0 <==> old(incoming) == []
      ensures incoming == old(incoming)[count..]
      ensures buffer[..] == old(buffer[..offset]) + old(incoming)[..count] + old(buffer[offset + count..])
    {
      if incoming == [] {
        return 0;
      }
      count :| 0 < count <= size && count <= |incoming|;
      forall i | 0 <= i < count {
        buffer[offset + i] := incoming[i];
      }
      incoming := incoming[count..];
    }

    /** Any number of the bytes offered; zero when the connection cannot go on. */
    method Send(data: seq<byte>, offset: nat, size: nat) returns (sent: nat)
      requires offset + size <= |data|
      modifies this`outgoing
      ensures sent <= size
      ensures outgoing == old(outgoing) + data[offset..offset + sent]
    {
      sent :| 0 <= sent <= size;
      outgoing := outgoing + data[offset..offset + sent];
    }
  }

  datatype Received = Full | EndedBefore | EndedWithin

  method ReceiveExactly(socket: Socket, buffer: array<byte>) returns (r: Received)
    modifies socket`incoming, buffer
    ensures r == if buffer.Length <= |old(socket.incoming)| then Full
                 else if old(socket.incoming) == [] then EndedBefore else EndedWithin
    ensures r.Full? ==> buffer[..] == old(socket.incoming)[..buffer.Length]
    ensures socket.incoming == if r.Full? then old(socket.incoming)[buffer.Length..] else []
  {
    ghost var stream := socket.incoming;
    var offset := 0;
    while offset < buffer.Length
      invariant offset <= buffer.Length && offset <= |stream|
      invariant socket.incoming == stream[offset..]
      invariant buffer[..offset] == stream[..offset]
    {
      var count := socket.Receive(buffer, offset, buffer.Length - offset);
      if count == 0 {
        return if offset == 0 then EndedBefore else EndedWithin;
      }
      assert stream[..offset + count] == stream[..offset] + stream[offset..][..count];
      offset := offset + count;
    }
    return Full;
  }

  /** Read one message, exactly as the codec parses the bytes that arrive, however they are chunked. */
  method ReceiveNetMessage(socket: Socket) returns (outcome: Outcome)
    modifies socket`incoming
    ensures Parse(old(socket.incoming)) == Reading(outcome, socket.incoming)
  {
    ghost var stream := socket.incoming;
    var header := new byte[4];
    var received := ReceiveExactly(socket, header);
    if received.EndedBefore? {
      return CleanEnd;
    } else if received.EndedWithin? {
      return Failed(Truncated);
    }
    var bodyLength := ReadLength(header[..]);
    if bodyLength < 1 || bodyLength > MAX_BODY_LENGTH {
      return Failed(BadLength);
    }
    var body := new byte[bodyLength];
    received := ReceiveExactly(socket, body);
    if received.EndedBefore? {
      return Failed(MissingBody);
    } else if received.EndedWithin? {
      return Failed(Truncated);
    }
    assert body[..] == stream[4..][..bodyLength];
    if !KnownType(body[0]) {
      return Failed(UnknownType);
    }
    return Message(NetMessage(body[0], body[1..]));
  }

  /** The server's encoder: it does not look at the type or at the limit on the body. */
  method EncodeOnServer(m: NetMessage) returns (frame: array<byte>)
    requires 5 + |m.content| < HALF32
    ensures fresh(frame) && frame[..] == Frame(m)
  {
    var bodyLength := 1 + |m.content|;
    frame := new byte[4 + bodyLength];
    var lengthBytes := LengthBytes(bodyLength);
    forall i | 0 <= i < 4 {
      frame[i] := lengthBytes[i];
    }
    frame[4] := m.kind;
    forall i | 0 <= i < |m.content| {
      frame[5 + i] := m.content[i];
    }
    assert frame[..] == lengthBytes + [m.kind] + m.content;
  }

  /** The client's encoder refuses exactly what its peer could not read. */
  method EncodeOnClient(m: NetMessage) returns (frame: Option<seq<byte>>)
    ensures frame == if Encodable(m) then Some(Frame(m)) else None
  {
    if m.kind != CHAT && m.kind != MOVE_INPUT {
      return None;
    }
    var bodyLength := 1 + |m.content|;
    if bodyLength > MAX_BODY_LENGTH {
      return None;
    }
    var encoded := EncodeOnServer(m);
    return Some(encoded[..]);
  }

  function Flatten(frames: seq<seq<byte>>): seq<byte> {
    if frames == [] then [] else frames[0] + Flatten(frames[1..])
  }

  /** The client; another thread may stop it between any two of its steps. */
  class CubeClient {
    const socket: Socket
    var running: bool
    var connected: bool
    var sendQueue: seq<seq<byte>>
    var receiveQueue: seq<NetMessage>

    constructor (socket: Socket)
      ensures this.socket == socket && running && connected && sendQueue == [] && receiveQueue == []
    {
      this.socket := socket;
      running, connected, sendQueue, receiveQueue := true, true, [], [];
    }

    method StopNetworking()
      modifies this`running, this`connected
      ensures !running && !connected
    {
      connected := false;
      running := false;
    }

    /** Queue the encoding of a message; a refused message, or one sent while stopped, changes nothing. */
    method Send(m: NetMessage) returns (accepted: bool)
      modifies this`sendQueue
      ensures accepted == (running && connected && Encodable(m))
      ensures sendQueue == old(sendQueue) + if accepted then [Frame(m)] else []
    {
      if !running || !connected {
        return false;
      }
      var frame := EncodeOnClient(m);
      if frame.None? {
        return false;
      }
      sendQueue := sendQueue + [frame.value];
      return true;
    }

    /** What is on the wire is always a prefix of the queued frames, and all of them unless the client stopped. */
    method SendLoop()
      modifies this`running, this`connected, this`sendQueue, socket`outgoing
      ensures old(socket.outgoing) <= socket.outgoing <= old(socket.outgoing) + Flatten(old(sendQueue))
      ensures running ==> socket.outgoing == old(socket.outgoing) + Flatten(old(sendQueue)) && sendQueue == []
    {
      ghost var all := socket.outgoing + Flatten(sendQueue);
      while running && sendQueue != []
        invariant old(socket.outgoing) <= socket.outgoing <= all
        invariant running ==> socket.outgoing + Flatten(sendQueue) == all
        decreases |sendQueue|
      {
        var data := sendQueue[0];
        sendQueue := sendQueue[1..];
        ghost var before, later := socket.outgoing, Flatten(sendQueue);
        Reassociate(before, data, later);
        var offset: nat := 0;
        while running && offset < |data|
          invariant offset <= |data|
          invariant socket.outgoing == before + data[..offset]
          modifies this`running, this`connected, socket`outgoing
        {
          var sent := socket.Send(data, offset, |data| - offset);
          assert data[..offset + sent] == data[..offset] + data[offset..offset + sent];
          Reassociate(before, data[..offset], data[offset..offset + sent]);
          if sent == 0 {
            StopNetworking();
          }
          offset := offset + sent;
          if * {
            running := false;
          }
        }
      }
    }

    /** The application gets a prefix of the messages in the stream, and all of them if the stream ended the loop. */
    method ReceiveLoop() returns (end: Option<Outcome>)
      modifies this`running, this`connected, this`receiveQueue, socket`incoming
      ensures !running && !connected
      ensures old(receiveQueue) <= receiveQueue <= old(receiveQueue) + ReadAll(old(socket.incoming)).messages
      ensures end.Some? ==> receiveQueue == old(receiveQueue) + ReadAll(old(socket.incoming)).messages
                            && end.value == ReadAll(old(socket.incoming)).end
    {
      ghost var all := ReadAll(socket.incoming);
      end := None;
      while running
        invariant old(receiveQueue) <= receiveQueue
        invariant receiveQueue + ReadAll(socket.incoming).messages == old(receiveQueue) + all.messages
        invariant ReadAll(socket.incoming).end == all.end
        decreases |socket.incoming|
      {
        ghost var later := ReadAll(Parse(socket.incoming).rest);
        var outcome := ReceiveNetMessage(socket);
        if !outcome.Message? {
          end := Some(outcome);
          break;
        }
        Reassociate(receiveQueue, [outcome.message], later.messages);
        receiveQueue := receiveQueue + [outcome.message];
        if * {
          running := false;
        }
      }
      StopNetworking();
    }
  }

  /** One connection at the server. */
  class ClientSocket {
    const socket: Socket

    constructor (socket: Socket)
      ensures this.socket == socket
    {
      this.socket := socket;
    }

    /** All of the range goes out, or the call fails with a proper prefix of it sent. */
    method Send(data: seq<byte>, from: nat, count: nat) returns (ok: bool)
      requires from + count <= |data|
      modifies socket`outgoing
      ensures ok ==> socket.outgoing == old(socket.outgoing) + data[from..from + count]
      ensures !ok ==> old(socket.outgoing) <= socket.outgoing < old(socket.outgoing) + data[from..from + count]
    {
      ghost var before := socket.outgoing;
      var offset, end := from, from + count;
      while offset < end
        invariant from <= offset <= end
        invariant socket.outgoing == before + data[from..offset]
      {
        var sent := socket.Send(data, offset, end - offset);
        assert data[from..offset + sent] == data[from..offset] + data[offset..offset + sent];
        if sent == 0 {
          assert data[from..end] == data[from..offset] + data[offset..end];
          return false;
        }
        offset := offset + sent;
      }
      return true;
    }

    /** Send the reply to a chat message; other messages need none. */
    method Answer(m: NetMessage) returns (ok: bool)
      requires Encodable(m)
      modifies socket`outgoing
      ensures ok ==> socket.outgoing == old(socket.outgoing) + Wire(RepliesTo(m))
      ensures !ok ==> old(socket.outgoing) <= socket.outgoing <= old(socket.outgoing) + Wire(RepliesTo(m))
    {
      ok := true;
      WireOfFirstReply(m, []);
      if m.kind == CHAT {
        var data := EncodeOnServer(Reply(m));
        ok := Send(data[..], 0, data.Length);
      }
    }

    /** Answer each chat message until the stream ends or fails, or an answer cannot be sent. */
    method ReceiveLoop() returns (end: Option<Outcome>)
      modifies socket
      ensures var t := ReadAll(old(socket.incoming));
              && old(socket.outgoing) <= socket.outgoing <= old(socket.outgoing) + Wire(Replies(t.messages))
              && (end.Some? ==> && end.value == t.end
                                && socket.outgoing == old(socket.outgoing) + Wire(Replies(t.messages)))
    {
      ghost var all := ReadAll(socket.incoming);
      ghost var target := socket.outgoing + Wire(Replies(all.messages));
      while true
        invariant old(socket.outgoing) <= socket.outgoing
        invariant socket.outgoing + Wire(Replies(ReadAll(socket.incoming).messages)) == target
        invariant ReadAll(socket.incoming).end == all.end
        decreases |socket.incoming|
      {
        ghost var stream, before := socket.incoming, socket.outgoing;
        var outcome := ReceiveNetMessage(socket);
        if !outcome.Message? {
          return Some(outcome);
        }
        ReadAllUnfolds(stream, outcome.message, socket.incoming);
        Reassociate(before, Wire(RepliesTo(outcome.message)), Wire(Replies(ReadAll(socket.incoming).messages)));
        var ok := Answer(outcome.message);
        if !ok {
          return None;
        }
      }
    }
  }

  lemma ReadAllUnfolds(stream: seq<byte>, m: NetMessage, rest: seq<byte>)
    requires Parse(stream) == Reading(Message(m), rest)
    ensures Encodable(m)
    ensures Wire(Replies(ReadAll(stream).messages)) == Wire(RepliesTo(m)) + Wire(Replies(ReadAll(rest).messages))
    ensures ReadAll(stream).end == ReadAll(rest).end
  {
    ParsedIsFrame(stream);
    WireOfFirstReply(m, ReadAll(rest).messages);
  }

  // One client to another, over two sockets that each move any number of bytes at a time.

  function Frames(messages: seq<NetMessage>): (frames: seq<seq<byte>>)
    ensures |frames| == |messages|
  {
    seq(|messages|, i requires 0 <= i < |messages| => Frame(messages[i]))
  }

  lemma {:induction false} FlattenIsWire(messages: seq<NetMessage>)
    ensures Flatten(Frames(messages)) == Wire(messages)
  {
    if messages != [] {
      FlattenIsWire(messages[1..]);
      assert Frames(messages)[1..] == Frames(messages[1..]);
    }
  }

  /** However much of the wire a reader gets, it reads the first of the messages; from all of it, all of them. */
  lemma PrefixOfWireIsRead(messages: seq<NetMessage>, wire: seq<byte>)
    requires forall m | m in messages :: Encodable(m)
    requires wire <= Wire(messages)
    ensures ReadAll(wire).messages <= messages
    ensures wire == Wire(messages) ==> ReadAll(wire) == Transcript(messages, CleanEnd)
  {
    var n := WholeFrames(messages, |wire|);
    WholeFramesFit(messages, |wire|);
    CutStreamIsReported(messages, |wire|, n, |wire| - |Wire(messages[..n])|);
    assert Wire(messages)[..|wire|] == wire;
    if wire == Wire(messages) {
      RoundTrip(messages);
    }
  }

  /**
   * The round trip over two sockets: what arrives is the first of the messages sent, whenever the two
   * clients stop; if neither was stopped, exactly the messages arrive and then the stream ends cleanly.
   */
  method CarryOver(messages: seq<NetMessage>) returns (received: seq<NetMessage>, sentAll: bool, end: Option<Outcome>)
    requires forall m | m in messages :: Encodable(m)
    ensures received <= messages
    ensures sentAll && end.Some? ==> received == messages && end.value == CleanEnd
  {
    var near := new Socket([]);
    var sender := new CubeClient(near);
    for i := 0 to |messages|
      invariant fresh(sender) && sender.running && sender.connected
      invariant sender.sendQueue == Frames(messages[..i])
      invariant near.outgoing == []
    {
      assert Frames(messages[..i + 1]) == Frames(messages[..i]) + [Frame(messages[i])];
      var accepted := sender.Send(messages[i]);
    }
    assert messages[..|messages|] == messages;
    FlattenIsWire(messages);
    sender.SendLoop();
    sentAll := sender.running;
    var wire := near.outgoing;
    assert wire <= Wire(messages) && (sentAll ==> wire == Wire(messages));
    PrefixOfWireIsRead(messages, wire);
    var far := new Socket(wire);
    var receiver := new CubeClient(far);
    end := receiver.ReceiveLoop();
    received := receiver.receiveQueue;
  }
}
