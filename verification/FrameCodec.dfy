/** The length-prefixed frames of the chat client and server, and a stream of them as its reader sees it. */
module FrameCodec {
  import opened Words

  const MAX_BODY_LENGTH: nat := 64 * 1024
  const CHAT: byte := 1
  const MOVE_INPUT: byte := 2

  /** The type byte is any byte, as an enum value is in the source; the content is its UTF-8 bytes. */
  datatype NetMessage = NetMessage(kind: byte, content: seq<byte>)

  datatype Error = Truncated | MissingBody | BadLength | UnknownType

  /** What one attempt to read a message gives: a message, the orderly end of the stream, an exception. */
  datatype Outcome = Message(message: NetMessage) | CleanEnd | Failed(error: Error)

  /** An outcome and the bytes left unread. */
  datatype Reading = Reading(outcome: Outcome, rest: seq<byte>)

  /** Everything a reader gets out of a stream, and how that ended. */
  datatype Transcript = Transcript(messages: seq<NetMessage>, end: Outcome)

  predicate KnownType(kind: byte) {
    kind == CHAT || kind == MOVE_INPUT
  }

  predicate Encodable(m: NetMessage) {
    KnownType(m.kind) && 1 + |m.content| <= MAX_BODY_LENGTH
  }

  function LengthBytes(n: nat): (header: seq<byte>)
    ensures |header| == 4
  {
    [(n / 0x100_0000 % 0x100) as byte, (n / 0x1_0000 % 0x100) as byte, (n / 0x100 % 0x100) as byte, (n % 0x100) as byte]
  }

  /** The header as a signed 32-bit integer in network byte order. */
  function ReadLength(header: seq<byte>): int
    requires |header| == 4
  {
    var upper := header[0] as int * 0x100 + header[1] as int;
    var unsigned := (upper * 0x100 + header[2] as int) * 0x100 + header[3] as int;
    if unsigned < HALF32 then unsigned else unsigned - MOD32
  }

  /** Four bytes of big-endian body length, one byte of message type, then the content. */
  function Frame(m: NetMessage): seq<byte> {
    LengthBytes(1 + |m.content|) + [m.kind] + m.content
  }

  function Wire(messages: seq<NetMessage>): seq<byte> {
    if messages == [] then [] else Frame(messages[0]) + Wire(messages[1..])
  }

  /** Read one message from all that will arrive before the peer closes its side. */
  function Parse(stream: seq<byte>): (r: Reading)
    ensures r.outcome.Message? ==> |r.rest| < |stream|
  {
    if stream == [] then Reading(CleanEnd, [])
    else if |stream| < 4 then Reading(Failed(Truncated), [])
    else
      var bodyLength := ReadLength(stream[..4]);
      var body := stream[4..];
      if bodyLength < 1 || bodyLength > MAX_BODY_LENGTH then Reading(Failed(BadLength), body)
      else if body == [] then Reading(Failed(MissingBody), [])
      else if |body| < bodyLength then Reading(Failed(Truncated), [])
      else if !KnownType(body[0]) then Reading(Failed(UnknownType), body[bodyLength..])
      else Reading(Message(NetMessage(body[0], body[1..bodyLength])), body[bodyLength..])
  }

  function ReadAll(stream: seq<byte>): Transcript
    decreases |stream|
  {
    var reading := Parse(stream);
    if reading.outcome.Message? then
      var later := ReadAll(reading.rest);
      Transcript([reading.outcome.message] + later.messages, later.end)
    else
      Transcript([], reading.outcome)
  }

  // One frame.

  lemma LengthRoundTrip(n: nat)
    requires n < HALF32
    ensures ReadLength(LengthBytes(n)) == n
  {
    var a, b, c := n / 0x100, n / 0x1_0000, n / 0x100_0000;
    assert b == a / 0x100 && c == b / 0x100 && c < 0x80;
  }

  lemma LengthIsUnambiguous(header: seq<byte>)
    requires |header| == 4 && ReadLength(header) >= 0
    ensures LengthBytes(ReadLength(header)) == header
  {
    var h0, h1, h2, h3 := header[0] as int, header[1] as int, header[2] as int, header[3] as int;
    var n := ReadLength(header);
    assert n / 0x100 == (h0 * 0x100 + h1) * 0x100 + h2;
    assert n / 0x1_0000 == h0 * 0x100 + h1;
    assert n / 0x100_0000 == h0;
  }

  lemma FrameShape(m: NetMessage, rest: seq<byte>)
    ensures |Frame(m)| == 5 + |m.content|
    ensures (Frame(m) + rest)[..4] == LengthBytes(1 + |m.content|)
    ensures (Frame(m) + rest)[4..] == [m.kind] + m.content + rest
  {
  }

  /** Where each part of a message is in its frame, and that the length counts the type byte, most significant first. */
  lemma FrameLayout(m: NetMessage)
    requires 1 + |m.content| < MOD32
    ensures |Frame(m)| == 5 + |m.content| && Frame(m)[4] == m.kind && Frame(m)[5..] == m.content
    ensures var f := Frame(m);
            f[0] as int * 0x100_0000 + f[1] as int * 0x1_0000 + f[2] as int * 0x100 + f[3] as int == 1 + |m.content|
  {
    var n := 1 + |m.content|;
    var a, b, c := n / 0x100, n / 0x1_0000, n / 0x100_0000;
    assert b == a / 0x100 && c == b / 0x100 && c < 0x100;
  }

  lemma ParseOfFrame(m: NetMessage, rest: seq<byte>)
    requires Encodable(m)
    ensures Parse(Frame(m) + rest) == Reading(Message(m), rest)
  {
    FrameShape(m, rest);
    LengthRoundTrip(1 + |m.content|);
    var body := [m.kind] + m.content + rest;
    assert body[1..1 + |m.content|] == m.content;
    assert body[1 + |m.content|..] == rest;
  }

  lemma ParsedIsFrame(stream: seq<byte>)
    requires Parse(stream).outcome.Message?
    ensures Encodable(Parse(stream).outcome.message)
    ensures stream == Frame(Parse(stream).outcome.message) + Parse(stream).rest
  {
    var bodyLength := ReadLength(stream[..4]);
    var body := stream[4..];
    LengthIsUnambiguous(stream[..4]);
    assert body == [body[0]] + body[1..bodyLength] + body[bodyLength..];
  }

  /** A message is read exactly when its own encoding is what arrived: no other bytes decode to it. */
  lemma ParseIffFrame(stream: seq<byte>, m: NetMessage, rest: seq<byte>)
    ensures Parse(stream) == Reading(Message(m), rest) <==> (Encodable(m) && stream == Frame(m) + rest)
  {
    if Encodable(m) && stream == Frame(m) + rest {
      ParseOfFrame(m, rest);
    }
    if Parse(stream) == Reading(Message(m), rest) {
      ParsedIsFrame(stream);
    }
  }

  /** How reading ends when the stream stops k bytes into a frame. */
  function CutEnd(k: nat): Outcome {
    if k == 0 then CleanEnd else Failed(if k == 4 then MissingBody else Truncated)
  }

  lemma CutFrameFails(m: NetMessage, k: nat)
    requires Encodable(m) && k < |Frame(m)|
    ensures Parse(Frame(m)[..k]) == Reading(CutEnd(k), [])
  {
  }

  /** A frame longer than the limit is refused when its header has been read. */
  lemma OversizedFrameIsRefused(m: NetMessage, rest: seq<byte>)
    requires 64 * 1024 < 1 + |m.content| < HALF32
    ensures Parse(Frame(m) + rest).outcome == Failed(BadLength)
  {
  }

  /** A frame of legal length with a type that is neither chat nor movement is read to its end and refused. */
  lemma UnknownTypeIsRefused(m: NetMessage, rest: seq<byte>)
    requires m.kind != 1 && m.kind != 2 && |m.content| <= 65535
    ensures Parse(Frame(m) + rest) == Reading(Failed(UnknownType), rest)
  {
    FrameShape(m, rest);
    LengthRoundTrip(1 + |m.content|);
    assert ([m.kind] + m.content + rest)[1 + |m.content|..] == rest;
  }

  /** A length that is zero, or negative as a signed 32-bit integer, is refused before any of the body is read. */
  lemma EmptyOrNegativeLengthIsRefused(header: seq<byte>, rest: seq<byte>)
    requires |header| == 4 && (header == [0, 0, 0, 0] || header[0] >= 0x80)
    ensures Parse(header + rest) == Reading(Failed(BadLength), rest)
  {
    assert (header + rest)[..4] == header && (header + rest)[4..] == rest;
  }

  // Whole streams.

  lemma {:induction false} WireConcat(a: seq<NetMessage>, b: seq<NetMessage>)
    ensures Wire(a + b) == Wire(a) + Wire(b)
  {
    if a == [] {
      assert a + b == b;
    } else {
      WireConcat(a[1..], b);
      assert (a + b)[1..] == a[1..] + b;
      Reassociate(Frame(a[0]), Wire(a[1..]), Wire(b));
    }
  }

  lemma ReadAllOfFrame(m: NetMessage, rest: seq<byte>)
    requires Encodable(m)
    ensures ReadAll(Frame(m) + rest) == Transcript([m] + ReadAll(rest).messages, ReadAll(rest).end)
  {
    ParseOfFrame(m, rest);
  }

  /** Reading frames followed by anything gives the messages, then whatever the rest gives. */
  lemma {:induction false} ReadAllOfWire(messages: seq<NetMessage>, rest: seq<byte>)
    requires forall m | m in messages :: Encodable(m)
    ensures ReadAll(Wire(messages) + rest) == Transcript(messages + ReadAll(rest).messages, ReadAll(rest).end)
  {
    if messages == [] {
      assert Wire(messages) + rest == rest;
      assert messages + ReadAll(rest).messages == ReadAll(rest).messages;
    } else {
      ReadAllOfFrame(messages[0], Wire(messages[1..]) + rest);
      ReadAllOfWire(messages[1..], rest);
      Reassociate(Frame(messages[0]), Wire(messages[1..]), rest);
      Reassociate([messages[0]], messages[1..], ReadAll(rest).messages);
      assert [messages[0]] + messages[1..] == messages;
    }
  }

  /** The round trip: the messages encoded are the messages read, and then the stream ends cleanly. */
  lemma RoundTrip(messages: seq<NetMessage>)
    requires forall m | m in messages :: Encodable(m)
    ensures ReadAll(Wire(messages)) == Transcript(messages, CleanEnd)
  {
    ReadAllOfWire(messages, []);
    assert Wire(messages) + [] == Wire(messages);
  }

  /** Nothing is invented: on any stream, what was read is what the stream starts with. */
  lemma {:induction false} ReadAllIsFaithful(stream: seq<byte>)
    ensures forall m | m in ReadAll(stream).messages :: Encodable(m)
    ensures Wire(ReadAll(stream).messages) <= stream
    ensures ReadAll(stream).end == CleanEnd <==> Wire(ReadAll(stream).messages) == stream
    ensures !ReadAll(stream).end.Message?
    decreases |stream|
  {
    var reading := Parse(stream);
    if reading.outcome.Message? {
      ParsedIsFrame(stream);
      ReadAllIsFaithful(reading.rest);
      var later := ReadAll(reading.rest).messages;
      assert ([reading.outcome.message] + later)[1..] == later;
      assert Wire([reading.outcome.message] + later) == Frame(reading.outcome.message) + Wire(later);
    }
  }

  /** How many whole frames lie within the first k bytes on the wire. */
  function WholeFrames(messages: seq<NetMessage>, k: nat): (n: nat)
    ensures n <= |messages|
  {
    if messages == [] || k < |Frame(messages[0])| then 0
    else 1 + WholeFrames(messages[1..], k - |Frame(messages[0])|)
  }

  lemma {:induction false} WholeFramesFit(messages: seq<NetMessage>, k: nat)
    ensures var n := WholeFrames(messages, k);
            && |Wire(messages[..n])| <= k
            && (n < |messages| ==> k < |Wire(messages[..n])| + |Frame(messages[n])|)
  {
    if messages != [] && |Frame(messages[0])| <= k {
      WholeFramesFit(messages[1..], k - |Frame(messages[0])|);
      var n := WholeFrames(messages, k);
      assert messages[..n][1..] == messages[1..][..n - 1];
    }
  }

  lemma CutSplits(messages: seq<NetMessage>, k: nat, n: nat, inside: nat)
    requires k <= |Wire(messages)|
    requires n == WholeFrames(messages, k) && |Wire(messages[..n])| + inside == k
    ensures var after := messages[n..];
            && inside <= |Wire(after)|
            && Wire(messages)[..k] == Wire(messages[..n]) + Wire(after)[..inside]
            && (after != [] ==> inside < |Frame(after[0])| && Wire(after)[..inside] == Frame(after[0])[..inside])
  {
    WholeFramesFit(messages, k);
    assert messages == messages[..n] + messages[n..];
    WireConcat(messages[..n], messages[n..]);
  }

  /**
   * A stream cut anywhere is read up to the last whole frame. It ends cleanly exactly when the cut
   * falls between two frames; a cut inside a frame is reported and never decoded.
   */
  lemma CutStreamIsReported(messages: seq<NetMessage>, k: nat, n: nat, inside: nat)
    requires forall m | m in messages :: Encodable(m)
    requires k <= |Wire(messages)|
    requires n == WholeFrames(messages, k) && |Wire(messages[..n])| + inside == k
    ensures ReadAll(Wire(messages)[..k]) == Transcript(messages[..n], CutEnd(inside))
  {
    var whole, after := messages[..n], messages[n..];
    CutSplits(messages, k, n, inside);
    ReadAllOfWire(whole, Wire(after)[..inside]);
    assert whole + [] == whole;
    if after != [] {
      CutFrameFails(after[0], inside);
    }
  }

  // The echo server: it answers each chat message, and its encoder does not check the size.

  /** The UTF-8 bytes of the text the server appends to a chat message. */
  const ACKNOWLEDGEMENT: seq<byte> := [
    0x2C, 0xE6, 0x9C, 0x8D, 0xE5, 0x8A, 0xA1, 0xE7, 0xAB, 0xAF, 0xE5, 0xB7, 0xB2, 0xE6, 0x94, 0xB6, 0xE5, 0x88, 0xB0]

  function Reply(m: NetMessage): NetMessage {
    NetMessage(CHAT, m.content + ACKNOWLEDGEMENT)
  }

  function RepliesTo(m: NetMessage): seq<NetMessage> {
    if m.kind == CHAT then [Reply(m)] else []
  }

  function Replies(messages: seq<NetMessage>): seq<NetMessage> {
    if messages == [] then [] else RepliesTo(messages[0]) + Replies(messages[1..])
  }

  lemma {:induction false} RepliesConcat(a: seq<NetMessage>, b: seq<NetMessage>)
    ensures Replies(a + b) == Replies(a) + Replies(b)
  {
    if a == [] {
      assert a + b == b;
    } else {
      RepliesConcat(a[1..], b);
      assert (a + b)[1..] == a[1..] + b;
      Reassociate(RepliesTo(a[0]), Replies(a[1..]), Replies(b));
    }
  }

  /**
   * The server answers a chat message with its content followed by the fixed text, in a chat message, and a
   * movement message with nothing.
   */
  lemma ChatIsEchoed(before: seq<NetMessage>, m: NetMessage)
    ensures m.kind == 1 ==> |Replies(before + [m])| == |Replies(before)| + 1
    ensures m.kind == 1 ==>
              var reply := Replies(before + [m])[|Replies(before)|];
              reply.kind == 1 && m.content <= reply.content && reply.content[|m.content|..] == ACKNOWLEDGEMENT
    ensures m.kind != 1 ==> Replies(before + [m]) == Replies(before)
  {
    RepliesConcat(before, [m]);
    assert Replies([m]) == RepliesTo(m);
  }

  /** The client can read the reply to a chat message exactly when the message leaves room for the addition. */
  predicate LeavesRoom(m: NetMessage) {
    m.kind == CHAT ==> 1 + |m.content| + |ACKNOWLEDGEMENT| <= MAX_BODY_LENGTH
  }

  lemma {:induction false} EncodableReplies(messages: seq<NetMessage>)
    requires forall m | m in messages :: LeavesRoom(m)
    ensures forall r | r in Replies(messages) :: Encodable(r)
  {
    if messages != [] {
      EncodableReplies(messages[1..]);
      assert messages[0] in messages;
    }
  }

  lemma WireOfReplies(before: seq<NetMessage>, chat: NetMessage, after: seq<NetMessage>)
    requires chat.kind == CHAT
    ensures Wire(Replies(before + [chat] + after))
         == Wire(Replies(before)) + (Frame(Reply(chat)) + Wire(Replies(after)))
  {
    Reassociate(before, [chat], after);
    RepliesConcat(before, [chat] + after);
    WireConcat(Replies(before), Replies([chat] + after));
    WireOfFirstReply(chat, after);
  }

  lemma WireOfFirstReply(m: NetMessage, later: seq<NetMessage>)
    ensures Wire(Replies([m] + later)) == Wire(RepliesTo(m)) + Wire(Replies(later))
    ensures Wire(RepliesTo(m)) == if m.kind == CHAT then Frame(Reply(m)) else []
  {
    assert ([m] + later)[1..] == later;
    WireConcat(RepliesTo(m), Replies(later));
    assert Frame(Reply(m)) + [] == Frame(Reply(m));
  }

  /** The first chat message that leaves no room stops the client there, with all earlier replies read. */
  lemma LongMessageBreaksTheClient(before: seq<NetMessage>, long: NetMessage, after: seq<NetMessage>)
    requires forall m | m in before :: LeavesRoom(m)
    requires Encodable(long) && !LeavesRoom(long)
    ensures ReadAll(Wire(Replies(before + [long] + after))) == Transcript(Replies(before), Failed(BadLength))
  {
    WireOfReplies(before, long, after);
    EncodableReplies(before);
    ReadAllOfWire(Replies(before), Frame(Reply(long)) + Wire(Replies(after)));
    OversizedFrameIsRefused(Reply(long), Wire(Replies(after)));
    assert Replies(before) + [] == Replies(before);
  }

  lemma {:induction false} FirstWithoutRoom(messages: seq<NetMessage>) returns (i: nat)
    requires exists m | m in messages :: !LeavesRoom(m)
    ensures i < |messages| && !LeavesRoom(messages[i])
    ensures forall m | m in messages[..i] :: LeavesRoom(m)
  {
    if !LeavesRoom(messages[0]) {
      i := 0;
    } else {
      var m :| m in messages && !LeavesRoom(m);
      assert m in messages[1..];
      var j := FirstWithoutRoom(messages[1..]);
      i := j + 1;
      assert messages[..i] == [messages[0]] + messages[1..][..j];
    }
  }

  lemma RoomLetsEchoComplete(messages: seq<NetMessage>)
    requires forall m | m in messages :: LeavesRoom(m)
    ensures ReadAll(Wire(Replies(messages))) == Transcript(Replies(messages), CleanEnd)
  {
    EncodableReplies(messages);
    RoundTrip(Replies(messages));
  }

  lemma SplitsAt<T>(s: seq<T>, i: nat)
    requires i < |s|
    ensures s == s[..i] + [s[i]] + s[i + 1..]
  {
  }

  lemma LackOfRoomBreaksEcho(messages: seq<NetMessage>)
    requires forall m | m in messages :: Encodable(m)
    requires exists m | m in messages :: !LeavesRoom(m)
    ensures ReadAll(Wire(Replies(messages))).end == Failed(BadLength)
  {
    var i := FirstWithoutRoom(messages);
    SplitsAt(messages, i);
    LongMessageBreaksTheClient(messages[..i], messages[i], messages[i + 1..]);
  }

  /**
   * A client whose messages were all accepted by its own encoder gets every reply if and only if
   * every chat message leaves room for the server's addition.
   */
  lemma EchoCompletesIff(messages: seq<NetMessage>)
    requires forall m | m in messages :: Encodable(m)
    ensures ReadAll(Wire(messages)) == Transcript(messages, CleanEnd)
    ensures ReadAll(Wire(Replies(messages))) == Transcript(Replies(messages), CleanEnd)
       <==> forall m | m in messages :: LeavesRoom(m)
  {
    RoundTrip(messages);
    if forall m | m in messages :: LeavesRoom(m) {
      RoomLetsEchoComplete(messages);
    } else {
      LackOfRoomBreaksEcho(messages);
    }
  }
}
