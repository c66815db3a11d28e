/** Messages as applications see them: the make_msg encoders and the round trip through the cutter. */
module Messages {
  import opened Frames

  /** A message to send. `trailer` is what the struct happens to hold after the random id:
      four bytes of padding and the eight bytes of the timestamp, which no sender sets. */
  datatype Message = Message(
    payloadType: uint32, sessionId: uint32, randomId: uint32, trailer: Bytes, payload: Bytes)
  {
    ghost predicate Sendable() {
      |trailer| == 12 && |payload| <= MAX_PB_MSG_SIZE
    }
  }

  /** What a handler reads out of a frame. */
  datatype Delivery = Delivery(payloadType: uint32, sessionId: uint32, randomId: uint32, payload: Bytes)

  function FrameView(frame: Frame): Delivery {
    Delivery(Le32(frame, 8), Le32(frame, 12), Le32(frame, 16), frame[HDR..])
  }

  function HeaderBytes(length: uint32, m: Message): Bytes {
    ToLe32(length) + ToLe32(PROTOBUF_V1) + ToLe32(m.payloadType)
    + ToLe32(m.sessionId) + ToLe32(m.randomId) + m.trailer
  }

  /** The bytes of a sent message: header and payload, the length field covering both. */
  function Wire(m: Message): (f: Frame)
    requires m.Sendable()
  {
    var n: uint32 := HDR + |m.payload|;
    var f := HeaderBytes(n, m) + m.payload;
    assert forall i :: 0 <= i < 4 ==> f[i] == ToLe32(n)[i];
    f
  }

  function WireAll(ms: seq<Message>): Bytes
    requires forall m :: m in ms ==> m.Sendable()
  {
    Join(Wires(ms))
  }

  function Wires(ms: seq<Message>): (fs: seq<Frame>)
    requires forall m :: m in ms ==> m.Sendable()
    ensures |fs| == |ms| && forall i :: 0 <= i < |ms| ==> fs[i] == Wire(ms[i])
  {
    seq(|ms|, i requires 0 <= i < |ms| => Wire(ms[i]))
  }

  lemma FieldAt(front: Bytes, n: uint32, back: Bytes)
    ensures |front + ToLe32(n) + back| == |front| + 4 + |back|
    ensures Le32(front + ToLe32(n) + back, |front|) == n
  {
    var s := front + ToLe32(n) + back;
    assert forall i :: 0 <= i < 4 ==> s[|front| + i] == ToLe32(n)[i];
  }

  /** A handler reads back what was put into an encoded message. */
  lemma WireView(m: Message)
    requires m.Sendable()
    ensures |Wire(m)| == HDR + |m.payload|
    ensures FrameView(Wire(m)) == Delivery(m.payloadType, m.sessionId, m.randomId, m.payload)
  {
    var n: uint32 := HDR + |m.payload|;
    var a, b, c, d, e := ToLe32(n), ToLe32(PROTOBUF_V1), ToLe32(m.payloadType), ToLe32(m.sessionId), ToLe32(m.randomId);
    var w := Wire(m);
    assert w == (a + b) + c + (d + e + m.trailer + m.payload);
    FieldAt(a + b, m.payloadType, d + e + m.trailer + m.payload);
    assert w == (a + b + c) + d + (e + m.trailer + m.payload);
    FieldAt(a + b + c, m.sessionId, e + m.trailer + m.payload);
    assert w == (a + b + c + d) + e + (m.trailer + m.payload);
    FieldAt(a + b + c + d, m.randomId, m.trailer + m.payload);
    assert w[HDR..] == m.payload;
  }

  /** The bytes of a message: little-endian length, protocol word 0x101, type, session id and random id, twelve bytes
      of trailer, and the payload. Every payload of at most 2500 bytes can be sent. */
  lemma WireBytes(m: Message)
    requires |m.trailer| == 12 && |m.payload| <= 2500
    ensures m.Sendable() && |Wire(m)| == 32 + |m.payload|
    ensures FieldIs(Wire(m), 0, |Wire(m)|) && Wire(m)[4..8] == [1, 1, 0, 0]
    ensures FieldIs(Wire(m), 8, m.payloadType) && FieldIs(Wire(m), 12, m.sessionId) && FieldIs(Wire(m), 16, m.randomId)
    ensures Wire(m)[20..32] == m.trailer && Wire(m)[32..] == m.payload
  {
    WireView(m);
    var w := Wire(m);
    assert w[4..8] == ToLe32(PROTOBUF_V1);
  }

  /** The four bytes from offset `at` on are `n`, lowest byte first. */
  predicate FieldIs(s: Bytes, at: nat, n: int) {
    && at + 4 <= |s|
    && var b0: int, b1: int, b2: int, b3: int := s[at], s[at + 1], s[at + 2], s[at + 3];
       n == b0 + 0x100 * b1 + 0x1_0000 * b2 + 0x100_0000 * b3
  }

  /** Cutting the concatenation of encoded messages gives back the encodings, with nothing left. */
  lemma WireAllParses(ms: seq<Message>)
    requires forall m :: m in ms ==> m.Sendable()
    ensures Parse(WireAll(ms)) == Cut(Wires(ms), [], false)
  {
    ParseComplete(Wires(ms), []);
    assert WireAll(ms) + [] == WireAll(ms);
  }

  /** The struct a sender fills in place and hands to the socket. */
  class Sender {
    var length: uint32
    var payloadType: uint32
    var sessionId: uint32
    var randomId: uint32
    const trailer: Bytes
    const message: array<Byte>

    ghost predicate Valid()
      reads this
    {
      |trailer| == 12 && message.Length == MAX_PB_MSG_SIZE
    }

    constructor (msgType: uint32, sessionId: uint32, randomId: uint32, trailer: Bytes)
      requires |trailer| == 12
      ensures Valid() && fresh(message)
      ensures length == 0 && payloadType == msgType && this.sessionId == sessionId && this.randomId == randomId
      ensures this.trailer == trailer
    {
      length, payloadType := 0, msgType;
      this.sessionId, this.randomId, this.trailer := sessionId, randomId, trailer;
      message := new Byte[MAX_PB_MSG_SIZE];
    }

    /** Serialises the payload into the message buffer and sets the length field. */
    method MakeMsg(payload: Bytes)
      requires Valid() && |payload| <= MAX_PB_MSG_SIZE
      modifies this`length, message
      ensures Valid() && length == HDR + |payload|
      ensures message[..|payload|] == payload
      ensures message[|payload|..] == old(message[|payload|..])
    {
      var sz := |payload|;
      length := sz + HDR;
      for i := 0 to sz
        invariant length == sz + HDR
        invariant message[..i] == payload[..i]
        invariant message[sz..] == old(message[sz..])
      {
        message[i] := payload[i];
      }
    }

    function GetMsgSize(): nat
      reads this
    {
      length
    }

    /** What the socket is given: the first `GetMsgSize()` bytes of the struct, copied at this moment. */
    method Sent() returns (bytes: Bytes)
      requires Valid() && HDR <= length <= HDR + MAX_PB_MSG_SIZE
      ensures bytes == Wire(Message(payloadType, sessionId, randomId, trailer, message[..length - HDR]))
    {
      var m := Message(payloadType, sessionId, randomId, trailer, message[..]);
      bytes := (HeaderBytes(length, m) + message[..])[..GetMsgSize()];
      assert HeaderBytes(length, m) == HeaderBytes(length, m.(payload := message[..length - HDR]));
    }
  }
}
