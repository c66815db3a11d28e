/** The two programs of the delayed-response exchange as they run, and what their bytes come to. */
module Peers {
  import opened Basics
  import opened Frames
  import opened Messages
  import opened Dispatch
  import opened Sessions
  import opened History
  import opened Exchange
  import SessionTable

  /** How many requests one test sends. */
  const REQUESTS: nat := 3

  /** The client's callback, which only prints. */
  const ON_REPLY_TO_IDLING_REQUEST: nat := 1

  // ------------------------------------------------------------------ what is sent

  /** The tokens of the sessions that are opened, in order. */
  function TokensOf(h: Hist, rs: seq<Request>): seq<Token>
    requires CanOpenAll(h, rs)
    decreases |rs|
  {
    if rs == [] then []
    else [Token(NextSid(h.s), rs[0].magic)] + TokensOf(Open(h, rs[0]), rs[1..])
  }

  /** The bytes are a message of that type that carries the token. */
  ghost predicate Packs(bytes: Bytes, payloadType: uint32, t: Token) {
    exists m: Message :: m.Sendable() && Carries(m, payloadType, t) && bytes == Wire(m)
  }

  /** A handler that is given these bytes reads this out of them. */
  ghost predicate Delivers(bytes: Bytes, d: Delivery) {
    |bytes| >= HDR && Declared(bytes) == |bytes| && FrameView(bytes) == d
  }

  /** The bytes are a header of 32 bytes, with their length and this payload type, and this payload. */
  ghost predicate IsMessage(bytes: Bytes, payloadType: int, payload: Bytes) {
    && |bytes| == 32 + |payload| && bytes[32..] == payload
    && FieldIs(bytes, 0, |bytes|) && FieldIs(bytes, 8, payloadType)
  }

  ghost predicate PacksAll(out: seq<Bytes>, payloadType: uint32, ts: seq<Token>) {
    |out| == |ts| && forall i :: 0 <= i < |out| ==> Packs(out[i], payloadType, ts[i])
  }

  /** What the client asks the session module for, given its random numbers. */
  function Asked(magics: seq<uint32>, connection: nat): (rs: seq<Request>)
    ensures |rs| == |magics|
  {
    seq(|magics|, i requires 0 <= i < |magics| => Request(magics[i], ON_REPLY_TO_IDLING_REQUEST, connection))
  }

  // ------------------------------------------------------------------ the client

  /** Opens a session for each request, puts its id and magic into one reused message, and sends that. The
      messages on the wire carry the tokens of the sessions opened, in order. */
  method DelayedResponseTest(sessions: SessionTable.SessionTable, connection: nat, trailer: Bytes,
                             magics: seq<uint32>, payloads: seq<Bytes>)
    returns (out: seq<Bytes>)
    requires |magics| == |payloads| == 3 && |trailer| == 12
    requires forall p :: p in payloads ==> 0 < |p| <= MAX_PB_MSG_SIZE
    requires sessions.Valid() && CanOpenAll(sessions.past, Asked(magics, connection))
    modifies sessions, sessions.obSessions
    ensures sessions.Valid() && sessions.past == OpenAll(old(sessions.past), Asked(magics, connection))
    ensures PacksAll(out, MT_DELAYED_RESPONSE_REQ, TokensOf(old(sessions.past), Asked(magics, connection)))
    ensures SentSoFar(out, payloads, 3)
  {
    ghost var rs, h := Asked(magics, connection), sessions.past;
    ghost var tokens: seq<Token> := [];
    var req := new Sender(MT_DELAYED_RESPONSE_REQ, 0, 0, trailer);
    out := [];
    assert rs[0..] == rs;
    for i := 0 to REQUESTS
      invariant sessions.Valid() && (sessions.obSessions == old(sessions.obSessions) || fresh(sessions.obSessions))
      invariant Underway(h, rs, payloads, i, sessions.past, tokens, out)
      invariant req.Valid() && req.payloadType == MT_DELAYED_RESPONSE_REQ && fresh(req) && fresh(req.message)
    {
      out, tokens := SendNext(sessions, req, connection, magics[i], payloads, i, out, h, rs, tokens);
    }
    UnderwayDone(h, rs, payloads, sessions.past, tokens, out);
  }

  /** One turn of the loop. */
  method SendNext(sessions: SessionTable.SessionTable, req: Sender, connection: nat, r: uint32, payloads: seq<Bytes>,
                  i: nat, out: seq<Bytes>, ghost h: Hist, ghost rs: seq<Request>, ghost tokens: seq<Token>)
    returns (sent: seq<Bytes>, ghost more: seq<Token>)
    requires sessions.Valid() && req.Valid() && req.payloadType == MT_DELAYED_RESPONSE_REQ
    requires Underway(h, rs, payloads, i, sessions.past, tokens, out) && i < |rs| && i < |payloads|
    requires rs[i] == Request(r, ON_REPLY_TO_IDLING_REQUEST, connection) && 0 < |payloads[i]| <= MAX_PB_MSG_SIZE
    modifies sessions, sessions.obSessions, req, req.message
    ensures sessions.Valid() && (sessions.obSessions == old(sessions.obSessions) || fresh(sessions.obSessions))
    ensures req.Valid() && req.payloadType == old(req.payloadType)
    ensures Underway(h, rs, payloads, i + 1, sessions.past, more, sent)
  {
    CanOpenNext(h, rs, payloads, i, sessions.past, tokens, out);
    ghost var before := sessions.past;
    var bytes := SendRequest(sessions, req, connection, r, payloads[i]);
    more := UnderwayStep(h, rs, payloads, i, before, tokens, out, bytes);
    sent := out + [bytes];
  }

  /** The first `n` payloads have been sent, each in a delayed-response request of its own. */
  ghost predicate SentSoFar(out: seq<Bytes>, payloads: seq<Bytes>, n: nat) {
    |out| == n <= |payloads| && forall i :: 0 <= i < n ==> IsMessage(out[i], 2, payloads[i])
  }

  /** Opens a session and sends a message that carries its id and magic. */
  method SendRequest(sessions: SessionTable.SessionTable, req: Sender, connection: nat, r: uint32, payload: Bytes)
    returns (bytes: Bytes)
    requires sessions.Valid() && NextSid(sessions.past.s) < TABLE_SIZE
    requires req.Valid() && 0 < |payload| <= MAX_PB_MSG_SIZE
    modifies sessions, sessions.obSessions, req, req.message
    ensures sessions.Valid() && (sessions.obSessions == old(sessions.obSessions) || fresh(sessions.obSessions))
    ensures sessions.past == Open(old(sessions.past), Request(r, ON_REPLY_TO_IDLING_REQUEST, connection))
    ensures req.Valid() && req.payloadType == old(req.payloadType)
    ensures Packs(bytes, req.payloadType, Token(NextSid(old(sessions.past).s), r))
    ensures IsMessage(bytes, req.payloadType, payload)
    ensures Delivers(bytes, Delivery(req.payloadType, NextSid(old(sessions.past).s), r, payload))
  {
    var sid := sessions.MakeNewSession(connection, r, ON_REPLY_TO_IDLING_REQUEST);
    bytes := SendToken(req, sid, r, payload);
  }

  /** Between requests: what was sent carries the tokens of the requests before `i`, and opening the rest gives
      the whole. */
  ghost predicate Underway(h: Hist, rs: seq<Request>, payloads: seq<Bytes>, i: nat, now: Hist,
                           tokens: seq<Token>, out: seq<Bytes>) {
    && i <= |rs| && CanOpenAll(h, rs) && CanOpenAll(now, rs[i..])
    && OpenAll(now, rs[i..]) == OpenAll(h, rs)
    && tokens + TokensOf(now, rs[i..]) == TokensOf(h, rs)
    && PacksAll(out, MT_DELAYED_RESPONSE_REQ, tokens) && SentSoFar(out, payloads, i)
  }

  lemma CanOpenNext(h: Hist, rs: seq<Request>, payloads: seq<Bytes>, i: nat, now: Hist,
                    tokens: seq<Token>, out: seq<Bytes>)
    requires Underway(h, rs, payloads, i, now, tokens, out) && i < |rs|
    ensures NextSid(now.s) < |now.s.table|
  {
  }

  lemma UnderwayStep(h: Hist, rs: seq<Request>, payloads: seq<Bytes>, i: nat, now: Hist,
                     tokens: seq<Token>, out: seq<Bytes>, bytes: Bytes)
    returns (more: seq<Token>)
    requires Underway(h, rs, payloads, i, now, tokens, out) && i < |rs| && NextSid(now.s) < |now.s.table|
    requires Packs(bytes, MT_DELAYED_RESPONSE_REQ, Token(NextSid(now.s), rs[i].magic))
    requires i < |payloads| && IsMessage(bytes, 2, payloads[i])
    ensures Underway(h, rs, payloads, i + 1, Open(now, rs[i]), more, out + [bytes])
  {
    var rest, t := rs[i..], Token(NextSid(now.s), rs[i].magic);
    assert rest[0] == rs[i] && rest[1..] == rs[i + 1..];
    Assoc(tokens, [t], TokensOf(Open(now, rs[i]), rest[1..]));
    more := tokens + [t];
  }

  lemma UnderwayDone(h: Hist, rs: seq<Request>, payloads: seq<Bytes>, now: Hist, tokens: seq<Token>, out: seq<Bytes>)
    requires Underway(h, rs, payloads, |rs|, now, tokens, out)
    ensures now == OpenAll(h, rs) && PacksAll(out, MT_DELAYED_RESPONSE_REQ, TokensOf(h, rs))
    ensures SentSoFar(out, payloads, |rs|)
  {
    assert rs[|rs|..] == [];
    assert tokens + [] == tokens;
  }

  /** Fills in the header fields of a message object and sends it. */
  method SendToken(req: Sender, sid: uint32, magic: uint32, payload: Bytes) returns (bytes: Bytes)
    requires req.Valid() && 0 < |payload| <= MAX_PB_MSG_SIZE
    modifies req, req.message
    ensures req.Valid() && req.payloadType == old(req.payloadType)
    ensures Packs(bytes, req.payloadType, Token(sid, magic))
    ensures IsMessage(bytes, req.payloadType, payload)
    ensures Delivers(bytes, Delivery(req.payloadType, sid, magic, payload))
  {
    req.sessionId, req.randomId := sid, magic;
    req.MakeMsg(payload);
    bytes := req.Sent();
    ghost var m := Message(req.payloadType, sid, magic, req.trailer, payload);
    assert m.Sendable() && Carries(m, req.payloadType, Token(sid, magic)) && bytes == Wire(m);
    WireBytes(m);
    WireView(m);
  }

  /** A standard reply reaches the client: the session named in the frame is completed. */
  method OnStdReply(sessions: SessionTable.SessionTable, frame: Frame, opens: seq<Request>)
    returns (ran: bool, session: Sessions.Entry)
    requires sessions.Valid() && sessions.inited
    requires Enabled(sessions.past, Reply(Le32(frame, 12), Le32(frame, 16), opens))
    modifies sessions, sessions.obSessions
    ensures var t := FrameView(frame);
            && sessions.Valid() && sessions.inited
            && (sessions.obSessions == old(sessions.obSessions) || fresh(sessions.obSessions))
            && sessions.past == Step(old(sessions.past), Reply(t.sessionId, t.randomId, opens))
            && ran == Stored(old(sessions.past).s, t.sessionId, t.randomId)
  {
    var sid, magic := Le32(frame, 12), Le32(frame, 16);
    ran, session := sessions.HandleStdReply(sid, magic, opens);
  }

  // ------------------------------------------------------------------ the server

  class Server {
    /** The timers that run, with what they will reply to. */
    var timers: multiset<Token>
    const trailer: Bytes

    ghost predicate Valid()
      reads this
    {
      |trailer| == 12 && forall t :: t in timers ==> t.sid < 0x1_0000_0000 && t.magic < 0x1_0000_0000
    }

    /** Starts a timer for the request's session id and magic. */
    method HandleDelayedResponseReq(frame: Frame)
      requires Valid()
      modifies this`timers
      ensures Valid()
      ensures timers == old(timers) + multiset{Token(FrameView(frame).sessionId, FrameView(frame).randomId)}
    {
      var sid, r := Le32(frame, 12), Le32(frame, 16);
      timers := timers + multiset{Token(sid, r)};
    }

    /** A timer expires: a standard reply with its session id and magic is sent. */
    method SendAStdReply(t: Token, payload: Bytes) returns (bytes: Bytes)
      requires Valid() && t in timers && 0 < |payload| <= MAX_PB_MSG_SIZE
      modifies this`timers
      ensures Valid() && timers == old(timers) - multiset{t}
      ensures Packs(bytes, MT_STD_REPLY, t) && IsMessage(bytes, 1, payload)
      ensures Delivers(bytes, Delivery(1, t.sid, t.magic, payload))
    {
      var response := new Sender(MT_STD_REPLY, 0, 0, trailer);
      bytes := SendToken(response, t.sid, t.magic, payload);
      timers := timers - multiset{t};
    }
  }

  // ------------------------------------------------------------------ bytes and tokens

  /** Sending many requests is sending their tokens. */
  lemma {:induction false} SendAllRequests(n: Net, rs: seq<Request>)
    requires CanOpenAll(n.h, rs)
    ensures SendAll(n, rs) == n.(h := OpenAll(n.h, rs), requests := n.requests + TokensOf(n.h, rs))
    decreases |rs|
  {
    if rs == [] {
      assert n.requests + [] == n.requests;
    } else {
      SendAllRequests(SendOne(n, rs[0]), rs[1..]);
      Assoc(n.requests, [Token(NextSid(n.h.s), rs[0].magic)], TokensOf(Open(n.h, rs[0]), rs[1..]));
    }
  }

  /** The messages behind packed tokens. */
  lemma {:induction false} Unpack(out: seq<Bytes>, payloadType: uint32, ts: seq<Token>) returns (ms: seq<Message>)
    requires PacksAll(out, payloadType, ts)
    ensures |ms| == |ts| && forall i :: 0 <= i < |ms| ==> Carries(ms[i], payloadType, ts[i])
    ensures (forall m :: m in ms ==> m.Sendable()) && Wires(ms) == out
    decreases |out|
  {
    ms := [];
    if out != [] {
      var n := |out| - 1;
      assert Packs(out[n], payloadType, ts[n]);
      var m: Message :| m.Sendable() && Carries(m, payloadType, ts[n]) && out[n] == Wire(m);
      ms := Unpack(out[..n], payloadType, ts[..n]);
      ms := ms + [m];
    }
  }

  /** What one program packs reaches the other's handler: the tokens, complete and in order, however the bytes are
      cut into reads. */
  lemma PackedArrive(
      cbs: Table, payloadType: uint32, handler: Handler, ts: seq<Token>, out: seq<Bytes>, chunks: seq<Bytes>)
    requires CbFuncs(cbs, payloadType) == Some(handler)
    requires PacksAll(out, payloadType, ts) && Join(chunks) == Join(out)
    ensures var seen := Seen(Calls(cbs, FeedAll([], chunks).frames));
            && |seen| == |ts|
            && forall i :: 0 <= i < |ts| ==>
                 && seen[i].0 == handler
                 && Token(seen[i].1.sessionId, seen[i].1.randomId) == ts[i]
  {
    var ms := Unpack(out, payloadType, ts);
    TokensArrive(cbs, payloadType, handler, ts, ms, chunks);
  }
}
