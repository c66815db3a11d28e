/** The client and the server as they run, each with its own tables and receive buffer, take the steps of the exchange
    over byte streams. */
module Programs {
  import opened Basics
  import opened Frames
  import opened Messages
  import opened Dispatch
  import opened RxBuffer
  import opened Sessions
  import opened History
  import opened Exchange
  import opened Peers
  import opened Streams
  import SessionTable

  /** The tokens of the calls of one handler. */
  function TokensFor(handler: Handler, calls: seq<Call>): seq<Token> {
    AllTokens(For(handler, Seen(calls)))
  }

  lemma NextCall(handler: Handler, calls: seq<Call>)
    requires calls != []
    ensures TokensFor(handler, calls)
            == (if calls[0].handler == handler then [TokenOf(FrameView(calls[0].frame))] else [])
               + TokensFor(handler, calls[1..])
  {
  }

  /** What a receive buffer needs for its next read. */
  ghost predicate Ready(rx: RxBufAddr, registry: Registry, suggestedSize: nat, chunk: Bytes)
    reads rx, rx.addr, registry.pbcbs
  {
    && rx.Valid() && registry.Valid() && registry.Cbs() == ALL_CBS
    && |rx.Kept() + chunk| <= if rx.addr == null then AllocationSize(suggestedSize) else rx.size
  }

  // ------------------------------------------------------------------ the server

  /** The server's part of the state. */
  ghost predicate IsServer(w: Wired, server: Server, rx: RxBufAddr)
    reads server, rx, rx.addr
  {
    server.Valid() && rx.Valid() && w.upKept == rx.Kept() && w.timers == server.timers
  }

  /** A read at the server, and the timers its requests start. */
  method ServerRead(server: Server, rx: RxBufAddr, registry: Registry, suggestedSize: nat, chunk: Bytes, ghost w: Wired)
    requires Ready(rx, registry, suggestedSize, chunk) && IsServer(w, server, rx) && chunk <= w.up
    modifies server, rx, rx.addr
    ensures CanStep(w, ReadUp(|chunk|)) && IsServer(Stepped(w, ReadUp(|chunk|)), server, rx)
  {
    var calls := rx.OnRead(registry, suggestedSize, chunk, false, []);
    assert w.up[..|chunk|] == chunk;
    HandleRequests(server, calls);
  }

  /** The request handler runs for each request. */
  method HandleRequests(server: Server, calls: seq<Call>)
    requires server.Valid()
    modifies server`timers
    ensures server.Valid()
    ensures server.timers == old(server.timers) + multiset(TokensFor(HandleDelayedResponseReq, calls))
  {
    var rest := calls;
    ghost var goal := server.timers + multiset(TokensFor(HandleDelayedResponseReq, calls));
    while rest != []
      invariant server.Valid()
      invariant server.timers + multiset(TokensFor(HandleDelayedResponseReq, rest)) == goal
      decreases |rest|
    {
      NextCall(HandleDelayedResponseReq, rest);
      if rest[0].handler == HandleDelayedResponseReq {
        server.HandleDelayedResponseReq(rest[0].frame);
      }
      rest := rest[1..];
    }
  }

  /** A timer expires. */
  method ServerAnswer(server: Server, rx: RxBufAddr, t: Token, payload: Bytes, ghost w: Wired) returns (bytes: Bytes)
    requires IsServer(w, server, rx) && t in server.timers && 0 < |payload| <= MAX_PB_MSG_SIZE
    modifies server
    ensures CanStep(w, Answer(t, bytes)) && IsServer(Stepped(w, Answer(t, bytes)), server, rx)
    ensures IsMessage(bytes, 1, payload)
  {
    bytes := server.SendAStdReply(t, payload);
  }

  // ------------------------------------------------------------------ the client

  /** The client's part of the state. */
  ghost predicate IsClient(w: Wired, sessions: SessionTable.SessionTable, rx: RxBufAddr)
    reads sessions, sessions.obSessions, rx, rx.addr
  {
    sessions.Valid() && rx.Valid() && w.h == sessions.past && w.downKept == rx.Kept()
  }

  /** A request is sent. */
  method ClientAsk(sessions: SessionTable.SessionTable, rx: RxBufAddr, req: Sender, connection: nat, magic: uint32,
                   payload: Bytes, ghost w: Wired)
    returns (bytes: Bytes)
    requires IsClient(w, sessions, rx) && NextSid(w.h.s) < TABLE_SIZE
    requires req.Valid() && req.payloadType == MT_DELAYED_RESPONSE_REQ && req.message != rx.addr
    requires 0 < |payload| <= MAX_PB_MSG_SIZE
    modifies sessions, sessions.obSessions, req, req.message
    ensures var ask := Ask(Request(magic, ON_REPLY_TO_IDLING_REQUEST, connection), bytes);
            CanStep(w, ask) && IsClient(Stepped(w, ask), sessions, rx)
    ensures IsMessage(bytes, 2, payload)
  {
    bytes := SendRequest(sessions, req, connection, magic, payload);
  }

  /** What is left to do when `calls` are still to be made: from `h` on, it leads to `goal`. */
  ghost predicate Left(h: Hist, calls: seq<Call>, opens: seq<seq<Request>>, goal: Hist) {
    var replies := TokensFor(HandleStdReply, calls);
    |opens| == |replies| && CanHandleAll(h, replies, opens) && HandleAll(h, replies, opens) == goal
  }

  function ReplyOf(call: Call, more: seq<Request>): Event {
    Reply(FrameView(call.frame).sessionId, FrameView(call.frame).randomId, more)
  }

  lemma LeftAfter(h: Hist, calls: seq<Call>, opens: seq<seq<Request>>, goal: Hist)
    requires calls != [] && Left(h, calls, opens, goal)
    ensures if calls[0].handler == HandleStdReply then
              && TokensFor(HandleStdReply, calls) != [] && opens != [] && Enabled(h, ReplyOf(calls[0], opens[0]))
              && Left(Step(h, ReplyOf(calls[0], opens[0])), calls[1..], opens[1..], goal)
            else Left(h, calls[1..], opens, goal)
  {
    NextCall(HandleStdReply, calls);
    var rest := TokensFor(HandleStdReply, calls[1..]);
    if calls[0].handler == HandleStdReply {
      assert ([TokenOf(FrameView(calls[0].frame))] + rest)[1..] == rest;
    } else {
      assert [] + rest == rest;
    }
  }

  /** The reply handler runs for each reply. */
  method HandleReplies(sessions: SessionTable.SessionTable, calls: seq<Call>, opens: seq<seq<Request>>,
                       ghost goal: Hist)
    requires sessions.Valid() && (TokensFor(HandleStdReply, calls) == [] || sessions.inited)
    requires Left(sessions.past, calls, opens, goal)
    modifies sessions, sessions.obSessions
    ensures sessions.Valid() && sessions.past == goal
  {
    var rest, later := calls, opens;
    while rest != []
      invariant sessions.Valid() && (sessions.obSessions == old(sessions.obSessions) || fresh(sessions.obSessions))
      invariant TokensFor(HandleStdReply, rest) == [] || sessions.inited
      invariant Left(sessions.past, rest, later, goal)
      decreases |rest|
    {
      LeftAfter(sessions.past, rest, later, goal);
      NextCall(HandleStdReply, rest);
      if rest[0].handler == HandleStdReply {
        var _, _ := OnStdReply(sessions, rest[0].frame, later[0]);
        later := later[1..];
      }
      rest := rest[1..];
    }
  }

  /** A read at the client, in a state of an exchange: each reply runs the callback of its session, which opens the
      sessions `opens` says and has `out` sent. */
  method ClientRead(sessions: SessionTable.SessionTable, rx: RxBufAddr, registry: Registry, suggestedSize: nat,
                    chunk: Bytes, opens: seq<seq<Request>>, ghost out: seq<Bytes>, ghost w: Wired, ghost n: Net)
    requires Ready(rx, registry, suggestedSize, chunk) && IsClient(w, sessions, rx) && chunk <= w.down
    requires Same(w, n) && Sound(n) && CanStep(w, ReadDown(|chunk|, opens, out))
    modifies sessions, sessions.obSessions, rx, rx.addr
    ensures IsClient(Stepped(w, ReadDown(|chunk|, opens, out)), sessions, rx)
  {
    ghost var after := ToDo(w, chunk, opens, out, n);
    ReceiveReplies(sessions, rx, registry, suggestedSize, chunk, opens, after.h);
  }

  /** The replies that a chunk completes are handled. */
  method ReceiveReplies(sessions: SessionTable.SessionTable, rx: RxBufAddr, registry: Registry, suggestedSize: nat,
                        chunk: Bytes, opens: seq<seq<Request>>, ghost goal: Hist)
    requires Ready(rx, registry, suggestedSize, chunk) && sessions.Valid()
    requires Left(sessions.past, Received(rx, chunk), opens, goal)
    requires TokensFor(HandleStdReply, Received(rx, chunk)) == [] || sessions.inited
    modifies sessions, sessions.obSessions, rx, rx.addr
    ensures sessions.Valid() && sessions.past == goal
    ensures rx.Valid() && rx.Kept() == Parse(old(rx.Kept()) + chunk).rest
  {
    var calls := rx.OnRead(registry, suggestedSize, chunk, false, []);
    HandleReplies(sessions, calls, opens, goal);
  }

  ghost function Received(rx: RxBufAddr, chunk: Bytes): seq<Call>
    requires rx.Valid()
    reads rx, rx.addr
  {
    Calls(ALL_CBS, Parse(rx.Kept() + chunk).frames)
  }

  /** What a read leaves to do, and that it brings replies only where some id is in use. */
  lemma ToDo(w: Wired, chunk: Bytes, opens: seq<seq<Request>>, out: seq<Bytes>, n: Net) returns (after: Wired)
    requires Same(w, n) && Sound(n) && chunk <= w.down && CanStep(w, ReadDown(|chunk|, opens, out))
    ensures after == Stepped(w, ReadDown(|chunk|, opens, out)) && after.downKept == Parse(w.downKept + chunk).rest
    ensures Left(w.h, Calls(ALL_CBS, Parse(w.downKept + chunk).frames), opens, after.h)
    ensures TokensFor(HandleStdReply, Calls(ALL_CBS, Parse(w.downKept + chunk).frames)) == [] || w.h.s.used != []
  {
    after := Stepped(w, ReadDown(|chunk|, opens, out));
    assert w.down[..|chunk|] == chunk;
    RepliesNeedSessions(w, |chunk|, n);
  }

  /** Where a read brings a reply, some id is in use. */
  lemma RepliesNeedSessions(w: Wired, k: nat, n: Net)
    requires Same(w, n) && Sound(n) && k <= |w.down|
    ensures AllTokens(For(HandleStdReply, Read(w.downKept, w.down[..k]))) == [] || w.h.s.used != []
  {
    var j := ReadReplies(w.downKept, w.down, k, n.replies);
    if j > 0 {
      ReplyFindsSession(n, n.replies[0]);
    }
  }
}
