/** The exchange over byte streams: what is under way are bytes, each side keeps the bytes of an incomplete frame,
    and a read delivers any number of bytes. It does what the exchange of tokens does. */
module Streams {
  import opened Basics
  import opened Frames
  import opened Messages
  import opened Dispatch
  import opened Sessions
  import opened History
  import opened Exchange
  import opened Peers

  /** Client state and the reply bytes it keeps, bytes under way to the server and kept there, timers running at
      the server, bytes under way to the client. */
  datatype Wired = Wired(
    h: Hist, downKept: Bytes, up: Bytes, upKept: Bytes, timers: multiset<Token>, down: Bytes)

  function Quiescent(): Wired {
    Wired(Begin(), [], [], [], multiset{}, [])
  }

  datatype Move =
    | Ask(r: Request, bytes: Bytes)                     // the client opens a session and sends a request
    | ReadUp(k: nat)                                    // the server reads the next `k` bytes
    | Answer(t: Token, bytes: Bytes)                    // a timer expires, and the server sends its reply
    | ReadDown(k: nat, opens: seq<seq<Request>>, out: seq<Bytes>)
      // the client reads the next `k` bytes; the callback of each reply in them sends more

  // ------------------------------------------------------------------ what a read does

  /** The handlers run for the frames a read completes, as handler and content. */
  function Read(kept: Bytes, chunk: Bytes): seq<(Handler, Delivery)> {
    Seen(Calls(ALL_CBS, Parse(kept + chunk).frames))
  }

  /** The messages that go to one handler. */
  function For(handler: Handler, seen: seq<(Handler, Delivery)>): seq<Delivery> {
    if seen == [] then []
    else (if seen[0].0 == handler then [seen[0].1] else []) + For(handler, seen[1..])
  }

  function TokenOf(d: Delivery): Token {
    Token(d.sessionId, d.randomId)
  }

  /** The token fits the fields of a header. */
  predicate Fits(t: Token) {
    t.sid < 0x1_0000_0000 && t.magic < 0x1_0000_0000
  }

  function AllTokens(ds: seq<Delivery>): (ts: seq<Token>)
    ensures |ts| == |ds| && forall i :: 0 <= i < |ds| ==> ts[i] == TokenOf(ds[i])
    ensures forall t :: t in ts ==> Fits(t)
  {
    seq(|ds|, i requires 0 <= i < |ds| => TokenOf(ds[i]))
  }

  // ------------------------------------------------------------------ replies in a read

  predicate CanHandleAll(h: Hist, replies: seq<Token>, opens: seq<seq<Request>>)
    requires |replies| == |opens|
    decreases |opens|
  {
    opens == []
    || (var e := Reply(replies[0].sid, replies[0].magic, opens[0]);
        Enabled(h, e) && CanHandleAll(Step(h, e), replies[1..], opens[1..]))
  }

  /** The session module after the reply handler has run for each reply. */
  function HandleAll(h: Hist, replies: seq<Token>, opens: seq<seq<Request>>): Hist
    requires |replies| == |opens| && CanHandleAll(h, replies, opens)
    decreases |opens|
  {
    if opens == [] then h
    else HandleAll(Step(h, Reply(replies[0].sid, replies[0].magic, opens[0])), replies[1..], opens[1..])
  }

  /** The tokens of the sessions that callbacks open meanwhile. */
  function NewTokens(h: Hist, replies: seq<Token>, opens: seq<seq<Request>>): seq<Token>
    requires |replies| == |opens| && CanHandleAll(h, replies, opens)
    decreases |opens|
  {
    if opens == [] then []
    else
      var t := replies[0];
      (if Stored(h.s, t.sid, t.magic) then TokensOf(Fire(h, t.sid), opens[0]) else [])
      + NewTokens(Step(h, Reply(t.sid, t.magic, opens[0])), replies[1..], opens[1..])
  }

  // ------------------------------------------------------------------ steps

  ghost predicate CanStep(w: Wired, e: Move) {
    match e
    case Ask(r, bytes) =>
      NextSid(w.h.s) < |w.h.s.table| && Packs(bytes, MT_DELAYED_RESPONSE_REQ, Token(NextSid(w.h.s), r.magic))
    case ReadUp(k) => k <= |w.up|
    case Answer(t, bytes) => t in w.timers && Packs(bytes, MT_STD_REPLY, t)
    case ReadDown(k, opens, out) =>
      && k <= |w.down|
      && var replies := AllTokens(For(HandleStdReply, Read(w.downKept, w.down[..k])));
         && |opens| == |replies| && CanHandleAll(w.h, replies, opens)
         && PacksAll(out, MT_DELAYED_RESPONSE_REQ, NewTokens(w.h, replies, opens))
  }

  ghost function Stepped(w: Wired, e: Move): Wired
    requires CanStep(w, e)
  {
    match e
    case Ask(r, bytes) => w.(h := Open(w.h, r), up := w.up + bytes)
    case ReadUp(k) =>
      w.(up := w.up[k..], upKept := Parse(w.upKept + w.up[..k]).rest,
         timers := w.timers + multiset(AllTokens(For(HandleDelayedResponseReq, Read(w.upKept, w.up[..k])))))
    case Answer(t, bytes) => w.(timers := w.timers - multiset{t}, down := w.down + bytes)
    case ReadDown(k, opens, out) =>
      var replies := AllTokens(For(HandleStdReply, Read(w.downKept, w.down[..k])));
      w.(down := w.down[k..], downKept := Parse(w.downKept + w.down[..k]).rest,
         h := HandleAll(w.h, replies, opens), up := w.up + Join(out))
  }

  ghost predicate IsWiredRun(ws: seq<Wired>, es: seq<Move>) {
    && |ws| == |es| + 1 && ws[0] == Quiescent()
    && forall i :: 0 <= i < |es| ==> CanStep(ws[i], es[i]) && ws[i + 1] == Stepped(ws[i], es[i])
  }

  // ------------------------------------------------------------------ tokens on a stream

  /** The bytes are messages of one type that carry these tokens, whole and in order. */
  ghost predicate OnWire(stream: Bytes, payloadType: uint32, ts: seq<Token>) {
    exists out: seq<Bytes> :: PacksAll(out, payloadType, ts) && Join(out) == stream
  }

  /** Kept bytes and those under way carry the tokens, and no complete message is kept. */
  ghost predicate Stream(kept: Bytes, coming: Bytes, payloadType: uint32, ts: seq<Token>) {
    Incomplete(kept) && OnWire(kept + coming, payloadType, ts)
  }

  lemma PacksIsFrame(bytes: Bytes, payloadType: uint32, t: Token)
    requires Packs(bytes, payloadType, t)
    ensures |bytes| >= HDR && Declared(bytes) == |bytes|
  {
    var m: Message :| m.Sendable() && Carries(m, payloadType, t) && bytes == Wire(m);
    var f: Frame := Wire(m);
  }

  lemma {:induction false} AsFrames(out: seq<Bytes>, payloadType: uint32, ts: seq<Token>) returns (fs: seq<Frame>)
    requires PacksAll(out, payloadType, ts)
    ensures fs == out
    decreases |out|
  {
    fs := [];
    if out != [] {
      var n := |out| - 1;
      assert PacksAll(out[..n], payloadType, ts[..n]) && Packs(out[n], payloadType, ts[n]);
      fs := AsFrames(out[..n], payloadType, ts[..n]);
      PacksIsFrame(out[n], payloadType, ts[n]);
      var f: Frame := out[n];
      fs := fs + [f];
    }
  }

  /** What is sent goes to the end of the stream. */
  lemma SentOnStream(kept: Bytes, coming: Bytes, payloadType: uint32, ts: seq<Token>, out: seq<Bytes>, more: seq<Token>)
    requires Stream(kept, coming, payloadType, ts) && PacksAll(out, payloadType, more)
    ensures Stream(kept, coming + Join(out), payloadType, ts + more)
  {
    var before: seq<Bytes> :| PacksAll(before, payloadType, ts) && Join(before) == kept + coming;
    PacksAppend(before, ts, out, more, payloadType);
    JoinAppend(before, out);
    Assoc(kept, coming, Join(out));
  }

  lemma PacksAppend(a: seq<Bytes>, ts: seq<Token>, b: seq<Bytes>, us: seq<Token>, payloadType: uint32)
    requires PacksAll(a, payloadType, ts) && PacksAll(b, payloadType, us)
    ensures PacksAll(a + b, payloadType, ts + us)
  {
    forall i | 0 <= i < |a + b| ensures Packs((a + b)[i], payloadType, (ts + us)[i]) {
      if i < |a| {
        assert Packs(a[i], payloadType, ts[i]);
      } else {
        assert Packs(b[i - |a|], payloadType, us[i - |a|]);
      }
    }
  }

  /** A read takes the tokens of the frames it completes off the stream, and the rest stay. */
  lemma ReadFromStream(kept: Bytes, coming: Bytes, k: nat, payloadType: uint32, ts: seq<Token>) returns (j: nat)
    requires Stream(kept, coming, payloadType, ts) && k <= |coming|
    ensures j <= |ts| && Stream(Parse(kept + coming[..k]).rest, coming[k..], payloadType, ts[j..])
    ensures PacksAll(Parse(kept + coming[..k]).frames, payloadType, ts[..j])
  {
    var out: seq<Bytes> :| PacksAll(out, payloadType, ts) && Join(out) == kept + coming;
    var fs := AsFrames(out, payloadType, ts);
    var s, later := kept + coming[..k], coming[k..];
    assert s + later == kept + coming by {
      assert coming == coming[..k] + coming[k..];
      Assoc(kept, coming[..k], coming[k..]);
    }
    j := CutStream(fs, s, later);
    assert PacksAll(out[j..], payloadType, ts[j..]);
  }

  /** Cutting the front of a stream of whole frames leaves the stream of the others. */
  lemma CutStream(fs: seq<Frame>, s: Bytes, later: Bytes) returns (j: nat)
    requires s + later == Join(fs)
    ensures j <= |fs| && Parse(s).frames == fs[..j] && !Parse(s).bad && Incomplete(Parse(s).rest)
    ensures Parse(s).rest + later == Join(fs[j..])
  {
    ParseComplete(fs, []);
    assert Join(fs) + [] == Join(fs);
    ParseAppend(s, later);
    ParseSound(s);
    var done, next := Parse(s).frames, Parse(Parse(s).rest + later);
    j := |done|;
    assert done + next.frames == fs;
    assert next.frames == fs[j..];
    ParseSound(Parse(s).rest + later);
    assert Join(fs[j..]) + [] == Join(fs[j..]);
  }

  /** Messages of one type all go to the handler of that type, and give it their tokens. */
  lemma PackedSeen(frames: seq<Frame>, payloadType: uint32, handler: Handler, ts: seq<Token>)
    requires PacksAll(frames, payloadType, ts) && CbFuncs(ALL_CBS, payloadType) == Some(handler)
    ensures AllTokens(For(handler, Seen(Calls(ALL_CBS, frames)))) == ts
  {
    var ms := Unpack(frames, payloadType, ts);
    WiresSeen(ALL_CBS, ms);
    ExpectedTokens(ALL_CBS, payloadType, handler, ts, ms);
    var seen := Expected(ALL_CBS, ms);
    AllFor(handler, seen);
    assert AllTokens(For(handler, seen)) == ts;
  }

  lemma {:induction false} AllFor(handler: Handler, seen: seq<(Handler, Delivery)>)
    requires forall i :: 0 <= i < |seen| ==> seen[i].0 == handler
    ensures |For(handler, seen)| == |seen|
    ensures forall i :: 0 <= i < |seen| ==> For(handler, seen)[i] == seen[i].1
    decreases |seen|
  {
    if seen != [] {
      AllFor(handler, seen[1..]);
    }
  }

  /** What a read of a stream gives its handler, and what stays on the stream. */
  lemma ReadStream(kept: Bytes, coming: Bytes, k: nat, payloadType: uint32, handler: Handler, ts: seq<Token>)
    returns (j: nat)
    requires Stream(kept, coming, payloadType, ts) && k <= |coming|
    requires CbFuncs(ALL_CBS, payloadType) == Some(handler)
    ensures j <= |ts| && AllTokens(For(handler, Read(kept, coming[..k]))) == ts[..j]
    ensures Stream(Parse(kept + coming[..k]).rest, coming[k..], payloadType, ts[j..])
  {
    j := ReadFromStream(kept, coming, k, payloadType, ts);
    PackedSeen(Parse(kept + coming[..k]).frames, payloadType, handler, ts[..j]);
  }

  lemma ReadRequests(kept: Bytes, coming: Bytes, k: nat, ts: seq<Token>) returns (j: nat)
    requires Stream(kept, coming, MT_DELAYED_RESPONSE_REQ, ts) && k <= |coming|
    ensures j <= |ts| && AllTokens(For(HandleDelayedResponseReq, Read(kept, coming[..k]))) == ts[..j]
    ensures Stream(Parse(kept + coming[..k]).rest, coming[k..], MT_DELAYED_RESPONSE_REQ, ts[j..])
  {
    j := ReadStream(kept, coming, k, MT_DELAYED_RESPONSE_REQ, HandleDelayedResponseReq, ts);
  }

  lemma ReadReplies(kept: Bytes, coming: Bytes, k: nat, ts: seq<Token>) returns (j: nat)
    requires Stream(kept, coming, MT_STD_REPLY, ts) && k <= |coming|
    ensures j <= |ts| && AllTokens(For(HandleStdReply, Read(kept, coming[..k]))) == ts[..j]
    ensures Stream(Parse(kept + coming[..k]).rest, coming[k..], MT_STD_REPLY, ts[j..])
  {
    j := ReadStream(kept, coming, k, MT_STD_REPLY, HandleStdReply, ts);
  }

  // ------------------------------------------------------------------ the exchange does the same

  predicate CanActAll(n: Net, acts: seq<Action>)
    decreases |acts|
  {
    acts == [] || (CanAct(n, acts[0]) && CanActAll(Act(n, acts[0]), acts[1..]))
  }

  function ActAll(n: Net, acts: seq<Action>): Net
    requires CanActAll(n, acts)
    decreases |acts|
  {
    if acts == [] then n else ActAll(Act(n, acts[0]), acts[1..])
  }

  /** Byte streams and exchange are in the same state. */
  ghost predicate Same(w: Wired, n: Net) {
    && w.h == n.h && w.timers == n.timers && (forall t :: t in w.timers ==> Fits(t))
    && Stream(w.upKept, w.up, MT_DELAYED_RESPONSE_REQ, n.requests)
    && Stream(w.downKept, w.down, MT_STD_REPLY, n.replies)
  }

  lemma {:induction false} ActAllSound(n: Net, acts: seq<Action>)
    requires Sound(n) && CanActAll(n, acts)
    ensures Sound(ActAll(n, acts))
    decreases |acts|
  {
    if acts != [] {
      ActSound(n, acts[0]);
      ActAllSound(Act(n, acts[0]), acts[1..]);
    }
  }

  lemma {:induction false} ActAllAppend(n: Net, a: seq<Action>, b: seq<Action>)
    requires CanActAll(n, a) && CanActAll(ActAll(n, a), b)
    ensures CanActAll(n, a + b) && ActAll(n, a + b) == ActAll(ActAll(n, a), b)
    decreases |a|
  {
    if a == [] {
      assert a + b == b;
    } else {
      TailOfAppend(a, b);
      ActAllAppend(Act(n, a[0]), a[1..], b);
    }
  }

  lemma ActOne(n: Net, a: Action)
    requires CanAct(n, a)
    ensures CanActAll(n, [a]) && ActAll(n, [a]) == Act(n, a)
  {
    assert [a][1..] == [];
  }

  lemma ActThen(n: Net, a: Action, rest: seq<Action>)
    requires CanAct(n, a) && CanActAll(Act(n, a), rest)
    ensures CanActAll(n, [a] + rest) && ActAll(n, [a] + rest) == ActAll(Act(n, a), rest)
  {
    ActOne(n, a);
    ActAllAppend(n, [a], rest);
  }

  /** Serving several requests starts their timers. */
  lemma {:induction false} ServeAll(n: Net, j: nat) returns (acts: seq<Action>)
    requires j <= |n.requests|
    ensures CanActAll(n, acts)
    ensures ActAll(n, acts) == n.(requests := n.requests[j..], timers := n.timers + multiset(n.requests[..j]))
    decreases j
  {
    if j == 0 {
      acts := [];
      assert n.requests[0..] == n.requests && n.timers + multiset(n.requests[..0]) == n.timers;
    } else {
      var before := ServeAll(n, j - 1);
      var m := ActAll(n, before);
      ActOne(m, Serve);
      ActAllAppend(n, before, [Serve]);
      acts := before + [Serve];
      assert n.requests[..j] == n.requests[..j - 1] + [m.requests[0]];
    }
  }

  /** Handling the next replies is receiving them: each finds its session, and its callback's requests are sent. */
  lemma {:induction false} ReceiveAll(n: Net, replies: seq<Token>, opens: seq<seq<Request>>)
    returns (acts: seq<Action>)
    requires Sound(n) && |replies| == |opens| && replies <= n.replies && CanHandleAll(n.h, replies, opens)
    ensures CanActAll(n, acts)
    ensures ActAll(n, acts) == n.(h := HandleAll(n.h, replies, opens), replies := n.replies[|replies|..],
                                  requests := n.requests + NewTokens(n.h, replies, opens))
    decreases |opens|
  {
    if opens == [] {
      acts := [];
      assert n.requests + [] == n.requests && n.replies[0..] == n.replies;
    } else {
      var t, more := replies[0], opens[0];
      var next := ReceiveOne(n, t, more);
      var first, later := TokensOf(Fire(n.h, t.sid), more), NewTokens(next.h, replies[1..], opens[1..]);
      assert NewTokens(n.h, replies, opens) == first + later;
      assert HandleAll(n.h, replies, opens) == HandleAll(next.h, replies[1..], opens[1..]);
      var rest := ReceiveAll(next, replies[1..], opens[1..]);
      acts := [Receive(more)] + rest;
      ActThen(n, Receive(more), rest);
      assert (n.requests + first) + later == n.requests + (first + later) by { Assoc(n.requests, first, later); }
      assert n.replies[1..][|replies| - 1..] == n.replies[|replies|..];
    }
  }

  lemma ReceiveOne(n: Net, t: Token, more: seq<Request>) returns (next: Net)
    requires Sound(n) && n.replies != [] && n.replies[0] == t && Enabled(n.h, Reply(t.sid, t.magic, more))
    ensures Stored(n.h.s, t.sid, t.magic) && CanAct(n, Receive(more)) && next == Act(n, Receive(more))
    ensures next == n.(h := Step(n.h, Reply(t.sid, t.magic, more)), replies := n.replies[1..],
                       requests := n.requests + TokensOf(Fire(n.h, t.sid), more))
    ensures Sound(next)
  {
    ReplyFindsSession(n, t);
    SendAllRequests(Exchange.Accept(n), more);
    ReceiveSound(n, more);
    next := Act(n, Receive(more));
  }

  lemma AskSimulated(w: Wired, r: Request, bytes: Bytes, n: Net) returns (acts: seq<Action>)
    requires Same(w, n) && CanStep(w, Ask(r, bytes))
    ensures CanActAll(n, acts) && Same(Stepped(w, Ask(r, bytes)), ActAll(n, acts))
  {
    acts := [Send(r)];
    ActOne(n, Send(r));
    var t := Token(NextSid(n.h.s), r.magic);
    SentOnStream(w.upKept, w.up, MT_DELAYED_RESPONSE_REQ, n.requests, [bytes], [t]);
    JoinOne(bytes);
  }

  lemma JoinOne(bytes: Bytes)
    ensures Join([bytes]) == bytes
  {
    assert Join([bytes]) == bytes + Join([]);
  }

  lemma AnswerSimulated(w: Wired, t: Token, bytes: Bytes, n: Net) returns (acts: seq<Action>)
    requires Same(w, n) && CanStep(w, Answer(t, bytes))
    ensures CanActAll(n, acts) && Same(Stepped(w, Answer(t, bytes)), ActAll(n, acts))
    ensures Work(ActAll(n, acts)) < Work(n)
  {
    acts := [Expire(t)];
    ActOne(n, Expire(t));
    SentOnStream(w.downKept, w.down, MT_STD_REPLY, n.replies, [bytes], [t]);
    JoinOne(bytes);
  }

  lemma ReadUpSimulated(w: Wired, k: nat, n: Net) returns (acts: seq<Action>)
    requires Same(w, n) && CanStep(w, ReadUp(k))
    ensures CanActAll(n, acts) && Same(Stepped(w, ReadUp(k)), ActAll(n, acts))
    ensures Work(ActAll(n, acts)) <= Work(n)
  {
    var j := ReadRequests(w.upKept, w.up, k, n.requests);
    acts := ServeAll(n, j);
  }

  lemma ReadDownSimulated(w: Wired, k: nat, opens: seq<seq<Request>>, out: seq<Bytes>, n: Net)
    returns (acts: seq<Action>)
    requires Same(w, n) && Sound(n) && CanStep(w, ReadDown(k, opens, out))
    ensures CanActAll(n, acts) && Same(Stepped(w, ReadDown(k, opens, out)), ActAll(n, acts))
    ensures Work(ActAll(n, acts)) <= Work(n) + 3 * |out|
  {
    var j := ReadReplies(w.downKept, w.down, k, n.replies);
    var replies := n.replies[..j];
    SentOnStream(w.upKept, w.up, MT_DELAYED_RESPONSE_REQ, n.requests, out, NewTokens(n.h, replies, opens));
    acts := ReceiveAll(n, replies, opens);
  }

  /** Whatever a step on bytes does, a sequence of exchange steps does to the tokens: a read, of any number of
      bytes, serves or receives exactly the messages it completes. */
  lemma StepSimulated(w: Wired, e: Move, n: Net) returns (acts: seq<Action>)
    requires Same(w, n) && Sound(n) && CanStep(w, e)
    ensures CanActAll(n, acts) && Same(Stepped(w, e), ActAll(n, acts))
  {
    match e
    case Ask(r, bytes) => acts := AskSimulated(w, r, bytes, n);
    case ReadUp(k) => acts := ReadUpSimulated(w, k, n);
    case Answer(t, bytes) => acts := AnswerSimulated(w, t, bytes, n);
    case ReadDown(k, opens, out) => acts := ReadDownSimulated(w, k, opens, out, n);
  }

  lemma StartsSame()
    ensures Same(Quiescent(), Idle()) && Sound(Idle())
  {
    var none: seq<Bytes> := [];
    assert PacksAll(none, MT_DELAYED_RESPONSE_REQ, []) && PacksAll(none, MT_STD_REPLY, []);
    assert Join(none) == [] + [];
    StartIsGood();
  }

  /** Refinement: every state of every run on bytes is the state of an exchange, with exactly one token per
      outstanding session. */
  lemma {:induction false} RunsRefineExchange(ws: seq<Wired>, es: seq<Move>, i: nat) returns (acts: seq<Action>)
    requires IsWiredRun(ws, es) && i < |ws|
    ensures CanActAll(Idle(), acts)
    ensures Same(ws[i], ActAll(Idle(), acts)) && Sound(ActAll(Idle(), acts))
    decreases i
  {
    StartsSame();
    if i == 0 {
      acts := [];
    } else {
      var before := RunsRefineExchange(ws, es, i - 1);
      var n := ActAll(Idle(), before);
      var more := StepSimulated(ws[i - 1], es[i - 1], n);
      ActAllSound(n, more);
      ActAllAppend(Idle(), before, more);
      acts := before + more;
    }
  }

  // ------------------------------------------------------------------ draining

  /** No bytes are under way or kept, and no timer runs. */
  predicate Drained(w: Wired) {
    w.up == w.upKept == w.down == w.downKept == [] && w.timers == multiset{}
  }

  /** When nothing more is coming, nothing is kept and nothing was to come. */
  lemma StreamEnds(kept: Bytes, payloadType: uint32, ts: seq<Token>)
    requires Stream(kept, [], payloadType, ts)
    ensures kept == [] && ts == []
  {
    var out: seq<Bytes> :| PacksAll(out, payloadType, ts) && Join(out) == kept + [];
    var fs := AsFrames(out, payloadType, ts);
    assert kept + [] == kept == Join(fs) + [];
    ParseComplete(fs, []);
    assert Parse(kept).frames == [];
  }

  /** A move that sends no new request: a read of at least one byte, or a timer. */
  ghost predicate Quiet(e: Move) {
    match e
    case Ask(_, _) => false
    case ReadUp(k) => k > 0
    case Answer(_, _) => true
    case ReadDown(k, opens, _) => k > 0 && forall o :: o in opens ==> o == []
  }

  lemma AnswerBytes(t: Token) returns (bytes: Bytes)
    requires Fits(t)
    ensures Packs(bytes, MT_STD_REPLY, t)
  {
    var m := Message(MT_STD_REPLY, t.sid, t.magic, seq(12, _ => 0), [0]);
    bytes := Wire(m);
    assert m.Sendable() && Carries(m, MT_STD_REPLY, t);
  }

  function NoOpens(j: nat): (opens: seq<seq<Request>>)
    ensures |opens| == j && forall o :: o in opens ==> o == []
  {
    seq(j, _ => [])
  }

  /** Replies whose callbacks send nothing can be handled, and open no sessions. */
  lemma {:induction false} QuietReplies(n: Net, replies: seq<Token>, opens: seq<seq<Request>>)
    requires Sound(n) && replies <= n.replies && |opens| == |replies| && forall o :: o in opens ==> o == []
    ensures CanHandleAll(n.h, replies, opens) && NewTokens(n.h, replies, opens) == []
    decreases |replies|
  {
    if replies != [] {
      assert opens[0] in opens;
      assert forall o :: o in opens[1..] ==> o in opens;
      var next := QuietReply(n, replies[0]);
      QuietReplies(next, replies[1..], opens[1..]);
    }
  }

  lemma QuietReply(n: Net, t: Token) returns (next: Net)
    requires Sound(n) && n.replies != [] && n.replies[0] == t
    ensures Enabled(n.h, Reply(t.sid, t.magic, [])) && TokensOf(Fire(n.h, t.sid), []) == []
    ensures Sound(next) && next.h == Step(n.h, Reply(t.sid, t.magic, [])) && next.replies == n.replies[1..]
  {
    ReplyFindsSession(n, t);
    next := ReceiveOne(n, t, []);
  }

  /** As long as anything is under way, a quiet move is possible: all bytes that are coming can be read, and every
      timer can expire. */
  lemma QuietMove(w: Wired, n: Net) returns (e: Move)
    requires Same(w, n) && Sound(n) && !Drained(w)
    ensures Quiet(e) && CanStep(w, e)
  {
    if w.up != [] {
      e := ReadUp(|w.up|);
    } else if w.down != [] {
      e := QuietRead(w, n);
    } else {
      StreamEnds(w.upKept, MT_DELAYED_RESPONSE_REQ, n.requests);
      StreamEnds(w.downKept, MT_STD_REPLY, n.replies);
      var t :| t in w.timers;
      var bytes := AnswerBytes(t);
      e := Answer(t, bytes);
    }
  }

  lemma QuietRead(w: Wired, n: Net) returns (e: Move)
    requires Same(w, n) && Sound(n) && w.down != []
    ensures Quiet(e) && CanStep(w, e)
  {
    var k := |w.down|;
    var j := ReadReplies(w.downKept, w.down, k, n.replies);
    var replies := AllTokens(For(HandleStdReply, Read(w.downKept, w.down[..k])));
    QuietReplies(n, replies, NoOpens(|replies|));
    e := ReadDown(k, NoOpens(|replies|), []);
  }

  /** Bytes that are still to be read. */
  function Coming(w: Wired): nat {
    |w.up| + |w.down|
  }

  lemma NothingSent(w: Wired, k: nat, opens: seq<seq<Request>>, out: seq<Bytes>, n: Net)
    requires Same(w, n) && Sound(n) && CanStep(w, ReadDown(k, opens, out)) && Quiet(ReadDown(k, opens, out))
    ensures out == []
  {
    var j := ReadReplies(w.downKept, w.down, k, n.replies);
    QuietReplies(n, n.replies[..j], opens);
  }

  /** A quiet move takes work off the exchange, or leaves it as it is and takes bytes off the streams. */
  lemma QuietMoveWorks(w: Wired, e: Move, n: Net) returns (m: Net)
    requires Same(w, n) && Sound(n) && Quiet(e) && CanStep(w, e)
    ensures Same(Stepped(w, e), m) && Sound(m)
    ensures Work(m) < Work(n) || (Work(m) == Work(n) && Coming(Stepped(w, e)) < Coming(w))
  {
    match e
    case ReadUp(k) =>
      var acts := ReadUpSimulated(w, k, n);
      m := SoundAfter(n, acts);
    case Answer(t, bytes) =>
      var acts := AnswerSimulated(w, t, bytes, n);
      m := SoundAfter(n, acts);
    case ReadDown(k, opens, out) =>
      m := QuietReadDown(w, k, opens, out, n);
  }

  lemma SoundAfter(n: Net, acts: seq<Action>) returns (m: Net)
    requires Sound(n) && CanActAll(n, acts)
    ensures Sound(m) && m == ActAll(n, acts)
  {
    ActAllSound(n, acts);
    m := ActAll(n, acts);
  }

  lemma QuietReadDown(w: Wired, k: nat, opens: seq<seq<Request>>, out: seq<Bytes>, n: Net) returns (m: Net)
    requires Same(w, n) && Sound(n) && CanStep(w, ReadDown(k, opens, out)) && Quiet(ReadDown(k, opens, out))
    ensures var after := Stepped(w, ReadDown(k, opens, out));
            Same(after, m) && Sound(m) && Work(m) <= Work(n) && Coming(after) < Coming(w)
  {
    assert out == [] by { NothingSent(w, k, opens, out, n); }
    var acts := ReadDownSimulated(w, k, opens, out, n);
    m := SoundAfter(n, acts);
  }

  /** Some quiet moves, one after the other, lead from `w` to `last`. */
  ghost predicate QuietlyTo(w: Wired, es: seq<Move>, last: Wired)
    decreases |es|
  {
    if es == [] then last == w
    else Quiet(es[0]) && CanStep(w, es[0]) && QuietlyTo(Stepped(w, es[0]), es[1..], last)
  }

  /** Left alone, byte streams drain: quiet moves can always be made until no bytes are under way or kept and no timer
      runs, and then no session is outstanding and every session ever opened has had its callback run. */
  lemma {:induction false} StreamsDrain(w: Wired, n: Net) returns (es: seq<Move>, last: Wired)
    requires Same(w, n) && Sound(n)
    ensures QuietlyTo(w, es, last) && Drained(last) && AllAnswered(last.h)
    decreases Work(n), Coming(w)
  {
    if Drained(w) {
      es, last := [], w;
      DrainedAnswers(w, n);
    } else {
      var e := QuietMove(w, n);
      var m := QuietMoveWorks(w, e, n);
      var rest;
      rest, last := StreamsDrain(Stepped(w, e), m);
      es := [e] + rest;
      assert es[1..] == rest;
    }
  }

  /** No id is in use, and every session ever opened has had its callback run. */
  ghost predicate AllAnswered(h: Hist) {
    && h.s.used == []
    && forall j :: 0 <= j < |h.log| && h.log[j].Opened? ==> exists i: nat :: Answers(h.log, j, i)
  }

  lemma DrainedAnswers(w: Wired, n: Net)
    requires Same(w, n) && Sound(n) && Drained(w)
    ensures AllAnswered(w.h)
  {
    StreamEnds([], MT_DELAYED_RESPONSE_REQ, n.requests);
    StreamEnds([], MT_STD_REPLY, n.replies);
    assert Tokens(n) == multiset{};
    DrainedExactly(n);
  }

  /** In every run on bytes callbacks run at most once, when it is drained every session ever opened has had its
      callback run and none is outstanding, and from each of its states quiet moves lead to a drained one. */
  lemma RunsOnBytes(ws: seq<Wired>, es: seq<Move>, i: nat)
    requires IsWiredRun(ws, es) && i < |ws|
    ensures Good(ws[i].h, {}) && CalledAtMostOnce(ws[i].h.log)
    ensures Drained(ws[i]) ==> AllAnswered(ws[i].h)
    ensures exists quiet: seq<Move>, last: Wired ::
              QuietlyTo(ws[i], quiet, last) && Drained(last) && AllAnswered(last.h)
  {
    var acts := RunsRefineExchange(ws, es, i);
    var w, n := ws[i], ActAll(Idle(), acts);
    MatchedCalls(w.h.log);
    if Drained(w) {
      DrainedAnswers(w, n);
    }
    var quiet, last := StreamsDrain(w, n);
  }
}
