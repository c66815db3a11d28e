/** The delayed-response exchange: a client that opens a session per request, a server that answers
    each request when its own timer expires, and two channels that lose and reorder nothing. */
module Exchange {
  import opened Basics
  import opened Frames
  import opened Messages
  import opened Dispatch
  import opened Sessions
  import opened History

  /** What a request, its timer and its reply carry. */
  datatype Token = Token(sid: nat, magic: nat)

  /** Client state, requests under way, timers running at the server, replies under way. */
  datatype Net = Net(h: Hist, requests: seq<Token>, timers: multiset<Token>, replies: seq<Token>)

  function Idle(): Net {
    Net(Begin(), [], multiset{}, [])
  }

  datatype Action =
    | Send(r: Request)               // the client opens a session and sends a request
    | Serve                          // the server gets the next request and starts a timer
    | Expire(t: Token)               // some timer expires, and the server sends its reply
    | Receive(more: seq<Request>)    // the client gets the next reply; its callback may send more

  function SendOne(n: Net, r: Request): Net
    requires NextSid(n.h.s) < |n.h.s.table|
  {
    n.(h := Open(n.h, r), requests := n.requests + [Token(NextSid(n.h.s), r.magic)])
  }

  function SendAll(n: Net, rs: seq<Request>): Net
    requires CanOpenAll(n.h, rs)
    decreases |rs|
  {
    if rs == [] then n else SendAll(SendOne(n, rs[0]), rs[1..])
  }

  /** The next reply is taken off the channel; if its session is found, it is invalidated. */
  function Accept(n: Net): Net
    requires n.replies != []
  {
    var t := n.replies[0];
    n.(replies := n.replies[1..], h := if Stored(n.h.s, t.sid, t.magic) then Fire(n.h, t.sid) else n.h)
  }

  predicate CanAct(n: Net, a: Action) {
    match a
    case Send(r) => NextSid(n.h.s) < |n.h.s.table|
    case Serve => n.requests != []
    case Expire(t) => t in n.timers
    case Receive(more) => n.replies != [] && CanOpenAll(Accept(n).h, more)
  }

  function Act(n: Net, a: Action): Net
    requires CanAct(n, a)
  {
    match a
    case Send(r) => SendOne(n, r)
    case Serve => n.(requests := n.requests[1..], timers := n.timers + multiset{n.requests[0]})
    case Expire(t) => n.(timers := n.timers - multiset{t}, replies := n.replies + [t])
    case Receive(more) =>
      var t := n.replies[0];
      if Stored(n.h.s, t.sid, t.magic) then
        var m := SendAll(Accept(n), more);
        m.(h := Return(m.h, t.sid))
      else Accept(n)
  }

  ghost predicate Follows(n: Net, a: Action, n': Net) {
    CanAct(n, a) && n' == Act(n, a)
  }

  ghost predicate IsExchange(ns: seq<Net>, acts: seq<Action>) {
    && |ns| == |acts| + 1 && ns[0] == Idle()
    && forall i :: 0 <= i < |acts| ==> Follows(ns[i], acts[i], ns[i + 1])
  }

  // ------------------------------------------------------------------ one token per session

  /** All tokens under way, wherever they are. */
  function Tokens(n: Net): multiset<Token> {
    multiset(n.requests) + n.timers + multiset(n.replies)
  }

  /** The token of an outstanding session, except those whose callback is running. */
  predicate Live(s: State, busy: set<nat>, t: Token) {
    t.sid in s.used && t.sid !in busy && Stored(s, t.sid, t.magic)
  }

  /** Requests, timers and replies together hold exactly one token per outstanding session. */
  ghost predicate OnePerSession(n: Net, busy: set<nat>) {
    forall t: Token :: Tokens(n)[t] == if Live(n.h.s, busy, t) then 1 else 0
  }

  ghost predicate Sound(n: Net) {
    Good(n.h, {}) && OnePerSession(n, {})
  }

  lemma SendOneTokens(n: Net, r: Request, busy: set<nat>)
    requires OnePerSession(n, busy) && Ids(n.h, busy) && NextSid(n.h.s) < |n.h.s.table|
    ensures OnePerSession(SendOne(n, r), busy)
  {
    SidFitsExactly(n.h.s);
    OpenConserves(n.h.s, r);
    var x, m := Token(NextSid(n.h.s), r.magic), SendOne(n, r);
    assert Tokens(m) == Tokens(n) + multiset{x};
    forall t: Token ensures Tokens(m)[t] == if Live(m.h.s, busy, t) then 1 else 0 {
      assert Tokens(n)[t] == if Live(n.h.s, busy, t) then 1 else 0;
    }
  }

  lemma {:induction false} SendAllTokens(n: Net, rs: seq<Request>, busy: set<nat>)
    requires OnePerSession(n, busy) && Good(n.h, busy) && CanOpenAll(n.h, rs)
    ensures OnePerSession(SendAll(n, rs), busy) && SendAll(n, rs).h == OpenAll(n.h, rs)
    decreases |rs|
  {
    if rs != [] {
      SendOneTokens(n, rs[0], busy);
      OpenGood(n.h, rs[0], busy);
      SendAllTokens(SendOne(n, rs[0]), rs[1..], busy);
    }
  }

  /** Every reply under way finds its session, which is outstanding. */
  lemma ReplyFindsSession(n: Net, t: Token)
    requires OnePerSession(n, {}) && t in n.replies
    ensures Live(n.h.s, {}, t) && t.sid < |n.h.s.table|
  {
    assert t in multiset(n.replies);
    assert Tokens(n)[t] >= multiset(n.replies)[t] > 0;
  }

  lemma AcceptTokens(n: Net)
    requires OnePerSession(n, {}) && n.replies != []
    ensures var t := n.replies[0];
            && Live(n.h.s, {}, t) && t.sid < |n.h.s.table|
            && Accept(n).h == Fire(n.h, t.sid) && OnePerSession(Accept(n), {} + {t.sid})
  {
    var t, m := n.replies[0], Accept(n);
    ReplyFindsSession(n, t);
    assert n.replies == [t] + n.replies[1..];
    assert Tokens(n) == Tokens(m) + multiset{t};
    forall u: Token ensures Tokens(m)[u] == if Live(m.h.s, {} + {t.sid}, u) then 1 else 0 {
      assert Tokens(n)[u] == if Live(n.h.s, {}, u) then 1 else 0;
    }
  }

  lemma ReturnTokens(n: Net, sid: nat)
    requires OnePerSession(n, {} + {sid}) && Good(n.h, {} + {sid})
    ensures OnePerSession(n.(h := Return(n.h, sid)), {})
  {
    var m := n.(h := Return(n.h, sid));
    ReturnConservesExactly(n.h.s, sid);
    forall t: Token ensures Tokens(m)[t] == if Live(m.h.s, {}, t) then 1 else 0 {
      assert Tokens(n)[t] == if Live(n.h.s, {} + {sid}, t) then 1 else 0;
    }
  }

  lemma ReceiveSound(n: Net, more: seq<Request>)
    requires Sound(n) && CanAct(n, Receive(more))
    ensures Sound(Act(n, Receive(more)))
    ensures var e := Reply(n.replies[0].sid, n.replies[0].magic, more);
            Enabled(n.h, e) && Answerable(n.h, e) && Act(n, Receive(more)).h == Step(n.h, e)
  {
    var t := n.replies[0];
    AcceptTokens(n);
    FireGood(n.h, t.sid, {});
    SendAllTokens(Accept(n), more, {} + {t.sid});
    OpenAllGood(Accept(n).h, more, {} + {t.sid});
    ReturnTokens(SendAll(Accept(n), more), t.sid);
    StepGood(n.h, Reply(t.sid, t.magic, more));
  }

  lemma SendSound(n: Net, r: Request)
    requires Sound(n) && CanAct(n, Send(r))
    ensures Sound(Act(n, Send(r)))
  {
    SendOneTokens(n, r, {});
    OpenGood(n.h, r, {});
  }

  lemma ServeSound(n: Net)
    requires Sound(n) && CanAct(n, Serve)
    ensures Sound(Act(n, Serve))
  {
    assert n.requests == [n.requests[0]] + n.requests[1..];
    assert Tokens(Act(n, Serve)) == Tokens(n);
  }

  lemma ExpireSound(n: Net, t: Token)
    requires Sound(n) && CanAct(n, Expire(t))
    ensures Sound(Act(n, Expire(t)))
  {
    assert Tokens(Act(n, Expire(t))) == Tokens(n);
  }

  lemma ActSound(n: Net, a: Action)
    requires Sound(n) && CanAct(n, a)
    ensures Sound(Act(n, a))
  {
    match a
    case Send(r) => SendSound(n, r);
    case Serve => ServeSound(n);
    case Expire(t) => ExpireSound(n, t);
    case Receive(more) => ReceiveSound(n, more);
  }

  /** In every reachable state of the exchange, whatever the magics, whatever order timers expire in and whatever
      callbacks send, there is exactly one token under way per outstanding session. */
  lemma {:induction false} ExchangesAreSound(ns: seq<Net>, acts: seq<Action>, i: nat)
    requires IsExchange(ns, acts) && i < |ns|
    ensures Sound(ns[i])
    decreases i
  {
    if i == 0 {
      StartIsGood();
      assert Sound(Idle());
    } else {
      ExchangesAreSound(ns, acts, i - 1);
      assert Follows(ns[i - 1], acts[i - 1], ns[i]);
      ActSound(ns[i - 1], acts[i - 1]);
    }
  }

  // ------------------------------------------------------------------ draining

  /** Nothing is under way exactly when no session is outstanding, and then the callback of every
      session ever opened has run, each exactly once. */
  lemma DrainedExactly(n: Net)
    requires Sound(n)
    ensures Tokens(n) == multiset{} <==> n.h.s.used == []
    ensures Tokens(n) == multiset{} ==>
              forall j :: 0 <= j < |n.h.log| && n.h.log[j].Opened? ==>
                exists i: nat :: Answers(n.h.log, j, i)
    ensures forall j: nat, i: nat, i': nat :: Answers(n.h.log, j, i) && Answers(n.h.log, j, i') ==> i == i'
  {
    var s := n.h.s;
    if s.used == [] {
      assert forall t: Token :: Tokens(n)[t] == 0;
      NothingOutstanding(n.h);
      assert forall j :: 0 <= j < |n.h.log| && n.h.log[j].Opened? ==> Answered(n.h.log, j);
    } else {
      var sid := s.used[0];
      assert sid in s.used;
      assert Live(s, {}, Token(sid, s.table[sid].magic));
      assert Tokens(n)[Token(sid, s.table[sid].magic)] == 1;
    }
  }

  /** How many steps it takes to answer everything under way. */
  function Work(n: Net): nat {
    3 * |n.requests| + 2 * |n.timers| + |n.replies|
  }

  /** A step that sends nothing new. */
  predicate Quiet(a: Action) {
    a.Serve? || a.Expire? || a == Receive([])
  }

  /** Quiet steps cannot go on for ever nor stop early: each takes one unit of work away, and one is
      possible as long as anything is under way. */
  lemma QuietStepsDrain(n: Net)
    requires Sound(n)
    ensures forall a :: Quiet(a) && CanAct(n, a) ==> Work(Act(n, a)) + 1 == Work(n)
    ensures Tokens(n) != multiset{} ==> exists a :: Quiet(a) && CanAct(n, a)
    ensures Work(n) == 0 <==> Tokens(n) == multiset{}
  {
    forall a | Quiet(a) && CanAct(n, a) ensures Work(Act(n, a)) + 1 == Work(n) {
      if a.Receive? {
        ReplyFindsSession(n, n.replies[0]);
      }
    }
    if n.requests != [] {
      assert Quiet(Serve) && CanAct(n, Serve);
    } else if n.replies != [] {
      assert Quiet(Receive([])) && CanAct(n, Receive([]));
    } else if n.timers != multiset{} {
      var t :| t in n.timers;
      assert Quiet(Expire(t)) && CanAct(n, Expire(t));
    }
    assert |Tokens(n)| == |n.requests| + |n.timers| + |n.replies|;
  }

  ghost predicate IsQuietRun(ns: seq<Net>, acts: seq<Action>) {
    && |ns| == |acts| + 1
    && forall i :: 0 <= i < |acts| ==> Quiet(acts[i]) && Follows(ns[i], acts[i], ns[i + 1])
  }

  /** Left alone, the exchange always drains: every run of quiet steps has at most as many steps as there is work,
      whatever order timers expire in, and one that cannot go on has run every callback there was to run. */
  lemma QuietRunsEnd(ns: seq<Net>, acts: seq<Action>)
    requires IsQuietRun(ns, acts) && Sound(ns[0])
    ensures var last := ns[|acts|];
            && |acts| + Work(last) == Work(ns[0])
            && ((forall a :: Quiet(a) ==> !CanAct(last, a)) <==> |acts| == Work(ns[0]))
            && (|acts| == Work(ns[0]) ==>
                  last.h.s.used == []
                  && forall j :: 0 <= j < |last.h.log| && last.h.log[j].Opened? ==>
                       exists i: nat :: Answers(last.h.log, j, i))
  {
    for k := 0 to |acts|
      invariant Sound(ns[k]) && k + Work(ns[k]) == Work(ns[0])
    {
      assert Quiet(acts[k]) && Follows(ns[k], acts[k], ns[k + 1]);
      QuietStepsDrain(ns[k]);
      ActSound(ns[k], acts[k]);
    }
    var last := ns[|acts|];
    QuietStepsDrain(last);
    DrainedExactly(last);
  }

  // ------------------------------------------------------------------ the channels are byte streams

  /** The message that carries a token. */
  ghost predicate Carries(m: Message, payloadType: uint32, t: Token) {
    m.payload != [] && m.payloadType == payloadType && m.sessionId == t.sid && m.randomId == t.magic
  }

  /** Tokens sent as messages of one type arrive at that type's handler, complete and in order,
      however the byte stream is cut into reads. */
  lemma TokensArrive(
      cbs: Table, payloadType: uint32, handler: Handler, ts: seq<Token>, ms: seq<Message>, chunks: seq<Bytes>)
    requires CbFuncs(cbs, payloadType) == Some(handler)
    requires |ms| == |ts| && forall i :: 0 <= i < |ms| ==> Carries(ms[i], payloadType, ts[i])
    requires (forall m :: m in ms ==> m.Sendable()) && Join(chunks) == WireAll(ms)
    ensures var seen := Seen(Calls(cbs, FeedAll([], chunks).frames));
            && |seen| == |ts|
            && forall i :: 0 <= i < |ts| ==>
                 && seen[i].0 == handler
                 && Token(seen[i].1.sessionId, seen[i].1.randomId) == ts[i]
  {
    MessagesArrive(cbs, ms, chunks);
    ExpectedTokens(cbs, payloadType, handler, ts, ms);
  }

  lemma {:induction false} ExpectedTokens(
      cbs: Table, payloadType: uint32, handler: Handler, ts: seq<Token>, ms: seq<Message>)
    requires CbFuncs(cbs, payloadType) == Some(handler)
    requires |ms| == |ts| && forall i :: 0 <= i < |ms| ==> Carries(ms[i], payloadType, ts[i])
    ensures var seen := Expected(cbs, ms);
            && |seen| == |ts|
            && forall i :: 0 <= i < |ts| ==>
                 && seen[i].0 == handler
                 && Token(seen[i].1.sessionId, seen[i].1.randomId) == ts[i]
    decreases |ms|
  {
    if ms != [] {
      assert Carries(ms[0], payloadType, ts[0]);
      ExpectedTokens(cbs, payloadType, handler, ts[1..], ms[1..]);
    }
  }
}
