/** Runs of the session module: openings and replies in any order, with replies duplicated, late or
    made up, and callbacks that open further sessions. */
module History {
  import opened Basics
  import opened Sessions

  /** What happens to a session: it is opened, or its callback runs with the stored data. */
  datatype Item =
    | Opened(sid: nat, magic: nat, cb: nat, data: nat)
    | Fired(sid: nat, magic: nat, cb: nat, data: nat)

  /** A state with its past: everything that happened, every id ever put on the free list,
      and the largest number of ids ever in use at once. */
  datatype Hist = Hist(s: State, log: seq<Item>, pushed: seq<nat>, high: nat)

  function Begin(): Hist {
    Hist(Start(), [], [], 0)
  }

  datatype Event =
    | OpenSession(r: Request)
    | Reply(sid: nat, magic: nat, opens: seq<Request>)  // `opens`: what the callback opens if it runs

  // ------------------------------------------------------------------ steps

  function Max(a: nat, b: nat): nat {
    if a < b then b else a
  }

  function Open(h: Hist, r: Request): Hist
    requires NextSid(h.s) < |h.s.table|
  {
    var s := MakeNewSession(h.s, r);
    Hist(s,
         h.log + [Opened(NextSid(h.s), r.magic, r.cb, r.data)],
         if h.s.free == [] then h.pushed + Stocked(h.s).free else h.pushed,
         Max(h.high, |s.used|))
  }

  /** The ids the openings take all index the table. */
  predicate CanOpenAll(h: Hist, rs: seq<Request>)
    decreases |rs|
  {
    rs == [] || (NextSid(h.s) < |h.s.table| && CanOpenAll(Open(h, rs[0]), rs[1..]))
  }

  function OpenAll(h: Hist, rs: seq<Request>): Hist
    requires CanOpenAll(h, rs)
    decreases |rs|
  {
    if rs == [] then h else OpenAll(Open(h, rs[0]), rs[1..])
  }

  /** The reply's session is invalidated and its callback is about to run. */
  function Fire(h: Hist, sid: nat): Hist
    requires sid < |h.s.table|
  {
    var e := h.s.table[sid];
    h.(s := Invalidate(h.s, sid), log := h.log + [Fired(sid, e.magic, e.cb, e.data)])
  }

  /** The callback is done and the id goes back to the pool. */
  function Return(h: Hist, sid: nat): Hist {
    h.(s := ReturnSid(h.s, sid), pushed := h.pushed + [sid])
  }

  /** No step indexes outside the session table. */
  predicate Enabled(h: Hist, e: Event) {
    match e
    case OpenSession(_) => NextSid(h.s) < |h.s.table|
    case Reply(sid, magic, opens) =>
      sid < |h.s.table| && (Stored(h.s, sid, magic) ==> CanOpenAll(Fire(h, sid), opens))
  }

  function Step(h: Hist, e: Event): Hist
    requires Enabled(h, e)
  {
    match e
    case OpenSession(r) => Open(h, r)
    case Reply(sid, magic, opens) =>
      if Stored(h.s, sid, magic) then Return(OpenAll(Fire(h, sid), opens), sid) else h
  }

  /** Sessions are opened and replied to with magics other than 0. */
  predicate Honest(e: Event) {
    match e
    case OpenSession(r) => r.magic != 0
    case Reply(_, magic, opens) => magic != 0 && AllHonest(opens)
  }

  predicate AllHonest(rs: seq<Request>) {
    forall r :: r in rs ==> r.magic != 0
  }

  ghost predicate Next(h: Hist, e: Event, h': Hist) {
    Enabled(h, e) && h' == Step(h, e)
  }

  ghost predicate IsRun(hs: seq<Hist>, es: seq<Event>) {
    && |hs| == |es| + 1 && hs[0] == Begin()
    && forall i :: 0 <= i < |es| ==> Next(hs[i], es[i], hs[i + 1])
  }

  // ------------------------------------------------------------------ what the log says

  /** The latest thing that happened under an id. */
  function LastOf(log: seq<Item>, sid: nat): Option<Item> {
    if log == [] then None
    else if log[|log| - 1].sid == sid then Some(log[|log| - 1])
    else LastOf(log[..|log| - 1], sid)
  }

  /** The ids issued, in order. */
  function Issued(log: seq<Item>): seq<nat> {
    if log == [] then []
    else
      var x := log[|log| - 1];
      Issued(log[..|log| - 1]) + if x.Opened? then [x.sid] else []
  }

  /** The callback run at `i` belongs to the session opened at `j`: same id, magic, callback and
      data, and nothing else happened under that id in between. */
  ghost predicate Answers(log: seq<Item>, j: nat, i: nat) {
    && j < i < |log|
    && log[i].Fired? && log[j] == Opened(log[i].sid, log[i].magic, log[i].cb, log[i].data)
    && forall k :: j < k < i ==> log[k].sid != log[i].sid
  }

  ghost predicate Answered(log: seq<Item>, j: nat) {
    exists i: nat :: Answers(log, j, i)
  }

  ghost predicate LastUnder(log: seq<Item>, j: nat) {
    j < |log| && forall k :: j < k < |log| ==> log[k].sid != log[j].sid
  }

  /** Every callback run answers an opening, and every opening but the latest under its id is
      answered. */
  ghost predicate Matched(log: seq<Item>) {
    && (forall i :: 0 <= i < |log| && log[i].Fired? ==> exists j: nat :: Answers(log, j, i))
    && (forall j :: 0 <= j < |log| && log[j].Opened? ==> Answered(log, j) || LastUnder(log, j))
  }

  // ------------------------------------------------------------------ the invariant

  /** Ids are conserved, and callbacks run only under ids in use. */
  ghost predicate Ids(h: Hist, busy: set<nat>) {
    Conserved(h.s) && forall b :: b in busy ==> b in h.s.used
  }

  /** The table holds what was opened last under an id in use, except while its callback is running; any other
      id was never opened, or its latest session has been answered. */
  ghost predicate EntryLogged(h: Hist, busy: set<nat>, sid: nat)
    requires sid < |h.s.table|
  {
    var e := h.s.table[sid];
    if sid in h.s.used && sid !in busy then LastOf(h.log, sid) == Some(Opened(sid, e.magic, e.cb, e.data))
    else Settled(h.log, sid)
  }

  ghost predicate Logged(h: Hist, busy: set<nat>) {
    && (forall sid: nat :: sid < |h.s.table| ==> EntryLogged(h, busy, sid))
    && forall j :: 0 <= j < |h.log| ==> h.log[j].sid < |h.s.table|
  }

  /** No session waits for an answer under this id. */
  ghost predicate Settled(log: seq<Item>, sid: nat) {
    LastOf(log, sid) == None || LastOf(log, sid).value.Fired?
  }

  /** Ids are issued in the order in which they were put on the free list. */
  ghost predicate Fifo(h: Hist) {
    h.pushed == Issued(h.log) + h.s.free
  }

  /** The last batch of ids was needed at the high-water mark. */
  ghost predicate Sized(h: Hist) {
    |h.s.used| <= h.high <= h.s.max && (h.s.max > 0 ==> h.s.max < h.high + GROWTH)
  }

  ghost predicate Good(h: Hist, busy: set<nat>) {
    Ids(h, busy) && Logged(h, busy) && Matched(h.log) && Fifo(h) && Sized(h)
  }

  // ------------------------------------------------------------------ the log under a new item

  lemma LastOfSnoc(log: seq<Item>, x: Item, sid: nat)
    ensures LastOf(log + [x], sid) == if x.sid == sid then Some(x) else LastOf(log, sid)
  {
    assert (log + [x])[..|log|] == log;
  }

  lemma {:induction false} LastOfAt(log: seq<Item>, j: nat)
    requires LastUnder(log, j)
    ensures LastOf(log, log[j].sid) == Some(log[j])
    decreases |log|
  {
    var n := |log| - 1;
    if j < n {
      assert LastUnder(log[..n], j);
      LastOfAt(log[..n], j);
    }
  }

  lemma {:induction false} LastOfIndex(log: seq<Item>, sid: nat) returns (j: nat)
    requires LastOf(log, sid) != None
    ensures LastUnder(log, j) && log[j].sid == sid && LastOf(log, sid) == Some(log[j])
    decreases |log|
  {
    var n := |log| - 1;
    if log[n].sid == sid {
      j := n;
    } else {
      j := LastOfIndex(log[..n], sid);
      assert LastUnder(log, j);
    }
  }

  lemma AnswersKept(log: seq<Item>, x: Item, j: nat, i: nat)
    requires Answers(log, j, i)
    ensures Answers(log + [x], j, i)
  {
  }

  /** The item opens an id whose latest session is answered, or answers the latest session under
      its id. */
  ghost predicate InTurn(log: seq<Item>, x: Item) {
    if x.Opened? then Settled(log, x.sid)
    else LastOf(log, x.sid) == Some(Opened(x.sid, x.magic, x.cb, x.data))
  }

  lemma FiringsStayAnswers(log: seq<Item>, x: Item, i: nat)
    requires Matched(log) && InTurn(log, x) && i < |log + [x]| && (log + [x])[i].Fired?
    ensures exists j: nat :: Answers(log + [x], j, i)
  {
    if i < |log| {
      var j: nat :| Answers(log, j, i);
      AnswersKept(log, x, j, i);
    } else {
      var j := LastOfIndex(log, x.sid);
      assert Answers(log + [x], j, i);
    }
  }

  lemma OpeningsStayMatched(log: seq<Item>, x: Item, j: nat)
    requires Matched(log) && InTurn(log, x) && j < |log + [x]| && (log + [x])[j].Opened?
    ensures Answered(log + [x], j) || LastUnder(log + [x], j)
  {
    if j < |log| {
      if Answered(log, j) {
        var i: nat :| Answers(log, j, i);
        AnswersKept(log, x, j, i);
      } else if log[j].sid == x.sid {
        LastOfAt(log, j);
        assert Answers(log + [x], j, |log|);
      }
    }
  }

  lemma MatchedSnoc(log: seq<Item>, x: Item)
    requires Matched(log) && InTurn(log, x)
    ensures Matched(log + [x])
  {
    var l := log + [x];
    forall i | 0 <= i < |l| && l[i].Fired? ensures exists j: nat :: Answers(l, j, i) {
      FiringsStayAnswers(log, x, i);
    }
    forall j | 0 <= j < |l| && l[j].Opened? ensures Answered(l, j) || LastUnder(l, j) {
      OpeningsStayMatched(log, x, j);
    }
  }

  // ------------------------------------------------------------------ the steps keep the invariant

  lemma OpenGood(h: Hist, r: Request, busy: set<nat>)
    requires Good(h, busy) && NextSid(h.s) < |h.s.table|
    ensures Good(Open(h, r), busy)
  {
    SidFitsExactly(h.s);
    OpenConserves(h.s, r);
    OpenLogged(h, r, busy);
    OpenFifo(h, r);
  }

  lemma OpenLogged(h: Hist, r: Request, busy: set<nat>)
    requires Ids(h, busy) && Logged(h, busy) && Matched(h.log) && NextSid(h.s) < |h.s.table|
    requires NextSid(h.s) !in h.s.used && MakeNewSession(h.s, r).used == h.s.used + [NextSid(h.s)]
    ensures Logged(Open(h, r), busy) && Matched(Open(h, r).log)
  {
    var x, g := Opened(NextSid(h.s), r.magic, r.cb, r.data), Open(h, r);
    assert EntryLogged(h, busy, x.sid);
    MatchedSnoc(h.log, x);
    forall sid: nat | sid < |h.s.table| ensures EntryLogged(g, busy, sid) {
      assert EntryLogged(h, busy, sid);
      LastOfSnoc(h.log, x, sid);
    }
  }

  lemma OpenFifo(h: Hist, r: Request)
    requires Fifo(h) && NextSid(h.s) < |h.s.table|
    ensures Fifo(Open(h, r))
  {
    var t := Stocked(h.s).free;
    var l := Open(h, r).log;
    assert l[..|l| - 1] == h.log;
    assert Issued(l) == Issued(h.log) + [t[0]];
    assert t == [t[0]] + t[1..];
  }

  lemma FireGood(h: Hist, sid: nat, busy: set<nat>)
    requires Good(h, busy) && sid in h.s.used && sid !in busy
    ensures sid < |h.s.table| && Good(Fire(h, sid), busy + {sid})
  {
    FireIds(h, sid, busy);
    FireLogged(h, sid, busy);
    FireFifo(h, sid);
  }

  lemma FireIds(h: Hist, sid: nat, busy: set<nat>)
    requires Ids(h, busy) && sid in h.s.used
    ensures sid < |h.s.table| && Ids(Fire(h, sid), busy + {sid})
  {
  }

  lemma FireLogged(h: Hist, sid: nat, busy: set<nat>)
    requires Logged(h, busy) && Matched(h.log)
    requires sid < |h.s.table| && sid in h.s.used && sid !in busy
    ensures Logged(Fire(h, sid), busy + {sid}) && Matched(Fire(h, sid).log)
  {
    var e, g := h.s.table[sid], Fire(h, sid);
    var x := Fired(sid, e.magic, e.cb, e.data);
    assert EntryLogged(h, busy, sid);
    MatchedSnoc(h.log, x);
    forall id: nat | id < |h.s.table| ensures EntryLogged(g, busy + {sid}, id) {
      assert EntryLogged(h, busy, id);
      LastOfSnoc(h.log, x, id);
    }
  }

  lemma FireFifo(h: Hist, sid: nat)
    requires Fifo(h) && sid < |h.s.table|
    ensures Fifo(Fire(h, sid))
  {
    var l := Fire(h, sid).log;
    assert l[..|l| - 1] == h.log;
    assert Issued(l) == Issued(h.log);
  }

  lemma ReturnGood(h: Hist, sid: nat, busy: set<nat>)
    requires Good(h, busy) && sid in busy
    ensures Good(Return(h, sid), busy - {sid})
  {
    ReturnConservesExactly(h.s, sid);
    Removed(h.s.used, sid);
    ReturnLogged(h, sid, busy);
    ReturnFifo(h, sid);
  }

  lemma ReturnLogged(h: Hist, sid: nat, busy: set<nat>)
    requires Ids(h, busy) && Logged(h, busy) && sid in busy
    ensures Logged(Return(h, sid), busy - {sid})
  {
    var g := Return(h, sid);
    ReturnConservesExactly(h.s, sid);
    forall id: nat | id < |h.s.table| ensures EntryLogged(g, busy - {sid}, id) {
      assert EntryLogged(h, busy, id);
    }
  }

  lemma ReturnFifo(h: Hist, sid: nat)
    requires Fifo(h)
    ensures Fifo(Return(h, sid))
  {
    Assoc(Issued(h.log), h.s.free, [sid]);
  }

  /** From `h` to `g` sessions were only opened, and none under an id that was in use. */
  ghost predicate OnlyOpened(h: Hist, g: Hist) {
    && h.log <= g.log
    && (forall k :: |h.log| <= k < |g.log| ==> g.log[k].Opened? && g.log[k].sid !in h.s.used)
    && forall sid :: sid in h.s.used ==> sid in g.s.used
  }

  lemma OnlyOpenedThen(h: Hist, h1: Hist, g: Hist)
    requires OnlyOpened(h, h1) && OnlyOpened(h1, g)
    ensures OnlyOpened(h, g)
  {
    assert forall k :: 0 <= k < |h1.log| ==> g.log[k] == h1.log[k];
  }

  lemma OpenOnlyOpens(h: Hist, r: Request)
    requires Conserved(h.s) && NextSid(h.s) < |h.s.table|
    ensures OnlyOpened(h, Open(h, r))
  {
    SidFitsExactly(h.s);
    OpenConserves(h.s, r);
  }

  /** Reentrancy: whatever a running callback opens, the ids it gets differ from the one being
      completed and from all others in use, and the invariant is kept throughout. */
  lemma {:induction false} OpenAllGood(h: Hist, rs: seq<Request>, busy: set<nat>)
    requires Good(h, busy) && CanOpenAll(h, rs)
    ensures Good(OpenAll(h, rs), busy) && OnlyOpened(h, OpenAll(h, rs))
    decreases |rs|
  {
    if rs != [] {
      var h1, g := Open(h, rs[0]), OpenAll(h, rs);
      assert g == OpenAll(h1, rs[1..]);
      assert Good(g, busy) && OnlyOpened(h1, g) by {
        OpenGood(h, rs[0], busy);
        OpenAllGood(h1, rs[1..], busy);
      }
      assert OnlyOpened(h, g) by {
        OpenOnlyOpens(h, rs[0]);
        OnlyOpenedThen(h, h1, g);
      }
    }
  }

  // ------------------------------------------------------------------ exactly when a step keeps it

  /** The condition a caller could check: a reply that finds an entry names an id in use. */
  predicate Answerable(h: Hist, e: Event) {
    e.Reply? && Stored(h.s, e.sid, e.magic) ==> e.sid in h.s.used
  }

  lemma StepGood(h: Hist, e: Event)
    requires Good(h, {}) && Enabled(h, e) && Answerable(h, e)
    ensures Good(Step(h, e), {})
  {
    match e
    case OpenSession(r) => OpenGood(h, r, {});
    case Reply(sid, magic, opens) =>
      if Stored(h.s, sid, magic) {
        FireGood(h, sid, {});
        OpenAllGood(Fire(h, sid), opens, {} + {sid});
        ReturnGood(OpenAll(Fire(h, sid), opens), sid, {} + {sid});
        assert {} + {sid} - {sid} == {};
      }
  }

  lemma {:induction false} OpenAllLogs(h: Hist, rs: seq<Request>)
    requires CanOpenAll(h, rs)
    ensures h.log <= OpenAll(h, rs).log
    decreases |rs|
  {
    if rs != [] {
      OpenAllLogs(Open(h, rs[0]), rs[1..]);
    }
  }

  /** What was logged from `from` on is exactly the opening of these sessions. */
  ghost predicate LogsOpenings(log: seq<Item>, from: nat, rs: seq<Request>) {
    && |log| == from + |rs|
    && forall k :: 0 <= k < |rs| ==> IsOpening(log[from + k], rs[k])
  }

  predicate IsOpening(x: Item, r: Request) {
    x.Opened? && x.magic == r.magic && x.cb == r.cb && x.data == r.data
  }

  lemma {:induction false} OpenAllItems(h: Hist, rs: seq<Request>)
    requires CanOpenAll(h, rs)
    ensures LogsOpenings(OpenAll(h, rs).log, |h.log|, rs)
    decreases |rs|
  {
    if rs != [] {
      var h1, g := Open(h, rs[0]), OpenAll(h, rs);
      OpenAllItems(h1, rs[1..]);
      OpenAllLogs(h1, rs[1..]);
      assert g.log[|h.log|] == h1.log[|h.log|];
      forall k | 0 <= k < |rs| ensures IsOpening(g.log[|h.log| + k], rs[k]) {
        if k > 0 {
          assert IsOpening(g.log[|h1.log| + (k - 1)], rs[1..][k - 1]);
        }
      }
    }
  }

  /** A reply to an outstanding session: its callback is run once with what was stored, the sessions the callback opens
      get ids other than its own and all others in use, and only then its id goes to the back of the free ones. */
  lemma ReplyDoes(h: Hist, sid: nat, magic: nat, opens: seq<Request>)
    requires Good(h, {}) && Enabled(h, Reply(sid, magic, opens))
    requires Stored(h.s, sid, magic) && sid in h.s.used
    ensures var g, e := Step(h, Reply(sid, magic, opens)), h.s.table[sid];
            && h.log + [Fired(sid, e.magic, e.cb, e.data)] <= g.log && LogsOpenings(g.log, |h.log| + 1, opens)
            && (forall k :: |h.log| < k < |g.log| ==> g.log[k].sid !in h.s.used && g.log[k].sid in g.s.used)
            && sid !in g.s.used && g.s.free != [] && g.s.free[|g.s.free| - 1] == sid
  {
    var f := Fire(h, sid);
    var m := OpenAll(f, opens);
    FireGood(h, sid, {});
    OpenAllGood(f, opens, {} + {sid});
    OpenAllItems(f, opens);
    OpenedStay(f, opens, {} + {sid});
    ReturnConservesExactly(m.s, sid);
  }

  /** What was logged from `from` on was logged under ids that are in use. */
  ghost predicate InUseFrom(h: Hist, from: nat) {
    forall k :: from <= k < |h.log| ==> h.log[k].sid in h.s.used
  }

  /** What a callback has opened is still in use when it ends. */
  lemma {:induction false} OpenedStay(h: Hist, rs: seq<Request>, busy: set<nat>)
    requires Good(h, busy) && CanOpenAll(h, rs)
    ensures InUseFrom(OpenAll(h, rs), |h.log|)
    decreases |rs|
  {
    if rs != [] {
      var h1, g := Open(h, rs[0]), OpenAll(h, rs);
      assert g == OpenAll(h1, rs[1..]);
      assert InUseFrom(g, |h1.log|) && OnlyOpened(h1, g) by {
        OpenGood(h, rs[0], busy);
        OpenedStay(h1, rs[1..], busy);
        OpenAllGood(h1, rs[1..], busy);
      }
      OneMoreStays(h, rs[0], g);
    }
  }

  lemma OneMoreStays(h: Hist, r: Request, g: Hist)
    requires Conserved(h.s) && NextSid(h.s) < |h.s.table|
    requires OnlyOpened(Open(h, r), g) && InUseFrom(g, |h.log| + 1)
    ensures InUseFrom(g, |h.log|)
  {
    var h1 := Open(h, r);
    assert h1.log[|h.log|].sid in h1.s.used by {
      SidFitsExactly(h.s);
      OpenConserves(h.s, r);
    }
    assert g.log[|h.log|] == h1.log[|h.log|];
  }

  /** Every callback run answers an opening with the same id, magic, callback and data, and no two answer the
      same one. */
  ghost predicate CalledAtMostOnce(log: seq<Item>) {
    && (forall i :: 0 <= i < |log| && log[i].Fired? ==> exists j: nat :: Answers(log, j, i))
    && forall j: nat, i: nat, i': nat :: Answers(log, j, i) && Answers(log, j, i') ==> i == i'
  }

  /** A callback run under an id under which no session waits answers nothing. */
  lemma NothingToAnswer(h: Hist, sid: nat, log: seq<Item>)
    requires Settled(h.log, sid) && sid < |h.s.table| && Fire(h, sid).log <= log
    ensures !CalledAtMostOnce(log)
  {
    var i := |h.log|;
    assert log[i] == Fire(h, sid).log[i];
    forall j: nat ensures !Answers(log, j, i) {
      if Answers(log, j, i) {
        assert forall k :: 0 <= k < i ==> log[k] == h.log[k];
        LastOfAt(h.log, j);
        assert false;
      }
    }
  }

  /** A reply to an id that is not in use runs a callback that answers nothing. */
  lemma UnanswerableCalls(h: Hist, e: Event)
    requires Logged(h, {}) && Enabled(h, e) && !Answerable(h, e)
    ensures !CalledAtMostOnce(Step(h, e).log)
  {
    assert EntryLogged(h, {}, e.sid);
    OpenAllLogs(Fire(h, e.sid), e.opens);
    NothingToAnswer(h, e.sid, Step(h, e).log);
  }

  /** Matching callbacks with openings is more than calling each at most once. */
  lemma MatchedCalls(log: seq<Item>)
    requires Matched(log)
    ensures CalledAtMostOnce(log)
  {
  }

  /** A step keeps the invariant, and calls callbacks at most once, exactly if it is answerable, whatever magics
      are used. */
  lemma StepGoodExactly(h: Hist, e: Event)
    requires Good(h, {}) && Enabled(h, e)
    ensures Good(Step(h, e), {}) <==> Answerable(h, e)
    ensures CalledAtMostOnce(Step(h, e).log) <==> Answerable(h, e)
  {
    if Answerable(h, e) {
      StepGood(h, e);
      MatchedCalls(Step(h, e).log);
    } else {
      UnanswerableCalls(h, e);
      if Good(Step(h, e), {}) {
        MatchedCalls(Step(h, e).log);
      }
    }
  }

  /** All steps of a run up to the `n`th are answerable. */
  ghost predicate AnswerableUpTo(hs: seq<Hist>, es: seq<Event>, n: nat)
    requires n <= |es| < |hs|
  {
    forall i :: 0 <= i < n ==> Answerable(hs[i], es[i])
  }

  lemma {:induction false} GoodUpTo(hs: seq<Hist>, es: seq<Event>, n: nat)
    requires IsRun(hs, es) && n <= |es| && AnswerableUpTo(hs, es, n)
    ensures Good(hs[n], {})
    decreases n
  {
    if n == 0 {
      StartIsGood();
    } else {
      GoodUpTo(hs, es, n - 1);
      assert Next(hs[n - 1], es[n - 1], hs[n]) && Answerable(hs[n - 1], es[n - 1]);
      StepGood(hs[n - 1], es[n - 1]);
    }
  }

  /** The first step that is not answerable leads to a state in which some callback has run once too often. */
  lemma {:induction false} FirstUnanswerable(hs: seq<Hist>, es: seq<Event>, n: nat) returns (bad: nat)
    requires IsRun(hs, es) && n <= |es| && !AnswerableUpTo(hs, es, n)
    ensures bad < |hs| && !Good(hs[bad], {}) && !CalledAtMostOnce(hs[bad].log)
    decreases n
  {
    if AnswerableUpTo(hs, es, n - 1) {
      GoodUpTo(hs, es, n - 1);
      assert Next(hs[n - 1], es[n - 1], hs[n]);
      StepGoodExactly(hs[n - 1], es[n - 1]);
      bad := n;
    } else {
      bad := FirstUnanswerable(hs, es, n - 1);
    }
  }

  /** A run keeps the invariant in all its states exactly if all its steps are answerable. */
  lemma RunIsGoodExactly(hs: seq<Hist>, es: seq<Event>)
    requires IsRun(hs, es)
    ensures (forall i :: 0 <= i < |hs| ==> Good(hs[i], {})) <==> AnswerableUpTo(hs, es, |es|)
  {
    if AnswerableUpTo(hs, es, |es|) {
      forall i | 0 <= i < |hs| ensures Good(hs[i], {}) {
        GoodUpTo(hs, es, i);
      }
    } else {
      var bad := FirstUnanswerable(hs, es, |es|);
    }
  }

  /** At most once, exactly: in every state of a run each callback run has its own opening, whose stored data it
      got, if and only if no reply of the run finds the entry of an id that is not in use. */
  lemma AtMostOnceExactly(hs: seq<Hist>, es: seq<Event>)
    requires IsRun(hs, es)
    ensures (forall i :: 0 <= i < |hs| ==> CalledAtMostOnce(hs[i].log)) <==> AnswerableUpTo(hs, es, |es|)
  {
    if AnswerableUpTo(hs, es, |es|) {
      forall i | 0 <= i < |hs| ensures CalledAtMostOnce(hs[i].log) {
        GoodUpTo(hs, es, i);
        MatchedCalls(hs[i].log);
      }
    } else {
      var bad := FirstUnanswerable(hs, es, |es|);
    }
  }

  // ------------------------------------------------------------------ exactly when ids are conserved

  lemma {:induction false} OpenAllConserves(h: Hist, rs: seq<Request>)
    requires Conserved(h.s) && CanOpenAll(h, rs)
    ensures Conserved(OpenAll(h, rs).s)
    decreases |rs|
  {
    if rs != [] {
      SidFitsExactly(h.s);
      OpenConserves(h.s, rs[0]);
      OpenAllConserves(Open(h, rs[0]), rs[1..]);
    }
  }

  /** If the reply's callback runs, the id it completes is in use when it is returned: it was before, or the
      callback has been given it. */
  ghost predicate Returnable(h: Hist, e: Event)
    requires Enabled(h, e)
  {
    e.Reply? && Stored(h.s, e.sid, e.magic) ==> e.sid in OpenAll(Fire(h, e.sid), e.opens).s.used
  }

  /** A step conserves the ids exactly if what it returns is in use. */
  lemma StepConservesExactly(h: Hist, e: Event)
    requires Conserved(h.s) && Enabled(h, e)
    ensures Conserved(Step(h, e).s) <==> Returnable(h, e)
  {
    match e
    case OpenSession(r) =>
      SidFitsExactly(h.s);
      OpenConserves(h.s, r);
    case Reply(sid, magic, opens) =>
      if Stored(h.s, sid, magic) {
        OpenAllConserves(Fire(h, sid), opens);
        ReturnConservesExactly(OpenAll(Fire(h, sid), opens).s, sid);
      }
  }

  ghost predicate ReturnableUpTo(hs: seq<Hist>, es: seq<Event>, n: nat)
    requires IsRun(hs, es) && n <= |es|
  {
    forall i :: 0 <= i < n ==> Next(hs[i], es[i], hs[i + 1]) && Returnable(hs[i], es[i])
  }

  lemma {:induction false} ConservedUpTo(hs: seq<Hist>, es: seq<Event>, n: nat)
    requires IsRun(hs, es) && n <= |es| && ReturnableUpTo(hs, es, n)
    ensures Conserved(hs[n].s)
    decreases n
  {
    if n == 0 {
      StartIsGood();
    } else {
      ConservedUpTo(hs, es, n - 1);
      assert Next(hs[n - 1], es[n - 1], hs[n]) && Returnable(hs[n - 1], es[n - 1]);
      StepConservesExactly(hs[n - 1], es[n - 1]);
    }
  }

  lemma {:induction false} FirstUnreturnable(hs: seq<Hist>, es: seq<Event>, n: nat) returns (bad: nat)
    requires IsRun(hs, es) && n <= |es| && !ReturnableUpTo(hs, es, n)
    ensures bad < |hs| && !Conserved(hs[bad].s)
    decreases n
  {
    if ReturnableUpTo(hs, es, n - 1) {
      ConservedUpTo(hs, es, n - 1);
      assert Next(hs[n - 1], es[n - 1], hs[n]);
      StepConservesExactly(hs[n - 1], es[n - 1]);
      bad := n;
    } else {
      bad := FirstUnreturnable(hs, es, n - 1);
    }
  }

  /** Session ids are conserved in all states of a run exactly if each id it returns is in use then. */
  lemma RunConservesExactly(hs: seq<Hist>, es: seq<Event>)
    requires IsRun(hs, es)
    ensures (forall i :: 0 <= i < |hs| ==> Conserved(hs[i].s)) <==> ReturnableUpTo(hs, es, |es|)
  {
    if ReturnableUpTo(hs, es, |es|) {
      forall i | 0 <= i < |hs| ensures Conserved(hs[i].s) {
        ConservedUpTo(hs, es, i);
      }
    } else {
      var bad := FirstUnreturnable(hs, es, |es|);
    }
  }

  // ------------------------------------------------------------------ magics

  /** Opening sessions keeps the nonzero magics exactly those of live ids if and only if none is opened with 0. */
  lemma {:induction false} OpenAllLiveExactly(h: Hist, rs: seq<Request>, busy: set<nat>)
    requires Ids(h, busy) && LiveMagics(h.s, busy) && CanOpenAll(h, rs)
    ensures Ids(OpenAll(h, rs), busy)
    ensures LiveMagics(OpenAll(h, rs).s, busy) <==> AllHonest(rs)
    ensures !AllHonest(rs) ==> exists x :: Stuck(OpenAll(h, rs).s, busy, x)
    decreases |rs|
  {
    if rs != [] {
      SidFitsExactly(h.s);
      OpenConserves(h.s, rs[0]);
      OpenKeeps(h.s, rs[0], busy);
      if rs[0].magic != 0 {
        OpenAllLiveExactly(Open(h, rs[0]), rs[1..], busy);
        assert AllHonest(rs) <==> AllHonest(rs[1..]);
      } else {
        StaysStuck(Open(h, rs[0]), rs[1..], busy, NextSid(h.s));
      }
    }
  }

  /** An id in use that no reply with a nonzero magic can complete. */
  ghost predicate Stuck(s: State, busy: set<nat>, x: nat) {
    Conserved(s) && x in s.used && x !in busy && x < |s.table| && s.table[x].magic == 0
  }

  lemma {:induction false} StaysStuck(h: Hist, rs: seq<Request>, busy: set<nat>, x: nat)
    requires Ids(h, busy) && Stuck(h.s, busy, x) && CanOpenAll(h, rs)
    ensures Ids(OpenAll(h, rs), busy) && Stuck(OpenAll(h, rs).s, busy, x)
    decreases |rs|
  {
    if rs != [] {
      SidFitsExactly(h.s);
      OpenConserves(h.s, rs[0]);
      StaysStuck(Open(h, rs[0]), rs[1..], busy, x);
    }
  }

  /** The invariant, and that magics tell live ids apart. */
  ghost predicate GoodAndLive(h: Hist) {
    Good(h, {}) && LiveMagics(h.s, {})
  }

  /** Sessions are opened with magics other than 0, and a reply that finds an entry does not carry magic 0. */
  predicate Fair(h: Hist, e: Event) {
    match e
    case OpenSession(r) => r.magic != 0
    case Reply(sid, magic, opens) => Stored(h.s, sid, magic) ==> magic != 0 && AllHonest(opens)
  }

  lemma StepLiveExactly(h: Hist, e: Event)
    requires GoodAndLive(h) && Enabled(h, e)
    ensures GoodAndLive(Step(h, e)) <==> Fair(h, e)
  {
    StepGoodExactly(h, e);
    match e
    case OpenSession(r) =>
      SidFitsExactly(h.s);
      OpenKeeps(h.s, r, {});
    case Reply(sid, magic, opens) =>
      if Stored(h.s, sid, magic) && magic != 0 {
        FindKeeps(h.s, sid, magic, {});
        var g := OpenAll(Fire(h, sid), opens);
        OpenAllLiveExactly(Fire(h, sid), opens, {} + {sid});
        if AllHonest(opens) {
          ReturnKeeps(g.s, sid, {} + {sid});
          assert {} + {sid} - {sid} == {};
        } else {
          var x :| Stuck(g.s, {} + {sid}, x);
          ReturnConservesExactly(g.s, sid);
        }
      }
  }

  ghost predicate FairUpTo(hs: seq<Hist>, es: seq<Event>, n: nat)
    requires n <= |es| < |hs|
  {
    forall i :: 0 <= i < n ==> Fair(hs[i], es[i])
  }

  lemma {:induction false} LiveUpTo(hs: seq<Hist>, es: seq<Event>, n: nat)
    requires IsRun(hs, es) && n <= |es| && FairUpTo(hs, es, n)
    ensures GoodAndLive(hs[n])
    decreases n
  {
    if n == 0 {
      StartIsGood();
    } else {
      LiveUpTo(hs, es, n - 1);
      assert Next(hs[n - 1], es[n - 1], hs[n]) && Fair(hs[n - 1], es[n - 1]);
      StepLiveExactly(hs[n - 1], es[n - 1]);
    }
  }

  lemma {:induction false} FirstUnfair(hs: seq<Hist>, es: seq<Event>, n: nat) returns (bad: nat)
    requires IsRun(hs, es) && n <= |es| && !FairUpTo(hs, es, n)
    ensures bad < |hs| && !GoodAndLive(hs[bad])
    decreases n
  {
    if FairUpTo(hs, es, n - 1) {
      LiveUpTo(hs, es, n - 1);
      assert Next(hs[n - 1], es[n - 1], hs[n]);
      StepLiveExactly(hs[n - 1], es[n - 1]);
      bad := n;
    } else {
      bad := FirstUnfair(hs, es, n - 1);
    }
  }

  /** In all states of a run the invariant holds and ids in use are exactly those with a nonzero magic, if and only
      if all its steps are fair. */
  lemma RunIsLiveExactly(hs: seq<Hist>, es: seq<Event>)
    requires IsRun(hs, es)
    ensures (forall i :: 0 <= i < |hs| ==> GoodAndLive(hs[i])) <==> FairUpTo(hs, es, |es|)
  {
    if FairUpTo(hs, es, |es|) {
      forall i | 0 <= i < |hs| ensures GoodAndLive(hs[i]) {
        LiveUpTo(hs, es, i);
      }
    } else {
      var bad := FirstUnfair(hs, es, |es|);
    }
  }

  /** With nonzero magics throughout, every state of every run satisfies the invariant. */
  lemma RunsAreGood(hs: seq<Hist>, es: seq<Event>)
    requires IsRun(hs, es) && forall e :: e in es ==> Honest(e)
    ensures forall i :: 0 <= i < |hs| ==> GoodAndLive(hs[i])
  {
    forall i | 0 <= i < |es| ensures Fair(hs[i], es[i]) {
      assert es[i] in es;
    }
    RunIsLiveExactly(hs, es);
  }

  /** So with nonzero magics throughout, at most once holds in every state of every run, over duplicated, late and
      made-up replies. */
  lemma AtMostOnce(hs: seq<Hist>, es: seq<Event>)
    requires IsRun(hs, es) && forall e :: e in es ==> Honest(e)
    ensures forall i :: 0 <= i < |hs| ==> CalledAtMostOnce(hs[i].log)
  {
    RunsAreGood(hs, es);
    RunIsGoodExactly(hs, es);
    AtMostOnceExactly(hs, es);
  }

  // ------------------------------------------------------------------ what follows for every reachable state

  /** When no session is outstanding, every session ever opened has had its callback run. */
  lemma NothingOutstanding(h: Hist)
    requires Good(h, {}) && h.s.used == []
    ensures forall j :: 0 <= j < |h.log| && h.log[j].Opened? ==> Answered(h.log, j)
  {
    forall j | 0 <= j < |h.log| && h.log[j].Opened? ensures Answered(h.log, j) {
      assert EntryLogged(h, {}, h.log[j].sid);
      if LastUnder(h.log, j) {
        LastOfAt(h.log, j);
      }
    }
  }

  /** The pool is exactly as large as the high-water mark, rounded up to whole batches. */
  lemma PoolIsHighWaterMark(h: Hist)
    requires Good(h, {})
    ensures h.s.max == 10 * ((h.high + 9) / 10)
  {
    var batches := h.s.max / GROWTH;
    assert h.s.max == GROWTH * batches;
    assert h.s.max > 0 ==> GROWTH * (batches - 1) < h.high <= GROWTH * batches;
  }

  /** The module is in state `g` once the callback of a reply has opened its first `k` sessions. */
  ghost predicate AfterOpenings(h: Hist, rs: seq<Request>, k: nat, g: Hist) {
    0 < k <= |rs| && CanOpenAll(h, rs[..k]) && g == OpenAll(h, rs[..k])
  }

  /** A step passes through state `g`, just after an opening. */
  ghost predicate Passes(h: Hist, e: Event, g: Hist) {
    && Enabled(h, e)
    && match e
       case OpenSession(r) => g == Open(h, r)
       case Reply(sid, magic, opens) =>
         Stored(h.s, sid, magic) && exists k: nat :: AfterOpenings(Fire(h, sid), opens, k, g)
  }

  lemma {:induction false} OpenAllHigh(h: Hist, rs: seq<Request>) returns (k: nat)
    requires CanOpenAll(h, rs)
    ensures h.high <= OpenAll(h, rs).high
    ensures forall i: nat, g :: AfterOpenings(h, rs, i, g) ==> |g.s.used| <= OpenAll(h, rs).high
    ensures h.high < OpenAll(h, rs).high ==>
              0 < k <= |rs| && CanOpenAll(h, rs[..k]) && |OpenAll(h, rs[..k]).s.used| == OpenAll(h, rs).high
    decreases |rs|
  {
    k := 0;
    if rs != [] {
      var next, rest := Open(h, rs[0]), rs[1..];
      k := OpenAllHigh(next, rest);
      k := k + 1;
      assert forall i :: 0 < i <= |rs| ==> rs[..i][0] == rs[0] && rs[..i][1..] == rest[..i - 1];
      forall i: nat, g | AfterOpenings(h, rs, i, g) ensures |g.s.used| <= OpenAll(h, rs).high {
        if i == 1 {
          assert g == OpenAll(next, []);
        } else {
          assert AfterOpenings(next, rest, i - 1, g);
        }
      }
      if next.high == OpenAll(next, rest).high {
        k := 1;
        assert OpenAll(h, rs[..1]) == OpenAll(next, []);
      }
    }
  }

  lemma StepHigh(h: Hist, e: Event)
    requires Enabled(h, e)
    ensures h.high <= Step(h, e).high
    ensures forall g :: Passes(h, e, g) ==> |g.s.used| <= Step(h, e).high
    ensures h.high < Step(h, e).high ==> exists g :: Passes(h, e, g) && |g.s.used| == Step(h, e).high
  {
    match e
    case OpenSession(r) =>
      assert Passes(h, e, Open(h, r));
    case Reply(sid, magic, opens) =>
      if Stored(h.s, sid, magic) {
        var k := OpenAllHigh(Fire(h, sid), opens);
        if h.high < Step(h, e).high {
          var g := OpenAll(Fire(h, sid), opens[..k]);
          assert AfterOpenings(Fire(h, sid), opens, k, g);
          assert Passes(h, e, g);
        }
      }
  }

  /** The high-water mark is the largest number of ids that were in use at once after any opening of the run, also
      one made by a callback. */
  lemma {:induction false} HighMeans(hs: seq<Hist>, es: seq<Event>, n: nat)
    requires IsRun(hs, es) && n <= |es|
    ensures forall i, g :: 0 <= i < n && Passes(hs[i], es[i], g) ==> |g.s.used| <= hs[n].high
    ensures hs[n].high > 0 ==> exists i, g :: 0 <= i < n && Passes(hs[i], es[i], g) && |g.s.used| == hs[n].high
    decreases n
  {
    if n > 0 {
      HighMeans(hs, es, n - 1);
      assert Next(hs[n - 1], es[n - 1], hs[n]);
      StepHigh(hs[n - 1], es[n - 1]);
    }
  }

  /** Opening is safe exactly while fewer than 1000 sessions are outstanding. */
  lemma OpenEnabledExactly(h: Hist, r: Request)
    requires Good(h, {})
    ensures Enabled(h, OpenSession(r)) <==> |h.s.used| < 1000
  {
    SidFitsExactly(h.s);
  }

  // ------------------------------------------------------------------ first in, first out

  /** Openings issue ids in the order of the free list, and the free list only grows at its back. */
  lemma {:induction false} OpenAllFifo(h: Hist, rs: seq<Request>)
    requires Fifo(h) && CanOpenAll(h, rs)
    ensures Fifo(OpenAll(h, rs)) && h.pushed <= OpenAll(h, rs).pushed
    decreases |rs|
  {
    if rs != [] {
      OpenFifo(h, rs[0]);
      OpenAllFifo(Open(h, rs[0]), rs[1..]);
    }
  }

  lemma StepFifo(h: Hist, e: Event)
    requires Fifo(h) && Enabled(h, e)
    ensures Fifo(Step(h, e)) && h.pushed <= Step(h, e).pushed
  {
    match e
    case OpenSession(r) => OpenFifo(h, r);
    case Reply(sid, magic, opens) =>
      if Stored(h.s, sid, magic) {
        FireFifo(h, sid);
        OpenAllFifo(Fire(h, sid), opens);
        ReturnFifo(OpenAll(Fire(h, sid), opens), sid);
      }
  }

  lemma {:induction false} RunFifo(hs: seq<Hist>, es: seq<Event>, n: nat)
    requires IsRun(hs, es) && n < |hs|
    ensures Fifo(hs[n])
    decreases n
  {
    if n > 0 {
      RunFifo(hs, es, n - 1);
      assert Next(hs[n - 1], es[n - 1], hs[n]);
      StepFifo(hs[n - 1], es[n - 1]);
    }
  }

  lemma {:induction false} RunPushes(hs: seq<Hist>, es: seq<Event>, a: nat, b: nat)
    requires IsRun(hs, es) && a <= b < |hs|
    ensures hs[a].pushed <= hs[b].pushed
    decreases b - a
  {
    if a < b {
      RunPushes(hs, es, a, b - 1);
      RunFifo(hs, es, b - 1);
      assert Next(hs[b - 1], es[b - 1], hs[b]);
      StepFifo(hs[b - 1], es[b - 1]);
    }
  }

  /** First in, first out, in every run whatever the magics: from any point on, the ids issued next are those free
      at that point, in order. So an id that has just been returned is not issued again before every id that was
      free then. */
  lemma FifoReuse(hs: seq<Hist>, es: seq<Event>, a: nat, b: nat, k: nat)
    requires IsRun(hs, es) && a <= b < |hs|
    requires k < |hs[a].s.free| && |Issued(hs[a].log)| + k < |Issued(hs[b].log)|
    ensures Issued(hs[b].log)[|Issued(hs[a].log)| + k] == hs[a].s.free[k]
  {
    RunFifo(hs, es, a);
    RunFifo(hs, es, b);
    RunPushes(hs, es, a, b);
    var p := |Issued(hs[a].log)| + k;
    assert Issued(hs[b].log)[p] == hs[b].pushed[p] == hs[a].pushed[p];
  }

  /** Why replies must not carry magic 0: after a session has been answered once, such a reply runs
      its callback again. */
  lemma ZeroMagicFiresTwice(r: Request)
    requires r.magic != 0
    ensures Enabled(Begin(), OpenSession(r))
    ensures var h := Open(Begin(), r); var e := Reply(0, r.magic, []); var z := Reply(0, 0, []);
            && Enabled(h, e) && Enabled(Step(h, e), z)
            && Step(Step(h, e), z).log
               == [Opened(0, r.magic, r.cb, r.data), Fired(0, r.magic, r.cb, r.data), Fired(0, 0, r.cb, r.data)]
  {
    assert Range(0, GROWTH)[0] == 0;
  }
}
