/** Outbound sessions: the pool of session ids and the table of pending callbacks. */
module Sessions {

  const TABLE_SIZE: nat := 1000
  const GROWTH: nat := 10

  /** What a caller asks for when it opens a session. Callbacks and their data are opaque. */
  datatype Request = Request(magic: nat, cb: nat, data: nat)

  /** A stored session. A magic of 0 marks an entry that no reply may use any more. */
  datatype Entry = Entry(sid: nat, magic: nat, cb: nat, data: nat)

  const BLANK := Entry(0, 0, 0, 0)

  /** The module's global state: free ids (used from the front), ids in use, number of ids made. */
  datatype State = State(free: seq<nat>, used: seq<nat>, max: nat, table: seq<Entry>)

  /** Before the first session: nothing made, and a table of blank entries. */
  function Start(): State {
    State([], [], 0, seq(TABLE_SIZE, _ => BLANK))
  }

  // ------------------------------------------------------------------ what each function does to the state

  function Range(lo: nat, hi: nat): (r: seq<nat>)
    requires lo <= hi
  {
    seq(hi - lo, i requires 0 <= i => lo + i)
  }

  function CreateFreeSids(s: State): State {
    s.(free := s.free + Range(s.max, s.max + GROWTH), max := s.max + GROWTH)
  }

  /** The ids the next session can choose from: a fresh batch when none is free. */
  function Stocked(s: State): (t: State)
    ensures t.free != []
  {
    if s.free == [] then
      assert |Range(s.max, s.max + GROWTH)| == GROWTH;
      CreateFreeSids(s)
    else s
  }

  function NextSid(s: State): nat {
    Stocked(s).free[0]
  }

  function FindFreeSid(s: State): State {
    var t := Stocked(s);
    t.(free := t.free[1..], used := t.used + [t.free[0]])
  }

  /** Opening a session writes its table entry; the id must index the table. */
  function MakeNewSession(s: State, r: Request): State
    requires NextSid(s) < |s.table|
  {
    var sid := NextSid(s);
    FindFreeSid(s).(table := s.table[sid := Entry(sid, r.magic, r.cb, r.data)])
  }

  /** All occurrences of `x` taken out. */
  function Remove(l: seq<nat>, x: nat): seq<nat> {
    if l == [] then []
    else if l[0] == x then Remove(l[1..], x)
    else [l[0]] + Remove(l[1..], x)
  }

  function ReturnSid(s: State, sid: nat): State {
    s.(used := Remove(s.used, sid), free := s.free + [sid])
  }

  predicate Stored(s: State, sid: nat, magic: nat) {
    sid < |s.table| && s.table[sid].magic == magic
  }

  function Invalidate(s: State, sid: nat): State
    requires sid < |s.table|
  {
    s.(table := s.table[sid := s.table[sid].(magic := 0)])
  }

  // ------------------------------------------------------------------ the invariant

  ghost predicate NoDup(l: seq<nat>) {
    forall i, j :: 0 <= i < j < |l| ==> l[i] != l[j]
  }

  /** Session ids are conserved: free and used are disjoint and together are exactly the ids made,
      each once, and the ids made come in whole batches that fit the table. */
  ghost predicate Conserved(s: State) {
    && NoDup(s.free) && NoDup(s.used)
    && (forall x :: x in s.free ==> x !in s.used)
    && (forall x: nat :: x < s.max <==> x in s.free || x in s.used)
    && |s.free| + |s.used| == s.max
    && s.max % GROWTH == 0
    && s.max <= |s.table| == TABLE_SIZE
  }

  /** A session is live when its id is in use, except while its own callback (`busy`) is running. */
  ghost predicate LiveMagics(s: State, busy: set<nat>) {
    forall sid :: 0 <= sid < |s.table| ==> (s.table[sid].magic != 0 <==> sid in s.used && sid !in busy)
  }

  lemma StartIsGood()
    ensures Conserved(Start()) && LiveMagics(Start(), {})
  {
  }

  lemma RangeMembers(lo: nat, hi: nat)
    requires lo <= hi
    ensures NoDup(Range(lo, hi)) && forall x :: x in Range(lo, hi) <==> lo <= x < hi
  {
    forall x | lo <= x < hi ensures x in Range(lo, hi) {
      assert Range(lo, hi)[x - lo] == x;
    }
  }

  lemma StockedConserves(s: State)
    requires Conserved(s) && |s.used| < TABLE_SIZE
    ensures Conserved(Stocked(s)) && Stocked(s).used == s.used && Stocked(s).table == s.table
  {
    if s.free == [] {
      RangeMembers(s.max, s.max + GROWTH);
      assert s.free + Range(s.max, s.max + GROWTH) == Range(s.max, s.max + GROWTH);
    }
  }

  /** The id handed out next indexes the table of 1000 entries exactly while fewer than 1000 sessions are
      outstanding. */
  lemma SidFitsExactly(s: State)
    requires Conserved(s)
    ensures NextSid(s) < 1000 <==> |s.used| < 1000
  {
    if |s.used| < TABLE_SIZE {
      StockedConserves(s);
      assert Stocked(s).free[0] in Stocked(s).free;
    } else {
      assert s.free == [];
      assert Range(s.max, s.max + GROWTH)[0] == s.max;
    }
  }

  lemma FrontNotLater(l: seq<nat>)
    requires NoDup(l) && l != []
    ensures NoDup(l[1..]) && l[0] !in l[1..]
    ensures forall x :: x in l <==> x == l[0] || x in l[1..]
  {
    assert l == [l[0]] + l[1..];
  }

  lemma AddedLast(l: seq<nat>, x: nat)
    requires NoDup(l) && x !in l
    ensures NoDup(l + [x])
    ensures forall y :: y in l + [x] <==> y in l || y == x
  {
  }

  lemma {:induction false} Removed(l: seq<nat>, x: nat)
    requires NoDup(l)
    ensures forall y :: y in Remove(l, x) <==> y in l && y != x
    ensures NoDup(Remove(l, x)) && |Remove(l, x)| == if x in l then |l| - 1 else |l|
  {
    if l != [] {
      FrontNotLater(l);
      Removed(l[1..], x);
    }
  }

  /** Opening a session takes an id that is not in use and keeps the ids conserved. */
  lemma OpenConserves(s: State, r: Request)
    requires Conserved(s) && |s.used| < TABLE_SIZE
    ensures NextSid(s) < |s.table| && NextSid(s) !in s.used
    ensures Conserved(MakeNewSession(s, r)) && MakeNewSession(s, r).used == s.used + [NextSid(s)]
  {
    SidFitsExactly(s);
    StockedConserves(s);
    var t, sid := Stocked(s), NextSid(s);
    assert sid in t.free;
    FrontNotLater(t.free);
    AddedLast(t.used, sid);
  }

  /** The new session is live exactly when its magic is not 0; no session was live under its id. */
  lemma OpenKeeps(s: State, r: Request, busy: set<nat>)
    requires Conserved(s) && LiveMagics(s, busy) && |s.used| < TABLE_SIZE
    requires forall b :: b in busy ==> b in s.used
    ensures NextSid(s) < |s.table| && s.table[NextSid(s)].magic == 0
    ensures LiveMagics(MakeNewSession(s, r), busy) <==> r.magic != 0
  {
    OpenConserves(s, r);
    assert MakeNewSession(s, r).table[NextSid(s)].magic == r.magic;
  }

  /** Returning an id conserves the ids exactly if it is in use; any other would be free twice. */
  lemma ReturnConservesExactly(s: State, sid: nat)
    requires Conserved(s)
    ensures Conserved(ReturnSid(s, sid)) <==> sid in s.used
    ensures forall x :: x in ReturnSid(s, sid).used <==> x in s.used && x != sid
  {
    Removed(s.used, sid);
    if sid in s.used {
      AddedLast(s.free, sid);
    }
  }

  /** Returning an id in use makes it the last free one and keeps the ids conserved. */
  lemma ReturnKeeps(s: State, sid: nat, busy: set<nat>)
    requires Conserved(s) && LiveMagics(s, busy) && sid in busy && sid in s.used
    ensures Conserved(ReturnSid(s, sid)) && LiveMagics(ReturnSid(s, sid), busy - {sid})
    ensures |ReturnSid(s, sid).used| == |s.used| - 1
  {
    ReturnConservesExactly(s, sid);
    Removed(s.used, sid);
  }

  /** A reply with a nonzero magic finds its session exactly when the session with that id is live
      and was opened with that magic; from then on the id is busy. */
  lemma FindKeeps(s: State, sid: nat, magic: nat, busy: set<nat>)
    requires Conserved(s) && LiveMagics(s, busy) && magic != 0 && Stored(s, sid, magic)
    ensures sid in s.used && sid !in busy
    ensures Conserved(Invalidate(s, sid)) && LiveMagics(Invalidate(s, sid), busy + {sid})
  {
  }

  /** Magic 0 is not a secret: a reply carrying it finds an entry exactly when no session is
      outstanding under its id. */
  lemma ZeroMagicFindsIdle(s: State, sid: nat)
    requires LiveMagics(s, {}) && sid < |s.table|
    ensures Stored(s, sid, 0) <==> sid !in s.used
  {
  }
}
