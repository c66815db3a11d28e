/** The event loop's slot table, and the kernel's registrations it must agree with. */
module SlotTable {
  import opened Basics

  const MAX_FD_IN_LOOP: nat := 64

  type Int32 = x: int | -0x8000_0000 <= x < 0x8000_0000
  type Positive = x: Int32 | x > 0 witness 1

  /** A handle on an event listener. */
  type Listener = nat

  /** What is remembered for a registered descriptor. */
  datatype Entry = Entry(userData: Int32, listener: Listener)

  /** An operation; `accepts` is whether the kernel is otherwise willing to register the descriptor. */
  datatype Op =
    | Add(fd: Int32, userData: Int32, listener: Listener, accepts: bool)
    | Delete(gone: Positive)
    | DeleteAll

  // ------------------------------------------------------------------ what the code does, in every state

  /** The three arrays, and the kernel's registrations: descriptor to token. */
  datatype Loop = Loop(
    fds: seq<Int32>, userData: seq<Int32>, listeners: seq<Option<Listener>>, epoll: map<Int32, nat>)

  predicate Sized(s: Loop) {
    |s.fds| == |s.userData| == |s.listeners| == MAX_FD_IN_LOOP
  }

  function Empty(): Loop {
    Loop(seq(MAX_FD_IN_LOOP, _ => 0), seq(MAX_FD_IN_LOOP, _ => 0), seq(MAX_FD_IN_LOOP, _ => None), map[])
  }

  type Slots = s: Loop | Sized(s) witness Empty()

  /** The first slot from `k` on that holds `fd`, or the number of slots. */
  function FirstFrom(fds: seq<Int32>, fd: Int32, k: nat): (slot: nat)
    requires k <= |fds|
    ensures k <= slot <= |fds| && (slot < |fds| ==> fds[slot] == fd)
    ensures forall i :: k <= i < slot ==> fds[i] != fd
    decreases |fds| - k
  {
    if k == |fds| || fds[k] == fd then k else FirstFrom(fds, fd, k + 1)
  }

  function First(fds: seq<Int32>, fd: Int32): (slot: nat)
    ensures slot <= |fds| && (slot < |fds| ==> fds[slot] == fd)
    ensures fd in fds <==> slot < |fds|
  {
    FirstFrom(fds, fd, 0)
  }

  function Freed(s: Slots, slot: nat): Slots
    requires slot < MAX_FD_IN_LOOP
  {
    s.(fds := s.fds[slot := 0], userData := s.userData[slot := 0], listeners := s.listeners[slot := None])
  }

  function Used(s: Slots, slot: nat, fd: Int32, sock: Int32, listener: Listener): Slots
    requires slot < MAX_FD_IN_LOOP
  {
    s.(fds := s.fds[slot := fd], userData := s.userData[slot := sock],
       listeners := s.listeners[slot := Some(listener)])
  }

  /** The kernel registers a descriptor that is not negative and not yet registered, if nothing else is in the way. */
  predicate Takes(epoll: map<Int32, nat>, fd: Int32, accepts: bool) {
    accepts && fd >= 0 && fd !in epoll
  }

  /** An add that finds a slot and is taken by the kernel. */
  predicate Succeeds(s: Slots, fd: Int32, accepts: bool) {
    0 in s.fds && Takes(s.epoll, fd, accepts)
  }

  function Cleared(s: Slots, slot: nat): Slots
    requires slot < MAX_FD_IN_LOOP
  {
    if s.fds[slot] > 0 then Freed(s, slot).(epoll := s.epoll - {s.fds[slot]}) else s
  }

  function ClearedTo(s: Slots, n: nat): Slots
    requires n <= MAX_FD_IN_LOOP
  {
    if n == 0 then s else Cleared(ClearedTo(s, n - 1), n - 1)
  }

  /** One operation: an add takes the first slot that looks free, and gives it back if the kernel refuses. */
  function Do(s: Slots, op: Op): Slots {
    match op
    case Add(fd, sock, listener, accepts) =>
      var slot := First(s.fds, 0);
      if slot == MAX_FD_IN_LOOP then s
      else if Takes(s.epoll, fd, accepts) then Used(s, slot, fd, sock, listener).(epoll := s.epoll[fd := slot])
      else Freed(s, slot)
    case Delete(fd) =>
      var slot := First(s.fds, fd);
      if slot == MAX_FD_IN_LOOP then s else Freed(s, slot).(epoll := s.epoll - {fd})
    case DeleteAll => ClearedTo(s, MAX_FD_IN_LOOP)
  }

  function Run(ops: seq<Op>): Slots {
    if ops == [] then Empty() else Do(Run(ops[..|ops| - 1]), ops[|ops| - 1])
  }

  // ------------------------------------------------------------------ what it is for

  type Table = map<Int32, Entry>

  /** A table of registrations admits a new positive descriptor while it has room. Descriptor 0 is no member of
      any table: it marks a free slot. */
  predicate Admits(t: Table, fd: Int32, accepts: bool) {
    accepts && fd > 0 && fd !in t && |t| < MAX_FD_IN_LOOP
  }

  function Apply(t: Table, op: Op): Table {
    match op
    case Add(fd, userData, listener, accepts) =>
      if Admits(t, fd, accepts) then t[fd := Entry(userData, listener)] else t
    case Delete(fd) => t - {fd}
    case DeleteAll => map[]
  }

  /** The descriptors that should be registered after a run, each with what was given when it was added. */
  function After(ops: seq<Op>): Table {
    if ops == [] then map[] else Apply(After(ops[..|ops| - 1]), ops[|ops| - 1])
  }

  /** Every add of descriptor 0 that the kernel would accept found the table full. */
  ghost predicate ZeroFree(ops: seq<Op>) {
    forall i :: 0 <= i < |ops| ==> !TakesZero(After(ops[..i]), ops[i])
  }

  predicate TakesZero(t: Table, op: Op) {
    op.Add? && op.fd == 0 && op.accepts && |t| < MAX_FD_IN_LOOP
  }

  // ------------------------------------------------------------------ the slots and the kernel

  /** The kernel's map is exactly the used slots, so no descriptor is in two slots. */
  ghost predicate Agree(fds: seq<Int32>, epoll: map<Int32, nat>) {
    && (forall s :: 0 <= s < |fds| && fds[s] != 0 ==> fds[s] in epoll && epoll[fds[s]] == s)
    && (forall fd :: fd in epoll ==> fd > 0 && epoll[fd] < |fds| && fds[epoll[fd]] == fd)
  }

  /** Slots and kernel agree, free slots are cleared, and used ones remember the entries of `t`. */
  ghost predicate Represents(s: Slots, t: Table) {
    && Agree(s.fds, s.epoll)
    && (forall i :: 0 <= i < MAX_FD_IN_LOOP && s.fds[i] == 0 ==> s.userData[i] == 0 && s.listeners[i] == None)
    && t.Keys == s.epoll.Keys
    && forall fd :: fd in s.epoll ==>
         s.userData[s.epoll[fd]] == t[fd].userData && s.listeners[s.epoll[fd]] == Some(t[fd].listener)
  }

  /** There are as many registrations as used slots. */
  lemma UsedCount(fds: seq<Int32>, epoll: map<Int32, nat>, used: set<nat>)
    requires Agree(fds, epoll)
    requires forall s: nat :: s in used <==> s < |fds| && fds[s] != 0
    ensures |used| == |epoll|
  {
    forall t ensures t in used <==> exists a :: a in epoll && epoll[a] == t {
      if t in used {
        assert fds[t] in epoll && epoll[fds[t]] == t;
      }
    }
    forall a, b | a in epoll && b in epoll && epoll[a] == epoll[b] ensures a == b {
      assert fds[epoll[a]] == a && fds[epoll[b]] == b;
    }
    TokensCount(epoll, used);
  }

  /** There is a free slot exactly if the kernel holds fewer registrations than there are slots. */
  lemma FreeSlotExactly(fds: seq<Int32>, epoll: map<Int32, nat>, t: Table)
    requires Agree(fds, epoll) && t.Keys == epoll.Keys
    ensures 0 in fds <==> |t| < |fds|
  {
    assert |t| == |t.Keys| == |epoll.Keys| == |epoll|;
    var all := Below(|fds|);
    var used := set s | s in all && fds[s] != 0;
    UsedCount(fds, epoll, used);
    SubsetSize(used, all);
    if s: nat :| s < |fds| && fds[s] == 0 {
      assert s in all && s !in used;
    } else {
      assert used == all;
    }
  }

  lemma {:induction false} SubsetSize<X>(a: set<X>, b: set<X>)
    requires a <= b
    ensures |a| <= |b| && (a != b ==> |a| < |b|)
    decreases a
  {
    if x :| x in a {
      SubsetSize(a - {x}, b - {x});
    }
  }

  /** The numbers below `n`, of which there are `n`. */
  ghost function Below(n: nat): (r: set<nat>)
    ensures |r| == n && forall x: nat :: x in r <==> x < n
  {
    if n == 0 then {} else Below(n - 1) + {n - 1}
  }

  /** Registrations under different tokens are as many as the tokens they use. */
  lemma {:induction false} TokensCount<K, V>(m: map<K, V>, tokens: set<V>)
    requires forall a, b :: a in m && b in m && m[a] == m[b] ==> a == b
    requires forall t :: t in tokens <==> exists a :: a in m && m[a] == t
    ensures |tokens| == |m|
    decreases |m|
  {
    if a :| a in m {
      var rest := m - {a};
      assert rest.Keys == m.Keys - {a};
      forall t ensures t in tokens - {m[a]} <==> exists b :: b in rest && rest[b] == t {
        if t in tokens - {m[a]} {
          var b :| b in m && m[b] == t;
          assert b in rest && rest[b] == t;
        }
      }
      TokensCount(rest, tokens - {m[a]});
      assert m[a] in tokens;
    } else if t :| t in tokens {
      assert false;
    }
  }

  lemma UsedRepresents(s: Slots, t: Table, slot: nat, fd: Int32, sock: Int32, listener: Listener)
    requires Represents(s, t) && slot < MAX_FD_IN_LOOP && s.fds[slot] == 0 && fd > 0 && fd !in s.epoll
    ensures Represents(Used(s, slot, fd, sock, listener).(epoll := s.epoll[fd := slot]), t[fd := Entry(sock, listener)])
  {
  }

  lemma FreedRepresents(s: Slots, t: Table, slot: nat)
    requires Represents(s, t) && slot < MAX_FD_IN_LOOP && s.fds[slot] != 0
    ensures Represents(Freed(s, slot).(epoll := s.epoll - {s.fds[slot]}), t - {s.fds[slot]})
  {
  }

  /** Giving back a slot that was free changes nothing. */
  lemma FreedAgain(s: Slots, t: Table, slot: nat)
    requires Represents(s, t) && slot < MAX_FD_IN_LOOP && s.fds[slot] == 0
    ensures Freed(s, slot) == s
  {
  }

  // ------------------------------------------------------------------ exactly when they agree

  lemma AddRepresents(s: Slots, t: Table, op: Op)
    requires Represents(s, t) && op.Add? && !TakesZero(t, op)
    ensures Represents(Do(s, op), Apply(t, op))
    ensures Succeeds(s, op.fd, op.accepts) <==> Admits(t, op.fd, op.accepts)
    ensures !Admits(t, op.fd, op.accepts) ==> Do(s, op) == s
  {
    var slot := First(s.fds, 0);
    FreeSlotExactly(s.fds, s.epoll, t);
    if slot < MAX_FD_IN_LOOP {
      if Takes(s.epoll, op.fd, op.accepts) {
        UsedRepresents(s, t, slot, op.fd, op.userData, op.listener);
      } else {
        FreedAgain(s, t, slot);
      }
    }
  }

  lemma DeleteRepresents(s: Slots, t: Table, op: Op)
    requires Represents(s, t) && op.Delete?
    ensures Represents(Do(s, op), Apply(t, op))
    ensures op.gone in s.fds <==> op.gone in t
  {
    var slot := First(s.fds, op.gone);
    if slot < MAX_FD_IN_LOOP {
      FreedRepresents(s, t, slot);
    } else {
      assert t - {op.gone} == t;
    }
  }

  lemma {:induction false} ClearedRepresents(s: Slots, t: Table, n: nat) returns (left: Table)
    requires Represents(s, t) && n <= MAX_FD_IN_LOOP
    ensures Represents(ClearedTo(s, n), left)
    ensures forall i :: 0 <= i < n ==> ClearedTo(s, n).fds[i] == 0
    decreases n
  {
    left := t;
    if n > 0 {
      var m := ClearedTo(s, n - 1);
      left := ClearedRepresents(s, t, n - 1);
      left := ClearedOne(m, left, n - 1);
    }
  }

  lemma ClearedOne(m: Slots, t: Table, slot: nat) returns (left: Table)
    requires Represents(m, t) && slot < MAX_FD_IN_LOOP
    ensures Represents(Cleared(m, slot), left) && Cleared(m, slot).fds == m.fds[slot := 0]
  {
    left := t;
    if m.fds[slot] != 0 {
      FreedRepresents(m, t, slot);
      left := t - {m.fds[slot]};
    }
  }

  lemma NoneUsed(s: Slots, t: Table)
    requires Represents(s, t) && forall i :: 0 <= i < MAX_FD_IN_LOOP ==> s.fds[i] == 0
    ensures t == map[]
  {
  }

  /** An operation keeps table and kernel in agreement, unless it takes descriptor 0. */
  lemma DoRepresents(s: Slots, t: Table, op: Op)
    requires Represents(s, t) && !TakesZero(t, op)
    ensures Represents(Do(s, op), Apply(t, op))
  {
    match op
    case Add(_, _, _, _) => AddRepresents(s, t, op);
    case Delete(_) => DeleteRepresents(s, t, op);
    case DeleteAll =>
      var left := ClearedRepresents(s, t, MAX_FD_IN_LOOP);
      NoneUsed(Do(s, op), left);
  }

  /** An accepted add of descriptor 0 while there is room registers it. */
  lemma ZeroTaken(s: Slots, t: Table, op: Op)
    requires Represents(s, t) && TakesZero(t, op)
    ensures 0 in Do(s, op).epoll
  {
    FreeSlotExactly(s.fds, s.epoll, t);
  }

  lemma {:induction false} ClearedKeepsZero(s: Slots, n: nat)
    requires 0 in s.epoll && n <= MAX_FD_IN_LOOP
    ensures 0 in ClearedTo(s, n).epoll
    decreases n
  {
    if n > 0 {
      ClearedKeepsZero(s, n - 1);
    }
  }

  /** Once registered, descriptor 0 stays. */
  lemma ZeroStays(s: Slots, op: Op)
    requires 0 in s.epoll
    ensures 0 in Do(s, op).epoll
  {
    if op.DeleteAll? {
      ClearedKeepsZero(s, MAX_FD_IN_LOOP);
    }
  }

  lemma ZeroFreeSnoc(front: seq<Op>, op: Op)
    ensures ZeroFree(front + [op]) <==> ZeroFree(front) && !TakesZero(After(front), op)
  {
    var ops := front + [op];
    assert forall i :: 0 <= i <= |front| ==> ops[..i] == front[..i];
    assert front[..|front|] == front && ops[|front|] == op;
  }

  /** After every run, slots and kernel agree if and only if no add took descriptor 0: every accepted add of it
      found the table full. Without one they represent the table of what was added and not deleted; with one the
      kernel holds descriptor 0 for good. */
  lemma {:induction false} AgreeExactly(ops: seq<Op>)
    ensures Agree(Run(ops).fds, Run(ops).epoll) <==> ZeroFree(ops)
    ensures ZeroFree(ops) ==> Represents(Run(ops), After(ops))
    ensures !ZeroFree(ops) ==> 0 in Run(ops).epoll
    decreases |ops|
  {
    if ops != [] {
      var front, op := ops[..|ops| - 1], ops[|ops| - 1];
      AgreeExactly(front);
      FrontAndLast(ops);
      ZeroFreeSnoc(front, op);
      if ZeroFree(ops) {
        DoRepresents(Run(front), After(front), op);
      } else if ZeroFree(front) {
        ZeroTaken(Run(front), After(front), op);
      } else {
        ZeroStays(Run(front), op);
      }
    }
  }

  // ------------------------------------------------------------------ what is registered

  /** The kernel has the descriptor under a slot that remembers this entry. */
  predicate Registered(s: Slots, fd: Int32, e: Entry) {
    && fd in s.epoll && s.epoll[fd] < MAX_FD_IN_LOOP
    && s.userData[s.epoll[fd]] == e.userData && s.listeners[s.epoll[fd]] == Some(e.listener)
  }

  /** No operation from `i` on removes the descriptor. */
  ghost predicate Undeleted(ops: seq<Op>, i: nat, fd: Int32) {
    forall j :: i <= j < |ops| ==> !ops[j].DeleteAll? && (ops[j].Delete? ==> ops[j].gone != fd)
  }

  /** Operation `i` added the descriptor with this entry, and nothing has removed it since. */
  ghost predicate AddedAt(ops: seq<Op>, i: nat, fd: Int32, e: Entry) {
    && i < |ops| && ops[i].Add? && ops[i].fd == fd
    && Entry(ops[i].userData, ops[i].listener) == e
    && Admits(After(ops[..i]), fd, ops[i].accepts)
    && Undeleted(ops, i, fd)
  }

  /** In a run that takes no descriptor 0, a descriptor is registered with an entry exactly if some admitted add gave
      it that entry and nothing has deleted it since. */
  lemma RegisteredExactly(ops: seq<Op>, fd: Int32, e: Entry)
    requires ZeroFree(ops)
    ensures Registered(Run(ops), fd, e) <==> exists i: nat :: AddedAt(ops, i, fd, e)
  {
    AgreeExactly(ops);
    AfterExactly(ops, fd, e);
  }

  lemma {:induction false} AfterExactly(ops: seq<Op>, fd: Int32, e: Entry)
    ensures fd in After(ops) && After(ops)[fd] == e <==> exists i: nat :: AddedAt(ops, i, fd, e)
    decreases |ops|
  {
    if ops != [] {
      var n := |ops| - 1;
      var front, op := ops[..n], ops[n];
      AfterExactly(front, fd, e);
      forall i: nat
        ensures AddedAt(ops, i, fd, e)
                <==> (i < n && AddedAt(front, i, fd, e) && !Removes(op, fd))
                     || (i == n && AddsNow(front, op, fd, e))
      {
        AddedSnoc(front, op, ops, i, fd, e);
      }
      if AddsNow(front, op, fd, e) {
        assert AddedAt(ops, n, fd, e);
      } else if fd in After(ops) && After(ops)[fd] == e {
        var i: nat :| AddedAt(front, i, fd, e);
        assert AddedAt(ops, i, fd, e);
      }
    }
  }

  predicate Removes(op: Op, fd: Int32) {
    op.DeleteAll? || (op.Delete? && op.gone == fd)
  }

  ghost predicate AddsNow(front: seq<Op>, op: Op, fd: Int32, e: Entry) {
    op.Add? && op.fd == fd && Entry(op.userData, op.listener) == e && Admits(After(front), fd, op.accepts)
  }

  lemma AddedSnoc(front: seq<Op>, op: Op, ops: seq<Op>, i: nat, fd: Int32, e: Entry)
    requires ops == front + [op]
    ensures AddedAt(ops, i, fd, e)
            <==> (i < |front| && AddedAt(front, i, fd, e) && !Removes(op, fd))
                 || (i == |front| && AddsNow(front, op, fd, e))
  {
    assert i <= |front| ==> ops[..i] == front[..i];
    assert front[..|front|] == front;
    assert ops[|front|] == op;
    assert forall j :: 0 <= j < |front| ==> ops[j] == front[j];
  }

  /** In a run that takes no descriptor 0, the kernel never holds more registrations than there are slots. */
  lemma Bounded(ops: seq<Op>)
    requires ZeroFree(ops)
    ensures |Run(ops).epoll| <= 64
  {
    AgreeExactly(ops);
    var s, t := Run(ops), After(ops);
    assert |s.epoll| == |s.epoll.Keys| == |t.Keys| == |t|;
    AfterBounded(ops);
  }

  lemma {:induction false} AfterBounded(ops: seq<Op>)
    ensures |After(ops)| <= MAX_FD_IN_LOOP
    decreases |ops|
  {
    if ops != [] {
      AfterBounded(ops[..|ops| - 1]);
      var t, op := After(ops[..|ops| - 1]), ops[|ops| - 1];
      if op.Delete? {
        assert (t - {op.gone}).Keys <= t.Keys;
        SubsetSize((t - {op.gone}).Keys, t.Keys);
      }
    }
  }

  // ------------------------------------------------------------------ what goes wrong with descriptor 0

  /** After an add that takes descriptor 0, the next descriptor gets the same slot: events on 0 go to its listener. */
  lemma ZeroMisdirected(s: Slots, t: Table, zero: Op, next: Op)
    requires Represents(s, t) && TakesZero(t, zero)
    requires next.Add? && next.fd > 0 && next.fd !in t && next.accepts
    ensures var after := Do(Do(s, zero), next);
            && 0 in after.epoll && next.fd in after.epoll && after.epoll[0] == after.epoll[next.fd] < MAX_FD_IN_LOOP
            && after.fds[after.epoll[0]] == next.fd
            && Registered(after, 0, Entry(next.userData, next.listener))
  {
    FreeSlotExactly(s.fds, s.epoll, t);
    var slot, mid := First(s.fds, 0), Do(s, zero);
    assert mid.fds[slot] == 0;
    FirstIs(mid.fds, 0, slot);
  }

  lemma FirstIs(fds: seq<Int32>, fd: Int32, slot: nat)
    requires slot < |fds| && fds[slot] == fd && forall i :: 0 <= i < slot ==> fds[i] != fd
    ensures First(fds, fd) == slot
  {
  }

  /** Descriptor 0, and then the next ones. */
  function Filling(k: nat): seq<Op>
    requires k < 0x8000_0000
  {
    if k == 0 then [Add(0, 0, 0, true)] else Filling(k - 1) + [Add(k, 0, 0, true)]
  }

  /** Descriptors 0 to `k` are registered, and slot `i` holds descriptor `i + 1`. */
  ghost predicate Filled(s: Slots, k: nat) {
    && |s.epoll| == k + 1 && (forall fd :: fd in s.epoll ==> fd <= k)
    && forall i: nat :: i < MAX_FD_IN_LOOP ==> s.fds[i] == if i < k then i + 1 else 0
  }

  lemma FillStep(s: Slots, k: nat)
    requires 0 < k <= MAX_FD_IN_LOOP && Filled(s, k - 1)
    ensures Filled(Do(s, Add(k, 0, 0, true)), k)
  {
    FirstIs(s.fds, 0, k - 1);
    var after := Do(s, Add(k, 0, 0, true));
    assert after.fds == s.fds[k - 1 := k] && after.epoll == s.epoll[k := k - 1];
    assert |after.epoll| == |s.epoll| + 1;
  }

  lemma {:induction false} Fills(k: nat)
    requires k <= MAX_FD_IN_LOOP
    ensures Filled(Run(Filling(k)), k)
    decreases k
  {
    if k == 0 {
      assert Filling(0)[..0] == [];
      FirstIs(Run([]).fds, 0, 0);
    } else {
      Fills(k - 1);
      FillStep(Run(Filling(k - 1)), k);
      assert Filling(k)[..|Filling(k)| - 1] == Filling(k - 1);
    }
  }

  /** So the kernel can hold more registrations than there are slots: with `k` up to 64, one more. */
  lemma Overfull(k: nat)
    requires k <= 64
    ensures |Run(Filling(k)).epoll| == k + 1
  {
    Fills(k);
  }

  // ------------------------------------------------------------------ the event loop

  /** A call of a listener. */
  datatype Notice = Notice(fd: Int32, entry: Entry)

  predicate IsFirstFree(fds: seq<Int32>, slot: nat) {
    slot < |fds| == 64 && fds[slot] == 0 && forall i :: 0 <= i < slot ==> fds[i] != 0
  }

  lemma FirstIsFirst(fds: seq<Int32>, slot: nat)
    requires slot == First(fds, 0) < |fds| == 64
    ensures IsFirstFree(fds, slot)
  {
  }

  class EventLoop {
    const fds: array<Int32>
    const userData: array<Int32>
    const listeners: array<Option<Listener>>
    /** The kernel's registrations. */
    var epoll: map<Int32, nat>
    ghost var past: seq<Op>

    ghost predicate Shape() {
      fds.Length == userData.Length == listeners.Length == MAX_FD_IN_LOOP && fds != userData
    }

    ghost function Now(): Slots
      requires Shape()
      reads this, fds, userData, listeners
    {
      Loop(fds[..], userData[..], listeners[..], epoll)
    }

    /** Arrays and kernel are in the state the operations so far lead to. */
    ghost predicate Valid()
      reads this, fds, userData, listeners
    {
      Shape() && Now() == Run(past)
    }

    constructor ()
      ensures Valid() && past == []
    {
      fds := new Int32[MAX_FD_IN_LOOP](_ => 0);
      userData := new Int32[MAX_FD_IN_LOOP](_ => 0);
      listeners := new Option<Listener>[MAX_FD_IN_LOOP](_ => None);
      epoll, past := map[], [];
      new;
      assert fds[..] == Empty().fds && userData[..] == Empty().userData && listeners[..] == Empty().listeners;
    }

    method FreeSlot(slot: nat)
      requires Shape() && slot < MAX_FD_IN_LOOP
      modifies fds, userData, listeners
      ensures Now() == Freed(old(Now()), slot)
    {
      fds[slot] := 0;
      userData[slot] := 0;
      listeners[slot] := None;
    }

    method UseSlot(slot: nat, fd: Int32, sock: Int32, listener: Listener)
      requires Shape() && slot < MAX_FD_IN_LOOP
      modifies fds, userData, listeners
      ensures Now() == Used(old(Now()), slot, fd, sock, listener)
    {
      fds[slot] := fd;
      userData[slot] := sock;
      listeners[slot] := Some(listener);
    }

    /** The kernel is asked to register a descriptor with its slot as token. */
    method AddToEventLoop(fd: Int32, slot: nat, accepts: bool) returns (rc: int)
      modifies this`epoll
      ensures rc == if Takes(old(epoll), fd, accepts) then 0 else -1
      ensures epoll == if rc == 0 then old(epoll)[fd := slot] else old(epoll)
    {
      if Takes(epoll, fd, accepts) {
        epoll := epoll[fd := slot];
        return 0;
      }
      return -1;
    }

    /** The kernel removes a registration; there may be none. */
    method DeleteFromEventLoop2(fd: Int32) returns (rc: int)
      requires fd > 0
      modifies this`epoll
      ensures rc == if fd in old(epoll) then 0 else -1
      ensures epoll == old(epoll) - {fd}
    {
      rc := if fd in epoll then 0 else -1;
      epoll := epoll - {fd};
    }

    /** The first slot that holds `fd`, or the number of slots if none does. */
    method FirstSlot(fd: Int32) returns (slot: nat)
      requires Shape()
      ensures slot == First(fds[..], fd)
    {
      slot := 0;
      while slot < MAX_FD_IN_LOOP && fds[slot] != fd
        invariant slot <= MAX_FD_IN_LOOP && FirstFrom(fds[..], fd, slot) == First(fds[..], fd)
      {
        slot := slot + 1;
      }
    }

    /** Takes a free slot for a descriptor, and gives it back if the kernel refuses. */
    method TakeSlot(slot: nat, fd: Int32, sock: Int32, listener: Listener, accepts: bool) returns (rc: int)
      requires Shape() && slot < MAX_FD_IN_LOOP
      modifies this`epoll, fds, userData, listeners
      ensures rc == if Takes(old(epoll), fd, accepts) then 0 else -1
      ensures Now() == if rc == 0 then Used(old(Now()), slot, fd, sock, listener).(epoll := old(epoll)[fd := slot])
                       else Freed(old(Now()), slot)
    {
      ghost var s := Now();
      UseSlot(slot, fd, sock, listener);
      rc := AddToEventLoop(fd, slot, accepts);
      if rc != 0 {
        FreeSlot(slot);
        assert Freed(Used(s, slot, fd, sock, listener), slot) == Freed(s, slot);
      }
    }

    /** The search for a slot that looks free, and what is done with it. */
    method TakeFirstSlot(fd: Int32, sock: Int32, listener: Listener, accepts: bool) returns (rc: int)
      requires Shape()
      modifies this`epoll, fds, userData, listeners
      ensures Now() == Do(old(Now()), Add(fd, sock, listener, accepts))
      ensures rc == if Succeeds(old(Now()), fd, accepts) then 0 else -1
      ensures rc == 0 ==>
                fd in epoll && IsFirstFree(old(fds[..]), epoll[fd]) && fds[epoll[fd]] == fd
    {
      rc := -1;
      var slot := FirstSlot(0);
      if slot < MAX_FD_IN_LOOP {
        FirstIsFirst(fds[..], slot);
        rc := TakeSlot(slot, fd, sock, listener, accepts);
      }
    }

    /** Registers a descriptor in the first slot that looks free, in every state. While no descriptor 0 was taken,
        it succeeds exactly if the kernel accepts and a slot is free, and a refused add changes nothing; the add
        itself keeps table and kernel in agreement exactly unless it takes descriptor 0. */
    method AddFd(fd: Int32, sock: Int32, listener: Listener, accepts: bool) returns (rc: int)
      requires Valid()
      modifies this, fds, userData, listeners
      ensures Valid() && past == old(past) + [Add(fd, sock, listener, accepts)]
      ensures rc == if Succeeds(old(Now()), fd, accepts) then 0 else -1
      ensures rc == 0 ==>
                fd in epoll && IsFirstFree(old(fds[..]), epoll[fd]) && fds[epoll[fd]] == fd
      ensures ZeroFree(old(past)) ==>
                var t := After(old(past));
                && rc == (if accepts && fd >= 0 && fd !in t && |t| < 64 then 0 else -1)
                && (rc != 0 ==> Now() == old(Now()))
                && (ZeroFree(past) <==> fd != 0 || !accepts || |t| == 64)
    {
      ghost var op := Add(fd, sock, listener, accepts);
      AddSays(past, op);
      rc := TakeFirstSlot(fd, sock, listener, accepts);
      past := past + [op];
      assert past[..|past| - 1] == old(past);
    }

    /** Removes a descriptor; the result says whether a slot held it. */
    method DeleteFromEventLoop(fd: Int32) returns (rc: int)
      requires Valid() && fd > 0
      modifies this, fds, userData, listeners
      ensures Valid() && past == old(past) + [Delete(fd)]
      ensures rc == if fd in old(Now()).fds then 0 else -1
      ensures ZeroFree(old(past)) ==> rc == if fd in After(old(past)) then 0 else -1
    {
      ghost var s, op := Now(), Delete(fd);
      DeleteSays(past, op);
      var slot := FirstSlot(fd);
      rc := -1;
      if slot < MAX_FD_IN_LOOP {
        FreeSlot(slot);
        var _ := DeleteFromEventLoop2(fd);
        rc := 0;
      }
      assert Now() == Do(s, op);
      past := past + [op];
      assert past[..|past| - 1] == old(past);
    }

    /** Removes every positive descriptor a slot holds. */
    method DeleteAllFds()
      requires Valid()
      modifies this, fds, userData, listeners
      ensures Valid() && past == old(past) + [DeleteAll]
      ensures ZeroFree(old(past)) ==> epoll == map[] && forall i :: 0 <= i < MAX_FD_IN_LOOP ==> fds[i] == 0
    {
      ghost var s := Now();
      for slot := 0 to MAX_FD_IN_LOOP
        invariant past == old(past) && Now() == ClearedTo(s, slot)
      {
        var fd := fds[slot];
        assert Now().fds[slot] == fd;
        if fd > 0 {
          FreeSlot(slot);
          var _ := DeleteFromEventLoop2(fd);
        }
      }
      past := past + [DeleteAll];
      assert past[..|past| - 1] == old(past);
      if ZeroFree(old(past)) {
        DeleteAllSays(old(past));
        assert forall i :: 0 <= i < MAX_FD_IN_LOOP ==> fds[i] == Now().fds[i];
      }
    }

    /** One batch of events: each ready descriptor is reported by the kernel with its token, and what that slot
        remembers is used. While no descriptor 0 was taken, that is the descriptor itself, with the listener and user
        data given when it was added. */
    method Dispatch(ready: seq<Int32>) returns (calls: seq<Notice>)
      requires Valid()
      requires forall i :: 0 <= i < |ready| ==> exists e :: Registered(Now(), ready[i], e)
      ensures |calls| == |ready|
      ensures forall i :: 0 <= i < |ready| ==>
                Registered(Now(), ready[i], calls[i].entry) && calls[i].fd == Now().fds[epoll[ready[i]]]
      ensures ZeroFree(past) ==>
                forall i :: 0 <= i < |ready| ==>
                  ready[i] in After(past) && calls[i] == Notice(ready[i], After(past)[ready[i]])
    {
      calls := [];
      for i := 0 to |ready|
        invariant |calls| == i
        invariant forall j :: 0 <= j < i ==>
                    Registered(Now(), ready[j], calls[j].entry) && calls[j].fd == Now().fds[epoll[ready[j]]]
      {
        var slot := epoll[ready[i]];
        calls := calls + [Notice(fds[slot], Entry(userData[slot], listeners[slot].value))];
      }
      AgreeExactly(past);
    }
  }

  lemma AddSays(ops: seq<Op>, op: Op)
    requires op.Add?
    ensures ZeroFree(ops) ==>
              var s, t := Run(ops), After(ops);
              && (Succeeds(s, op.fd, op.accepts) <==> op.accepts && op.fd >= 0 && op.fd !in t && |t| < 64)
              && (!Succeeds(s, op.fd, op.accepts) ==> Do(s, op) == s)
              && (ZeroFree(ops + [op]) <==> op.fd != 0 || !op.accepts || |t| == 64)
  {
    if ZeroFree(ops) {
      var s, t := Run(ops), After(ops);
      AgreeExactly(ops);
      AfterBounded(ops);
      ZeroFreeSnoc(ops, op);
      FreeSlotExactly(s.fds, s.epoll, t);
      if !TakesZero(t, op) {
        AddRepresents(s, t, op);
        var slot := First(s.fds, 0);
        if slot < MAX_FD_IN_LOOP {
          FreedAgain(s, t, slot);
        }
      }
    }
  }

  lemma DeleteSays(ops: seq<Op>, op: Op)
    requires op.Delete?
    ensures ZeroFree(ops) ==> (op.gone in Run(ops).fds <==> op.gone in After(ops))
  {
    if ZeroFree(ops) {
      AgreeExactly(ops);
      DeleteRepresents(Run(ops), After(ops), op);
    }
  }

  lemma DeleteAllSays(ops: seq<Op>)
    requires ZeroFree(ops)
    ensures var s := Do(Run(ops), DeleteAll);
            s.epoll == map[] && forall i :: 0 <= i < MAX_FD_IN_LOOP ==> s.fds[i] == 0
  {
    AgreeExactly(ops);
    var left := ClearedRepresents(Run(ops), After(ops), MAX_FD_IN_LOOP);
    NoneUsed(Do(Run(ops), DeleteAll), left);
  }
}
