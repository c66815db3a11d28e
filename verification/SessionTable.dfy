/** The session module as it runs: global lists and a table updated in place. */
module SessionTable {
  import opened Sessions
  import opened History

  class SessionTable {
    var inited: bool
    var freeList: seq<nat>
    var usedList: seq<nat>
    var currentMaxSid: nat
    var obSessions: array<Entry>
    /** The state together with everything that happened so far. */
    ghost var past: Hist

    ghost function Now(): State
      reads this, obSessions
    {
      State(freeList, usedList, currentMaxSid, if inited then obSessions[..] else Start().table)
    }

    ghost predicate Valid()
      reads this, obSessions
    {
      && past.s == Now()
      && (inited ==> obSessions.Length == TABLE_SIZE)
      && (!inited ==> freeList == [] && usedList == [] && currentMaxSid == 0)
    }

    constructor ()
      ensures Valid() && past == Begin() && fresh(obSessions)
    {
      inited, freeList, usedList, currentMaxSid := false, [], [], 0;
      obSessions := new Entry[0];
      past := Begin();
    }

    /** Adds a batch of new ids to the free list. */
    method CreateFreeSids()
      modifies this`freeList, this`currentMaxSid
      ensures Now() == Sessions.CreateFreeSids(old(Now()))
      ensures var m := old(currentMaxSid);
              && currentMaxSid == m + 10
              && freeList == old(freeList) + [m, m + 1, m + 2, m + 3, m + 4, m + 5, m + 6, m + 7, m + 8, m + 9]
    {
      var newMaxSid := currentMaxSid + GROWTH;
      var nextSid := currentMaxSid;
      while nextSid < newMaxSid
        invariant currentMaxSid == old(currentMaxSid) <= nextSid <= newMaxSid
        invariant freeList == old(freeList) + Range(currentMaxSid, nextSid)
      {
        freeList := freeList + [nextSid];
        nextSid := nextSid + 1;
      }
      currentMaxSid := newMaxSid;
    }

    /** Takes the first free id, making more when there is none. */
    method FindFreeSid() returns (sid: nat)
      modifies this`freeList, this`usedList, this`currentMaxSid
      ensures sid == NextSid(old(Now())) && Now() == Sessions.FindFreeSid(old(Now()))
    {
      if |freeList| <= 0 {
        CreateFreeSids();
      }
      sid := freeList[0];
      freeList := freeList[1..];
      usedList := usedList + [sid];
    }

    method ReturnSid(sid: nat)
      requires Valid() && inited
      modifies this`usedList, this`freeList, this`past
      ensures Valid() && obSessions == old(obSessions)
      ensures past == Return(old(past), sid)
    {
      usedList := Remove(usedList, sid);
      freeList := freeList + [sid];
      past := Return(past, sid);
    }

    /** Opens a session; the first call sets the tables up. */
    method MakeNewSession(data: nat, magic: nat, cb: nat) returns (sid: nat)
      requires Valid() && NextSid(Now()) < TABLE_SIZE
      modifies this, obSessions
      ensures Valid() && inited && (obSessions == old(obSessions) || fresh(obSessions))
      ensures sid == NextSid(old(Now())) && past == Open(old(past), Request(magic, cb, data))
      ensures obSessions.Length == 1000 && sid < 1000 && obSessions[sid].sid == sid && obSessions[sid].magic == magic
      ensures obSessions[sid].cb == cb && obSessions[sid].data == data
    {
      if !inited {
        freeList, usedList := [], [];
        obSessions := new Entry[TABLE_SIZE](_ => BLANK);
        inited := true;
        assert obSessions[..] == Start().table;
      }
      assert Now() == old(Now());
      sid := FindFreeSid();
      obSessions[sid] := Entry(sid, magic, cb, data);
      past := Open(past, Request(magic, cb, data));
    }

    /** Looks a reply's session up and, if the magic fits, hands out a copy and invalidates it. */
    method FindStoredSession(sid: nat, magic: nat) returns (rc: int, session: Entry)
      requires Valid() && inited && sid < obSessions.Length
      modifies this`past, obSessions
      ensures Valid() && (rc == 0 <==> Stored(old(Now()), sid, magic))
      ensures rc == 0 ==> session == old(obSessions[sid]) && past == Fire(old(past), sid)
      ensures rc != 0 ==> rc == -2 && past == old(past)
    {
      session := obSessions[sid];
      if session.magic != magic {
        return -2, session;
      }
      obSessions[sid] := session.(magic := 0);
      past := Fire(past, sid);
      rc := 0;
      assert obSessions[..] == old(obSessions[..])[sid := session.(magic := 0)];
    }

    /** What a callback may do while it runs: open further sessions. */
    method RunCallback(opens: seq<Request>)
      requires Valid() && inited && CanOpenAll(past, opens)
      modifies this, obSessions
      ensures Valid() && inited && (obSessions == old(obSessions) || fresh(obSessions))
      ensures past == OpenAll(old(past), opens)
    {
      var rest := opens;
      while rest != []
        invariant Valid() && inited && (obSessions == old(obSessions) || fresh(obSessions))
        invariant CanOpenAll(past, rest) && OpenAll(past, rest) == OpenAll(old(past), opens)
        decreases |rest|
      {
        var _ := MakeNewSession(rest[0].data, rest[0].magic, rest[0].cb);
        rest := rest[1..];
      }
    }

    /** A standard reply: runs the callback of its session, if it has one, and returns the id. */
    method HandleStdReply(sid: nat, magic: nat, opens: seq<Request>) returns (ran: bool, session: Entry)
      requires Valid() && inited && Enabled(past, Reply(sid, magic, opens))
      modifies this, obSessions
      ensures Valid() && inited && past == Step(old(past), Reply(sid, magic, opens))
      ensures obSessions == old(obSessions) || fresh(obSessions)
      ensures ran == Stored(old(Now()), sid, magic)
      ensures ran ==> session == old(obSessions[sid]) && session.magic == magic
    {
      var rc;
      rc, session := FindStoredSession(sid, magic);
      ran := rc == 0;
      if ran {
        RunCallback(opens);
        ReturnSid(sid);
      }
    }
  }
}
