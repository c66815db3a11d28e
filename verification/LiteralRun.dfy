/** A whole connection with the listener's base as it is written: exactly which reads it serves right. */
module LiteralRun {
  import opened Basics
  import opened Frames
  import opened RxBuffer

  // ------------------------------------------------------------------ a run of reads

  function Total(sizes: seq<nat>): nat {
    if sizes == [] then 0 else Total(sizes[..|sizes| - 1]) + sizes[|sizes| - 1]
  }

  function Sizes(chunks: seq<Bytes>): (sizes: seq<nat>)
    ensures |sizes| == |chunks| && forall i :: 0 <= i < |chunks| ==> sizes[i] == |chunks[i]|
  {
    seq(|chunks|, i requires 0 <= i < |chunks| => |chunks[i]|)
  }

  function Received(chunks: seq<Bytes>): nat {
    if chunks == [] then 0 else Received(chunks[..|chunks| - 1]) + |chunks[|chunks| - 1]|
  }

  /** The buffer with the memory behind it, how much is kept at its start, and the frames consumed so far. */
  datatype Memory = Memory(bytes: Bytes, left: nat, frames: seq<Frame>)

  /** The memory once a chunk is stored behind the kept bytes. */
  function Stored(m: Memory, chunk: Bytes): Bytes
    requires m.left + |chunk| <= |m.bytes|
  {
    m.bytes[..m.left] + chunk + m.bytes[m.left + |chunk|..]
  }

  /** One read: the chunk is stored, the listener is shown as many bytes from there on as are there in all, and what
      it leaves is moved to the start. */
  ghost function LiteralRead(m: Memory, chunk: Bytes): (after: Memory)
    requires 2 * (m.left + |chunk|) <= |m.bytes|
    ensures |after.bytes| == |m.bytes| && after.left <= m.left + |chunk|
  {
    var stored := Stored(m, chunk);
    var did := Outcome(stored, m.left, m.left + |chunk|);
    Memory(did.kept + stored[|did.kept|..], |did.kept|, m.frames + did.frames)
  }

  ghost function Literal(bytes: Bytes, chunks: seq<Bytes>): (m: Memory)
    requires 2 * Received(chunks) <= |bytes|
    ensures |m.bytes| == |bytes| && m.left <= Received(chunks)
  {
    if chunks == [] then Memory(bytes, 0, [])
    else LiteralRead(Literal(bytes, chunks[..|chunks| - 1]), chunks[|chunks| - 1])
  }

  /** The frames consumed and the bytes kept are those they should be. */
  ghost predicate RightSoFar(bytes: Bytes, chunks: seq<Bytes>)
    requires 2 * Received(chunks) <= |bytes|
  {
    var m := Literal(bytes, chunks);
    Feed(m.frames, m.bytes[..m.left]) == FeedAll([], chunks)
  }

  /** So they are after every read. */
  ghost predicate ServedRight(bytes: Bytes, chunks: seq<Bytes>)
    requires 2 * Received(chunks) <= |bytes|
    decreases |chunks|
  {
    RightSoFar(bytes, chunks) && (chunks == [] || ServedRight(bytes, chunks[..|chunks| - 1]))
  }

  /** Nothing arrives before the last read, or too little to hold a header arrives in all. */
  predicate Harmless(sizes: seq<nat>) {
    sizes == [] || Total(sizes[..|sizes| - 1]) == 0 || Total(sizes) < HDR
  }

  // ------------------------------------------------------------------ harmless runs

  lemma FeedSnoc(front: seq<Bytes>, chunk: Bytes)
    ensures var before := FeedAll([], front); var cut := Parse(before.kept + chunk);
            FeedAll([], front + [chunk]) == Feed(before.frames + cut.frames, cut.rest)
  {
    FeedAppend([], front, [chunk]);
    FeedOne(FeedAll([], front).kept, chunk);
  }

  lemma {:induction false} ReceivedIsTotal(chunks: seq<Bytes>)
    ensures Received(chunks) == Total(Sizes(chunks))
    decreases |chunks|
  {
    if chunks != [] {
      var front := chunks[..|chunks| - 1];
      ReceivedIsTotal(front);
      assert Sizes(chunks)[..|chunks| - 1] == Sizes(front);
    }
  }

  lemma StoredFront(m: Memory, chunk: Bytes)
    requires m.left + |chunk| <= |m.bytes|
    ensures |Stored(m, chunk)| == |m.bytes| && Stored(m, chunk)[..m.left + |chunk|] == m.bytes[..m.left] + chunk
  {
  }

  lemma FrontOf(a: Bytes, b: Bytes)
    ensures (a + b)[..|a|] == a
  {
  }

  /** A read with a base that is right does what it should. */
  lemma RightRead(m: Memory, chunk: Bytes)
    requires 2 * (m.left + |chunk|) <= |m.bytes| && BaseIsRight(m.left, m.left + |chunk|)
    ensures var after, cut := LiteralRead(m, chunk), Parse(m.bytes[..m.left] + chunk);
            after.frames == m.frames + cut.frames && after.bytes[..after.left] == cut.rest
  {
    var all := m.bytes[..m.left] + chunk;
    RightStored(m, chunk, all);
    ReadIs(m, chunk, Feed(Parse(all).frames, Parse(all).rest), |all|);
  }

  lemma RightStored(m: Memory, chunk: Bytes, all: Bytes)
    requires 2 * (m.left + |chunk|) <= |m.bytes| && BaseIsRight(m.left, m.left + |chunk|)
    requires all == m.bytes[..m.left] + chunk
    ensures Outcome(Stored(m, chunk), m.left, |all|) == Feed(Parse(all).frames, Parse(all).rest)
  {
    StoredFront(m, chunk);
    RightOutcome(Stored(m, chunk), m.left, |all|);
  }

  lemma ReadIs(m: Memory, chunk: Bytes, did: Feed, total: nat)
    requires total == m.left + |chunk| && 2 * total <= |m.bytes| && Outcome(Stored(m, chunk), m.left, total) == did
    ensures var after := LiteralRead(m, chunk);
            after.frames == m.frames + did.frames && after.bytes[..after.left] == did.kept
  {
    FrontOf(did.kept, Stored(m, chunk)[|did.kept|..]);
  }

  lemma {:induction false} HarmlessRuns(bytes: Bytes, chunks: seq<Bytes>)
    requires 2 * Received(chunks) <= |bytes| && Harmless(Sizes(chunks))
    ensures ServedRight(bytes, chunks)
    decreases |chunks|
  {
    if chunks != [] {
      var front, chunk := chunks[..|chunks| - 1], chunks[|chunks| - 1];
      assert Sizes(chunks)[..|front|] == Sizes(front);
      ReceivedIsTotal(chunks);
      ReceivedIsTotal(front);
      assert Harmless(Sizes(front)) by { TotalGrows(Sizes(front)); }
      HarmlessRuns(bytes, front);
      RightRead(Literal(bytes, front), chunk);
      FrontAndLast(chunks);
      FeedSnoc(front, chunk);
    }
  }

  lemma TotalGrows(sizes: seq<nat>)
    ensures sizes != [] ==> Total(sizes[..|sizes| - 1]) <= Total(sizes)
  {
  }

  // ------------------------------------------------------------------ harmful runs

  /** A stream cut into reads of these sizes. */
  function Cuts(stream: Bytes, sizes: seq<nat>): (chunks: seq<Bytes>)
    requires Total(sizes) <= |stream|
    ensures |chunks| == |sizes|
  {
    if sizes == [] then []
    else
      var front := sizes[..|sizes| - 1];
      Cuts(stream, front) + [stream[Total(front)..Total(sizes)]]
  }

  lemma {:induction false} CutsAre(stream: Bytes, sizes: seq<nat>)
    requires Total(sizes) <= |stream|
    ensures Sizes(Cuts(stream, sizes)) == sizes && Join(Cuts(stream, sizes)) == stream[..Total(sizes)]
    ensures Received(Cuts(stream, sizes)) == Total(sizes)
    decreases |sizes|
  {
    if sizes != [] {
      var front := sizes[..|sizes| - 1];
      var last := stream[Total(front)..Total(sizes)];
      CutsAre(stream, front);
      JoinSnoc(Cuts(stream, front), last);
      assert Cuts(stream, sizes)[..|front|] == Cuts(stream, front);
      assert stream[..Total(front)] + last == stream[..Total(sizes)];
    }
    ReceivedIsTotal(Cuts(stream, sizes));
  }

  lemma IncompletePrefix(s: Bytes, n: nat)
    requires Incomplete(s) && n <= |s|
    ensures Incomplete(s[..n])
  {
    if n >= HDR {
      assert s[..n] + s[n..] == s;
      DeclaredPrefix(s[..n], s[n..]);
    }
  }

  /** Reading the memory's own contents stores nothing new. */
  lemma StoredSame(bytes: Bytes, l: nat, n: nat, frames: seq<Frame>)
    requires l <= n <= |bytes|
    ensures Stored(Memory(bytes, l, frames), bytes[l..n]) == bytes && bytes[..l] + bytes[l..n] == bytes[..n]
  {
  }

  lemma KeepsRead(bytes: Bytes, l: nat, n: nat)
    requires l <= n && 2 * n <= |bytes| && BaseIsRight(l, n) && Incomplete(bytes[..n])
    ensures LiteralRead(Memory(bytes, l, []), bytes[l..n]) == Memory(bytes, n, [])
  {
    StoredSame(bytes, l, n, []);
    RightOutcome(bytes, l, n);
    assert Parse(bytes[..n]) == Cut([], bytes[..n], false);
    assert bytes[..n] + bytes[n..] == bytes;
  }

  lemma LiteralSnoc(bytes: Bytes, front: seq<Bytes>, chunk: Bytes)
    requires 2 * (Received(front) + |chunk|) <= |bytes|
    ensures Received(front + [chunk]) == Received(front) + |chunk|
    ensures Literal(bytes, front + [chunk]) == LiteralRead(Literal(bytes, front), chunk)
  {
    assert (front + [chunk])[..|front|] == front;
  }

  /** As long as too little has come for a frame, harmless reads of the memory's own contents change nothing. */
  ghost predicate NothingConsumed(bytes: Bytes, chunks: seq<Bytes>, n: nat) {
    && Received(chunks) == n && 2 * n <= |bytes|
    && Literal(bytes, chunks) == Memory(bytes, n, []) && FeedAll([], chunks) == Feed([], bytes[..n])
  }

  lemma NothingConsumedStep(bytes: Bytes, front: seq<Bytes>, l: nat, n: nat)
    requires NothingConsumed(bytes, front, l) && l <= n && 2 * n <= |bytes|
    requires BaseIsRight(l, n) && Incomplete(bytes[..n])
    ensures NothingConsumed(bytes, front + [bytes[l..n]], n)
  {
    var chunk := bytes[l..n];
    LiteralSnoc(bytes, front, chunk);
    KeepsRead(bytes, l, n);
    FeedKeeps(bytes, front, l, n);
  }

  lemma FeedKeeps(bytes: Bytes, front: seq<Bytes>, l: nat, n: nat)
    requires l <= n <= |bytes| && FeedAll([], front) == Feed([], bytes[..l]) && Incomplete(bytes[..n])
    ensures FeedAll([], front + [bytes[l..n]]) == Feed([], bytes[..n])
  {
    FeedSnoc(front, bytes[l..n]);
    StoredSame(bytes, l, n, []);
    assert Parse(bytes[..n]) == Cut([], bytes[..n], false);
  }

  lemma {:induction false} KeptAll(bytes: Bytes, sizes: seq<nat>)
    requires 2 * Total(sizes) <= |bytes| && Harmless(sizes) && Incomplete(bytes[..Total(sizes)])
    ensures NothingConsumed(bytes, Cuts(bytes, sizes), Total(sizes))
    decreases |sizes|
  {
    if sizes != [] {
      var front, n := sizes[..|sizes| - 1], Total(sizes);
      var l := Total(front);
      TotalGrows(front);
      assert Incomplete(bytes[..l]) by {
        assert bytes[..n][..l] == bytes[..l];
        IncompletePrefix(bytes[..n], l);
      }
      KeptAll(bytes, front);
      NothingConsumedStep(bytes, Cuts(bytes, front), l, n);
    } else {
      assert bytes[..0] == [];
    }
  }

  /** For reads that are not harmless there is a stream that is not served right. */
  lemma {:induction false} WrongRun(sizes: seq<nat>, room: nat) returns (bytes: Bytes, chunks: seq<Bytes>)
    requires !Harmless(sizes) && Total(sizes) <= MAX_ALLOCATION_SIZE && 2 * Total(sizes) <= room
    ensures |bytes| == room && Sizes(chunks) == sizes && Received(chunks) == Total(sizes)
    ensures !ServedRight(bytes, chunks)
    decreases |sizes|
  {
    var front, n := sizes[..|sizes| - 1], Total(sizes);
    var l := Total(front);
    TotalGrows(sizes);
    if Harmless(front) {
      bytes := MisreadBuffer(l, n, room);
      chunks := Cuts(bytes, sizes);
      CutsAre(bytes, sizes);
      LastReadWrong(bytes, sizes);
    } else {
      var some: Bytes := seq(sizes[|sizes| - 1], _ => 0);
      var before;
      bytes, before := WrongRun(front, room);
      chunks := before + [some];
      assert chunks[..|before|] == before;
      ReceivedIsTotal(chunks);
      assert Sizes(chunks) == sizes by { FrontAndLast(sizes); }
    }
  }

  lemma LastReadWrong(bytes: Bytes, sizes: seq<nat>)
    requires sizes != [] && 2 * Total(sizes) <= |bytes| && Harmless(sizes[..|sizes| - 1])
    requires var l := Total(sizes[..|sizes| - 1]);
             && Incomplete(bytes[..l]) && l <= Total(sizes)
             && |Outcome(bytes, l, Total(sizes)).kept| != |Parse(bytes[..Total(sizes)]).rest|
    ensures Received(Cuts(bytes, sizes)) == Total(sizes) && !RightSoFar(bytes, Cuts(bytes, sizes))
  {
    var front := sizes[..|sizes| - 1];
    KeptAll(bytes, front);
    WrongStep(bytes, Cuts(bytes, front), Total(front), Total(sizes));
  }

  lemma WrongStep(bytes: Bytes, front: seq<Bytes>, l: nat, n: nat)
    requires NothingConsumed(bytes, front, l) && l <= n && 2 * n <= |bytes|
    requires |Outcome(bytes, l, n).kept| != |Parse(bytes[..n]).rest|
    ensures Received(front + [bytes[l..n]]) == n && !RightSoFar(bytes, front + [bytes[l..n]])
  {
    var chunk := bytes[l..n];
    LiteralSnoc(bytes, front, chunk);
    var m := Literal(bytes, front + [chunk]);
    assert |m.bytes[..m.left]| == |Outcome(bytes, l, n).kept| by { ReadSame(bytes, l, n); }
    assert FeedAll([], front + [chunk]).kept == Parse(bytes[..n]).rest by {
      FeedSnoc(front, chunk);
      StoredSame(bytes, l, n, []);
    }
  }

  lemma ReadSame(bytes: Bytes, l: nat, n: nat)
    requires l <= n && 2 * n <= |bytes|
    ensures LiteralRead(Memory(bytes, l, []), bytes[l..n]).left == |Outcome(bytes, l, n).kept|
  {
    StoredSame(bytes, l, n, []);
  }

  /** Over a whole connection, with reads of these sizes that fit the buffer whatever is kept: every stream is served
      right after every read, for every content of the memory, if and only if nothing arrives before the last read
      or less than a header arrives in all. */
  lemma LiteralRunExactly(sizes: seq<nat>)
    requires Total(sizes) <= MAX_ALLOCATION_SIZE
    ensures (forall bytes: Bytes, chunks: seq<Bytes> | Sizes(chunks) == sizes && 2 * Received(chunks) <= |bytes| ::
               ServedRight(bytes, chunks))
            <==> Harmless(sizes)
  {
    if Harmless(sizes) {
      forall bytes: Bytes, chunks: seq<Bytes> | Sizes(chunks) == sizes && 2 * Received(chunks) <= |bytes|
        ensures ServedRight(bytes, chunks)
      {
        HarmlessRuns(bytes, chunks);
      }
    } else {
      var bytes, chunks := WrongRun(sizes, 2 * Total(sizes));
      assert Sizes(chunks) == sizes && 2 * Received(chunks) <= |bytes| && !ServedRight(bytes, chunks);
    }
  }
}
