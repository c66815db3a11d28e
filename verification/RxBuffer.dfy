/** The receive buffer of one connection: where the next read lands, and how the bytes a read
    did not use up are moved to the front. */
module RxBuffer {
  import opened Basics
  import opened Frames
  import opened Dispatch

  const MAX_ALLOCATION_SIZE: nat := 65536

  function AllocationSize(suggestedSize: nat): nat {
    if suggestedSize > MAX_ALLOCATION_SIZE then MAX_ALLOCATION_SIZE else suggestedSize
  }

  class RxBufAddr {
    var addr: array?<Byte>
    var size: nat
    var leftover: nat

    ghost predicate Valid()
      reads this
    {
      && leftover <= size <= MAX_ALLOCATION_SIZE
      && (addr != null ==> addr.Length == size)
      && (addr == null ==> leftover == 0)
    }

    /** The bytes received but not consumed yet. */
    ghost function Kept(): Bytes
      requires Valid()
      reads this, addr
    {
      if addr == null then [] else addr[..leftover]
    }

    constructor ()
      ensures Valid() && addr == null && Kept() == []
    {
      addr, size, leftover := null, 0, 0;
    }

    /** Offers the free tail of the buffer, allocating it on first use. */
    method AllocBuffer(suggestedSize: nat) returns (base: nat, len: nat)
      requires Valid()
      modifies this
      ensures Valid() && addr != null && Kept() == old(Kept())
      ensures old(addr) != null ==> addr == old(addr) && size == old(size)
      ensures old(addr) == null ==> fresh(addr) && size == AllocationSize(suggestedSize)
      ensures base == leftover && len == size - leftover && base + len == addr.Length
      ensures old(addr) == null ==> base == 0 && len == if suggestedSize <= 65536 then suggestedSize else 65536
    {
      if addr == null {
        var allocatingSize := AllocationSize(suggestedSize);
        addr := new Byte[allocatingSize];
        leftover, size := 0, allocatingSize;
        return 0, size;
      }
      if leftover == 0 {
        return 0, size;
      }
      return leftover, size - leftover;
    }

    /** The socket layer stores a chunk in the space offered to it. */
    method Store(base: nat, chunk: Bytes)
      requires Valid() && addr != null && base == leftover && base + |chunk| <= size
      modifies addr
      ensures addr[..leftover + |chunk|] == old(Kept()) + chunk
    {
      for i := 0 to |chunk|
        invariant addr[..base + i] == old(Kept()) + chunk[..i]
      {
        addr[base + i] := chunk[i];
      }
    }

    /** Runs the listener on everything received so far and moves what it leaves to the front. The
        listener looks at `leftover + nread` bytes from `base` on, which may reach into the memory `beyond`
        the buffer; the bytes that are moved are the last ones it left of the `leftover + nread` bytes at the
        start of the buffer. */
    method ReadData(registry: Registry, base: nat, nread: nat, beyond: Bytes) returns (calls: seq<Call>)
      requires Valid() && addr != null && registry.Valid()
      requires leftover + nread <= size && base + leftover + nread <= size + |beyond|
      modifies this`leftover, addr
      ensures Valid() && addr == old(addr)
      ensures var did := Outcome(old(addr[..]) + beyond, base, old(leftover) + nread);
              calls == Calls(old(registry.Cbs()), did.frames) && Kept() == did.kept
    {
      var total := leftover + nread;
      var left;
      left, calls := ShowListener(registry, base, total, beyond);
      Compact(total, left);
    }

    /** The listener is called on memory that starts `base` bytes into the buffer. */
    method ShowListener(registry: Registry, base: nat, total: nat, beyond: Bytes)
      returns (left: nat, calls: seq<Call>)
      requires Valid() && addr != null && registry.Valid()
      requires total <= size && base + total <= size + |beyond|
      ensures var did := Outcome(addr[..] + beyond, base, total);
              calls == Calls(registry.Cbs(), did.frames) && left <= total && did.kept == addr[..][total - left..total]
    {
      var memory := addr[..] + beyond;
      var shown := memory[base..base + total];
      left, calls := registry.ProcessMsg(shown);
      OutcomeInBuffer(addr[..], beyond, base, total, left);
    }

    /** Moves the last `left` of `total` bytes to the front; they are what is kept. */
    method Compact(total: nat, left: nat)
      requires Valid() && addr != null && left <= total <= size
      modifies this`leftover, addr
      ensures Valid() && addr == old(addr) && Kept() == old(addr[..])[total - left..total]
    {
      ghost var a := addr[..];
      assert addr[total - left..total] == a[total - left..total];
      if left == 0 {
        leftover := 0;
      } else {
        Memcpy(addr, total - left, left);
        leftover := left;
      }
    }

    /** A read failed or the peer went away: whatever was not consumed is discarded. */
    method ClientCloseCb()
      requires Valid()
      modifies this`leftover
      ensures Valid() && Kept() == []
    {
      leftover := 0;
    }

    /** A chunk arrives: it is stored behind the kept bytes, in the space offered for it. */
    method Arrive(suggestedSize: nat, chunk: Bytes)
      requires Valid()
      requires |chunk| <= if addr == null then AllocationSize(suggestedSize) else size - leftover
      modifies this, addr
      ensures Valid() && addr != null && leftover == |old(Kept())| && leftover + |chunk| <= size
      ensures if old(addr) == null then fresh(addr) && size == AllocationSize(suggestedSize)
              else addr == old(addr) && size == old(size)
      ensures old(Kept()) + chunk <= addr[..]
    {
      var base, len := AllocBuffer(suggestedSize);
      Store(base, chunk);
      assert addr[..leftover + |chunk|] <= addr[..];
    }

    /** ReadData where the listener is shown the right bytes. */
    method ReadRight(registry: Registry, base: nat, nread: nat, beyond: Bytes, ghost all: Bytes)
      returns (calls: seq<Call>)
      requires Valid() && addr != null && registry.Valid()
      requires leftover + nread <= size && base + leftover + nread <= size + |beyond|
      requires all <= addr[..] && |all| == leftover + nread && (base == 0 || |all| < HDR)
      modifies this`leftover, addr
      ensures Valid() && addr == old(addr)
      ensures calls == Calls(old(registry.Cbs()), Parse(all).frames)
      ensures Kept() == Parse(all).rest
    {
      ghost var p, did := Parse(all), Outcome(addr[..] + beyond, base, leftover + nread);
      assert did == Feed(p.frames, p.rest) by { RightInBuffer(addr[..], beyond, base, all, leftover + nread); }
      calls := ReadData(registry, base, nread, beyond);
    }

    /** One read: the chunk goes behind the kept bytes and the listener sees both. It is shown the start of the
        buffer, or, `asWritten`, the address the read was stored at, where that is right. */
    method OnRead(registry: Registry, suggestedSize: nat, chunk: Bytes, asWritten: bool, beyond: Bytes)
      returns (calls: seq<Call>)
      requires Valid() && registry.Valid()
      requires |chunk| <= if addr == null then AllocationSize(suggestedSize) else size - leftover
      requires asWritten ==> BaseIsRight(|Kept()|, |Kept() + chunk|) && |Kept()| <= |beyond|
      modifies this, addr
      ensures Valid() && addr != null
      ensures if old(addr) == null then fresh(addr) && size == AllocationSize(suggestedSize)
              else addr == old(addr) && size == old(size)
      ensures calls == Calls(old(registry.Cbs()), Parse(old(Kept()) + chunk).frames)
      ensures Kept() == Parse(old(Kept()) + chunk).rest
    {
      ghost var all, cbs := Kept() + chunk, registry.Cbs();
      Arrive(suggestedSize, chunk);
      assert registry.Cbs() == cbs;
      var base := if asWritten then leftover else 0;
      calls := ReadRight(registry, base, |chunk|, beyond, all);
    }
  }

  /** Moves `n` bytes from offset `from` to the front, byte by byte in ascending order; the two
      ranges may overlap. */
  method Memcpy(a: array<Byte>, from: nat, n: nat)
    requires from + n <= a.Length
    modifies a
    ensures a[..n] == old(a[from..from + n])
  {
    for i := 0 to n
      invariant forall j :: 0 <= j < i ==> a[j] == old(a[from + j])
      invariant forall j :: i <= j < a.Length ==> a[j] == old(a[j])
    {
      a[i] := a[from + i];
    }
  }

  // ------------------------------------------------------------------ which bytes the listener is shown

  /** What one read does to memory with contents `a`: the frames the listener consumes when it is
      shown `total` bytes from `base`, and the bytes that end up at the front. */
  ghost function Outcome(a: Bytes, base: nat, total: nat): (r: Feed)
    requires base + total <= |a|
    ensures |r.kept| <= total
  {
    ParseShorter(a[base..base + total]);
    var cut := Parse(a[base..base + total]);
    Feed(cut.frames, a[total - |cut.rest|..total])
  }

  /** What is kept lies in the buffer, wherever the listener looked. */
  lemma OutcomeInBuffer(a: Bytes, beyond: Bytes, base: nat, total: nat, left: nat)
    requires total <= |a| && base + total <= |a + beyond|
    requires left == |Parse((a + beyond)[base..base + total]).rest|
    ensures left <= total && Outcome(a + beyond, base, total).kept == a[total - left..total]
  {
    ParseShorter((a + beyond)[base..base + total]);
    SliceOfFront(a, beyond, total - left, total);
  }

  lemma SliceOfFront(a: Bytes, b: Bytes, lo: nat, hi: nat)
    requires lo <= hi <= |a|
    ensures (a + b)[lo..hi] == a[lo..hi]
  {
  }

  lemma {:induction false} RestIsSuffix(s: Bytes)
    ensures |Parse(s).rest| <= |s| && Parse(s).rest == s[|s| - |Parse(s).rest|..]
    decreases |s|
  {
    if |s| >= HDR && HDR <= Declared(s) <= |s| {
      RestIsSuffix(s[Declared(s)..]);
    }
  }

  /** What a read should do: consume the frames of the kept bytes and the new ones, and keep the tail. */
  ghost predicate Right(a: Bytes, base: nat, total: nat)
    requires base + total <= |a|
  {
    Outcome(a, base, total) == Feed(Parse(a[..total]).frames, Parse(a[..total]).rest)
  }

  /** With the listener shown the buffer from its start, a read does what it should. */
  lemma IntendedOutcome(a: Bytes, total: nat)
    requires total <= |a|
    ensures Right(a, 0, total)
  {
    assert a[0..total] == a[..total];
    RestIsSuffix(a[..total]);
    var r := |Parse(a[..total]).rest|;
    assert a[total - r..total] == a[..total][total - r..];
  }

  /** So it does when too little has arrived to hold a header, wherever the listener looks. */
  lemma RightOutcome(a: Bytes, base: nat, total: nat)
    requires base + total <= |a| && (base == 0 || total < HDR)
    ensures Right(a, base, total)
  {
    if base == 0 {
      IntendedOutcome(a, total);
    }
  }

  lemma RightInBuffer(a: Bytes, beyond: Bytes, base: nat, all: Bytes, total: nat)
    requires all <= a && |all| == total && base + total <= |a + beyond| && (base == 0 || total < HDR)
    ensures Outcome(a + beyond, base, total) == Feed(Parse(all).frames, Parse(all).rest)
  {
    SliceOfFront(a, beyond, 0, |all|);
    assert (a + beyond)[..|all|] == (a + beyond)[0..|all|] == a[0..|all|] == all;
    RightOutcome(a + beyond, base, |all|);
  }

  /** The address a read was stored at serves the listener when nothing was kept from the read before, or too
      little has arrived to hold a header. */
  predicate BaseIsRight(left: nat, total: nat) {
    left == 0 || total < HDR
  }

  /** The listener is in fact handed the address the read was stored at, `left` bytes into the buffer,
      together with the length of everything received. That is right, for every content of the buffer and of
      the memory behind it, exactly under this condition. */
  lemma LiteralBaseExactly(left: nat, total: nat)
    requires left <= total <= MAX_ALLOCATION_SIZE
    ensures (forall a: Bytes | left + total <= |a| && Incomplete(a[..left]) :: Right(a, left, total))
            <==> BaseIsRight(left, total)
  {
    if BaseIsRight(left, total) {
      forall a: Bytes | left + total <= |a| && Incomplete(a[..left]) ensures Right(a, left, total) {
        RightOutcome(a, left, total);
      }
    } else {
      var a := MisreadBuffer(left, total, left + total);
      assert !Right(a, left, total);
    }
  }

  /** A buffer for which the listener, shown it from `left` on, discards bytes that should be kept,
      or keeps bytes that should be discarded. */
  lemma MisreadBuffer(left: nat, total: nat, size: nat) returns (a: Bytes)
    requires 0 < left <= total <= MAX_ALLOCATION_SIZE && HDR <= total && left + total <= size
    ensures |a| == size && Incomplete(a[..left])
    ensures |Outcome(a, left, total).kept| != |Parse(a[..total]).rest|
  {
    var at := if left < HDR then left + 3 else 3;
    var zeros: Bytes := seq(size, _ => 0);
    a := zeros[at := 1];
    var front, shown := a[..total], a[left..left + total];
    if left < HDR {
      assert Declared(front) == 0 by { LengthBytes(a, 0, front, 0, 0, 0, 0); }
      assert Declared(shown) == 0x100_0000 by { LengthBytes(a, left, shown, 0, 0, 0, 1); }
    } else {
      assert Declared(front) == 0x100_0000 by { LengthBytes(a, 0, front, 0, 0, 0, 1); }
      assert Declared(shown) == 0 by { LengthBytes(a, left, shown, 0, 0, 0, 0); }
      assert Declared(a[..left]) == 0x100_0000 by { LengthBytes(a, 0, a[..left], 0, 0, 0, 1); }
    }
  }

  lemma LengthBytes(a: Bytes, at: nat, s: Bytes, b0: Byte, b1: Byte, b2: Byte, b3: Byte)
    requires |s| >= HDR && at + |s| <= |a| && s == a[at..at + |s|]
    requires a[at] == b0 && a[at + 1] == b1 && a[at + 2] == b2 && a[at + 3] == b3
    ensures Declared(s) == b0 + 0x100 * b1 + 0x1_0000 * b2 + 0x100_0000 * b3
  {
    assert s[0] == a[at] && s[1] == a[at + 1] && s[2] == a[at + 2] && s[3] == a[at + 3];
  }

  // ------------------------------------------------------------------ a whole connection

  /** Every read fits the space offered to it. */
  ghost predicate Fit(kept: Bytes, chunks: seq<Bytes>, size: nat)
    decreases |chunks|
  {
    chunks == [] || (|kept| + |chunks[0]| <= size && Fit(Parse(kept + chunks[0]).rest, chunks[1..], size))
  }

  /** Every frame of a stream up to its first bad header, and the one begun at its end, declares at most `size`
      bytes. */
  ghost predicate LengthsFit(stream: Bytes, size: nat) {
    var cut := Parse(stream);
    && (forall f :: f in cut.frames ==> |f| <= size)
    && (|cut.rest| >= HDR ==> Declared(cut.rest) <= size)
  }

  /** One read leaves room for the next. */
  lemma ReadLeavesRoom(s: Bytes, later: Bytes, size: nat)
    requires HDR <= size && |s| <= size && LengthsFit(s + later, size)
    ensures |Parse(s).rest| < size
  {
    JamsExactly(s, size);
    ParseShorter(s);
    if |s| == size {
      DeclaredPrefix(s, later);
      if HDR <= Declared(s) <= |s + later| {
        assert FirstFrame(s + later) in Parse(s + later).frames;
      }
    }
  }

  /** The stream as it looks from what a read keeps. */
  lemma LaterFits(s: Bytes, later: Bytes, size: nat)
    requires !Parse(s).bad && LengthsFit(s + later, size)
    ensures LengthsFit(Parse(s).rest + later, size)
  {
    ParseAppend(s, later);
  }

  /** Read `k` is the first of a new stream: the read before it completed a bad header. */
  ghost predicate StartsAnew(kept: Bytes, chunks: seq<Bytes>, k: nat)
    requires k <= |chunks|
  {
    k > 0 && Parse(FeedAll(kept, chunks[..k - 1]).kept + chunks[k - 1]).bad
  }

  /** No frame of a run is longer than the buffer: not in the stream it starts with, nor in those that start after
      bad headers. */
  ghost predicate FramesFit(kept: Bytes, chunks: seq<Bytes>, size: nat) {
    && LengthsFit(kept + Join(chunks), size)
    && forall k: nat :: k <= |chunks| && StartsAnew(kept, chunks, k) ==> LengthsFit(Join(chunks[k..]), size)
  }

  /** After one read the rest of the run is such a run again. */
  lemma FramesFitLater(kept: Bytes, chunks: seq<Bytes>, size: nat)
    requires chunks != [] && FramesFit(kept, chunks, size)
    ensures FramesFit(Parse(kept + chunks[0]).rest, chunks[1..], size)
  {
    var rest, later := Parse(kept + chunks[0]).rest, chunks[1..];
    StreamFitsLater(kept, chunks, size);
    forall k: nat | k <= |later| && StartsAnew(rest, later, k) ensures LengthsFit(Join(later[k..]), size) {
      StartsLater(kept, chunks, k);
      assert chunks[k + 1..] == later[k..];
    }
  }

  lemma StreamFitsLater(kept: Bytes, chunks: seq<Bytes>, size: nat)
    requires chunks != [] && FramesFit(kept, chunks, size)
    ensures LengthsFit(Parse(kept + chunks[0]).rest + Join(chunks[1..]), size)
  {
    var s, stream := kept + chunks[0], Join(chunks[1..]);
    if Parse(s).bad {
      assert FeedAll(kept, chunks[..0]).kept == kept;
      assert StartsAnew(kept, chunks, 1);
      ParseSoundBad(s);
      assert [] + stream == stream;
    } else {
      Assoc(kept, chunks[0], stream);
      LaterFits(s, stream, size);
    }
  }

  lemma StartsLater(kept: Bytes, chunks: seq<Bytes>, k: nat)
    requires chunks != [] && k < |chunks|
    requires StartsAnew(Parse(kept + chunks[0]).rest, chunks[1..], k)
    ensures StartsAnew(kept, chunks, k + 1)
  {
    assert chunks[..k][1..] == chunks[1..][..k - 1];
  }

  /** The buffer never jams, whatever the stream: if no frame is longer than the buffer, then after every read
      there is room left in it, so the next read is offered at least one byte. */
  lemma {:induction false} NeverJams(kept: Bytes, chunks: seq<Bytes>, size: nat, k: nat)
    requires HDR <= size && |kept| < size && k <= |chunks|
    requires Fit(kept, chunks, size) && FramesFit(kept, chunks, size)
    ensures |FeedAll(kept, chunks[..k]).kept| < size
    decreases |chunks|
  {
    if k > 0 {
      var s := kept + chunks[0];
      Assoc(kept, chunks[0], Join(chunks[1..]));
      assert |Parse(s).rest| < size by { ReadLeavesRoom(s, Join(chunks[1..]), size); }
      FramesFitLater(kept, chunks, size);
      NeverJams(Parse(s).rest, chunks[1..], size, k - 1);
      assert chunks[..k][1..] == chunks[1..][..k - 1];
    }
  }

  /** Every read is one for which the base the source passes on is right. */
  ghost predicate BasesAreRight(kept: Bytes, chunks: seq<Bytes>)
    decreases |chunks|
  {
    chunks == []
    || (BaseIsRight(|kept|, |kept + chunks[0]|) && BasesAreRight(Parse(kept + chunks[0]).rest, chunks[1..]))
  }

  /** The event loop's reads on one connection, one after the other: with the intended base, and with the base as
      written if that is right for every read. */
  method ServeReads(rx: RxBufAddr, registry: Registry, suggestedSize: nat, chunks: seq<Bytes>, asWritten: bool,
                    beyond: Bytes)
    returns (calls: seq<Call>)
    requires rx.Valid() && rx.addr == null && registry.Valid()
    requires Fit([], chunks, AllocationSize(suggestedSize))
    requires asWritten ==> BasesAreRight([], chunks) && HDR <= |beyond|
    modifies rx
    ensures rx.Valid() && rx.Kept() == FeedAll([], chunks).kept
    ensures calls == Calls(registry.Cbs(), FeedAll([], chunks).frames)
  {
    calls := [];
    var rest := chunks;
    ghost var cbs, size := registry.Cbs(), AllocationSize(suggestedSize);
    ghost var done: seq<Frame> := [];
    while rest != []
      invariant rx.Valid() && (rx.addr != null ==> fresh(rx.addr) && rx.size == size)
      invariant registry.Cbs() == cbs
      invariant Fit(rx.Kept(), rest, size) && (asWritten ==> BasesAreRight(rx.Kept(), rest))
      invariant FeedAll([], chunks) == Resumed(done, rx.Kept(), rest)
      invariant calls == Calls(cbs, done)
      decreases |rest|
    {
      ghost var cut := Parse(rx.Kept() + rest[0]);
      ResumedStep(done, rx.Kept(), rest);
      CallsAppend(cbs, done, cut.frames);
      var made := rx.OnRead(registry, suggestedSize, rest[0], asWritten, beyond);
      calls := calls + made;
      done := done + cut.frames;
      rest := rest[1..];
    }
    assert done + [] == done;
  }

  /** What comes out of a connection when `done` came out so far and `rest` is still to be read. */
  ghost function Resumed(done: seq<Frame>, kept: Bytes, rest: seq<Bytes>): Feed {
    Feed(done + FeedAll(kept, rest).frames, FeedAll(kept, rest).kept)
  }

  lemma ResumedStep(done: seq<Frame>, kept: Bytes, rest: seq<Bytes>)
    requires rest != []
    ensures var cut := Parse(kept + rest[0]);
            Resumed(done, kept, rest) == Resumed(done + cut.frames, cut.rest, rest[1..])
  {
    var cut := Parse(kept + rest[0]);
    Assoc(done, cut.frames, FeedAll(cut.rest, rest[1..]).frames);
  }
}
