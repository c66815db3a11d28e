/** The wire format of protobuf messages and the way a byte stream is cut into frames. */
module Frames {
  import opened Basics

  type Byte = b: int | 0 <= b < 256
  type Bytes = seq<Byte>
  type uint32 = n: int | 0 <= n < 0x1_0000_0000

  /** Size of a packet header on an LP64 machine: five 32-bit fields, four bytes of padding,
      one 64-bit timestamp. */
  const HDR: nat := 32
  const MAX_PB_MSG_SIZE: nat := 2500
  const PROTOBUF_V1: uint32 := 0x101

  /** Little-endian 32-bit field at offset `at`. */
  function Le32(s: Bytes, at: nat): (n: uint32)
    requires at + 4 <= |s|
  {
    var b0: int, b1: int, b2: int, b3: int := s[at], s[at + 1], s[at + 2], s[at + 3];
    b0 + 0x100 * b1 + 0x1_0000 * b2 + 0x100_0000 * b3
  }

  function ToLe32(n: uint32): (s: Bytes)
    ensures |s| == 4 && Le32(s, 0) == n
  {
    [n % 0x100, n / 0x100 % 0x100, n / 0x1_0000 % 0x100, n / 0x100_0000]
  }

  // ------------------------------------------------------------------ cutting

  /** The length field of a header. */
  function Declared(s: Bytes): uint32
    requires |s| >= HDR
  {
    Le32(s, 0)
  }

  /** A complete packet: its length field says how long it is. */
  type Frame = f: Bytes | |f| >= HDR && Declared(f) == |f| witness [32] + seq(31, _ => 0)

  /** Result of cutting a buffer: the complete frames (header included, empty ones too),
      the unconsumed tail, and whether a header with an impossible length was met. */
  datatype Cut = Cut(frames: seq<Frame>, rest: Bytes, bad: bool)

  function Parse(s: Bytes): Cut
    decreases |s|
  {
    if |s| < HDR then Cut([], s, false)
    else if Declared(s) < HDR then Cut([], [], true)
    else if |s| < Declared(s) then Cut([], s, false)
    else
      var tail := Parse(s[Declared(s)..]);
      Cut([FirstFrame(s)] + tail.frames, tail.rest, tail.bad)
  }

  /** The complete frame at the front of a buffer. */
  function FirstFrame(s: Bytes): (f: Frame)
    requires |s| >= HDR && HDR <= Declared(s) <= |s|
    ensures s == f + s[Declared(s)..]
  {
    var f := s[..Declared(s)];
    assert forall i :: 0 <= i < 4 ==> f[i] == s[i];
    f
  }

  /** No complete frame at the front, and no impossible header: more bytes are needed. */
  ghost predicate Incomplete(s: Bytes) {
    |s| >= HDR ==> HDR <= Declared(s) && |s| < Declared(s)
  }

  ghost predicate StartsBad(s: Bytes) {
    |s| >= HDR && Declared(s) < HDR
  }

  function Join(parts: seq<Bytes>): Bytes {
    if parts == [] then [] else parts[0] + Join(parts[1..])
  }

  lemma JoinSnoc(parts: seq<Bytes>, last: Bytes)
    ensures Join(parts + [last]) == Join(parts) + last
  {
    if parts == [] {
      assert Join([last]) == last + Join([]);
    } else {
      JoinSnoc(parts[1..], last);
      TailOfAppend(parts, [last]);
      Assoc(parts[0], Join(parts[1..]), last);
    }
  }

  lemma JoinAppend(a: seq<Bytes>, b: seq<Bytes>)
    ensures Join(a + b) == Join(a) + Join(b)
  {
    if a == [] {
      assert a + b == b;
    } else {
      JoinAppend(a[1..], b);
      TailOfAppend(a, b);
      Assoc(a[0], Join(a[1..]), Join(b));
    }
  }

  /** The header of a frame lies inside its first HDR bytes, so appending bytes keeps it. */
  lemma DeclaredPrefix(s: Bytes, t: Bytes)
    requires |s| >= HDR
    ensures Declared(s + t) == Declared(s)
  {
    assert forall i :: 0 <= i < 4 ==> (s + t)[i] == s[i];
  }

  /** A frame at the front is cut off first. */
  lemma ParseFrame(f: Frame, s: Bytes)
    ensures Parse(f + s) == Cut([f] + Parse(s).frames, Parse(s).rest, Parse(s).bad)
  {
    DeclaredPrefix(f, s);
    assert (f + s)[..|f|] == f && (f + s)[|f|..] == s;
  }

  lemma JoinCons(first: Bytes, parts: seq<Bytes>)
    ensures Join([first] + parts) == first + Join(parts)
  {
    assert ([first] + parts)[1..] == parts;
  }

  /** Soundness: the frames cut off, followed by the tail that is kept, are exactly the input, and
      the tail holds no complete frame. */
  lemma {:induction false} ParseSound(s: Bytes)
    requires !Parse(s).bad
    ensures s == Join(Parse(s).frames) + Parse(s).rest
    ensures Incomplete(Parse(s).rest)
    decreases |s|
  {
    if |s| >= HDR && HDR <= Declared(s) <= |s| {
      var t := s[Declared(s)..];
      ParseSound(t);
      JoinCons(FirstFrame(s), Parse(t).frames);
      Assoc(FirstFrame(s), Join(Parse(t).frames), Parse(t).rest);
    }
  }

  /** When a bad header stops the cutting, the frames cut off are those in front of it and nothing
      is kept. */
  lemma {:induction false} ParseSoundBad(s: Bytes)
    requires Parse(s).bad
    ensures Parse(s).rest == []
    ensures Join(Parse(s).frames) <= s && StartsBad(s[|Join(Parse(s).frames)|..])
    decreases |s|
  {
    if HDR <= Declared(s) {
      var t := s[Declared(s)..];
      ParseSoundBad(t);
      JoinCons(FirstFrame(s), Parse(t).frames);
      var j := Join(Parse(t).frames);
      assert s[|FirstFrame(s) + j|..] == t[|j|..];
    }
  }

  /** Completeness: any way of writing the input as frames followed by an incomplete
      tail, or by a bad header, is the one Parse finds. */
  lemma {:induction false} ParseComplete(fs: seq<Frame>, tail: Bytes)
    requires Incomplete(tail) || StartsBad(tail)
    ensures Parse(Join(fs) + tail) == Cut(fs, if StartsBad(tail) then [] else tail, StartsBad(tail))
  {
    if fs == [] {
      assert Join(fs) + tail == tail;
    } else {
      ParseComplete(fs[1..], tail);
      ParseFrame(fs[0], Join(fs[1..]) + tail);
      Assoc(fs[0], Join(fs[1..]), tail);
      assert [fs[0]] + fs[1..] == fs;
    }
  }

  /** Cutting a longer buffer is cutting its front and going on from the tail that was kept;
      after a bad header the rest does not matter. */
  lemma {:induction false} ParseAppend(s: Bytes, t: Bytes)
    ensures Parse(s).bad ==> Parse(s + t) == Parse(s)
    ensures !Parse(s).bad ==>
      var next := Parse(Parse(s).rest + t);
      Parse(s + t) == Cut(Parse(s).frames + next.frames, next.rest, next.bad)
    decreases |s|
  {
    if |s| < HDR || |s| < Declared(s) {
    } else if Declared(s) < HDR {
      DeclaredPrefix(s, t);
    } else {
      var f, u := FirstFrame(s), s[Declared(s)..];
      Assoc(f, u, t);
      ParseFrame(f, u + t);
      ParseAppend(u, t);
      Assoc([f], Parse(u).frames, Parse(Parse(u).rest + t).frames);
    }
  }

  // ------------------------------------------------------------------ reads

  /** Everything cut off over a series of reads, and what is still kept afterwards. */
  datatype Feed = Feed(frames: seq<Frame>, kept: Bytes)

  function FeedAll(kept: Bytes, chunks: seq<Bytes>): Feed
    decreases |chunks|
  {
    if chunks == [] then Feed([], kept)
    else
      var cut := Parse(kept + chunks[0]);
      var more := FeedAll(cut.rest, chunks[1..]);
      Feed(cut.frames + more.frames, more.kept)
  }

  /** Chunking does not matter: as long as the stream has no bad header, reading it in any pieces
      yields the frames and the tail of the whole stream. */
  lemma {:induction false} ChunkingDoesNotMatter(kept: Bytes, chunks: seq<Bytes>)
    requires Incomplete(kept)
    requires !Parse(kept + Join(chunks)).bad
    ensures FeedAll(kept, chunks) == Feed(Parse(kept + Join(chunks)).frames, Parse(kept + Join(chunks)).rest)
    decreases |chunks|
  {
    if chunks == [] {
      assert kept + Join(chunks) == kept;
    } else {
      var s, t := kept + chunks[0], Join(chunks[1..]);
      assert kept + Join(chunks) == s + t;
      ParseAppend(s, t);
      ParseSound(s);
      ChunkingDoesNotMatter(Parse(s).rest, chunks[1..]);
    }
  }

  lemma {:induction false} FeedAppend(kept: Bytes, a: seq<Bytes>, b: seq<Bytes>)
    ensures FeedAll(kept, a + b)
            == Feed(FeedAll(kept, a).frames + FeedAll(FeedAll(kept, a).kept, b).frames,
                    FeedAll(FeedAll(kept, a).kept, b).kept)
    decreases |a|
  {
    if a == [] {
      assert a + b == b;
    } else {
      TailOfAppend(a, b);
      var cut := Parse(kept + a[0]);
      FeedAppend(cut.rest, a[1..], b);
      var more := FeedAll(cut.rest, a[1..]);
      Assoc(cut.frames, more.frames, FeedAll(more.kept, b).frames);
    }
  }

  /** The read that completes the first bad header. */
  lemma {:induction false} FirstBadRead(kept: Bytes, chunks: seq<Bytes>) returns (k: nat)
    requires !Parse(kept).bad && Parse(kept + Join(chunks)).bad
    ensures k < |chunks|
    ensures !Parse(kept + Join(chunks[..k])).bad && Parse(kept + Join(chunks[..k + 1])).bad
    decreases |chunks|
  {
    assert kept + Join([]) == kept;
    var n := |chunks| - 1;
    assert chunks == chunks[..n] + [chunks[n]];
    assert chunks[..n + 1] == chunks;
    if Parse(kept + Join(chunks[..n])).bad {
      k := FirstBadRead(kept, chunks[..n]);
      assert chunks[..n][..k] == chunks[..k] && chunks[..n][..k + 1] == chunks[..k + 1];
    } else {
      k := n;
    }
  }

  /** A bad header ends the meaning of the stream: up to and including the read that completes it,
      exactly the frames before the header come out and nothing is kept; the reads after it are
      treated as a new stream. */
  lemma ChunkingUpToBadHeader(kept: Bytes, chunks: seq<Bytes>) returns (k: nat)
    requires Incomplete(kept)
    requires Parse(kept + Join(chunks)).bad
    ensures k < |chunks|
    ensures !Parse(kept + Join(chunks[..k])).bad && Parse(kept + Join(chunks[..k + 1])).bad
    ensures FeedAll(kept, chunks[..k + 1]) == Feed(Parse(kept + Join(chunks)).frames, [])
    ensures FeedAll(kept, chunks)
            == Feed(Parse(kept + Join(chunks)).frames + FeedAll([], chunks[k + 1..]).frames,
                    FeedAll([], chunks[k + 1..]).kept)
  {
    k := FirstBadRead(kept, chunks);
    var before, upTo, after := chunks[..k], chunks[..k + 1], chunks[k + 1..];
    assert upTo == before + [chunks[k]] && chunks == upTo + after;
    JoinSnoc(before, chunks[k]);
    JoinAppend(upTo, after);
    assert kept + Join(upTo) == (kept + Join(before)) + chunks[k];
    assert kept + Join(chunks) == (kept + Join(upTo)) + Join(after);
    ParseAppend(kept + Join(before), chunks[k]);
    ParseAppend(kept + Join(upTo), Join(after));
    ChunkingDoesNotMatter(kept, before);
    FeedAppend(kept, before, [chunks[k]]);
    ParseSoundBad(kept + Join(upTo));
    FeedOne(FeedAll(kept, before).kept, chunks[k]);
    FeedAppend(kept, upTo, after);
  }

  lemma FeedOne(kept: Bytes, chunk: Bytes)
    ensures FeedAll(kept, [chunk]) == Feed(Parse(kept + chunk).frames, Parse(kept + chunk).rest)
  {
    assert FeedAll(Parse(kept + chunk).rest, []) == Feed([], Parse(kept + chunk).rest);
    assert [chunk][1..] == [];
  }

  /** The receive buffer jams, that is a full buffer stays full after a read, exactly when a
      header does not fit in it or the frame at its front declares more than the buffer holds. */
  lemma JamsExactly(s: Bytes, size: nat)
    requires |s| <= size
    ensures |Parse(s).rest| == size
            <==> |s| == size && (size < HDR || Declared(s) > size)
  {
    if |s| >= HDR && HDR <= Declared(s) <= |s| {
      ParseShorter(s[Declared(s)..]);
    }
  }

  lemma {:induction false} ParseShorter(s: Bytes)
    ensures |Parse(s).rest| <= |s|
    decreases |s|
  {
    if |s| >= HDR && HDR <= Declared(s) <= |s| {
      ParseShorter(s[Declared(s)..]);
    }
  }
}
