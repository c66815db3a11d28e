/** The table of payload handlers and the receive loop that feeds it. */
module Dispatch {
  import opened Basics
  import opened Frames
  import opened Messages

  /** The handlers an application can register, named by the function they stand for. */
  datatype Handler =
    | HandleStdReply
    | HandleDelayedResponseReq
    | HandleGlcReq
    | HandleGlcReply
    | HandlePublishReq
    | HandlePublishReply

  const MT_STD_REPLY: uint32 := 1
  const MT_DELAYED_RESPONSE_REQ: uint32 := 2
  const MT_GLOBAL_LOG_CONFIG_REQ: uint32 := 3
  const MT_GLOBAL_LOG_CONFIG_REPLY: uint32 := 4
  const MT_PUBLISH_REQ: uint32 := 5
  const MT_PUBLISH_REPLY: uint32 := 6
  const MT_MAX: uint32 := 7

  type Table = t: seq<Option<Handler>> | |t| == MT_MAX witness [None, None, None, None, None, None, None]

  /** The handler of a payload type, if it has one. */
  function CbFuncs(cbs: Table, payloadType: uint32): Option<Handler> {
    if 0 < payloadType < MT_MAX then cbs[payloadType] else None
  }

  /** One handler invocation. */
  datatype Call = Call(handler: Handler, frame: Frame)

  /** The invocations a list of frames leads to: packets without payload are skipped,
      and so are types nobody registered. */
  function Calls(cbs: Table, frames: seq<Frame>): seq<Call> {
    if frames == [] then []
    else CallOf(cbs, frames[0]) + Calls(cbs, frames[1..])
  }

  function CallOf(cbs: Table, f: Frame): seq<Call> {
    var handler := CbFuncs(cbs, Le32(f, 8));
    if |f| == HDR || handler == None then [] else [Call(handler.value, f)]
  }

  /** The handlers of the deployed program. */
  const ALL_CBS: Table :=
    [None, Some(HandleStdReply), Some(HandleDelayedResponseReq), Some(HandleGlcReq), Some(HandleGlcReply),
     Some(HandlePublishReq), Some(HandlePublishReply)]

  class Registry {
    const pbcbs: array<Option<Handler>>

    ghost predicate Valid() {
      pbcbs.Length == MT_MAX
    }

    ghost function Cbs(): Table
      requires Valid()
      reads pbcbs
    {
      pbcbs[..]
    }

    constructor ()
      ensures Valid() && fresh(pbcbs) && forall t :: 0 <= t < MT_MAX ==> pbcbs[t] == None
    {
      pbcbs := new Option<Handler>[MT_MAX](_ => None);
    }

    method RegisterCb(payloadType: uint32, func: Handler)
      requires Valid()
      modifies pbcbs
      ensures Cbs() == if 1 <= payloadType <= 6 then old(Cbs())[payloadType := Some(func)] else old(Cbs())
    {
      if 0 < payloadType < MT_MAX {
        pbcbs[payloadType] := Some(func);
      }
    }

    method RegisterAllCbs()
      requires Valid()
      modifies pbcbs
      ensures Cbs() == [old(pbcbs[0])] + ALL_CBS[1..]
      ensures pbcbs[1] == Some(HandleStdReply) && pbcbs[2] == Some(HandleDelayedResponseReq)
      ensures pbcbs[3] == Some(HandleGlcReq) && pbcbs[4] == Some(HandleGlcReply)
      ensures pbcbs[5] == Some(HandlePublishReq) && pbcbs[6] == Some(HandlePublishReply)
    {
      RegisterCb(MT_GLOBAL_LOG_CONFIG_REQ, HandleGlcReq);
      RegisterCb(MT_GLOBAL_LOG_CONFIG_REPLY, HandleGlcReply);
      RegisterCb(MT_PUBLISH_REQ, HandlePublishReq);
      RegisterCb(MT_PUBLISH_REPLY, HandlePublishReply);
      RegisterCb(MT_DELAYED_RESPONSE_REQ, HandleDelayedResponseReq);
      RegisterCb(MT_STD_REPLY, HandleStdReply);
    }

    function CbFunc(payloadType: uint32): (func: Option<Handler>)
      requires Valid()
      reads pbcbs
      ensures func == CbFuncs(Cbs(), payloadType)
    {
      if 0 < payloadType < MT_MAX then pbcbs[payloadType] else None
    }

    /** Runs the handler of the packet at `location`, if its type has one. */
    method RunHandler(data: Bytes, location: nat, payloadType: uint32, calls: seq<Call>, ghost done: seq<Frame>)
      returns (more: seq<Call>, ghost taken: seq<Frame>)
      requires Valid() && Taken(Cbs(), data, location, done, calls)
      requires location + HDR <= |data| && payloadType == Le32(data, location + 8)
      requires HDR < Le32(data, location) && location + Le32(data, location) <= |data|
      ensures var func := CbFuncs(Cbs(), payloadType);
              more == if func == None then calls else calls + [Call(func.value, FrameAt(data, location))]
      ensures Taken(Cbs(), data, location + Le32(data, location), taken, more)
    {
      taken := TakeFrame(Cbs(), data, location, done, calls);
      var func := CbFunc(payloadType);
      more := if func != None then calls + [Call(func.value, FrameAt(data, location))] else calls;
    }

    /** Cuts received bytes into frames and runs their handlers, in order; returns how many bytes
        at the end were not consumed. `data` is the memory a read hands over: `siz` bytes from
        `buf.base`. */
    method ProcessMsg(data: Bytes) returns (leftover: nat, calls: seq<Call>)
      requires Valid()
      ensures leftover == |Parse(data).rest|
      ensures calls == Calls(old(Cbs()), Parse(data).frames)
    {
      leftover, calls := |data|, [];
      var location := 0;
      ghost var done: seq<Frame> := [];
      while leftover >= HDR
        invariant location + leftover == |data|
        invariant Taken(Cbs(), data, location, done, calls)
        decreases leftover
      {
        var packetLength, payloadType := Le32(data, location), Le32(data, location + 8);
        if packetLength < HDR {
          leftover := 0;
          Stop(Cbs(), data, location, done, calls);
          return;
        }
        if leftover < packetLength {
          break;
        }
        if packetLength == HDR {
          done := TakeFrame(Cbs(), data, location, done, calls);
          leftover, location := leftover - packetLength, location + packetLength;
          continue;
        }
        calls, done := RunHandler(data, location, payloadType, calls, done);
        leftover, location := leftover - packetLength, location + packetLength;
      }
      Stop(Cbs(), data, location, done, calls);
    }

    /** The receive loop with the shared header check in place of its own: it stops where the check says the header
        is invalid or more bytes are needed, and leaves it to the check to step over empty packets. */
    method ProcessChecked(data: Bytes) returns (leftover: nat, calls: seq<Call>)
      requires Valid()
      ensures leftover == |Parse(data).rest|
      ensures calls == Calls(old(Cbs()), Parse(data).frames)
    {
      leftover, calls := |data|, [];
      var location := 0;
      ghost var done: seq<Frame> := [];
      while leftover >= HDR
        invariant location + leftover == |data|
        invariant Taken(Cbs(), data, location, done, calls)
        decreases leftover
      {
        ghost var here := location;
        var packetLength, payloadType := Le32(data, location), Le32(data, location + 8);
        var disposition;
        disposition, leftover, location := ValidatePbMsgCommon(data, leftover, location);
        if disposition == PB_MSG_DISP_INVALID {
          Stop(Cbs(), data, here, done, calls);
          return;
        }
        if disposition == PB_MSG_DISP_READ_MORE {
          break;
        }
        if disposition == PB_MSG_DISP_EMPTY {
          done := TakeFrame(Cbs(), data, here, done, calls);
          continue;
        }
        calls, done := RunHandler(data, location, payloadType, calls, done);
        leftover, location := leftover - packetLength, location + packetLength;
      }
      Stop(Cbs(), data, location, done, calls);
    }
  }

  // ------------------------------------------------------------------ the shared header check

  const PB_MSG_DISP_INVALID: nat := 2
  const PB_MSG_DISP_READ_MORE: nat := 3
  const PB_MSG_DISP_EMPTY: nat := 4

  /** Checks the header at `location`. An invalid one drops what is left, an empty packet is stepped over, and 0
      says that a complete packet with payload is there. */
  method ValidatePbMsgCommon(data: Bytes, leftover: nat, location: nat)
    returns (disposition: nat, newLeftover: nat, newLocation: nat)
    requires location + leftover == |data| && leftover >= HDR
    ensures var n := Le32(data, location);
            && (disposition == 0 <==> 32 < n <= leftover)
            && (disposition == 2 <==> n < 32)
            && (disposition == 3 <==> 32 <= n && leftover < n)
            && (disposition == 4 <==> n == 32)
    ensures newLocation == if disposition == 4 then location + 32 else location
    ensures newLeftover == if disposition == 2 then 0 else |data| - newLocation
  {
    disposition, newLeftover, newLocation := 0, leftover, location;
    var packetLength := Le32(data, location);
    if packetLength < HDR {
      return PB_MSG_DISP_INVALID, 0, location;
    }
    if leftover < packetLength {
      return PB_MSG_DISP_READ_MORE, leftover, location;
    }
    if packetLength == HDR {
      return PB_MSG_DISP_EMPTY, leftover - packetLength, location + packetLength;
    }
  }

  // ------------------------------------------------------------------ the receive loop

  /** The frame that starts at `location`. */
  function FrameAt(data: Bytes, location: nat): (f: Frame)
    requires location + HDR <= |data|
    requires HDR <= Le32(data, location) && location + Le32(data, location) <= |data|
    ensures |f| == Le32(data, location) && Le32(f, 8) == Le32(data, location + 8)
    ensures f == data[location..location + |f|]
  {
    var f := data[location..location + Le32(data, location)];
    assert forall i :: 0 <= i < HDR ==> f[i] == data[location + i];
    f
  }

  lemma HeaderAt(data: Bytes, location: nat)
    requires location + HDR <= |data|
    ensures Declared(data[location..]) == Le32(data, location)
  {
    assert forall i :: 0 <= i < HDR ==> data[location..][i] == data[location + i];
  }

  /** The bytes before `location` are the frames taken so far, and their handlers have run. */
  ghost predicate Taken(cbs: Table, data: Bytes, location: nat, done: seq<Frame>, calls: seq<Call>) {
    location <= |data| && Join(done) == data[..location] && calls == Calls(cbs, done)
  }

  lemma TakeFrame(cbs: Table, data: Bytes, location: nat, done: seq<Frame>, calls: seq<Call>)
    returns (more: seq<Frame>)
    requires Taken(cbs, data, location, done, calls)
    requires location + HDR <= |data|
    requires HDR <= Le32(data, location) && location + Le32(data, location) <= |data|
    ensures var frame := FrameAt(data, location); var func := CbFuncs(cbs, Le32(data, location + 8));
            more == done + [frame]
            && Taken(cbs, data, location + |frame|, more,
                     if |frame| == HDR || func == None then calls else calls + [Call(func.value, frame)])
  {
    var frame := FrameAt(data, location);
    more := done + [frame];
    assert Join(more) == data[..location + |frame|] by {
      JoinSnoc(done, frame);
      assert data[..location] + data[location..location + |frame|] == data[..location + |frame|];
    }
    assert Calls(cbs, more) == calls + CallOf(cbs, frame) by {
      CallsAppend(cbs, done, [frame]);
      CallsOne(cbs, frame);
    }
    assert calls + [] == calls;
  }

  /** When no complete frame is ahead, the frames consumed so far are all there are. */
  lemma Stop(cbs: Table, all: Bytes, location: nat, done: seq<Frame>, calls: seq<Call>)
    requires Taken(cbs, all, location, done, calls)
    requires location + HDR <= |all| ==>
               Le32(all, location) < HDR || |all| < location + Le32(all, location)
    ensures calls == Calls(cbs, Parse(all).frames)
    ensures |Parse(all).rest|
            == if location + HDR <= |all| && Le32(all, location) < HDR then 0 else |all| - location
  {
    if location + HDR <= |all| {
      HeaderAt(all, location);
    }
    ParseComplete(done, all[location..]);
    assert all[..location] + all[location..] == all;
  }

  lemma CallsOne(cbs: Table, f: Frame)
    ensures Calls(cbs, [f]) == CallOf(cbs, f)
  {
    assert Calls(cbs, [f]) == CallOf(cbs, f) + Calls(cbs, [f][1..]);
  }

  lemma {:induction false} CallsAppend(cbs: Table, a: seq<Frame>, b: seq<Frame>)
    ensures Calls(cbs, a + b) == Calls(cbs, a) + Calls(cbs, b)
    decreases |a|
  {
    if a == [] {
      assert a + b == b;
    } else {
      CallsAppend(cbs, a[1..], b);
      TailOfAppend(a, b);
      Assoc(CallOf(cbs, a[0]), Calls(cbs, a[1..]), Calls(cbs, b));
    }
  }

  /** Number of the payload type in a header. */
  ghost predicate HasType(f: Frame, k: Byte) {
    f[8] == k && f[9] == f[10] == f[11] == 0
  }

  /** What happens to a frame that has arrived, in the deployed program: a packet without payload and one of a type
      other than 1 to 6 is dropped, and for any other the handler of its type runs. */
  lemma FrameHandled(cbs: Table, f: Frame)
    requires cbs[1..] == ALL_CBS[1..]
    ensures Parse(f) == Cut([f], [], false)
    ensures |f| > 32 && HasType(f, 1) ==> Calls(cbs, [f]) == [Call(HandleStdReply, f)]
    ensures |f| > 32 && HasType(f, 2) ==> Calls(cbs, [f]) == [Call(HandleDelayedResponseReq, f)]
    ensures |f| > 32 && HasType(f, 3) ==> Calls(cbs, [f]) == [Call(HandleGlcReq, f)]
    ensures |f| > 32 && HasType(f, 4) ==> Calls(cbs, [f]) == [Call(HandleGlcReply, f)]
    ensures |f| > 32 && HasType(f, 5) ==> Calls(cbs, [f]) == [Call(HandlePublishReq, f)]
    ensures |f| > 32 && HasType(f, 6) ==> Calls(cbs, [f]) == [Call(HandlePublishReply, f)]
    ensures |f| == 32 || (forall k: Byte :: HasType(f, k) ==> k == 0 || k > 6) ==> Calls(cbs, [f]) == []
  {
    CallsOne(cbs, f);
    OneFrame(f);
    forall k: uint32 | 1 <= k <= 6 ensures CbFuncs(cbs, k) == ALL_CBS[k] {
      assert cbs[k] == cbs[1..][k - 1];
    }
    TypeRead(f);
    if 1 <= Le32(f, 8) <= 6 {
      var k: Byte := Le32(f, 8);
      assert HasType(f, k);
    }
  }

  lemma OneFrame(f: Frame)
    ensures Parse(f) == Cut([f], [], false)
  {
    ParseComplete([f], []);
    assert Join([f]) == f + Join([]);
    assert Join([f]) + [] == f;
  }

  lemma TypeRead(f: Frame)
    ensures forall k: Byte :: HasType(f, k) <==> Le32(f, 8) == k
  {
  }

  // ------------------------------------------------------------------ what the peer's messages become

  /** The invocations a list of sent messages should lead to, as handler and content. */
  function Expected(cbs: Table, ms: seq<Message>): seq<(Handler, Delivery)> {
    if ms == [] then []
    else
      var m := ms[0];
      var handler := CbFuncs(cbs, m.payloadType);
      (if m.payload == [] || handler == None then []
       else [(handler.value, Delivery(m.payloadType, m.sessionId, m.randomId, m.payload))])
      + Expected(cbs, ms[1..])
  }

  /** The invocations made, as handler and content. */
  function Seen(calls: seq<Call>): seq<(Handler, Delivery)> {
    if calls == [] then []
    else [(calls[0].handler, FrameView(calls[0].frame))] + Seen(calls[1..])
  }

  lemma SeenAfter(first: seq<Call>, more: seq<Call>)
    requires |first| <= 1
    ensures Seen(first + more) == Seen(first) + Seen(more)
  {
    if first == [] {
      assert first + more == more;
    } else {
      TailOfAppend(first, more);
      Assoc([(first[0].handler, FrameView(first[0].frame))], Seen(first[1..]), Seen(more));
    }
  }

  lemma {:induction false} WiresSeen(cbs: Table, ms: seq<Message>)
    requires forall m :: m in ms ==> m.Sendable()
    ensures Seen(Calls(cbs, Wires(ms))) == Expected(cbs, ms)
    decreases |ms|
  {
    if ms != [] {
      var rest := ms[1..];
      assert Wires(ms)[1..] == Wires(rest);
      SeenAfter(CallOf(cbs, Wire(ms[0])), Calls(cbs, Wires(rest)));
      WireSeen(cbs, ms[0]);
      WiresSeen(cbs, rest);
    }
  }

  lemma WireSeen(cbs: Table, m: Message)
    requires m.Sendable()
    ensures var handler := CbFuncs(cbs, m.payloadType);
            Seen(CallOf(cbs, Wire(m)))
            == if m.payload == [] || handler == None then []
               else [(handler.value, Delivery(m.payloadType, m.sessionId, m.randomId, m.payload))]
  {
    WireView(m);
  }

  /** Frame round trip over any chunking: whatever pieces the encoded messages arrive in, the
      handlers run are those of the messages with a payload, in order, with the fields and payload
      that were sent, and nothing is left over. */
  lemma MessagesArrive(cbs: Table, ms: seq<Message>, chunks: seq<Bytes>)
    requires forall m :: m in ms ==> m.Sendable()
    requires Join(chunks) == WireAll(ms)
    ensures Seen(Calls(cbs, FeedAll([], chunks).frames)) == Expected(cbs, ms)
    ensures FeedAll([], chunks).kept == []
  {
    WireAllParses(ms);
    assert [] + Join(chunks) == Join(chunks);
    ChunkingDoesNotMatter([], chunks);
    WiresSeen(cbs, ms);
  }
}
