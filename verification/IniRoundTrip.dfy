/** Printing and parsing: calls that each meet the condition come back, for every handler. */
module IniRoundTrip {
  import opened Basics
  import opened IniText
  import opened IniGrammar
  import opened IniShape
  import opened IniDump
  import opened IniReadBack

  /** Every call reads back behind those in front of it. */
  ghost predicate AllReadBack(cfg: Config, calls: seq<Call>) {
    forall i :: 0 <= i < |calls| ==> ReadsBack(cfg, calls[..i], calls[i])
  }

  // ------------------------------------------------------------------ reading the pieces one by one

  /** What reading these pieces comes to. */
  ghost predicate At(cfg: Config, accepts: Handler, pieces: seq<string>, calls: seq<Call>, ctx: Context, e: nat) {
    Walk(Reading(cfg), pieces) == Walked(ctx, calls) && FirstFault(Reading(cfg), accepts, pieces) == e
  }

  lemma NothingStep(
      cfg: Config, accepts: Handler, done: seq<string>, piece: string, calls: seq<Call>, ctx: Context, e: nat)
    requires At(cfg, accepts, done, calls, ctx, e) && LineOf(cfg, piece, |done| + 1, ctx) == Nothing
    ensures At(cfg, accepts, done + [piece], calls, ctx, e)
  {
    var after := WalkSnoc(Reading(cfg), accepts, done, piece, Walked(ctx, calls), Nothing);
  }

  lemma {:induction false} BlanksStep(
      cfg: Config, accepts: Handler, done: seq<string>, more: seq<string>, calls: seq<Call>, ctx: Context, e: nat)
    requires At(cfg, accepts, done, calls, ctx, e) && forall p :: p in more ==> Blank(p)
    ensures At(cfg, accepts, done + more, calls, ctx, e)
    decreases |more|
  {
    if more == [] {
      assert done + more == done;
    } else {
      var n := |more| - 1;
      var most := done + more[..n];
      BlanksStep(cfg, accepts, done, more[..n], calls, ctx, e);
      assert more[n] in more;
      BlankRead(cfg, more[n], |most| + 1, ctx);
      NothingStep(cfg, accepts, most, more[n], calls, ctx, e);
      FrontAndLast(more);
      Assoc(done, more[..n], [more[n]]);
    }
  }

  lemma SectionStep(
      cfg: Config, accepts: Handler, done: seq<string>, section: string, calls: seq<Call>, ctx: Context, e: nat)
    requires At(cfg, accepts, done, calls, ctx, e) && SectionShape(section) && |section| < MAX_SECTION
    ensures At(cfg, accepts, done + [SectionLine(section)], calls, Context(section, ""), e)
  {
    SectionLineRead(cfg, section, |done| + 1, ctx);
    var after := WalkSnoc(Reading(cfg), accepts, done, SectionLine(section), Walked(ctx, calls), Section(section));
  }

  lemma TitleStep(
      cfg: Config, accepts: Handler, done: seq<string>, prev: string, section: string, calls: seq<Call>, ctx: Context,
      e: nat)
    requires At(cfg, accepts, done, calls, ctx, e) && SectionShape(section) && |section| < MAX_SECTION
    ensures At(cfg, accepts, done + Title(prev, section), calls,
               if section == prev then ctx else Context(section, ""), e)
  {
    if section == prev {
      assert done + Title(prev, section) == done;
    } else if prev == "" {
      SectionStep(cfg, accepts, done, section, calls, ctx, e);
    } else {
      assert Blank("\n");
      BlankRead(cfg, "\n", |done| + 1, ctx);
      NothingStep(cfg, accepts, done, "\n", calls, ctx, e);
      SectionStep(cfg, accepts, done + ["\n"], section, calls, ctx, e);
      assert (done + ["\n"]) + [SectionLine(section)] == done + Title(prev, section);
    }
  }

  /** The context after calls that were read back. */
  function ContextAfter(calls: seq<Call>): Context {
    if calls == [] then FRESH
    else
      var last := calls[|calls| - 1];
      Context(last.section, Truncate(last.name, MAX_NAME))
  }

  lemma {:induction false} RememberedLast(calls: seq<Call>)
    requires forall c :: c in calls ==> |c.section| < MAX_SECTION
    ensures Remembered(calls) == ContextAfter(calls).section
    decreases |calls|
  {
    if calls != [] {
      RememberedLast(calls[..|calls| - 1]);
    }
  }

  lemma PiecesNonempty(calls: seq<Call>)
    ensures AllPieces(calls) == [] <==> calls == []
  {
  }

  /** The pieces before the pair line of a call, and those up to it. */
  function BeforePair(front: seq<Call>, c: Call): seq<string> {
    AllPieces(front) + Title(Remembered(front), c.section)
  }

  function UpToPair(front: seq<Call>, c: Call): seq<string> {
    BeforePair(front, c) + [FirstPiece(c)]
  }

  lemma PiecesSnoc(front: seq<Call>, c: Call)
    ensures AllPieces(front + [c]) == UpToPair(front, c) + RestPieces(c)
  {
    assert (front + [c])[..|front|] == front;
    var title := Title(Remembered(front), c.section);
    assert (AllPieces(front) + title + [FirstPiece(c)]) + RestPieces(c)
           == AllPieces(front) + (title + ([FirstPiece(c)] + RestPieces(c)));
  }

  /** The pieces in front of a pair lead to the context its line is read in. */
  lemma BeforePairStep(cfg: Config, accepts: Handler, front: seq<Call>, c: Call, e: nat)
    requires At(cfg, accepts, AllPieces(front), front, ContextAfter(front), e)
    requires forall f :: f in front ==> |f.section| < MAX_SECTION
    requires SectionShape(c.section) && |c.section| < MAX_SECTION
    ensures At(cfg, accepts, BeforePair(front, c), front, PairContext(front, c), e)
    ensures |BeforePair(front, c)| == 0 <==> Leads(front, c)
  {
    RememberedLast(front);
    PiecesNonempty(front);
    TitleStep(cfg, accepts, AllPieces(front), Remembered(front), c.section, front, ContextAfter(front), e);
  }

  lemma PairLineStep(
      cfg: Config, accepts: Handler, done: seq<string>, piece: string, calls: seq<Call>, ctx: Context, e: nat, c: Call)
    requires At(cfg, accepts, done, calls, ctx, e) && ctx.section == c.section
    requires LineOf(cfg, piece, |done| + 1, ctx) == Pair(c.name, c.value)
    ensures At(cfg, accepts, done + [piece], calls + [c], Context(c.section, Truncate(c.name, MAX_NAME)),
               if e == 0 && !accepts(calls + [c]) then |done| + 1 else e)
  {
    var after := WalkSnoc(Reading(cfg), accepts, done, piece, Walked(ctx, calls), Pair(c.name, c.value));
  }

  /** A call that meets the condition is read back from its first piece, for which a rejection is reported. */
  lemma PairStep(cfg: Config, accepts: Handler, front: seq<Call>, c: Call, e: nat)
    requires At(cfg, accepts, AllPieces(front), front, ContextAfter(front), e)
    requires (forall f :: f in front ==> |f.section| < MAX_SECTION) && ReadsBack(cfg, front, c)
    ensures At(cfg, accepts, UpToPair(front, c), front + [c], ContextAfter(front + [c]),
               if e == 0 && !accepts(front + [c]) then |UpToPair(front, c)| else e)
  {
    var done, ctx := BeforePair(front, c), PairContext(front, c);
    BeforePairStep(cfg, accepts, front, c, e);
    assert LineOf(cfg, FirstPiece(c), |done| + 1, ctx) == Pair(c.name, c.value) by {
      FirstPieceRead(cfg, front, c, |done| + 1, ctx);
    }
    PairLineStep(cfg, accepts, done, FirstPiece(c), front, ctx, e, c);
    ContextAfterSnoc(front, c);
  }

  lemma ContextAfterSnoc(front: seq<Call>, c: Call)
    ensures ContextAfter(front + [c]) == Context(c.section, Truncate(c.name, MAX_NAME))
  {
  }

  /** Nothing else is read for it. */
  lemma CallStep(cfg: Config, accepts: Handler, front: seq<Call>, c: Call, e: nat)
    requires At(cfg, accepts, AllPieces(front), front, ContextAfter(front), e)
    requires (forall f :: f in front ==> |f.section| < MAX_SECTION) && ReadsBack(cfg, front, c)
    ensures At(cfg, accepts, AllPieces(front + [c]), front + [c], ContextAfter(front + [c]),
               if e == 0 && !accepts(front + [c]) then |UpToPair(front, c)| else e)
  {
    var e1 := if e == 0 && !accepts(front + [c]) then |UpToPair(front, c)| else e;
    PairStep(cfg, accepts, front, c, e);
    BodyOfFirstPiece(c);
    BlanksStep(cfg, accepts, UpToPair(front, c), RestPieces(c), front + [c], ContextAfter(front + [c]), e1);
    PiecesSnoc(front, c);
  }

  // ------------------------------------------------------------------ the round trip, for every handler

  /** How many calls a handler gets when it is called until it first rejects; 0 if it never does. */
  function FirstRejected(accepts: Handler, calls: seq<Call>): (r: nat)
    ensures r <= |calls|
  {
    if calls == [] then 0
    else
      var r := FirstRejected(accepts, calls[..|calls| - 1]);
      if r == 0 && !accepts(calls) then |calls| else r
  }

  lemma {:induction false} FirstRejectedMeans(accepts: Handler, calls: seq<Call>)
    ensures var r := FirstRejected(accepts, calls);
            && (r != 0 ==> !accepts(calls[..r]))
            && forall n :: 0 < n <= |calls| && (r == 0 || n < r) ==> accepts(calls[..n])
    decreases |calls|
  {
    if calls != [] {
      var front := calls[..|calls| - 1];
      FirstRejectedMeans(accepts, front);
      assert forall n :: 0 <= n < |calls| ==> calls[..n] == front[..n];
      assert calls[..|calls|] == calls;
    }
  }

  /** The number of the piece in which the first rejected call is read; 0 if there is none. */
  function RejectedLine(accepts: Handler, calls: seq<Call>): nat {
    var r := FirstRejected(accepts, calls);
    if r == 0 then 0 else |UpToPair(calls[..r - 1], calls[r - 1])|
  }

  lemma RejectedSnoc(accepts: Handler, front: seq<Call>, c: Call)
    ensures RejectedLine(accepts, front + [c])
            == if RejectedLine(accepts, front) == 0 && !accepts(front + [c]) then |UpToPair(front, c)|
               else RejectedLine(accepts, front)
  {
    var calls, r := front + [c], FirstRejected(accepts, front);
    assert calls[..|calls| - 1] == front;
    assert r > 0 ==> calls[..r - 1] == front[..r - 1];
  }

  lemma ReadBackFront(cfg: Config, calls: seq<Call>, n: nat)
    requires AllReadBack(cfg, calls) && n <= |calls|
    ensures AllReadBack(cfg, calls[..n])
    ensures forall c :: c in calls[..n] ==> Printable(c)
  {
    forall i | 0 <= i < n ensures ReadsBack(cfg, calls[..n][..i], calls[..n][i]) {
      assert calls[..n][..i] == calls[..i];
    }
  }

  lemma {:induction false} PiecesRead(cfg: Config, accepts: Handler, calls: seq<Call>)
    requires AllReadBack(cfg, calls)
    ensures At(cfg, accepts, AllPieces(calls), calls, ContextAfter(calls), RejectedLine(accepts, calls))
    decreases |calls|
  {
    if calls != [] {
      var n := |calls| - 1;
      var front, c := calls[..n], calls[n];
      assert front + [c] == calls;
      ReadBackFront(cfg, calls, n);
      PiecesRead(cfg, accepts, front);
      CallStep(cfg, accepts, front, c, RejectedLine(accepts, front));
      RejectedSnoc(accepts, front, c);
    }
  }

  /** Reading stops with a call's first piece as it does with all its pieces. */
  lemma UpToPairRead(cfg: Config, front: seq<Call>, c: Call)
    requires AllReadBack(cfg, front) && ReadsBack(cfg, front, c)
    requires forall f :: f in front ==> |f.section| < MAX_SECTION
    ensures Walk(Reading(cfg), UpToPair(front, c)).calls == front + [c]
  {
    var e := RejectedLine(Accepting(), front);
    PiecesRead(cfg, Accepting(), front);
    PairStep(cfg, Accepting(), front, c, e);
  }

  lemma {:induction false} UpToPairPrefix(calls: seq<Call>, front: seq<Call>, c: Call)
    requires front + [c] <= calls
    ensures UpToPair(front, c) <= AllPieces(calls)
    decreases |calls|
  {
    if front + [c] == calls {
      PiecesSnoc(front, c);
    } else {
      UpToPairPrefix(calls[..|calls| - 1], front, c);
    }
  }

  lemma ReadBackAt(cfg: Config, calls: seq<Call>, front: seq<Call>, c: Call)
    requires AllReadBack(cfg, calls) && front + [c] <= calls
    ensures AllReadBack(cfg, front) && ReadsBack(cfg, front, c)
    ensures forall f :: f in front ==> |f.section| < MAX_SECTION
  {
    assert calls[..|front|] == front && calls[|front|] == c;
    ReadBackFront(cfg, calls, |front|);
  }

  /** Printing and then parsing gives the calls back. The handler of the parse gets exactly the printed calls,
      in order; with the option to stop, up to the first it rejects. The error is the line of that call, and 0
      if the handler accepts them all. */
  lemma RoundTrip(cfg: Config, stop: bool, accepts: Handler, calls: seq<Call>)
    requires AllReadBack(cfg, calls)
    ensures var r := FirstRejected(accepts, calls);
            Meaning(cfg, stop, accepts, Printed(calls))
            == Outcome(if stop && r != 0 then calls[..r] else calls, RejectedLine(accepts, calls))
  {
    var r, e := FirstRejected(accepts, calls), RejectedLine(accepts, calls);
    ReadBackFront(cfg, calls, |calls|);
    assert calls[..|calls|] == calls;
    PiecesOfPrinted(calls);
    PiecesRead(cfg, accepts, calls);
    if stop && r != 0 {
      TakeSnoc(calls, r);
      StoppedRead(cfg, calls, calls[..r - 1], calls[r - 1]);
    }
  }

  lemma StoppedRead(cfg: Config, calls: seq<Call>, front: seq<Call>, c: Call)
    requires AllReadBack(cfg, calls) && front + [c] <= calls
    ensures var e := |UpToPair(front, c)|;
            e <= |AllPieces(calls)| && Walk(Reading(cfg), AllPieces(calls)[..e]).calls == front + [c]
  {
    var up := UpToPair(front, c);
    assert up <= AllPieces(calls) by { UpToPairPrefix(calls, front, c); }
    assert Walk(Reading(cfg), up).calls == front + [c] by {
      ReadBackAt(cfg, calls, front, c);
      UpToPairRead(cfg, front, c);
    }
    assert AllPieces(calls)[..|up|] == up;
  }
}
