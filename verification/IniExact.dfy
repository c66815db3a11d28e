/** The converse of the round trip: only calls that meet the condition survive printing and parsing. So printing is
    a normal form for exactly the files whose calls do. */
module IniExact {
  import opened Basics
  import opened IniText
  import opened IniGrammar
  import opened IniShape
  import opened IniDump
  import opened IniReadBack
  import opened IniRoundTrip

  // ------------------------------------------------------------------ lost calls

  /** The calls read from these pieces are not the first `n` or more of the calls printed. */
  ghost predicate Lost(cfg: Config, pieces: seq<string>, calls: seq<Call>, n: nat) {
    var got := Walk(Reading(cfg), pieces).calls;
    !(got <= calls) || |got| < n
  }

  /** Later pieces of a pair's line never report that pair: too little of the line is left. */
  lemma TailReports(cfg: Config, c: Call, piece: string, n: nat, ctx: Context)
    requires |piece| + MAX_PIECE <= |PairLine(c)| && |ctx.prevName| < MAX_NAME
    ensures c !in Reports(ctx, LineOf(cfg, piece, n, ctx))
  {
    var body := RStrip(piece[Offset(cfg, piece, n)..]);
    var text := LSkip(body);
    StripShortens(piece[Offset(cfg, piece, n)..]);
    SkipShortens(body);
    LineOfText(cfg, piece, n, ctx, body, text);
    if c in Reports(ctx, LineOf(cfg, piece, n, ctx)) {
      ReportLength(cfg, text, Offset(cfg, piece, n) + |body| > |text|, ctx, c);
      assert false;
    }
  }

  /** What a walk reports for one more piece. */
  lemma ReportedBy(cfg: Config, done: seq<string>, piece: string, before: Walked) returns (more: seq<Call>)
    requires before == Walk(Reading(cfg), done)
    ensures more == Reports(before.ctx, LineOf(cfg, piece, |done| + 1, before.ctx))
    ensures Walk(Reading(cfg), done + [piece]).calls == before.calls + more
    ensures |before.ctx.prevName| < MAX_NAME
  {
    var line := LineOf(cfg, piece, |done| + 1, before.ctx);
    more := Reports(before.ctx, line);
    var after := WalkSnoc(Reading(cfg), Accepting(), done, piece, before, line);
    CallsShapely(cfg, done);
  }

  lemma TailStep(cfg: Config, c: Call, done: seq<string>, piece: string, got: seq<Call>) returns (more: seq<Call>)
    requires |piece| + MAX_PIECE <= |PairLine(c)| && Walk(Reading(cfg), done).calls == got
    ensures Walk(Reading(cfg), done + [piece]).calls == got + more && c !in more
  {
    var before := Walk(Reading(cfg), done);
    more := ReportedBy(cfg, done, piece, before);
    TailReports(cfg, c, piece, |done| + 1, before.ctx);
  }

  lemma {:induction false} TailWalk(cfg: Config, c: Call, done: seq<string>, more: seq<string>, got: seq<Call>)
    returns (extra: seq<Call>)
    requires forall p :: p in more ==> |p| + MAX_PIECE <= |PairLine(c)|
    requires Walk(Reading(cfg), done).calls == got
    ensures Walk(Reading(cfg), done + more).calls == got + extra && c !in extra
    decreases |more|
  {
    if more == [] {
      extra := [];
      assert done + more == done;
    } else {
      var n := |more| - 1;
      var before := TailWalk(cfg, c, done, more[..n], got);
      var last := TailStep(cfg, c, done + more[..n], more[n], got + before);
      extra := before + last;
      FrontAndLast(more);
      Assoc(done, more[..n], [more[n]]);
      Assoc(got, before, last);
    }
  }

  lemma RestIsShort(c: Call)
    ensures forall p :: p in RestPieces(c) ==> |p| + MAX_PIECE <= |PairLine(c)|
  {
    PiecesCover(PairLine(c)[|FirstPiece(c)|..]);
  }

  /** The pieces of a title report nothing, whatever came before. */
  lemma TitleReports(cfg: Config, done: seq<string>, prev: string, section: string)
    requires SectionShape(section) && |section| < MAX_SECTION
    ensures Walk(Reading(cfg), done + Title(prev, section)).calls == Walk(Reading(cfg), done).calls
  {
    var w := Walk(Reading(cfg), done);
    TitleStep(cfg, Accepting(), done, prev, section, w.calls, w.ctx, FirstFault(Reading(cfg), Accepting(), done));
  }

  /** Once calls are lost, the pieces of the next call do not make up for it: it would have to be reported by a
      later piece of its own line. */
  lemma StaysLost(cfg: Config, calls: seq<Call>, done: seq<string>, prev: string, c: Call, n: nat)
    requires n < |calls| && calls[n] == c && SectionShape(c.section) && |c.section| < MAX_SECTION
    requires Lost(cfg, done, calls, n)
    ensures Lost(cfg, done + PiecesFor(prev, c), calls, n + 1)
  {
    var got := Walk(Reading(cfg), done).calls;
    var titled := done + Title(prev, c.section);
    TitleReports(cfg, done, prev, c.section);
    var first := ReportedBy(cfg, titled, FirstPiece(c), Walk(Reading(cfg), titled));
    RestIsShort(c);
    var extra := TailWalk(cfg, c, titled + [FirstPiece(c)], RestPieces(c), got + first);
    PiecesForAre(done, prev, c);
    NotMadeUp(calls, n, got, first, extra);
  }

  lemma PiecesForAre(done: seq<string>, prev: string, c: Call)
    ensures done + PiecesFor(prev, c) == (done + Title(prev, c.section) + [FirstPiece(c)]) + RestPieces(c)
  {
  }

  lemma NotMadeUp(calls: seq<Call>, n: nat, got: seq<Call>, first: seq<Call>, extra: seq<Call>)
    requires n < |calls| && calls[n] !in extra && |first| <= 1
    requires !(got <= calls) || |got| < n || (|got| == n && calls[n] !in first)
    ensures var all := got + first + extra; !(all <= calls) || |all| < n + 1
  {
    var all := got + first + extra;
    assert got <= all;
    assert n < |all| ==>
        all[n] == if n < |got| then got[n]
                  else if n < |got + first| then first[n - |got|]
                  else extra[n - |got + first|];
  }

  /** The first piece of a call that does not meet the condition does not report it. */
  lemma NotReported(cfg: Config, front: seq<Call>, c: Call) returns (first: seq<Call>)
    requires CallShape(cfg, c) && !ReadsBack(cfg, front, c)
    requires At(cfg, Accepting(), AllPieces(front), front, ContextAfter(front), 0)
    requires forall f :: f in front ==> |f.section| < MAX_SECTION
    ensures Walk(Reading(cfg), UpToPair(front, c)).calls == front + first && c !in first && |first| <= 1
  {
    var titled, ctx := BeforePair(front, c), PairContext(front, c);
    BeforePairStep(cfg, Accepting(), front, c, 0);
    first := ReportedBy(cfg, titled, FirstPiece(c), Walked(ctx, front));
    if c in first {
      FirstPieceReportsOnly(cfg, front, c, |titled| + 1, ctx);
    }
  }

  /** A call that does not meet the condition is lost. */
  lemma BecomesLost(cfg: Config, calls: seq<Call>, front: seq<Call>, c: Call)
    requires front + [c] <= calls && CallShape(cfg, c) && !ReadsBack(cfg, front, c)
    requires At(cfg, Accepting(), AllPieces(front), front, ContextAfter(front), 0)
    requires forall f :: f in front ==> |f.section| < MAX_SECTION
    ensures Lost(cfg, AllPieces(front + [c]), calls, |front| + 1)
  {
    var first := NotReported(cfg, front, c);
    RestIsShort(c);
    var extra := TailWalk(cfg, c, UpToPair(front, c), RestPieces(c), front + first);
    PiecesSnoc(front, c);
    assert calls[|front|] == c;
    NotMadeUp(calls, |front|, front, first, extra);
  }

  // ------------------------------------------------------------------ exactly when calls survive

  /** What has become of the first calls: all were read back, or some are lost. */
  ghost predicate Settled(cfg: Config, calls: seq<Call>, front: seq<Call>) {
    && (AllReadBack(cfg, front) ==> At(cfg, Accepting(), AllPieces(front), front, ContextAfter(front), 0))
    && (!AllReadBack(cfg, front) ==> Lost(cfg, AllPieces(front), calls, |front|))
  }

  lemma {:induction false} Fate(cfg: Config, calls: seq<Call>, front: seq<Call>)
    requires front <= calls && forall c :: c in calls ==> CallShape(cfg, c)
    ensures Settled(cfg, calls, front)
    decreases |front|
  {
    if front != [] {
      var before, c := front[..|front| - 1], front[|front| - 1];
      FrontAndLast(front);
      PrefixMembers(front, calls);
      PrefixMembers(before, front);
      Fate(cfg, calls, before);
      FateStep(cfg, calls, before, c);
    }
  }

  lemma FateStep(cfg: Config, calls: seq<Call>, front: seq<Call>, c: Call)
    requires front + [c] <= calls && CallShape(cfg, c) && forall f :: f in front ==> |f.section| < MAX_SECTION
    requires Settled(cfg, calls, front)
    ensures Settled(cfg, calls, front + [c])
  {
    ReadBackSnoc(cfg, front, c);
    if !AllReadBack(cfg, front) {
      assert calls[|front|] == c;
      StaysLost(cfg, calls, AllPieces(front), Remembered(front), c, |front|);
      PiecesOfSnoc(front, c);
    } else if ReadsBack(cfg, front, c) {
      CallStep(cfg, Accepting(), front, c, 0);
    } else {
      BecomesLost(cfg, calls, front, c);
    }
  }

  lemma PiecesOfSnoc(front: seq<Call>, c: Call)
    ensures AllPieces(front + [c]) == AllPieces(front) + PiecesFor(Remembered(front), c)
  {
    assert (front + [c])[..|front|] == front;
  }

  lemma ReadBackSnoc(cfg: Config, front: seq<Call>, c: Call)
    ensures AllReadBack(cfg, front + [c]) <==> AllReadBack(cfg, front) && ReadsBack(cfg, front, c)
  {
    var calls := front + [c];
    assert calls[..|front|] == front;
    assert forall i :: 0 <= i < |front| ==> calls[..i] == front[..i] && calls[i] == front[i];
    if AllReadBack(cfg, calls) {
      forall i | 0 <= i < |front| ensures ReadsBack(cfg, front[..i], front[i]) {
        assert ReadsBack(cfg, calls[..i], calls[i]);
      }
      assert ReadsBack(cfg, calls[..|front|], calls[|front|]);
    }
  }

  /** Exactly the calls that meet the condition, each behind those in front of it, survive: parsing what is printed
      gives the same calls and no error if and only if they do. */
  lemma RoundTripExactly(cfg: Config, stop: bool, calls: seq<Call>)
    requires NUL !in Printed(calls)
    ensures Meaning(cfg, stop, Accepting(), Printed(calls)) == Outcome(calls, 0) <==> AllReadBack(cfg, calls)
  {
    assert calls[..|calls|] == calls;
    if AllReadBack(cfg, calls) {
      RoundTrip(cfg, stop, Accepting(), calls);
      FirstRejectedMeans(Accepting(), calls);
    } else if Meaning(cfg, stop, Accepting(), Printed(calls)) == Outcome(calls, 0) {
      MeaningShape(cfg, stop, Accepting(), Printed(calls));
      PiecesOfPrinted(calls);
      Fate(cfg, calls, calls);
      assert false;
    }
  }

  // ------------------------------------------------------------------ what a parse reports

  /** What it takes for a call that a parse reported to read back. */
  ghost predicate Survives(cfg: Config, front: seq<Call>, c: Call) {
    && |Body(c)| <= MAX_PIECE
    && (cfg.multiline ==> Trimmed(c.name) && !HasComment(c.value) && (c.name == "" ==> !Carried(front, c)))
    && (cfg.bom && Leads(front, c) ==> !(BOM <= c.name))
  }

  /** Printing is a normal form, exactly: the calls a file reports come back from their printed form if and only if
      each still fits a line, no leading name looks like a byte-order mark, and, where lines may continue values, no
      value holds what looks like a comment, no name was cut off behind a blank, and none is empty behind another
      name of its section. */
  lemma PrintedIsNormalExactly(cfg: Config, stop: bool, accepts: Handler, file: string)
    requires NUL !in file
    ensures var calls := Meaning(cfg, stop, accepts, file).calls;
            Meaning(cfg, stop, Accepting(), Printed(calls)) == Outcome(calls, 0)
            <==> forall i :: 0 <= i < |calls| ==> Survives(cfg, calls[..i], calls[i])
  {
    var calls := Meaning(cfg, stop, accepts, file).calls;
    MeaningShape(cfg, stop, accepts, file);
    assert NUL !in Printed(calls) by { PrintedClean(calls); }
    RoundTripExactly(cfg, stop, calls);
    forall i | 0 <= i < |calls| ensures ReadsBack(cfg, calls[..i], calls[i]) <==> Survives(cfg, calls[..i], calls[i]) {
      assert calls[i] in calls;
      ShapedReadsBack(cfg, calls[..i], calls[i]);
    }
  }

  lemma ShapedReadsBack(cfg: Config, front: seq<Call>, c: Call)
    requires CallShape(cfg, c)
    ensures ReadsBack(cfg, front, c) <==> Survives(cfg, front, c)
  {
  }

  function TightLine(c: Call): string {
    (c.name + ("=" + c.value)) + "\n"
  }

  /** A call that can be written as a pair without blanks. */
  ghost predicate Tight(c: Call) {
    && NameShape(c.name) && Trimmed(c.name) && Plain(c.value) && Trimmed(c.value)
    && OneLine(TightLine(c)) && |TightLine(c)| <= MAX_PIECE
  }

  lemma TightStep(cfg: Config, done: seq<string>, calls: seq<Call>, ctx: Context, c: Call)
    requires Tight(c) && done != [] && ctx.section == c.section && At(cfg, Accepting(), done, calls, ctx, 0)
    ensures At(cfg, Accepting(), done + [TightLine(c)], calls + [c],
               Context(c.section, Truncate(c.name, MAX_NAME)), 0)
  {
    TightRead(cfg, c.name, c.value, "\n", |done| + 1, ctx);
    PairLineStep(cfg, Accepting(), done, TightLine(c), calls, ctx, 0, c);
  }

  /** A section with two pairs means these two calls. */
  lemma TightFile(cfg: Config, stop: bool, first: Call, second: Call)
    requires Tight(first) && Tight(second) && first.section == second.section
    requires SectionShape(first.section) && |first.section| < MAX_SECTION
    ensures var file := SectionLine(first.section) + (TightLine(first) + TightLine(second));
            Meaning(cfg, stop, Accepting(), file) == Outcome([first, second], 0)
  {
    var one, two, three := SectionLine(first.section), TightLine(first), TightLine(second);
    assert Pieces(one + (two + three)) == [one] + ([two] + [three]) by {
      SectionLineOneLine(first.section);
      ThreePieces(one, two, three);
    }
    TightWalk(cfg, first, second);
    assert [one] + [two] + [three] == [one] + ([two] + [three]);
  }

  lemma TightWalk(cfg: Config, first: Call, second: Call)
    requires Tight(first) && Tight(second) && first.section == second.section
    requires SectionShape(first.section) && |first.section| < MAX_SECTION
    ensures At(cfg, Accepting(), [SectionLine(first.section)] + [TightLine(first)] + [TightLine(second)],
               [first, second], Context(first.section, Truncate(second.name, MAX_NAME)), 0)
  {
    var one, two := [SectionLine(first.section)], [SectionLine(first.section)] + [TightLine(first)];
    var none: seq<string> := [];
    SectionStep(cfg, Accepting(), none, first.section, [], FRESH, 0);
    assert none + one == one && [] + [first] == [first] && [first] + [second] == [first, second];
    TightStep(cfg, one, [], Context(first.section, ""), first);
    TightStep(cfg, two, [first], Context(first.section, Truncate(first.name, MAX_NAME)), second);
  }

  /** A file that is not normal: a pair without a name, printed behind another pair of its section, becomes a
      continuation line. */
  lemma EmptyNameLost(bom: bool, stop: bool)
    ensures var cfg := Config(true, bom);
            var calls := Meaning(cfg, stop, Accepting(), "[s]\na=1\n=2\n").calls;
            && calls == [Call("s", "a", "1"), Call("s", "", "2")]
            && Meaning(cfg, stop, Accepting(), Printed(calls)) != Outcome(calls, 0)
  {
    var first, second := Call("s", "a", "1"), Call("s", "", "2");
    assert TightLine(first) == "a=1\n" && TightLine(second) == "=2\n" && SectionLine("s") == "[s]\n";
    assert "[s]\na=1\n=2\n" == "[s]\n" + ("a=1\n" + "=2\n");
    TightFile(Config(true, bom), stop, first, second);
    NotReadBack(Config(true, bom), stop, first, second);
  }

  lemma ThreePieces(one: string, two: string, three: string)
    requires EndsLine(one) && EndsLine(two) && OneLine(one) && OneLine(two) && OneLine(three)
    requires 0 < |one| <= MAX_PIECE && 0 < |two| <= MAX_PIECE && 0 < |three| <= MAX_PIECE
    ensures Pieces(one + (two + three)) == [one] + ([two] + [three])
  {
    PiecesAppend(one, two + three);
    PiecesAppend(two, three);
    PiecesOfLine(one);
    PiecesOfLine(two);
    PiecesOfLine(three);
  }

  lemma NotReadBack(cfg: Config, stop: bool, first: Call, second: Call)
    requires cfg.multiline && first.name != "" && second.name == "" && first.section == second.section
    requires forall c :: c in [first, second] ==> NUL !in c.section && NUL !in c.name && NUL !in c.value
    ensures Meaning(cfg, stop, Accepting(), Printed([first, second])) != Outcome([first, second], 0)
  {
    var calls := [first, second];
    PrintedClean(calls);
    assert calls[..1] == [first] && Carried([first], second);
    assert !ReadsBack(cfg, calls[..1], calls[1]);
    RoundTripExactly(cfg, stop, calls);
  }

  // ------------------------------------------------------------------ well-formed calls

  /** A call that reads back wherever it stands: the section is free of ']' and fits, the name is a trimmed nonempty
      text without '=' that does not look like a section or comment, the value is trimmed, nothing looks like a
      comment, and the line fits the parser's buffer. */
  ghost predicate WellFormed(c: Call) {
    && Plain(c.section) && ']' !in c.section && |c.section| < MAX_SECTION
    && Plain(c.name) && '=' !in c.name && c.name != "" && Trimmed(c.name)
    && c.name[0] != '[' && c.name[0] != ';' && c.name[0] != '#'
    && Plain(c.value) && Trimmed(c.value)
    && |PairLine(c)| <= MAX_PIECE
  }

  /** The first line printed does not start with what would be taken for a byte-order mark. */
  ghost predicate NoLeadingBom(calls: seq<Call>) {
    calls != [] && calls[0].section == "" ==> !(BOM <= calls[0].name)
  }

  /** Well-formed calls survive printing and parsing. */
  lemma WellFormedReadBack(cfg: Config, calls: seq<Call>)
    requires (forall c :: c in calls ==> WellFormed(c)) && (cfg.bom ==> NoLeadingBom(calls))
    ensures AllReadBack(cfg, calls)
  {
    forall i | 0 <= i < |calls| ensures ReadsBack(cfg, calls[..i], calls[i]) {
      assert WellFormed(calls[i]);
      assert calls[..i] == [] <==> i == 0;
    }
  }

  lemma LinesClean(prev: string, c: Call)
    requires NUL !in c.section && NUL !in c.name && NUL !in c.value
    ensures NUL !in Concat(LinesFor(prev, c))
  {
    ConcatLinesFor(prev, c);
    assert NUL !in PairLine(c) && NUL !in SectionLine(c.section);
  }

  lemma {:induction false} PrintedClean(calls: seq<Call>)
    requires forall c :: c in calls ==> NUL !in c.section && NUL !in c.name && NUL !in c.value
    ensures NUL !in Printed(calls)
    decreases |calls|
  {
    if calls != [] {
      var front, c := calls[..|calls| - 1], calls[|calls| - 1];
      PrintedClean(front);
      LinesClean(Remembered(front), c);
      ConcatAppend(Lines(front), LinesFor(Remembered(front), c));
    }
  }
}
