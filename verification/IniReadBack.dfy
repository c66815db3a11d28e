/** Printed lines under the parser: the pieces they are read in, and exactly when the line of a call is read as
    that call. */
module IniReadBack {
  import opened Basics
  import opened IniText
  import opened IniGrammar
  import opened IniShape
  import opened IniDump

  // ------------------------------------------------------------------ pieces of a printed line

  /** A printed pair without the white space at its end. */
  function Body(c: Call): string {
    if c.value == "" then c.name + " =" else c.name + " = " + c.value
  }

  function Pad(c: Call): string {
    if c.value == "" then " \n" else "\n"
  }

  lemma PairLineIs(c: Call)
    ensures PairLine(c) == Body(c) + Pad(c)
  {
    if c.value == "" {
      assert PairLine(c) == (c.name + " =") + " \n";
    }
  }

  /** As much of a pair's line as the first read returns, and the pieces that later reads return. */
  function FirstPiece(c: Call): (p: string)
    ensures p <= PairLine(c) && 0 < |p| <= MAX_PIECE
  {
    if |PairLine(c)| <= MAX_PIECE then PairLine(c) else PairLine(c)[..MAX_PIECE]
  }

  function RestPieces(c: Call): seq<string> {
    Pieces(PairLine(c)[|FirstPiece(c)|..])
  }

  /** A call whose texts have no line breaks, and whose section fits. */
  ghost predicate Printable(c: Call) {
    Clean(c.section) && |c.section| < MAX_SECTION && Clean(c.name) && Clean(c.value)
  }

  lemma PairLineOneLine(c: Call)
    requires Printable(c)
    ensures OneLine(PairLine(c)) && EndsLine(PairLine(c))
  {
    var l := PairLine(c);
    forall i | 0 <= i < |l| - 1 ensures l[i] != '\n' {
      if i < |c.name| {
        assert l[i] == c.name[i];
      } else if i >= |c.name| + 3 {
        assert l[i] == c.value[i - |c.name| - 3];
      }
    }
  }

  lemma PiecesOfPair(c: Call)
    requires Printable(c)
    ensures Pieces(PairLine(c)) == [FirstPiece(c)] + RestPieces(c)
  {
    var line := PairLine(c);
    PairLineOneLine(c);
    PieceLenOfLine(line, MAX_PIECE);
    assert line[..|FirstPiece(c)|] == FirstPiece(c);
  }

  lemma SectionLineOneLine(section: string)
    requires Clean(section)
    ensures OneLine(SectionLine(section)) && EndsLine(SectionLine(section))
  {
    var l := SectionLine(section);
    forall i | 0 <= i < |l| - 1 ensures l[i] != '\n' {
      if 0 < i <= |section| {
        assert l[i] == section[i - 1];
      }
    }
  }

  /** The pieces the lines of one call are read in. */
  function PiecesFor(prev: string, c: Call): seq<string> {
    Title(prev, c.section) + ([FirstPiece(c)] + RestPieces(c))
  }

  lemma PiecesOfTitle(prev: string, section: string)
    requires Clean(section) && |section| < MAX_SECTION
    ensures EndsLine(Concat(Title(prev, section))) && Pieces(Concat(Title(prev, section))) == Title(prev, section)
  {
    var line := SectionLine(section);
    SectionLineOneLine(section);
    PiecesOfLine(line);
    ConcatOne(line);
    if section != prev && prev != "" {
      assert Title(prev, section) == ["\n"] + [line];
      ConcatAppend(["\n"], [line]);
      ConcatOne("\n");
      PiecesOfLine("\n");
      PiecesAppend("\n", line);
    }
  }

  lemma PiecesOfLines(prev: string, c: Call)
    requires Printable(c)
    ensures Pieces(Concat(LinesFor(prev, c))) == PiecesFor(prev, c)
    ensures EndsLine(Concat(LinesFor(prev, c)))
  {
    ConcatAppend(Title(prev, c.section), [PairLine(c)]);
    ConcatOne(PairLine(c));
    PairLineOneLine(c);
    PiecesOfTitle(prev, c.section);
    PiecesAppend(Concat(Title(prev, c.section)), PairLine(c));
    PiecesOfPair(c);
  }

  /** The pieces the printed text of a list of calls is read in. */
  function AllPieces(calls: seq<Call>): seq<string> {
    if calls == [] then []
    else AllPieces(calls[..|calls| - 1]) + PiecesFor(Remembered(calls[..|calls| - 1]), calls[|calls| - 1])
  }

  lemma {:induction false} PiecesOfPrinted(calls: seq<Call>)
    requires forall c :: c in calls ==> Printable(c)
    ensures Pieces(Printed(calls)) == AllPieces(calls) && EndsLine(Printed(calls))
    decreases |calls|
  {
    if calls != [] {
      var front, c := calls[..|calls| - 1], calls[|calls| - 1];
      PiecesOfPrinted(front);
      ConcatAppend(Lines(front), LinesFor(Remembered(front), c));
      PiecesOfLines(Remembered(front), c);
      PiecesAppend(Printed(front), Concat(LinesFor(Remembered(front), c)));
    }
  }

  // ------------------------------------------------------------------ lines that report nothing

  /** White space is read as nothing. */
  lemma BlankRead(cfg: Config, piece: string, n: nat, ctx: Context)
    requires Blank(piece)
    ensures LineOf(cfg, piece, n, ctx) == Nothing
  {
    assert piece != "" ==> piece[0] in piece && IsSpace(piece[0]);
    assert Offset(cfg, piece, n) == 0;
    assert piece[0..] == piece && "" + piece == piece;
    RStripPadded("", piece);
    assert LSkip("") == "";
  }

  lemma BracketOf(section: string, inside: string)
    requires SectionShape(section) && inside == section + "]"
    ensures Find(inside, ']') == |section|
  {
    forall i | 0 <= i < |section| ensures !StopsAt(inside, ']', i) {
      assert inside[i] == section[i] && section[i] in section && !CommentAt(section, i);
      assert i > 0 ==> inside[i - 1] == section[i - 1];
    }
    FindFromIs(inside, ']', 0, |section|);
  }

  /** A line that starts in the first column and is no byte-order mark is read from its stripped text. */
  lemma LineRead(cfg: Config, piece: string, text: string, n: nat, ctx: Context)
    requires Offset(cfg, piece, n) == 0 && RStrip(piece) == text
    requires text != "" && !IsSpace(text[0])
    ensures LineOf(cfg, piece, n, ctx) == Read(cfg, text, false, ctx.prevName)
  {
    assert piece[0..] == piece;
    assert LSkip(text) == text;
  }

  lemma SectionLineRead(cfg: Config, section: string, n: nat, ctx: Context)
    requires SectionShape(section)
    ensures LineOf(cfg, SectionLine(section), n, ctx) == Section(section)
  {
    var piece, text := SectionLine(section), "[" + section + "]";
    assert piece[0] == '[' && piece == text + "\n";
    assert RStrip(piece) == text by { RStripPadded(text, "\n"); }
    LineRead(cfg, piece, text, n, ctx);
    var inside := text[1..];
    assert Find(inside, ']') == |section| by { BracketOf(section, inside); }
    assert text[1..1 + |section|] == section;
  }

  // ------------------------------------------------------------------ when the line of a call is read as that call

  /** The call comes behind one with a name in the same section, which a continuation line would continue. */
  predicate Carried(front: seq<Call>, c: Call) {
    front != [] && front[|front| - 1].section == c.section && front[|front| - 1].name != ""
  }

  /** The context in which the line of a call is read. */
  function PairContext(front: seq<Call>, c: Call): Context {
    Context(c.section, if Carried(front, c) then Truncate(front[|front| - 1].name, MAX_NAME) else "")
  }

  /** What it takes for a call to read back when it is printed after those in front. */
  ghost predicate ReadsBack(cfg: Config, front: seq<Call>, c: Call) {
    && SectionShape(c.section) && |c.section| < MAX_SECTION
    && NameShape(c.name) && Trimmed(c.name)
    && Plain(c.value) && Trimmed(c.value)
    && |Body(c)| <= MAX_PIECE
    && (cfg.multiline && c.name == "" ==> !Carried(front, c))
    && (cfg.bom && front == [] && c.section == "" ==> !(BOM <= c.name))
  }

  /** The line of the call is the very first. */
  predicate Leads(front: seq<Call>, c: Call) {
    front == [] && c.section == ""
  }

  /** No byte-order mark is seen in a printed pair, except one its name starts with. */
  lemma OffsetOfPair(cfg: Config, c: Call, n: nat)
    ensures Offset(cfg, FirstPiece(c), n) == if cfg.bom && n == 1 && BOM <= c.name then 3 else 0
  {
    var piece := FirstPiece(c);
    assert |piece| >= 3;
    assert forall i :: 0 <= i < |piece| && i < |c.name| ==> piece[i] == c.name[i];
    if BOM <= c.name {
      assert forall i :: 0 <= i < 3 ==> piece[i] == BOM[i];
    } else if BOM <= piece {
      assert forall i :: 0 <= i < 3 ==> piece[i] == BOM[i];
      assert |c.name| < |piece| ==> piece[|c.name|] == ' ';
    }
  }

  lemma BodyOfFirstPiece(c: Call)
    requires Trimmed(c.value) && |Body(c)| <= MAX_PIECE
    ensures RStrip(FirstPiece(c)) == Body(c)
    ensures forall p :: p in RestPieces(c) ==> Blank(p)
  {
    var body, pad, k := Body(c), Pad(c), |FirstPiece(c)| - |Body(c)|;
    PairLineIs(c);
    assert Blank(pad);
    assert FirstPiece(c) == body + pad[..k];
    assert body != "" && !IsSpace(body[|body| - 1]);
    RStripPadded(body, pad[..k]);
    assert PairLine(c)[|FirstPiece(c)|..] == pad[k..];
    PiecesBlank(pad[k..]);
  }

  /** The first '=' separates, if no comment comes before it. */
  lemma SeparatorAt(text: string, e: nat)
    requires e < |text| && text[e] == '=' && '=' !in text[..e] && !HasComment(text[..e])
    ensures Separator(text) == Some(e)
  {
    var front := text[..e];
    forall i | 0 <= i < e ensures !StopsAt(text, '=', i) {
      assert front[i] == text[i] && front[i] in front && !CommentAt(front, i);
    }
    FindFromIs(text, '=', 0, e);
  }

  /** A value behind a blank, or none. */
  lemma ValueBehind(v: string, rest: string)
    requires Plain(v) && Trimmed(v)
    requires rest == v || rest == " " + v
    requires v == "" ==> rest == ""
    ensures ValueIn(rest) == v
  {
    assert LSkip(v) == v;
    assert rest != v ==> rest[1..] == v;
    NoStop(v);
    calc {
      ValueIn(rest);
      RStrip(v[..|v|]);
      { assert v[..|v|] == v; }
      RStrip(v);
    }
  }

  lemma NoStop(v: string)
    requires Plain(v)
    ensures Find(v, NUL) == |v|
  {
    forall i | 0 <= i < |v| ensures !StopsAt(v, NUL, i) {
      assert v[i] in v && !CommentAt(v, i);
    }
    FindFromIs(v, NUL, 0, |v|);
  }

  lemma NameFront(name: string, gap: string)
    requires NameShape(name) && (gap == "" || (gap == " " && name != ""))
    ensures '=' !in name + gap && !HasComment(name + gap)
  {
    var front := name + gap;
    forall i | 0 <= i < |front| ensures !CommentAt(front, i) {
      assert i < |name| ==> front[i] == name[i] && !CommentAt(name, i);
      assert 0 < i <= |name| ==> front[i - 1] == name[i - 1];
    }
  }

  /** The text of a pair: a name, perhaps a blank, '=', and the value, perhaps behind a blank. */
  lemma PairTextRead(
      cfg: Config, name: string, gap: string, rest: string, value: string, indented: bool, prevName: string)
    requires NameShape(name) && Trimmed(name) && Plain(value) && Trimmed(value)
    requires gap == "" || (gap == " " && name != "")
    requires rest == value || (value != "" && rest == " " + value)
    requires cfg.multiline && indented ==> prevName == ""
    ensures Read(cfg, (name + gap) + ("=" + rest), indented, prevName) == Pair(name, value)
  {
    var front := name + gap;
    NameFront(name, gap);
    RStripPadded(name, gap);
    ValueBehind(value, rest);
    PartsRead(cfg, front, rest, indented, prevName);
  }

  /** Text in front of '=' and behind it. */
  lemma PartsRead(cfg: Config, front: string, rest: string, indented: bool, prevName: string)
    requires '=' !in front && !HasComment(front)
    requires front != "" ==> front[0] != ';' && front[0] != '#' && front[0] != '['
    requires cfg.multiline && indented ==> prevName == ""
    ensures Read(cfg, front + ("=" + rest), indented, prevName) == Pair(RStrip(front), ValueIn(rest))
  {
    var text := front + ("=" + rest);
    assert text[..|front|] == front && text[|front|] == '=' && text[|front| + 1..] == rest;
    SeparatorAt(text, |front|);
    ReadIsPair(cfg, text, |front|, indented, prevName);
  }

  lemma ReadIsPair(cfg: Config, text: string, e: nat, indented: bool, prevName: string)
    requires Separator(text) == Some(e)
    requires text != "" && text[0] != ';' && text[0] != '#' && text[0] != '['
    requires cfg.multiline && indented ==> prevName == ""
    ensures Read(cfg, text, indented, prevName) == Pair(RStrip(text[..e]), ValueIn(text[e + 1..]))
  {
  }

  /** A pair written without blanks, perhaps with white space behind it. */
  lemma TightRead(cfg: Config, name: string, value: string, pad: string, n: nat, ctx: Context)
    requires NameShape(name) && Trimmed(name) && Plain(value) && Trimmed(value) && Blank(pad) && n != 1
    ensures LineOf(cfg, (name + ("=" + value)) + pad, n, ctx) == Pair(name, value)
  {
    var text := name + ("=" + value);
    assert !IsSpace(text[0]) && !IsSpace(text[|text| - 1]);
    assert RStrip(text + pad) == text by { RStripPadded(text, pad); }
    LineRead(cfg, text + pad, text, n, ctx);
    assert name + "" == name;
    PairTextRead(cfg, name, "", value, value, false, ctx.prevName);
  }

  lemma NamedRead(cfg: Config, c: Call, n: nat, ctx: Context)
    requires NameShape(c.name) && Trimmed(c.name) && Plain(c.value) && Trimmed(c.value) && c.name != ""
    requires |Body(c)| <= MAX_PIECE && Offset(cfg, FirstPiece(c), n) == 0
    ensures LineOf(cfg, FirstPiece(c), n, ctx) == Pair(c.name, c.value)
  {
    var body, rest := Body(c), if c.value == "" then "" else " " + c.value;
    BodyOfFirstPiece(c);
    assert body == (c.name + " ") + ("=" + rest);
    assert body[0] == c.name[0];
    LineRead(cfg, FirstPiece(c), body, n, ctx);
    PairTextRead(cfg, c.name, " ", rest, c.value, false, ctx.prevName);
  }

  lemma UnnamedRead(cfg: Config, c: Call, n: nat, ctx: Context)
    requires Plain(c.value) && Trimmed(c.value) && c.name == ""
    requires |Body(c)| <= MAX_PIECE && Offset(cfg, FirstPiece(c), n) == 0
    requires cfg.multiline ==> ctx.prevName == ""
    ensures LineOf(cfg, FirstPiece(c), n, ctx) == Pair("", c.value)
  {
    var piece, body, rest := FirstPiece(c), Body(c), if c.value == "" then "" else " " + c.value;
    var text := ("" + "") + ("=" + rest);
    BodyOfFirstPiece(c);
    assert LSkip(body) == text by {
      assert body[0] == ' ' && body[1..] == text;
      assert LSkip(text) == text;
    }
    assert piece[0..] == piece;
    PairTextRead(cfg, "", "", rest, c.value, true, ctx.prevName);
  }

  /** A call that meets the condition is read back from its first piece. */
  lemma FirstPieceRead(cfg: Config, front: seq<Call>, c: Call, n: nat, ctx: Context)
    requires ReadsBack(cfg, front, c) && (n == 1 ==> Leads(front, c)) && ctx == PairContext(front, c)
    ensures LineOf(cfg, FirstPiece(c), n, ctx) == Pair(c.name, c.value)
  {
    OffsetOfPair(cfg, c, n);
    if c.name != "" {
      NamedRead(cfg, c, n, ctx);
    } else {
      UnnamedRead(cfg, c, n, ctx);
    }
  }

  // ------------------------------------------------------------------ and only then

  lemma SkipShortens(s: string)
    ensures s != "" && IsSpace(s[0]) ==> |LSkip(s)| < |s|
    ensures |LSkip(s)| < |s| ==> IsSpace(s[0])
    ensures |ValueIn(s)| <= |LSkip(s)| <= |s|
  {
  }

  lemma StripShortens(s: string)
    ensures |RStrip(s)| <= |s|
    ensures s != "" && IsSpace(s[|s| - 1]) ==> |RStrip(s)| < |s|
  {
  }

  lemma SeparatorChar(text: string)
    requires Separator(text).Some?
    ensures var e := Separator(text).value; text[e] == '=' || text[e] == ':'
  {
  }

  /** If the start of a named call's line is read as that call, then its whole body was there. */
  lemma NamedFits(c: Call, body: string, e: nat)
    requires c.name != "" && body <= PairLine(c) && |body| <= MAX_PIECE
    requires Separator(body) == Some(e) && RStrip(body[..e]) == c.name && ValueIn(body[e + 1..]) == c.value
    ensures |Body(c)| <= MAX_PIECE
  {
    var k, rest := |c.name|, body[e + 1..];
    assert |c.name| <= e by { StripShortens(body[..e]); }
    assert PairLine(c)[k] == ' ' && PairLine(c)[k + 1] == '=' && PairLine(c)[k + 2] == ' ';
    assert body[k] == PairLine(c)[k];
    SeparatorChar(body);
    SkipShortens(rest);
    if e == k + 1 && rest != "" {
      assert rest[0] == body[k + 2] == PairLine(c)[k + 2];
    }
  }

  /** Likewise for a call without a name, whose line starts with a blank. */
  lemma UnnamedFits(c: Call, body: string, e: nat)
    requires c.name == "" && body <= PairLine(c) && |body| <= MAX_PIECE
    requires Separator(LSkip(body)) == Some(e) && ValueIn(LSkip(body)[e + 1..]) == c.value
    ensures |Body(c)| <= MAX_PIECE
  {
    var text := LSkip(body);
    assert forall i :: 0 <= i < |body| ==> body[i] == PairLine(c)[i];
    assert PairLine(c)[0] == ' ' && PairLine(c)[1] == '=' && PairLine(c)[2] == ' ';
    SkipOne(body);
    ValueLength(text, e);
  }

  lemma SkipOne(body: string)
    ensures |LSkip(body)| <= |body|
    ensures |body| >= 2 && IsSpace(body[0]) && !IsSpace(body[1]) ==>
              |LSkip(body)| == |body| - 1 && forall i :: 0 <= i < |body| - 1 ==> LSkip(body)[i] == body[i + 1]
  {
  }

  lemma ValueLength(text: string, e: nat)
    requires e < |text|
    ensures |ValueIn(text[e + 1..])| <= |text| - e - if e + 1 < |text| && IsSpace(text[e + 1]) then 2 else 1
  {
    SkipShortens(text[e + 1..]);
  }

  lemma FirstPieceShape(c: Call)
    requires Printable(c)
    ensures PieceShape(FirstPiece(c))
  {
    PairLineOneLine(c);
    assert NUL !in PairLine(c);
    var piece := FirstPiece(c);
    assert forall i :: 0 <= i < |piece| ==> piece[i] == PairLine(c)[i];
  }

  /** What a pair is read from. */
  lemma PairParts(cfg: Config, text: string, indented: bool, prevName: string, name: string, value: string)
    returns (e: nat)
    requires Read(cfg, text, indented, prevName) == Pair(name, value)
    ensures Separator(text) == Some(e) && name == RStrip(text[..e]) && value == ValueIn(text[e + 1..])
    ensures text != "" && (cfg.multiline && indented ==> prevName == "")
  {
    e := Separator(text).value;
  }

  /** A report is no longer than the text it is read from: a pair leaves room for its separator, and a continuation
      has the name that came before. */
  lemma ReportLength(cfg: Config, text: string, indented: bool, ctx: Context, c: Call)
    requires c in Reports(ctx, Read(cfg, text, indented, ctx.prevName))
    ensures |c.name| + |c.value| + 1 <= |text| || (c.name == ctx.prevName != "" && |c.value| <= |text|)
  {
    var line := Read(cfg, text, indented, ctx.prevName);
    if line.Pair? {
      var e := PairParts(cfg, text, indented, ctx.prevName, line.name, line.value);
      StripShortens(text[..e]);
      SkipShortens(text[e + 1..]);
    }
  }

  lemma LineOfText(cfg: Config, piece: string, n: nat, ctx: Context, body: string, text: string)
    requires body == RStrip(piece[Offset(cfg, piece, n)..]) && text == LSkip(body)
    ensures LineOf(cfg, piece, n, ctx)
            == Read(cfg, text, Offset(cfg, piece, n) + |body| > |text|, ctx.prevName)
  {
  }

  /** Behind a byte-order mark too little of the line is left. */
  lemma BomLoses(cfg: Config, c: Call, n: nat, ctx: Context)
    requires Offset(cfg, FirstPiece(c), n) == 3 && ctx.prevName == ""
    ensures c !in Reports(ctx, LineOf(cfg, FirstPiece(c), n, ctx))
  {
    var piece := FirstPiece(c);
    var body := RStrip(piece[3..]);
    var text := LSkip(body);
    assert |body| <= |c.name| + |c.value| by {
      StripShortens(piece[3..]);
      assert |piece| == |PairLine(c)| ==> PairLine(c)[|piece| - 1] == '\n';
    }
    SkipShortens(body);
    LineOfText(cfg, piece, n, ctx, body, text);
    if c in Reports(ctx, LineOf(cfg, piece, n, ctx)) {
      ReportLength(cfg, text, 3 + |body| > |text|, ctx, c);
      assert false;
    }
  }

  /** The first piece of a call's line is read as that call only if the call meets the condition. */
  lemma FirstPieceReportsOnly(cfg: Config, front: seq<Call>, c: Call, n: nat, ctx: Context)
    requires CallShape(cfg, c) && ctx == PairContext(front, c) && (n == 1 <==> Leads(front, c))
    requires c in Reports(ctx, LineOf(cfg, FirstPiece(c), n, ctx))
    ensures ReadsBack(cfg, front, c)
  {
    var piece, line := FirstPiece(c), LineOf(cfg, FirstPiece(c), n, ctx);
    OffsetOfPair(cfg, c, n);
    if Offset(cfg, piece, n) == 3 {
      BomLoses(cfg, c, n, ctx);
    } else {
      FirstPieceShape(c);
      LineOfShape(cfg, piece, n, ctx);
      NotContinued(cfg, c, n, ctx);
      assert line == Pair(c.name, c.value);
      PairReadFits(cfg, c, n, ctx);
      assert c.name == "" && cfg.multiline ==> ctx.prevName == "";
      assert Carried(front, c) ==> ctx.prevName != "";
    }
  }

  lemma NotContinued(cfg: Config, c: Call, n: nat, ctx: Context)
    requires NameShape(c.name) && Offset(cfg, FirstPiece(c), n) == 0
    requires c in Reports(ctx, LineOf(cfg, FirstPiece(c), n, ctx))
    ensures LineOf(cfg, FirstPiece(c), n, ctx).Pair?
  {
    var piece := FirstPiece(c);
    assert piece[0..] == piece;
    var body := RStrip(piece);
    SkipShortens(body);
    assert body != "" ==> body[0] == piece[0];
    assert c.name != "" ==> piece[0] == c.name[0];
  }

  lemma PairReadFits(cfg: Config, c: Call, n: nat, ctx: Context)
    requires NameShape(c.name) && Offset(cfg, FirstPiece(c), n) == 0
    requires LineOf(cfg, FirstPiece(c), n, ctx) == Pair(c.name, c.value)
    ensures |Body(c)| <= MAX_PIECE
    ensures c.name == "" && cfg.multiline ==> ctx.prevName == ""
  {
    var piece := FirstPiece(c);
    assert piece[0..] == piece;
    var body := RStrip(piece);
    var text := LSkip(body);
    LineOfText(cfg, piece, n, ctx, body, text);
    var e := PairParts(cfg, text, |body| > |text|, ctx.prevName, c.name, c.value);
    StartOfBody(c, body, text);
    if c.name != "" {
      NamedFits(c, body, e);
    } else {
      UnnamedFits(c, body, e);
    }
  }

  lemma StartOfBody(c: Call, body: string, text: string)
    requires NameShape(c.name) && body <= PairLine(c) && text == LSkip(body) && text != ""
    ensures c.name != "" ==> text == body
    ensures c.name == "" ==> |text| < |body|
  {
    SkipShortens(body);
    assert body[0] == PairLine(c)[0] == if c.name == "" then ' ' else c.name[0];
    LSkipMeans(body);
  }
}
