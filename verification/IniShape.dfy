/** The shape of what the parser reports, whatever the file. */
module IniShape {
  import opened IniText
  import opened IniGrammar

  // ------------------------------------------------------------------ shapes of what is reported

  ghost predicate SectionShape(s: string) {
    Plain(s) && ']' !in s
  }

  /** A name may be empty; otherwise it does not look like anything else at its start. */
  ghost predicate NameShape(s: string) {
    && Plain(s) && '=' !in s
    && (s != "" ==> s[0] != '[' && s[0] != ';' && s[0] != '#' && !IsSpace(s[0]))
  }

  ghost predicate ValueShape(s: string) {
    Clean(s) && Trimmed(s)
  }

  ghost predicate LineShape(cfg: Config, line: Line) {
    match line
    case Section(title) => SectionShape(title)
    case Pair(name, value) =>
      NameShape(name) && Trimmed(name) && |name| < MAX_PIECE && ValueShape(value) && !HasComment(value)
    case Continuation(more) => cfg.multiline && ValueShape(more)
    case _ => true
  }

  /** A remembered name is cut to its buffer, and only then may it end in white space. */
  ghost predicate CutName(s: string) {
    |s| < MAX_NAME && (Trimmed(s) || |s| == MAX_NAME - 1)
  }

  ghost predicate ContextShape(ctx: Context) {
    && SectionShape(ctx.section) && |ctx.section| < MAX_SECTION
    && NameShape(ctx.prevName) && CutName(ctx.prevName)
  }

  /** Which section and name a call can have: a name is trimmed and shorter than a line, or, where lines may
      continue values, what was left of a longer one. */
  ghost predicate CanReport(cfg: Config, section: string, name: string) {
    && SectionShape(section) && |section| < MAX_SECTION && NameShape(name)
    && |name| < MAX_PIECE && (Trimmed(name) || (cfg.multiline && |name| == MAX_NAME - 1))
  }

  /** Only a continued value may hold what looks like a comment. */
  ghost predicate CallShape(cfg: Config, c: Call) {
    CanReport(cfg, c.section, c.name) && ValueShape(c.value) && (!cfg.multiline ==> !HasComment(c.value))
  }

  // ------------------------------------------------------------------ parts of texts

  lemma SliceClean(s: string, a: nat, b: nat)
    requires Clean(s) && a <= b <= |s|
    ensures Clean(s[a..b])
  {
    assert forall c :: c in s[a..b] ==> c in s;
  }

  lemma PrefixPlain(s: string, n: nat)
    requires Plain(s) && n <= |s|
    ensures Plain(s[..n])
  {
    SliceClean(s, 0, n);
    forall k | 0 <= k < n ensures !CommentAt(s[..n], k) {
      assert !CommentAt(s, k);
    }
  }

  lemma PrefixWithout(s: string, n: nat, c: char)
    requires c !in s && n <= |s|
    ensures c !in s[..n]
  {
  }

  lemma FindPlain(s: string, c: char)
    requires Clean(s)
    ensures Plain(s[..Find(s, c)])
  {
    var e := Find(s, c);
    FindFromFirst(s, c, 0);
    SliceClean(s, 0, e);
    forall k | 0 <= k < e ensures !CommentAt(s[..e], k) {
      assert !StopsAt(s, c, k);
    }
  }

  /** A value is plain and trimmed. */
  lemma ValueIsPlain(rest: string)
    requires Clean(rest)
    ensures Plain(ValueIn(rest)) && Trimmed(ValueIn(rest))
  {
    var v := LSkip(rest);
    LSkipMeans(rest);
    SliceClean(rest, |rest| - |v|, |rest|);
    var front := v[..Find(v, NUL)];
    FindPlain(v, NUL);
    var value := RStrip(front);
    RStripMeans(front);
    assert value == front[..|value|];
    PrefixPlain(front, |value|);
    assert value != "" ==> value[0] == v[0];
  }

  /** A name is plain, trimmed and free of '='. */
  lemma NameIsPlain(text: string)
    requires Clean(text) && text != "" && !IsSpace(text[0]) && Separator(text).Some?
    requires text[0] != '[' && text[0] != ';' && text[0] != '#'
    ensures NameShape(RStrip(text[..Separator(text).value])) && Trimmed(RStrip(text[..Separator(text).value]))
  {
    var front := text[..Separator(text).value];
    SeparatorFollowsName(text);
    SliceClean(text, 0, |front|);
    var name := RStrip(front);
    RStripMeans(front);
    assert name == front[..|name|];
    PrefixPlain(front, |name|);
    PrefixWithout(front, |name|, '=');
    assert name != "" ==> name[0] == text[0];
  }

  lemma ReadShape(cfg: Config, text: string, indented: bool, prevName: string)
    requires Clean(text) && Trimmed(text) && |text| <= MAX_PIECE
    ensures LineShape(cfg, Read(cfg, text, indented, prevName))
  {
    var line := Read(cfg, text, indented, prevName);
    if line.Section? {
      var inside := text[1..];
      SliceClean(text, 1, |text|);
      FindPlain(inside, ']');
      SectionTitle(inside);
      assert line.title == inside[..Find(inside, ']')];
    } else if line.Pair? {
      NameIsPlain(text);
      var e := Separator(text).value;
      SliceClean(text, e + 1, |text|);
      ValueIsPlain(text[e + 1..]);
    }
  }

  lemma NextShape(cfg: Config, ctx: Context, line: Line)
    requires ContextShape(ctx) && LineShape(cfg, line)
    ensures ContextShape(Next(ctx, line))
    ensures forall c :: c in Reports(ctx, line) ==> CallShape(cfg, c)
  {
    match line
    case Section(title) =>
      var kept := Truncate(title, MAX_SECTION);
      assert kept == title[..|kept|];
      PrefixPlain(title, |kept|);
    case Pair(name, _) =>
      var kept := Truncate(name, MAX_NAME);
      assert kept == name[..|kept|];
      PrefixPlain(name, |kept|);
      PrefixWithout(name, |kept|, '=');
    case _ =>
  }

  // ------------------------------------------------------------------ whole files

  /** A piece of a NUL-free file: a newline can only be its last character. */
  ghost predicate PieceShape(p: string) {
    NUL !in p && OneLine(p) && |p| <= MAX_PIECE
  }

  lemma {:induction false} PieceLenShape(s: string, room: nat)
    ensures forall i :: 0 <= i < PieceLen(s, room) - 1 ==> s[i] != '\n'
    decreases |s|
  {
    if s != "" && room != 0 && s[0] != '\n' {
      PieceLenShape(s[1..], room - 1);
      assert forall i :: 0 <= i < |s| - 1 ==> s[1..][i] == s[i + 1];
    }
  }

  lemma {:induction false} PiecesShape(s: string)
    requires NUL !in s
    ensures forall p :: p in Pieces(s) ==> PieceShape(p)
    decreases |s|
  {
    if s != "" {
      var n := PieceLen(s, MAX_PIECE);
      PieceLenShape(s, MAX_PIECE);
      PiecesShape(s[n..]);
      assert PieceShape(s[..n]);
    }
  }

  lemma RStripClean(rest: string)
    requires PieceShape(rest)
    ensures Clean(RStrip(rest)) && (RStrip(rest) != "" ==> !IsSpace(RStrip(rest)[|RStrip(rest)| - 1]))
  {
    var body := RStrip(rest);
    RStripMeans(rest);
    forall i | 0 <= i < |body| ensures body[i] != '\n' && body[i] != NUL {
      assert body[i] == rest[i] && rest[i] in rest;
    }
  }

  lemma {:induction false} LSkipClean(body: string)
    requires Clean(body) && (body != "" ==> !IsSpace(body[|body| - 1]))
    ensures Clean(LSkip(body)) && Trimmed(LSkip(body))
    decreases |body|
  {
    if body != "" && IsSpace(body[0]) {
      SliceClean(body, 1, |body|);
      LSkipClean(body[1..]);
    }
  }

  /** What is left of a piece after stripping has no newline. */
  lemma StrippedClean(rest: string)
    requires PieceShape(rest)
    ensures Clean(LSkip(RStrip(rest))) && Trimmed(LSkip(RStrip(rest)))
  {
    RStripClean(rest);
    LSkipClean(RStrip(rest));
  }

  lemma PieceTailShape(p: string, off: nat)
    requires PieceShape(p) && off <= |p|
    ensures PieceShape(p[off..])
  {
    assert forall i :: 0 <= i < |p| - off ==> p[off..][i] == p[off + i];
  }

  lemma {:induction false} WalkShape(cfg: Config, pieces: seq<string>)
    requires forall p :: p in pieces ==> PieceShape(p)
    ensures ContextShape(Walk(Reading(cfg), pieces).ctx)
    ensures forall c :: c in Walk(Reading(cfg), pieces).calls ==> CallShape(cfg, c)
    decreases |pieces|
  {
    if pieces != [] {
      var n := |pieces| - 1;
      var before := Walk(Reading(cfg), pieces[..n]);
      WalkShape(cfg, pieces[..n]);
      var line := Reading(cfg)(before.ctx, pieces[n], n + 1);
      assert LineShape(cfg, line) by { LineOfShape(cfg, pieces[n], n + 1, before.ctx); }
      NextShape(cfg, before.ctx, line);
    }
  }

  lemma LineOfShape(cfg: Config, piece: string, lineno: nat, ctx: Context)
    requires PieceShape(piece)
    ensures LineShape(cfg, LineOf(cfg, piece, lineno, ctx))
  {
    var off := Offset(cfg, piece, lineno);
    PieceTailShape(piece, off);
    StrippedClean(piece[off..]);
    var body := RStrip(piece[off..]);
    ReadShape(cfg, LSkip(body), off + |body| > |LSkip(body)|, ctx.prevName);
  }

  /** Every call a parse reports has this shape. */
  lemma MeaningShape(cfg: Config, stop: bool, accepts: Handler, file: string)
    requires NUL !in file
    ensures forall c :: c in Meaning(cfg, stop, accepts, file).calls ==> CallShape(cfg, c)
  {
    var pieces := Pieces(file);
    PiecesShape(file);
    var e := FirstFault(Reading(cfg), accepts, pieces);
    WalkShape(cfg, if stop && e != 0 then pieces[..e] else pieces);
  }
}
