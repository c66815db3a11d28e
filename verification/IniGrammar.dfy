/** What an INI file means: a pure reading of its lines, and of the handler calls and the error line
    they lead to. */
module IniGrammar {
  import opened Basics
  import opened IniText

  const MAX_SECTION: nat := 50
  const MAX_NAME: nat := 50
  const BOM := "\U{EF}\U{BB}\U{BF}"

  /** Compile-time choices: whether values may be continued, whether a byte-order mark may lead. */
  datatype Config = Config(multiline: bool, bom: bool)

  /** One call of the handler. */
  datatype Call = Call(section: string, name: string, value: string)

  datatype Line =
    | Nothing
    | Continuation(more: string)
    | Section(title: string)
    | Pair(name: string, value: string)
    | Malformed

  /** What is carried from line to line: the current section, and the last name if values may
      continue it. */
  datatype Context = Context(section: string, prevName: string)

  const FRESH := Context("", "")

  // ------------------------------------------------------------------ one line

  /** Where name and value are separated: at the first '=', or failing that at the first ':',
      in front of any comment. */
  function Separator(text: string): (e: Option<nat>)
    ensures e.Some? ==> e.value < |text|
  {
    var equals := Find(text, '=');
    var colon := Find(text, ':');
    if equals < |text| && text[equals] == '=' then Some(equals)
    else if colon < |text| && text[colon] == ':' then Some(colon)
    else None
  }

  /** The value in what follows a separator: without surrounding white space and comment. */
  function ValueIn(rest: string): string {
    var v := LSkip(rest);
    RStrip(v[..Find(v, NUL)])
  }

  /** Reads a line that has been stripped at both ends; `indented` if it did not start in the first
      column of the buffer. */
  function Read(cfg: Config, text: string, indented: bool, prevName: string): Line {
    if text == "" || text[0] == ';' || text[0] == '#' then Nothing
    else if cfg.multiline && prevName != "" && indented then Continuation(text)
    else if text[0] == '[' then
      var e := Find(text[1..], ']');
      if 1 + e < |text| && text[1 + e] == ']' then Section(text[1..1 + e]) else Malformed
    else
      match Separator(text)
      case Some(e) => Pair(RStrip(text[..e]), ValueIn(text[e + 1..]))
      case None => Malformed
  }

  /** Where the text of a piece starts: behind a byte-order mark on the first line. */
  function Offset(cfg: Config, piece: string, lineno: nat): (n: nat)
    ensures n <= |piece|
  {
    if cfg.bom && lineno == 1 && BOM <= piece then |BOM| else 0
  }

  function LineOf(cfg: Config, piece: string, lineno: nat, ctx: Context): Line {
    var off := Offset(cfg, piece, lineno);
    var body := RStrip(piece[off..]);
    var text := LSkip(body);
    Read(cfg, text, off + |body| > |text|, ctx.prevName)
  }

  function Next(ctx: Context, line: Line): Context {
    match line
    case Section(title) => Context(Truncate(title, MAX_SECTION), "")
    case Pair(name, _) => ctx.(prevName := Truncate(name, MAX_NAME))
    case _ => ctx
  }

  /** The handler call a line leads to, if any. */
  function Reports(ctx: Context, line: Line): (calls: seq<Call>)
    ensures |calls| <= 1
  {
    match line
    case Continuation(more) => [Call(ctx.section, ctx.prevName, more)]
    case Pair(name, value) => [Call(ctx.section, name, value)]
    case _ => []
  }

  // ------------------------------------------------------------------ a whole file

  /** How one line is read, given the context and its number. */
  type Reader = (Context, string, nat) -> Line

  function Reading(cfg: Config): Reader {
    (ctx: Context, piece: string, lineno: nat) => LineOf(cfg, piece, lineno, ctx)
  }

  datatype Walked = Walked(ctx: Context, calls: seq<Call>)

  /** Context and handler calls after reading all pieces, errors or not. */
  function Walk(read: Reader, pieces: seq<string>): Walked {
    if pieces == [] then Walked(FRESH, [])
    else
      var n := |pieces| - 1;
      var before := Walk(read, pieces[..n]);
      var line := read(before.ctx, pieces[n], n + 1);
      Walked(Next(before.ctx, line), before.calls + Reports(before.ctx, line))
  }

  /** A handler: given all calls up to and including the present one, does it accept? */
  type Handler = seq<Call> -> bool

  /** The handler that accepts every call. */
  function Accepting(): Handler {
    (calls: seq<Call>) => true
  }

  /** The last line is malformed, or the handler rejects what it reports. */
  predicate LastFaulty(read: Reader, accepts: Handler, pieces: seq<string>)
    requires pieces != []
  {
    var n := |pieces| - 1;
    var before := Walk(read, pieces[..n]);
    var line := read(before.ctx, pieces[n], n + 1);
    line.Malformed? || (Reports(before.ctx, line) != [] && !accepts(Walk(read, pieces).calls))
  }

  /** Number of the first faulty line, 0 if there is none. */
  function FirstFault(read: Reader, accepts: Handler, pieces: seq<string>): (e: nat)
    ensures e <= |pieces|
  {
    if pieces == [] then 0
    else
      var e := FirstFault(read, accepts, pieces[..|pieces| - 1]);
      if e == 0 && LastFaulty(read, accepts, pieces) then |pieces| else e
  }

  /** What a parse comes to: the handler calls in order and the error line. */
  datatype Outcome = Outcome(calls: seq<Call>, error: nat)

  /** The meaning of a file: all its calls, or with `stop` those up to the first faulty line; and
      the number of that line. */
  function Meaning(cfg: Config, stop: bool, accepts: Handler, file: string): Outcome {
    var read, pieces := Reading(cfg), Pieces(file);
    var e := FirstFault(read, accepts, pieces);
    Outcome(Walk(read, if stop && e != 0 then pieces[..e] else pieces).calls, e)
  }

  // ------------------------------------------------------------------ errors

  /** Line `n`, counted from 1, is faulty. */
  ghost predicate Faulty(read: Reader, accepts: Handler, pieces: seq<string>, n: nat) {
    0 < n <= |pieces| && LastFaulty(read, accepts, pieces[..n])
  }

  /** `e` is the first faulty line, or 0 and no line is faulty. */
  ghost predicate IsFirstFault(read: Reader, accepts: Handler, pieces: seq<string>, e: nat) {
    && (e != 0 ==> Faulty(read, accepts, pieces, e))
    && forall n: nat :: (e == 0 || n < e) ==> !Faulty(read, accepts, pieces, n)
  }

  lemma {:induction false} FirstFaultMeans(read: Reader, accepts: Handler, pieces: seq<string>)
    ensures IsFirstFault(read, accepts, pieces, FirstFault(read, accepts, pieces))
    decreases |pieces|
  {
    if pieces != [] {
      var m := |pieces| - 1;
      var front := pieces[..m];
      FirstFaultMeans(read, accepts, front);
      forall n: nat | n <= m ensures Faulty(read, accepts, pieces, n) == Faulty(read, accepts, front, n) {
        assert pieces[..n] == front[..n];
      }
      assert pieces[..m + 1] == pieces;
      assert Faulty(read, accepts, pieces, m + 1) == LastFaulty(read, accepts, pieces);
    }
  }

  /** Once found, the first fault stays the same however the file goes on. */
  lemma {:induction false} FirstFaultStays(read: Reader, accepts: Handler, pieces: seq<string>, m: nat)
    requires m <= |pieces| && FirstFault(read, accepts, pieces[..m]) != 0
    ensures FirstFault(read, accepts, pieces) == FirstFault(read, accepts, pieces[..m])
    decreases |pieces|
  {
    if m < |pieces| {
      var front, start := pieces[..|pieces| - 1], pieces[..m];
      assert front[..m] == start;
      assert FirstFault(read, accepts, front) == FirstFault(read, accepts, start) by {
        FirstFaultStays(read, accepts, front, m);
      }
    } else {
      assert pieces[..m] == pieces;
    }
  }

  lemma {:induction false} WalkGrows(read: Reader, pieces: seq<string>, m: nat)
    requires m <= |pieces|
    ensures Walk(read, pieces[..m]).calls <= Walk(read, pieces).calls
    decreases |pieces|
  {
    if m < |pieces| {
      var n := |pieces| - 1;
      assert pieces[..n][..m] == pieces[..m];
      WalkGrows(read, pieces[..n], m);
      assert Walk(read, pieces[..n]).calls <= Walk(read, pieces).calls;
    } else {
      assert pieces[..m] == pieces;
    }
  }

  /** The error modes differ only in where the calls end: both report the first faulty line, and
      stopping keeps the calls through that line, which are a prefix of all calls. */
  lemma ErrorModesRelate(cfg: Config, accepts: Handler, file: string)
    ensures var go, stopped := Meaning(cfg, false, accepts, file), Meaning(cfg, true, accepts, file);
            && stopped.error == go.error
            && IsFirstFault(Reading(cfg), accepts, Pieces(file), go.error)
            && go.calls == Walk(Reading(cfg), Pieces(file)).calls
            && (go.error == 0 ==> stopped.calls == go.calls)
            && (go.error != 0 ==> stopped.calls == Walk(Reading(cfg), Pieces(file)[..go.error]).calls)
            && stopped.calls <= go.calls
  {
    var read, pieces := Reading(cfg), Pieces(file);
    var e := FirstFault(read, accepts, pieces);
    assert IsFirstFault(read, accepts, pieces, e) by { FirstFaultMeans(read, accepts, pieces); }
    assert Walk(read, pieces[..e]).calls <= Walk(read, pieces).calls by { WalkGrows(read, pieces, e); }
  }

  /** Reading one more piece. */
  lemma WalkSnoc(read: Reader, accepts: Handler, done: seq<string>, piece: string, before: Walked, line: Line)
    returns (after: Walked)
    requires before == Walk(read, done) && line == read(before.ctx, piece, |done| + 1)
    ensures after == Walk(read, done + [piece])
    ensures after == Walked(Next(before.ctx, line), before.calls + Reports(before.ctx, line))
    ensures var e := FirstFault(read, accepts, done);
            FirstFault(read, accepts, done + [piece])
            == if e == 0 && (line.Malformed? || (Reports(before.ctx, line) != [] && !accepts(after.calls)))
               then |done| + 1 else e
  {
    assert (done + [piece])[..|done|] == done;
    after := Walk(read, done + [piece]);
  }

  // ------------------------------------------------------------------ what calls look like

  /** Names hold no '=': sections fit their buffer and hold no ']'. */
  ghost predicate Shapely(ctx: Context, calls: seq<Call>) {
    && |ctx.section| < MAX_SECTION && ']' !in ctx.section
    && |ctx.prevName| < MAX_NAME && '=' !in ctx.prevName
    && forall c :: c in calls ==> |c.section| < MAX_SECTION && ']' !in c.section && '=' !in c.name
  }

  lemma SeparatorFollowsName(text: string)
    requires Separator(text).Some?
    ensures '=' !in text[..Separator(text).value]
    ensures !HasComment(text[..Separator(text).value])
  {
    var e, equals := Separator(text).value, Find(text, '=');
    FindFromFirst(text, '=', 0);
    FindFromFirst(text, ':', 0);
    assert equals < e ==> !StopsAt(text, ':', equals);
    forall i | 0 <= i < e ensures text[i] != '=' && !CommentAt(text[..e], i) {
      assert !StopsAt(text, '=', i);
    }
  }

  lemma SectionTitle(s: string)
    ensures ']' !in s[..Find(s, ']')] && !HasComment(s[..Find(s, ']')])
  {
    FindFromFirst(s, ']', 0);
    forall i | 0 <= i < Find(s, ']') ensures s[i] != ']' && !CommentAt(s[..Find(s, ']')], i) {
      assert !StopsAt(s, ']', i);
    }
  }

  ghost predicate ShapelyLine(line: Line) {
    (line.Section? ==> ']' !in line.title) && (line.Pair? ==> '=' !in line.name)
  }

  lemma ReadShapely(cfg: Config, text: string, indented: bool, prevName: string)
    ensures ShapelyLine(Read(cfg, text, indented, prevName))
  {
    var line := Read(cfg, text, indented, prevName);
    if line.Section? {
      SectionTitle(text[1..]);
      assert text[1..1 + Find(text[1..], ']')] == text[1..][..Find(text[1..], ']')];
    } else if line.Pair? {
      SeparatorFollowsName(text);
      var name := text[..Separator(text).value];
      assert forall c :: c in RStrip(name) ==> c in name;
    }
  }

  lemma NextShapely(ctx: Context, line: Line)
    requires Shapely(ctx, []) && ShapelyLine(line)
    ensures Shapely(Next(ctx, line), Reports(ctx, line))
  {
    match line
    case Section(title) => assert forall c :: c in Truncate(title, MAX_SECTION) ==> c in title;
    case Pair(name, _) => assert forall c :: c in Truncate(name, MAX_NAME) ==> c in name;
    case _ =>
  }

  /** Every call of every file, whatever the options: the section has fewer than 50 characters and no
      ']', and the name has no '='. */
  lemma {:induction false} CallsShapely(cfg: Config, pieces: seq<string>)
    ensures Shapely(Walk(Reading(cfg), pieces).ctx, Walk(Reading(cfg), pieces).calls)
    decreases |pieces|
  {
    if pieces != [] {
      var n := |pieces| - 1;
      var before := Walk(Reading(cfg), pieces[..n]);
      assert Shapely(before.ctx, before.calls) by { CallsShapely(cfg, pieces[..n]); }
      var line := Reading(cfg)(before.ctx, pieces[n], n + 1);
      assert ShapelyLine(line) by {
        var body := RStrip(pieces[n][Offset(cfg, pieces[n], n + 1)..]);
        ReadShapely(cfg, LSkip(body), Offset(cfg, pieces[n], n + 1) + |body| > |LSkip(body)|, before.ctx.prevName);
      }
      NextShapely(before.ctx, line);
    }
  }
}
