/** How an INI file reads, said of its characters: which pieces, names, values and sections it has and which lines are
    errors. That, and nothing else, is what the grammar computes. */
module IniLines {
  import opened Basics
  import opened IniText
  import opened IniGrammar

  // ------------------------------------------------------------------ parts of a line

  /** Space, tab, newline, vertical tab, form feed or carriage return. */
  predicate White(c: char) {
    c as int == 32 || 9 <= c as int <= 13
  }

  /** `r` is `s` without the white space at its end. */
  ghost predicate EndsOff(s: string, r: string) {
    && r <= s && (forall i :: |r| <= i < |s| ==> White(s[i]))
    && (r != "" ==> !White(r[|r| - 1]))
  }

  /** `text` is what `s` has from index `from` on, without white space at either end, and starts at `at`. */
  ghost predicate Core(s: string, from: nat, at: nat, text: string) {
    && from <= at <= at + |text| <= |s| && text == s[at..at + |text|]
    && (forall i :: from <= i < at || at + |text| <= i < |s| ==> White(s[i]))
    && (text != "" ==> !White(text[0]) && !White(text[|text| - 1]))
  }

  /** A comment starts inside a text: with a ';' behind white space. */
  predicate SemicolonAt(s: string, k: nat) {
    0 < k < |s| && s[k] == ';' && White(s[k - 1])
  }

  /** The first `c` stands at `k`, and no comment starts in front of it. */
  ghost predicate FirstAt(s: string, c: char, k: nat) {
    && k < |s| && s[k] == c
    && forall i :: 0 <= i < k ==> s[i] != c && !SemicolonAt(s, i)
  }

  ghost predicate Occurs(s: string, c: char) {
    exists k: nat :: FirstAt(s, c, k)
  }

  /** `v` is what `s` has in front of its first comment. */
  ghost predicate Uncommented(s: string, v: string) {
    && v <= s && (forall i :: 0 <= i < |v| ==> !SemicolonAt(s, i))
    && (v == s || SemicolonAt(s, |v|))
  }

  /** `value` is the value in what follows a separator: behind white space, in front of a comment. */
  ghost predicate IsValue(s: string, value: string) {
    exists at: nat, v: string ::
      && at <= |s| && (forall i :: 0 <= i < at ==> White(s[i])) && (at < |s| ==> !White(s[at]))
      && Uncommented(s[at..], v) && EndsOff(v, value)
  }

  /** `r` is as much of `s` as fits a buffer of 50 characters with its terminator. */
  predicate Fitted(s: string, r: string) {
    r <= s && |r| == if |s| < 50 then |s| else 49
  }

  // ------------------------------------------------------------------ a line

  /** What a line does: the calls of the handler, whether it is malformed, and the section and name from then on. */
  datatype Effect = Effect(calls: seq<Call>, malformed: bool, after: Context)

  /** The separator at `k` splits the line into name and value. */
  ghost predicate PairAt(text: string, k: nat, before: Context, e: Effect) {
    && k < |text| && |e.calls| == 1 && !e.malformed
    && e.calls[0].section == before.section
    && EndsOff(text[..k], e.calls[0].name) && IsValue(text[k + 1..], e.calls[0].value)
    && e.after.section == before.section && Fitted(e.calls[0].name, e.after.prevName)
  }

  /** The section ends at the ']' at `k` behind the '['. */
  ghost predicate SectionAt(text: string, k: nat, e: Effect) {
    && k < |text| - 1 && e.calls == [] && !e.malformed
    && Fitted(text[1..1 + k], e.after.section) && e.after.prevName == ""
  }

  /** Blank lines and lines that start with ';' or '#'. */
  predicate Ignored(text: string) {
    text == "" || text[0] == ';' || text[0] == '#'
  }

  /** Indented lines behind a name, where values may be continued. */
  predicate Continues(cfg: Config, text: string, indented: bool, before: Context) {
    cfg.multiline && indented && before.prevName != "" && !Ignored(text)
  }

  /** What the stripped text of a line does. */
  ghost predicate TextDoes(cfg: Config, text: string, indented: bool, before: Context, e: Effect) {
    if Ignored(text) then e == Effect([], false, before)
    else if Continues(cfg, text, indented, before) then
      e == Effect([Call(before.section, before.prevName, text)], false, before)
    else if text[0] == '[' then
      if Occurs(text[1..], ']') then exists k: nat :: FirstAt(text[1..], ']', k) && SectionAt(text, k, e)
      else e == Effect([], true, before)
    else if Occurs(text, '=') then exists k: nat :: FirstAt(text, '=', k) && PairAt(text, k, before, e)
    else if Occurs(text, ':') then exists k: nat :: FirstAt(text, ':', k) && PairAt(text, k, before, e)
    else e == Effect([], true, before)
  }

  /** A byte-order mark leads the file, and is allowed. */
  predicate Marked(cfg: Config, piece: string, lineno: nat) {
    cfg.bom && lineno == 1 && |piece| >= 3
    && piece[0] as int == 0xEF && piece[1] as int == 0xBB && piece[2] as int == 0xBF
  }

  function Start(cfg: Config, piece: string, lineno: nat): nat {
    if Marked(cfg, piece, lineno) then 3 else 0
  }

  /** What line number `lineno` does. */
  ghost predicate LineDoes(cfg: Config, piece: string, lineno: nat, before: Context, e: Effect) {
    exists at: nat, text: string ::
      Core(piece, Start(cfg, piece, lineno), at, text) && TextDoes(cfg, text, at > 0, before, e)
  }

  // ------------------------------------------------------------------ the grammar finds these parts

  lemma FirstAtExactly(s: string, c: char, k: nat)
    ensures FirstAt(s, c, k) <==> Find(s, c) == k && k < |s| && s[k] == c
  {
    FindFromFirst(s, c, 0);
    if k < |s| && s[k] == c && Find(s, c) == k {
      forall i | 0 <= i < k ensures s[i] != c && !SemicolonAt(s, i) {
        assert !StopsAt(s, c, i);
      }
    }
    if FirstAt(s, c, k) {
      FindFromIs(s, c, 0, k);
    }
  }

  lemma OccursExactly(s: string, c: char)
    ensures Occurs(s, c) <==> Find(s, c) < |s| && s[Find(s, c)] == c
  {
    if k: nat :| FirstAt(s, c, k) {
      FirstAtExactly(s, c, k);
    } else {
      FirstAtExactly(s, c, Find(s, c));
    }
  }

  lemma EndsOffExactly(s: string, r: string)
    ensures EndsOff(s, r) <==> r == RStrip(s)
  {
    RStripMeans(s);
    if EndsOff(s, r) {
      assert s == r + s[|r|..];
      RStripPadded(r, s[|r|..]);
    }
  }

  lemma UncommentedExactly(s: string, v: string)
    requires NUL !in s
    ensures Uncommented(s, v) <==> v == s[..Find(s, NUL)]
  {
    FindFromFirst(s, NUL, 0);
    var e := Find(s, NUL);
    if v == s[..e] {
      forall i | 0 <= i < e ensures !SemicolonAt(s, i) {
        assert !StopsAt(s, NUL, i);
      }
    }
    if Uncommented(s, v) {
      forall i | 0 <= i < |v| ensures !StopsAt(s, NUL, i) {
        assert s[i] in s && !SemicolonAt(s, i);
      }
      FindFromIs(s, NUL, 0, |v|);
    }
  }

  lemma IsValueExactly(s: string, value: string)
    requires NUL !in s
    ensures IsValue(s, value) <==> value == ValueIn(s)
  {
    LSkipMeans(s);
    ValueAt(s, |s| - |LSkip(s)|, LSkip(s)[..Find(LSkip(s), NUL)], ValueIn(s));
    if IsValue(s, value) {
      var at: nat, v: string :|
        && at <= |s| && (forall i :: 0 <= i < at ==> White(s[i])) && (at < |s| ==> !White(s[at]))
        && Uncommented(s[at..], v) && EndsOff(v, value);
      ValueAt(s, at, v, value);
    }
  }

  lemma ValueAt(s: string, at: nat, v: string, value: string)
    requires NUL !in s && at <= |s| && (forall i :: 0 <= i < at ==> White(s[i])) && (at < |s| ==> !White(s[at]))
    ensures Uncommented(s[at..], v) && EndsOff(v, value)
            <==> v == LSkip(s)[..Find(LSkip(s), NUL)] && value == RStrip(v)
  {
    LSkipIs(s, at);
    assert forall c :: c in s[at..] ==> c in s;
    UncommentedExactly(s[at..], v);
    EndsOffExactly(v, value);
  }

  /** The stripped text, and whether it is indented, are those of the grammar. */
  lemma CoreIs(s: string, from: nat, at: nat, text: string)
    requires Core(s, from, at, text)
    ensures text == LSkip(RStrip(s[from..]))
    ensures text != "" ==> at == from + |RStrip(s[from..])| - |text|
  {
    var body, pad := s[from..at + |text|], s[at + |text|..];
    assert s[from..] == body + pad;
    if text == "" {
      assert Blank(s[from..]);
      RStripPadded("", s[from..]);
      assert "" + s[from..] == s[from..];
    } else {
      assert body[|body| - 1] == text[|text| - 1];
      RStripPadded(body, pad);
      assert forall i :: 0 <= i < at - from ==> body[i] == s[from + i];
      LSkipIs(body, at - from);
      assert body[at - from..] == text;
    }
  }

  lemma CoreOf(s: string, from: nat) returns (at: nat, text: string)
    requires from <= |s|
    ensures Core(s, from, at, text)
  {
    var rest := s[from..];
    var body := RStrip(rest);
    text := LSkip(body);
    RStripMeans(rest);
    LSkipMeans(body);
    at := from + |body| - |text|;
    CoreIn(s, from, rest, body, at, text);
  }

  lemma CoreIn(s: string, from: nat, rest: string, body: string, at: nat, text: string)
    requires from <= |s| && rest == s[from..] && body <= rest && |text| <= |body| && at == from + |body| - |text|
    requires text == body[|body| - |text|..] && (text != "" ==> !White(text[0]))
    requires body != "" ==> !White(body[|body| - 1])
    requires forall i :: |body| <= i < |rest| ==> White(rest[i])
    requires forall i :: 0 <= i < |body| - |text| ==> White(body[i])
    ensures Core(s, from, at, text)
  {
    assert text == s[at..at + |text|];
    forall i | from <= i < at || at + |text| <= i < |s| ensures White(s[i]) {
      assert s[i] == rest[i - from];
      assert i < at ==> rest[i - from] == body[i - from];
    }
  }

  lemma FittedExactly(s: string, r: string)
    ensures Fitted(s, r) <==> r == Truncate(s, 50)
  {
  }

  /** What a line comes to in the grammar. */
  function EffectOf(before: Context, line: Line): Effect {
    Effect(Reports(before, line), line.Malformed?, Next(before, line))
  }

  lemma PairExactly(text: string, k: nat, before: Context, e: Effect)
    requires k < |text| && NUL !in text
    ensures PairAt(text, k, before, e) <==> e == EffectOf(before, Pair(RStrip(text[..k]), ValueIn(text[k + 1..])))
  {
    var rest := text[k + 1..];
    assert forall c :: c in rest ==> c in text;
    if |e.calls| == 1 {
      EndsOffExactly(text[..k], e.calls[0].name);
      IsValueExactly(rest, e.calls[0].value);
      FittedExactly(e.calls[0].name, e.after.prevName);
    }
  }

  lemma SectionExactly(text: string, k: nat, before: Context, e: Effect)
    requires k < |text| - 1
    ensures SectionAt(text, k, e) <==> e == EffectOf(before, Section(text[1..1 + k]))
  {
    FittedExactly(text[1..1 + k], e.after.section);
  }

  lemma TextDoesExactly(cfg: Config, text: string, indented: bool, before: Context, e: Effect)
    requires NUL !in text
    ensures TextDoes(cfg, text, indented, before, e)
            <==> e == EffectOf(before, Read(cfg, text, indented, before.prevName))
  {
    if Ignored(text) || Continues(cfg, text, indented, before) {
    } else if text[0] == '[' {
      SectionDoes(cfg, text, indented, before, e);
    } else {
      PairDoes(cfg, text, indented, before, e);
    }
  }

  lemma SectionDoes(cfg: Config, text: string, indented: bool, before: Context, e: Effect)
    requires NUL !in text && !Ignored(text) && !Continues(cfg, text, indented, before) && text[0] == '['
    ensures TextDoes(cfg, text, indented, before, e)
            <==> e == EffectOf(before, Read(cfg, text, indented, before.prevName))
  {
    var k := Find(text[1..], ']');
    OccursExactly(text[1..], ']');
    if Occurs(text[1..], ']') {
      SectionExactly(text, k, before, e);
      forall i: nat ensures FirstAt(text[1..], ']', i) <==> i == k {
        FirstAtExactly(text[1..], ']', i);
      }
    }
  }

  lemma PairDoes(cfg: Config, text: string, indented: bool, before: Context, e: Effect)
    requires NUL !in text && !Ignored(text) && !Continues(cfg, text, indented, before) && text[0] != '['
    ensures TextDoes(cfg, text, indented, before, e)
            <==> e == EffectOf(before, Read(cfg, text, indented, before.prevName))
  {
    OccursExactly(text, '=');
    OccursExactly(text, ':');
    if Separator(text).Some? {
      var k := Separator(text).value;
      PairExactly(text, k, before, e);
      forall i: nat ensures FirstAt(text, text[k], i) <==> i == k {
        FirstAtExactly(text, text[k], i);
      }
    }
  }

  /** What a line does is exactly what the grammar makes of it. */
  lemma LineDoesExactly(cfg: Config, piece: string, lineno: nat, before: Context, e: Effect)
    requires NUL !in piece
    ensures LineDoes(cfg, piece, lineno, before, e) <==> e == EffectOf(before, LineOf(cfg, piece, lineno, before))
  {
    var from := Start(cfg, piece, lineno);
    assert from == Offset(cfg, piece, lineno) by { MarkedExactly(cfg, piece, lineno); }
    var start, core := CoreOf(piece, from);
    TextOfPiece(cfg, piece, lineno, before, e, start, core);
    if LineDoes(cfg, piece, lineno, before, e) {
      var at: nat, text: string :| Core(piece, from, at, text) && TextDoes(cfg, text, at > 0, before, e);
      TextOfPiece(cfg, piece, lineno, before, e, at, text);
    }
  }

  lemma MarkedExactly(cfg: Config, piece: string, lineno: nat)
    ensures Start(cfg, piece, lineno) == Offset(cfg, piece, lineno)
  {
    assert BOM <= piece <==> |piece| >= 3 && piece[0] == BOM[0] && piece[1] == BOM[1] && piece[2] == BOM[2];
  }

  lemma TextOfPiece(cfg: Config, piece: string, lineno: nat, before: Context, e: Effect, at: nat, text: string)
    requires NUL !in piece && Core(piece, Offset(cfg, piece, lineno), at, text)
    ensures TextDoes(cfg, text, at > 0, before, e) <==> e == EffectOf(before, LineOf(cfg, piece, lineno, before))
  {
    assert forall c :: c in text ==> c in piece;
    CoreIs(piece, Offset(cfg, piece, lineno), at, text);
    TextDoesExactly(cfg, text, at > 0, before, e);
  }

  // ------------------------------------------------------------------ the lines of a file

  /** A piece of a file: at most 199 characters of one line, and all of the line unless they are 199 or the last. */
  predicate IsPiece(p: string, last: bool) {
    && 0 < |p| <= 199 && (forall i :: 0 <= i < |p| - 1 ==> p[i] != '\n')
    && (p[|p| - 1] == '\n' || |p| == 199 || last)
  }

  ghost predicate IsCut(file: string, pieces: seq<string>) {
    Concat(pieces) == file && forall i :: 0 <= i < |pieces| ==> IsPiece(pieces[i], i == |pieces| - 1)
  }

  lemma {:induction false} PieceLenIs(s: string, room: nat, n: nat)
    requires 0 < n <= |s| && n <= room && forall i :: 0 <= i < n - 1 ==> s[i] != '\n'
    requires s[n - 1] == '\n' || n == room || n == |s|
    ensures PieceLen(s, room) == n
    decreases n
  {
    if n > 1 {
      assert forall i :: 0 <= i < |s| - 1 ==> s[1..][i] == s[i + 1];
      PieceLenIs(s[1..], room - 1, n - 1);
    }
  }

  lemma {:induction false} PieceLenMeans(s: string, room: nat)
    requires s != "" && room > 0
    ensures var n := PieceLen(s, room);
            && (forall i :: 0 <= i < n - 1 ==> s[i] != '\n')
            && (s[n - 1] == '\n' || n == room || n == |s|)
    decreases |s|
  {
    if s[0] != '\n' && |s| > 1 && room > 1 {
      PieceLenMeans(s[1..], room - 1);
      assert forall i :: 0 <= i < |s| - 1 ==> s[1..][i] == s[i + 1];
    }
  }

  /** A file is cut into pieces in exactly one way. */
  lemma CutExactly(file: string, pieces: seq<string>)
    ensures IsCut(file, pieces) <==> pieces == Pieces(file)
  {
    PiecesAreCut(file);
    if IsCut(file, pieces) {
      CutIsPieces(file, pieces);
    }
  }

  lemma {:induction false} PiecesAreCut(s: string)
    ensures IsCut(s, Pieces(s))
    decreases |s|
  {
    PiecesCover(s);
    if s != "" {
      var n := PieceLen(s, 199);
      var rest := Pieces(s[n..]);
      PieceLenMeans(s, 199);
      PiecesAreCut(s[n..]);
      assert n == |s| || rest != [];
      forall i | 0 <= i < |Pieces(s)| ensures IsPiece(Pieces(s)[i], i == |Pieces(s)| - 1) {
        if i > 0 {
          assert IsPiece(rest[i - 1], i - 1 == |rest| - 1);
        }
      }
    }
  }

  lemma {:induction false} CutIsPieces(s: string, ps: seq<string>)
    requires IsCut(s, ps)
    ensures ps == Pieces(s)
    decreases |ps|
  {
    if ps != [] {
      var p, rest := ps[0], ps[1..];
      assert IsPiece(p, 0 == |ps| - 1) && s == p + Concat(rest);
      assert forall i :: 0 <= i < |p| ==> s[i] == p[i];
      PieceLenIs(s, 199, |p|);
      assert s[..|p|] == p && s[|p|..] == Concat(rest);
      forall i | 0 <= i < |rest| ensures IsPiece(rest[i], i == |rest| - 1) {
        assert IsPiece(ps[i + 1], i + 1 == |ps| - 1);
      }
      CutIsPieces(s[|p|..], rest);
    }
  }

  // ------------------------------------------------------------------ the whole file

  /** One line of a file, and what it does. */
  datatype Turn = Turn(piece: string, effect: Effect)

  function PiecesIn(turns: seq<Turn>): (ps: seq<string>)
    ensures |ps| == |turns| && forall i :: 0 <= i < |turns| ==> ps[i] == turns[i].piece
  {
    seq(|turns|, i requires 0 <= i < |turns| => turns[i].piece)
  }

  function Before(turns: seq<Turn>): Context {
    if turns == [] then Context("", "") else turns[|turns| - 1].effect.after
  }

  function CallsIn(turns: seq<Turn>): seq<Call> {
    if turns == [] then [] else CallsIn(turns[..|turns| - 1]) + turns[|turns| - 1].effect.calls
  }

  /** Each line does what it does behind those in front of it. */
  ghost predicate Follow(cfg: Config, turns: seq<Turn>) {
    turns == []
    || (var front, last := turns[..|turns| - 1], turns[|turns| - 1];
        Follow(cfg, front) && LineDoes(cfg, last.piece, |turns|, Before(front), last.effect))
  }

  /** Line `n`, counted from 1, is malformed or has its call rejected. */
  predicate IsError(turns: seq<Turn>, accepts: Handler, n: nat) {
    && 0 < n <= |turns|
    && var e := turns[n - 1].effect;
       e.malformed || (e.calls != [] && !accepts(CallsIn(turns[..n])))
  }

  /** `error` is the first line in error, or 0 and there is none. */
  ghost predicate FirstError(turns: seq<Turn>, accepts: Handler, error: nat) {
    && (error != 0 ==> IsError(turns, accepts, error))
    && forall n: nat :: (error == 0 || n < error) ==> !IsError(turns, accepts, n)
  }

  /** The lines of a file, and what they do. */
  ghost predicate AreLines(cfg: Config, file: string, turns: seq<Turn>) {
    IsCut(file, PiecesIn(turns)) && Follow(cfg, turns)
  }

  /** A parse of the file makes these calls and returns this error: all calls, or with `stop` those up to the first
      error. */
  ghost predicate FileReads(cfg: Config, stop: bool, accepts: Handler, file: string, calls: seq<Call>, error: nat) {
    exists turns: seq<Turn> ::
      && AreLines(cfg, file, turns) && FirstError(turns, accepts, error)
      && calls == CallsIn(if stop && error != 0 then turns[..error] else turns)
  }

  /** The same with a reader of lines: each line has the effect that is read. */
  predicate FollowsReader(read: Reader, turns: seq<Turn>) {
    turns == []
    || (var front, last := turns[..|turns| - 1], turns[|turns| - 1];
        FollowsReader(read, front) && last.effect == EffectRead(read, front, last.piece))
  }

  function EffectRead(read: Reader, before: seq<Turn>, piece: string): Effect {
    EffectOf(Before(before), read(Before(before), piece, |before| + 1))
  }

  lemma {:induction false} FollowExactly(cfg: Config, turns: seq<Turn>)
    requires forall t :: t in turns ==> NUL !in t.piece
    ensures Follow(cfg, turns) <==> FollowsReader(Reading(cfg), turns)
    decreases |turns|
  {
    if turns != [] {
      var front, last := turns[..|turns| - 1], turns[|turns| - 1];
      FollowExactly(cfg, front);
      LineDoesExactly(cfg, last.piece, |turns|, Before(front), last.effect);
    }
  }

  /** The walk over the pieces has these effects. */
  lemma {:induction false} FollowWalks(read: Reader, turns: seq<Turn>)
    requires FollowsReader(read, turns)
    ensures Walk(read, PiecesIn(turns)) == Walked(Before(turns), CallsIn(turns))
    decreases |turns|
  {
    if turns != [] {
      var front := turns[..|turns| - 1];
      FollowWalks(read, front);
      PiecesFront(turns, |front|);
    }
  }

  lemma {:induction false} FollowFront(read: Reader, turns: seq<Turn>, n: nat)
    requires FollowsReader(read, turns) && n <= |turns|
    ensures FollowsReader(read, turns[..n])
    decreases |turns|
  {
    if n < |turns| {
      FollowFront(read, turns[..|turns| - 1], n);
      assert turns[..|turns| - 1][..n] == turns[..n];
    } else {
      assert turns[..n] == turns;
    }
  }

  lemma PiecesFront(turns: seq<Turn>, n: nat)
    requires n <= |turns|
    ensures PiecesIn(turns[..n]) == PiecesIn(turns)[..n]
  {
  }

  lemma LastIsFaulty(read: Reader, accepts: Handler, turns: seq<Turn>)
    requires FollowsReader(read, turns) && turns != []
    ensures IsError(turns, accepts, |turns|) <==> LastFaulty(read, accepts, PiecesIn(turns))
  {
    FollowWalks(read, turns);
    FollowWalks(read, turns[..|turns| - 1]);
    PiecesFront(turns, |turns| - 1);
    assert turns[..|turns|] == turns;
  }

  lemma ErrorIsFaulty(read: Reader, accepts: Handler, turns: seq<Turn>, n: nat)
    requires FollowsReader(read, turns)
    ensures IsError(turns, accepts, n) <==> Faulty(read, accepts, PiecesIn(turns), n)
  {
    if 0 < n <= |turns| {
      FollowFront(read, turns, n);
      LastIsFaulty(read, accepts, turns[..n]);
      PiecesFront(turns, n);
      assert turns[..n][..n] == turns[..n] && turns[..n][n - 1] == turns[n - 1];
    }
  }

  /** Pieces, and what each does. */
  lemma {:induction false} TurnsOf(read: Reader, pieces: seq<string>) returns (turns: seq<Turn>)
    ensures PiecesIn(turns) == pieces && FollowsReader(read, turns)
    decreases |pieces|
  {
    turns := [];
    if pieces != [] {
      var n := |pieces| - 1;
      var front := TurnsOf(read, pieces[..n]);
      turns := front + [Turn(pieces[n], EffectRead(read, front, pieces[n]))];
      assert turns[..n] == front;
    }
  }

  lemma FirstErrorExactly(read: Reader, accepts: Handler, turns: seq<Turn>, error: nat)
    requires FollowsReader(read, turns)
    ensures FirstError(turns, accepts, error) <==> error == FirstFault(read, accepts, PiecesIn(turns))
  {
    var e := FirstFault(read, accepts, PiecesIn(turns));
    FirstFaultMeans(read, accepts, PiecesIn(turns));
    forall n: nat ensures IsError(turns, accepts, n) <==> Faulty(read, accepts, PiecesIn(turns), n) {
      ErrorIsFaulty(read, accepts, turns, n);
    }
  }

  lemma NulFreePieces(file: string, turns: seq<Turn>)
    requires NUL !in file && IsCut(file, PiecesIn(turns))
    ensures forall t :: t in turns ==> NUL !in t.piece
  {
    PartsOf(PiecesIn(turns));
    forall t | t in turns ensures NUL !in t.piece {
      assert t.piece in PiecesIn(turns);
    }
  }

  lemma {:induction false} PartsOf(ps: seq<string>)
    ensures forall p, c :: p in ps && c in p ==> c in Concat(ps)
    decreases |ps|
  {
    if ps != [] {
      PartsOf(ps[1..]);
    }
  }

  /** What is read of these lines is the meaning of the file. */
  lemma ReadExactly(cfg: Config, stop: bool, accepts: Handler, file: string, turns: seq<Turn>,
                    calls: seq<Call>, error: nat)
    requires PiecesIn(turns) == Pieces(file) && FollowsReader(Reading(cfg), turns)
    ensures FirstError(turns, accepts, error)
            && calls == CallsIn(if stop && error != 0 then turns[..error] else turns)
            <==> Outcome(calls, error) == Meaning(cfg, stop, accepts, file)
  {
    FirstErrorExactly(Reading(cfg), accepts, turns, error);
    CallsWalked(Reading(cfg), turns, if stop && 0 < error <= |turns| then error else |turns|);
    assert turns[..|turns|] == turns && Pieces(file)[..|turns|] == Pieces(file);
  }

  lemma CallsWalked(read: Reader, turns: seq<Turn>, n: nat)
    requires FollowsReader(read, turns) && n <= |turns|
    ensures CallsIn(turns[..n]) == Walk(read, PiecesIn(turns)[..n]).calls
  {
    FollowFront(read, turns, n);
    FollowWalks(read, turns[..n]);
    PiecesFront(turns, n);
  }

  /** The meaning of a file is exactly what its characters say. */
  lemma FileReadsExactly(cfg: Config, stop: bool, accepts: Handler, file: string, calls: seq<Call>, error: nat)
    requires NUL !in file
    ensures FileReads(cfg, stop, accepts, file, calls, error)
            <==> Outcome(calls, error) == Meaning(cfg, stop, accepts, file)
  {
    var all := TurnsOf(Reading(cfg), Pieces(file));
    LinesExactly(cfg, file, all);
    ReadExactly(cfg, stop, accepts, file, all, calls, error);
    if FileReads(cfg, stop, accepts, file, calls, error) {
      var turns: seq<Turn> :|
        AreLines(cfg, file, turns) && FirstError(turns, accepts, error)
        && calls == CallsIn(if stop && error != 0 then turns[..error] else turns);
      LinesExactly(cfg, file, turns);
      ReadExactly(cfg, stop, accepts, file, turns, calls, error);
    }
  }

  lemma LinesExactly(cfg: Config, file: string, turns: seq<Turn>)
    requires NUL !in file
    ensures AreLines(cfg, file, turns) <==> PiecesIn(turns) == Pieces(file) && FollowsReader(Reading(cfg), turns)
  {
    CutExactly(file, PiecesIn(turns));
    if IsCut(file, PiecesIn(turns)) {
      NulFreePieces(file, turns);
      FollowExactly(cfg, turns);
    }
  }
}
