/** The INI parser as it runs: NUL-terminated text in fixed buffers, cut up by overwriting characters
    in place. */
module IniParser {
  import opened Basics
  import opened CText
  import opened IniText
  import opened IniGrammar
  import opened IniLines

  const MAX_LINE: nat := MAX_PIECE + 1

  // ------------------------------------------------------------------ text in a buffer

  /** Strips white space off the end, in place. */
  method Rstrip(a: array<char>, p: nat, ghost s: string)
    requires Holds(a, p, s)
    modifies a
    ensures Holds(a, p, RStrip(s))
    ensures forall i :: 0 <= i < a.Length && !(p <= i < p + |s|) ==> a[i] == old(a[i])
  {
    var n := Strlen(a, p, s);
    ghost var left, stripped := s, RStrip(s);
    while n > 0 && IsSpace(a[p + n - 1])
      invariant n == |left| <= |s| && Holds(a, p, left) && RStrip(left) == stripped
      invariant forall i :: 0 <= i < a.Length && !(p <= i < p + |s|) ==> a[i] == old(a[i])
    {
      assert a[p + n - 1] == left[n - 1];
      ghost var shorter := left[..n - 1];
      assert forall i :: 0 <= i < n - 1 ==> shorter[i] == left[i];
      assert forall x :: x in shorter ==> x in left;
      n := n - 1;
      a[p + n] := NUL;
      left := shorter;
    }
    assert n > 0 ==> a[p + n - 1] == left[n - 1];
  }

  /** Index of the first character that is not white space. */
  method Lskip(a: array<char>, p: nat, ghost s: string) returns (q: nat)
    requires Holds(a, p, s)
    ensures q == p + |s| - |LSkip(s)| && Holds(a, q, LSkip(s))
  {
    q := p;
    ghost var k := 0;
    while a[q] != NUL && IsSpace(a[q])
      invariant q == p + k && k <= |s| && forall i :: 0 <= i < k ==> IsSpace(s[i])
      decreases |s| - k
    {
      assert k < |s| ==> a[p + k] == s[k];
      q := q + 1;
      k := k + 1;
    }
    assert k < |s| ==> a[p + k] == s[k];
    HoldsFrom(a, p, s, k);
    LSkipIs(s, k);
  }

  /** Index of the first `c` or comment, or of the terminator. */
  method FindCharOrComment(a: array<char>, p: nat, c: char, ghost s: string) returns (q: nat)
    requires Holds(a, p, s)
    ensures q == p + Find(s, c)
  {
    q := p;
    var wasWhitespace := false;
    ghost var k := 0;
    while a[q] != NUL && a[q] != c && !(wasWhitespace && a[q] == ';')
      invariant q == p + k && k <= |s| && FindFrom(s, c, k) == Find(s, c)
      invariant wasWhitespace == (k > 0 && IsSpace(s[k - 1]))
      decreases |s| - k
    {
      assert k < |s| ==> a[p + k] == s[k];
      wasWhitespace := IsSpace(a[q]);
      q := q + 1;
      k := k + 1;
    }
    assert k < |s| ==> a[p + k] == s[k];
  }

  /** Reads the next piece of a file into the line buffer; `next == pos` at the end of the file. */
  method Fgets(line: array<char>, file: string, pos: nat) returns (next: nat)
    requires line.Length == MAX_LINE && pos <= |file| && NUL !in file
    modifies line
    ensures next == pos + PieceLen(file[pos..], MAX_PIECE) && next <= |file|
    ensures next > pos ==> Holds(line, 0, file[pos..next])
  {
    next := pos;
    ghost var want := PieceLen(file[pos..], MAX_PIECE);
    var newline := false;
    while next - pos < MAX_PIECE && next < |file| && !newline
      invariant pos <= next <= |file| && next - pos <= MAX_PIECE
      invariant forall i :: 0 <= i < next - pos ==> line[i] == file[pos + i]
      invariant newline ==> next - pos == want
      invariant !newline ==> want == next - pos + PieceLen(file[next..], MAX_PIECE - (next - pos))
      decreases |file| - next
    {
      assert file[next..][1..] == file[next + 1..];
      line[next - pos] := file[next];
      newline := file[next] == '\n';
      next := next + 1;
    }
    line[next - pos] := NUL;
    ghost var piece := file[pos..next];
    assert forall i :: 0 <= i < |piece| ==> piece[i] == file[pos + i];
    assert forall c :: c in piece ==> c in file;
  }

  /** Ends the text at its `k`-th character by overwriting it; what follows is a text of its own. */
  method Cut(a: array<char>, p: nat, k: nat, ghost s: string)
    requires Holds(a, p, s) && k <= |s|
    modifies a
    ensures Holds(a, p, s[..k]) && (k < |s| ==> Holds(a, p + k + 1, s[k + 1..]))
    ensures forall i :: 0 <= i < a.Length && i != p + k ==> a[i] == old(a[i])
  {
    HoldsFrom(a, p, s, if k < |s| then k + 1 else k);
    a[p + k] := NUL;
    assert forall x :: x in s[..k] ==> x in s;
    assert forall i :: 0 <= i < k ==> s[..k][i] == s[i];
  }

  // ------------------------------------------------------------------ lines

  /** The buffers hold the context. */
  ghost predicate HoldContext(section: array<char>, prevName: array<char>, ctx: Context)
    reads section, prevName
  {
    && section.Length == MAX_SECTION && prevName.Length == MAX_NAME
    && Holds(section, 0, ctx.section) && Holds(prevName, 0, ctx.prevName)
  }

  /** A line that starts with '[': the section name is copied, and forgets the last name. */
  method ParseSection(line: array<char>, section: array<char>, prevName: array<char>, start: nat,
                      ghost text: string, ghost ctx: Context)
    returns (malformed: bool)
    requires Holds(line, start, text) && text != "" && line != section && line != prevName && section != prevName
    requires HoldContext(section, prevName, ctx)
    modifies line, section, prevName
    ensures var e := Find(text[1..], ']');
            && malformed == !(1 + e < |text| && text[1 + e] == ']')
            && HoldContext(section, prevName,
                           if malformed then ctx else Next(ctx, Section(text[1..1 + e])))
  {
    ghost var inside := text[1..];
    HoldsFrom(line, start, text, 1);
    var end := FindCharOrComment(line, start + 1, ']', inside);
    ghost var e := Find(inside, ']');
    assert e < |inside| ==> line[start + 1 + e] == inside[e];
    malformed := line[end] != ']';
    if !malformed {
      Cut(line, start + 1, end - (start + 1), inside);
      assert inside[..e] == text[1..1 + e];
      Strncpy0(section, line, start + 1, inside[..e]);
      prevName[0] := NUL;
    }
  }

  /** Any other line: a name and a value, or an error. */
  method ParsePair(line: array<char>, section: array<char>, prevName: array<char>, start: nat,
                   ghost text: string, ghost ctx: Context)
    returns (calls: seq<Call>, malformed: bool, ghost l: Line)
    requires Holds(line, start, text) && line != section && line != prevName && section != prevName
    requires HoldContext(section, prevName, ctx)
    modifies line, prevName
    ensures l == match Separator(text)
                 case Some(e) => Pair(RStrip(text[..e]), ValueIn(text[e + 1..]))
                 case None => Malformed
    ensures malformed == l.Malformed? && calls == Reports(ctx, l)
    ensures HoldContext(section, prevName, Next(ctx, l))
  {
    ghost var separator := Separator(text);
    var end := FindSeparator(line, start, text);
    if line[end] != '=' && line[end] != ':' {
      return [], true, Malformed;
    }
    var e := end - start;
    assert separator == Some(e);
    ghost var name, v := RStrip(text[..e]), ValueIn(text[e + 1..]);
    l := Pair(name, v);
    var value := CutPair(line, start, e, text, name, v);
    Strncpy0(prevName, line, start, name);
    calls := CallHandler(section, line, start, value, ctx.section, name, v);
    malformed := false;
  }

  /** The call of the handler on texts that lie in the buffers. */
  method CallHandler(section: array<char>, line: array<char>, name: nat, value: nat,
                     ghost sectionText: string, ghost nameText: string, ghost valueText: string)
    returns (calls: seq<Call>)
    requires Holds(section, 0, sectionText) && Holds(line, name, nameText) && Holds(line, value, valueText)
    ensures calls == [Call(sectionText, nameText, valueText)]
  {
    var s := TextAt(section, 0, sectionText);
    var n := TextAt(line, name, nameText);
    var v := TextAt(line, value, valueText);
    calls := [Call(s, n, v)];
  }

  /** Makes two texts of a line, in place: the name in front of the separator, and the value. */
  method CutPair(line: array<char>, start: nat, e: nat, ghost text: string, ghost name: string, ghost v: string)
    returns (value: nat)
    requires Holds(line, start, text) && e < |text|
    requires name == RStrip(text[..e]) && v == ValueIn(text[e + 1..])
    modifies line
    ensures Holds(line, start, name) && Holds(line, value, v)
  {
    ghost var rest := text[e + 1..];
    Cut(line, start, e, text);
    Rstrip(line, start, text[..e]);
    assert Holds(line, start + e + 1, rest);
    value := ParseValue(line, start + e + 1, rest);
  }

  /** Looks for '=', and for ':' if that fails. */
  method FindSeparator(line: array<char>, start: nat, ghost text: string) returns (end: nat)
    requires Holds(line, start, text)
    ensures start <= end <= start + |text|
    ensures (line[end] == '=' || line[end] == ':') <==> Separator(text) == Some(end - start)
    ensures Separator(text) == None <==> !(line[end] == '=' || line[end] == ':')
  {
    end := FindCharOrComment(line, start, '=', text);
    FindFromFirst(text, '=', 0);
    FindFromFirst(text, ':', 0);
    assert Find(text, '=') < |text| ==> line[start + Find(text, '=')] == text[Find(text, '=')];
    assert Find(text, ':') < |text| ==> line[start + Find(text, ':')] == text[Find(text, ':')];
    if line[end] != '=' {
      end := FindCharOrComment(line, start, ':', text);
    }
  }

  /** Skips white space, drops a comment, and strips what is left, in place. */
  method ParseValue(line: array<char>, p: nat, ghost rest: string) returns (value: nat)
    requires Holds(line, p, rest)
    modifies line
    ensures value >= p && Holds(line, value, ValueIn(rest))
    ensures forall i :: 0 <= i < p ==> line[i] == old(line[i])
  {
    ghost var v := LSkip(rest);
    value := Lskip(line, p, rest);
    var end := FindCharOrComment(line, value, NUL, v);
    ghost var k := Find(v, NUL);
    FindFromFirst(v, NUL, 0);
    assert k < |v| ==> line[value + k] == v[k];
    if line[end] == ';' {
      Cut(line, value, end - value, v);
    } else {
      assert v[..k] == v;
    }
    Rstrip(line, value, v[..k]);
  }

  /** Where the text of the line starts: behind a byte-order mark on the first line. */
  method SkipBom(cfg: Config, line: array<char>, lineno: nat, ghost piece: string) returns (start: nat)
    requires Holds(line, 0, piece)
    ensures start == Offset(cfg, piece, lineno) && Holds(line, start, piece[start..])
  {
    start := 0;
    assert forall i {:trigger piece[i]} :: 0 <= i < |piece| ==> line[i] == piece[i];
    if cfg.bom && lineno == 1 && line[0] == BOM[0] && line[1] == BOM[1] && line[2] == BOM[2] {
      start := 3;
    }
    assert BOM <= piece <==> |piece| >= 3 && piece[0] == BOM[0] && piece[1] == BOM[1] && piece[2] == BOM[2];
    HoldsFrom(line, 0, piece, start);
  }

  /** One line: cuts it up, updates the context buffers, and says which handler call it leads to and
      whether it is malformed. */
  method ParseLine(cfg: Config, line: array<char>, section: array<char>, prevName: array<char>, lineno: nat,
                   ghost piece: string, ghost ctx: Context)
    returns (calls: seq<Call>, malformed: bool, ghost l: Line)
    requires line != section && line != prevName && section != prevName
    requires Holds(line, 0, piece) && HoldContext(section, prevName, ctx)
    modifies line, section, prevName
    ensures l == LineOf(cfg, piece, lineno, ctx)
    ensures calls == Reports(ctx, l) && malformed == l.Malformed?
    ensures HoldContext(section, prevName, Next(ctx, l))
  {
    var start;
    ghost var text;
    start, text := Strip(cfg, line, lineno, piece, ctx);
    calls, malformed, l := ParseText(cfg, line, section, prevName, start, text, ctx);
  }

  /** Strips a line at both ends, in place; what is left says how the line reads. */
  method Strip(cfg: Config, line: array<char>, lineno: nat, ghost piece: string, ghost ctx: Context)
    returns (start: nat, ghost text: string)
    requires Holds(line, 0, piece)
    modifies line
    ensures Holds(line, start, text)
    ensures LineOf(cfg, piece, lineno, ctx) == Read(cfg, text, start > 0, ctx.prevName)
  {
    start := SkipBom(cfg, line, lineno, piece);
    ghost var rest := piece[start..];
    ghost var body := RStrip(rest);
    text := LSkip(body);
    Rstrip(line, start, rest);
    start := Lskip(line, start, body);
  }

  /** The stripped text of a line, which starts at index `start` of the buffer. */
  method ParseText(cfg: Config, line: array<char>, section: array<char>, prevName: array<char>, start: nat,
                   ghost text: string, ghost ctx: Context)
    returns (calls: seq<Call>, malformed: bool, ghost l: Line)
    requires line != section && line != prevName && section != prevName
    requires Holds(line, start, text) && HoldContext(section, prevName, ctx)
    modifies line, section, prevName
    ensures l == Read(cfg, text, start > 0, ctx.prevName)
    ensures calls == Reports(ctx, l) && malformed == l.Malformed?
    ensures HoldContext(section, prevName, Next(ctx, l))
  {
    calls, malformed, l := [], false, Read(cfg, text, start > 0, ctx.prevName);
    assert text != "" ==> line[start + 0] == text[0];
    assert ctx.prevName != "" ==> prevName[0 + 0] == ctx.prevName[0];
    if line[start] == ';' || line[start] == '#' {
      assert l == Nothing;
    } else if cfg.multiline && prevName[0] != NUL && line[start] != NUL && start > 0 {
      assert l == Continuation(text);
      var sectionText := TextAt(section, 0, ctx.section);
      var nameText := TextAt(prevName, 0, ctx.prevName);
      var valueText := TextAt(line, start, text);
      calls := [Call(sectionText, nameText, valueText)];
    } else if line[start] == '[' {
      malformed := ParseSection(line, section, prevName, start, text, ctx);
    } else if line[start] != NUL && line[start] != ';' {
      calls, malformed, l := ParsePair(line, section, prevName, start, text, ctx);
    } else {
      assert l == Nothing;
    }
  }

  // ------------------------------------------------------------------ the whole file

  /** One turn of the parser's loop: the calls so far and the first error are brought up to date. */
  method TakeLine(cfg: Config, accepts: Handler, line: array<char>, section: array<char>, prevName: array<char>,
                  lineno: nat, callsBefore: seq<Call>, errorBefore: nat,
                  ghost piece: string, ghost done: seq<string>, ghost before: Walked)
    returns (calls: seq<Call>, error: nat, ghost after: Walked)
    requires line != section && line != prevName && section != prevName
    requires Holds(line, 0, piece) && HoldContext(section, prevName, before.ctx)
    requires before == Walk(Reading(cfg), done) && lineno == |done| + 1
    requires callsBefore == before.calls && errorBefore == FirstFault(Reading(cfg), accepts, done)
    modifies line, section, prevName
    ensures after == Walk(Reading(cfg), done + [piece]) && calls == after.calls
    ensures error == FirstFault(Reading(cfg), accepts, done + [piece])
    ensures error == errorBefore || error == lineno
    ensures HoldContext(section, prevName, after.ctx)
  {
    var reported, malformed;
    ghost var l;
    reported, malformed, l := ParseLine(cfg, line, section, prevName, lineno, piece, before.ctx);
    calls, error := callsBefore + reported, errorBefore;
    if (malformed || (reported != [] && !accepts(calls))) && error == 0 {
      error := lineno;
    }
    after := WalkSnoc(Reading(cfg), accepts, done, piece, before, l);
  }

  /** Reads a file piece by piece. `accepts` is the handler's verdict on the calls so far; `stop` is the
      option to stop at the first error. The result is the meaning of the file. */
  method ParseFile(cfg: Config, stop: bool, accepts: Handler, file: string) returns (calls: seq<Call>, error: nat)
    requires '\0' !in file
    ensures Outcome(calls, error) == Meaning(cfg, stop, accepts, file)
    ensures FileReads(cfg, stop, accepts, file, calls, error)
  {
    var line, section, prevName := new char[MAX_LINE], new char[MAX_SECTION], new char[MAX_NAME];
    section[0], prevName[0] := NUL, NUL;
    var pos, lineno := 0, 0;
    calls, error := [], 0;
    ghost var done: seq<string>, walked := [], Walked(FRESH, []);
    ghost var all := Pieces(file);
    assert file[0..] == file;
    while true
      invariant pos <= |file| && lineno == |done|
      invariant all == done + Pieces(file[pos..])
      invariant walked == Walk(Reading(cfg), done) && calls == walked.calls
      invariant HoldContext(section, prevName, walked.ctx)
      invariant error == FirstFault(Reading(cfg), accepts, done)
      invariant stop ==> error == 0
      decreases |file| - pos
    {
      var next := Fgets(line, file, pos);
      if next == pos {
        break;
      }
      lineno := lineno + 1;
      ghost var piece := file[pos..next];
      calls, error, walked :=
        TakeLine(cfg, accepts, line, section, prevName, lineno, calls, error, piece, done, walked);
      NextPiece(file, pos, next, done, all);
      done := done + [piece];
      pos := next;
      if stop && error != 0 {
        break;
      }
    }
    Finish(cfg, stop, accepts, file, done, Pieces(file[pos..]));
    FileReadsExactly(cfg, stop, accepts, file, calls, error);
  }

  lemma NextPiece(file: string, pos: nat, next: nat, done: seq<string>, all: seq<string>)
    requires pos < next <= |file| && next == pos + PieceLen(file[pos..], MAX_PIECE)
    requires all == done + Pieces(file[pos..])
    ensures all == (done + [file[pos..next]]) + Pieces(file[next..])
  {
    var rest := file[pos..];
    assert rest[..next - pos] == file[pos..next] && rest[next - pos..] == file[next..];
    Assoc(done, [file[pos..next]], Pieces(file[next..]));
  }

  /** Reading may end with the file, or with the stop option at the first fault: nothing after it matters. */
  lemma Finish(cfg: Config, stop: bool, accepts: Handler, file: string, done: seq<string>, left: seq<string>)
    requires Pieces(file) == done + left
    requires var e := FirstFault(Reading(cfg), accepts, done);
             if stop && e != 0 then e == |done| else left == []
    ensures Meaning(cfg, stop, accepts, file)
            == Outcome(Walk(Reading(cfg), done).calls, FirstFault(Reading(cfg), accepts, done))
  {
    var all := Pieces(file);
    assert all[..|done|] == done;
    if left == [] {
      assert all == done;
    } else {
      FirstFaultStays(Reading(cfg), accepts, all, |done|);
    }
  }
}
