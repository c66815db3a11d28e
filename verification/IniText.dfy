/** Scanning functions on text, as the INI parser uses them. */
module IniText {
  import opened Basics

  const NUL: char := '\0'

  /** White space of the C locale. */
  predicate IsSpace(c: char) {
    c == ' ' || '\t' <= c <= '\r'
  }

  /** Text without white space at its end. */
  function RStrip(s: string): (r: string)
    ensures r <= s
  {
    if s != "" && IsSpace(s[|s| - 1]) then RStrip(s[..|s| - 1]) else s
  }

  /** Text without white space at its start. */
  function LSkip(s: string): (r: string)
    ensures |r| <= |s|
  {
    if s != "" && IsSpace(s[0]) then LSkip(s[1..]) else s
  }

  /** The character at `k` starts a comment: a ';' behind white space. */
  predicate CommentAt(s: string, k: nat)
    requires k < |s|
  {
    s[k] == ';' && k > 0 && IsSpace(s[k - 1])
  }

  /** A search for `c` ends at `k`: there is `c`, or a comment starts there. */
  predicate StopsAt(s: string, c: char, k: nat)
    requires k < |s|
  {
    s[k] == c || CommentAt(s, k)
  }

  /** First place at or after `k` where a search for `c` ends; the length if there is none. */
  function FindFrom(s: string, c: char, k: nat): (e: nat)
    requires k <= |s|
    ensures k <= e <= |s|
    decreases |s| - k
  {
    if k == |s| || StopsAt(s, c, k) then k else FindFrom(s, c, k + 1)
  }

  function Find(s: string, c: char): (e: nat)
    ensures e <= |s|
  {
    FindFrom(s, c, 0)
  }

  /** As much of a string as fits a buffer of `size` characters with its terminator. */
  function Truncate(s: string, size: nat): (r: string)
    requires size > 0
    ensures r <= s && |r| < size
  {
    if |s| < size then s else s[..size - 1]
  }

  // ------------------------------------------------------------------ what these functions mean

  /** Find is the first stop, and so the only index that is a stop with none before it. */
  lemma {:induction false} FindFromFirst(s: string, c: char, k: nat)
    requires k <= |s|
    ensures forall i :: k <= i < FindFrom(s, c, k) ==> !StopsAt(s, c, i)
    ensures FindFrom(s, c, k) < |s| ==> StopsAt(s, c, FindFrom(s, c, k))
    decreases |s| - k
  {
    if k < |s| && !StopsAt(s, c, k) {
      FindFromFirst(s, c, k + 1);
    }
  }

  lemma {:induction false} FindFromIs(s: string, c: char, k: nat, e: nat)
    requires k <= e <= |s|
    requires forall i :: k <= i < e ==> !StopsAt(s, c, i)
    requires e < |s| ==> StopsAt(s, c, e)
    ensures FindFrom(s, c, k) == e
    decreases e - k
  {
    if k < e {
      FindFromIs(s, c, k + 1, e);
    }
  }

  ghost predicate HasComment(s: string) {
    exists k :: 0 <= k < |s| && CommentAt(s, k)
  }

  /** Text of one line that holds no comment. */
  ghost predicate Plain(s: string) {
    Clean(s) && !HasComment(s)
  }

  ghost predicate Clean(s: string) {
    '\n' !in s && NUL !in s
  }

  ghost predicate Blank(s: string) {
    forall c :: c in s ==> IsSpace(c)
  }

  ghost predicate Trimmed(s: string) {
    s != "" ==> !IsSpace(s[0]) && !IsSpace(s[|s| - 1])
  }

  lemma {:induction false} RStripMeans(s: string)
    ensures RStrip(s) != "" ==> !IsSpace(RStrip(s)[|RStrip(s)| - 1])
    ensures forall i :: |RStrip(s)| <= i < |s| ==> IsSpace(s[i])
    decreases |s|
  {
    if s != "" && IsSpace(s[|s| - 1]) {
      RStripMeans(s[..|s| - 1]);
    }
  }

  lemma {:induction false} LSkipMeans(s: string)
    ensures LSkip(s) == s[|s| - |LSkip(s)|..]
    ensures LSkip(s) != "" ==> !IsSpace(LSkip(s)[0])
    ensures forall i :: 0 <= i < |s| - |LSkip(s)| ==> IsSpace(s[i])
    decreases |s|
  {
    if s != "" && IsSpace(s[0]) {
      LSkipMeans(s[1..]);
    }
  }

  lemma {:induction false} LSkipIs(s: string, k: nat)
    requires k <= |s| && forall i :: 0 <= i < k ==> IsSpace(s[i])
    requires k < |s| ==> !IsSpace(s[k])
    ensures LSkip(s) == s[k..]
    decreases k
  {
    if k > 0 {
      assert s[1..][k - 1..] == s[k..];
      assert forall i :: 0 <= i < k - 1 ==> s[1..][i] == s[i + 1];
      LSkipIs(s[1..], k - 1);
    }
  }

  /** Stripping takes trailing white space off and nothing else. */
  lemma {:induction false} RStripPadded(s: string, pad: string)
    requires s != "" ==> !IsSpace(s[|s| - 1])
    requires Blank(pad)
    ensures RStrip(s + pad) == s
    decreases |pad|
  {
    if pad == "" {
      assert s + pad == s;
    } else {
      assert (s + pad)[..|s + pad| - 1] == s + pad[..|pad| - 1];
      assert pad[|pad| - 1] in pad;
      RStripPadded(s, pad[..|pad| - 1]);
    }
  }

  // ------------------------------------------------------------------ pieces of a file

  /** Longest piece one read of a line returns, newline included: the line buffer less its
      terminator. */
  const MAX_PIECE: nat := 199

  /** Length of the next piece: up to and including a newline, or as much as there is room for. */
  function PieceLen(s: string, room: nat): (n: nat)
    ensures n <= |s| && n <= room && (s != "" && room > 0 ==> n > 0)
  {
    if s == "" || room == 0 then 0
    else if s[0] == '\n' then 1
    else 1 + PieceLen(s[1..], room - 1)
  }

  /** The pieces a file is read in. */
  function Pieces(s: string): seq<string>
    decreases |s|
  {
    if s == "" then []
    else
      var n := PieceLen(s, MAX_PIECE);
      [s[..n]] + Pieces(s[n..])
  }

  function Concat(lines: seq<string>): string {
    if lines == [] then "" else lines[0] + Concat(lines[1..])
  }

  /** The text ends where a line ends. */
  ghost predicate EndsLine(s: string) {
    s != "" ==> s[|s| - 1] == '\n'
  }

  lemma {:induction false} PieceLenOfFront(a: string, b: string, room: nat)
    requires a != "" && EndsLine(a)
    ensures PieceLen(a + b, room) == PieceLen(a, room)
    decreases |a|
  {
    if a[0] != '\n' && room > 0 {
      assert (a + b)[1..] == a[1..] + b;
      PieceLenOfFront(a[1..], b, room - 1);
    }
  }

  /** The pieces of what follows a line do not depend on it. */
  lemma {:induction false} PiecesAppend(a: string, b: string)
    requires EndsLine(a)
    ensures Pieces(a + b) == Pieces(a) + Pieces(b)
    decreases |a|
  {
    if a == "" {
      assert a + b == b;
    } else {
      var n := PieceLen(a, MAX_PIECE);
      PieceLenOfFront(a, b, MAX_PIECE);
      assert (a + b)[..n] == a[..n] && (a + b)[n..] == a[n..] + b;
      PiecesAppend(a[n..], b);
      Assoc([a[..n]], Pieces(a[n..]), Pieces(b));
    }
  }

  /** A newline, if there is one, is the last character. */
  ghost predicate OneLine(s: string) {
    forall i :: 0 <= i < |s| - 1 ==> s[i] != '\n'
  }

  lemma {:induction false} PieceLenOfLine(s: string, room: nat)
    requires OneLine(s)
    ensures PieceLen(s, room) == if |s| <= room then |s| else room
    decreases |s|
  {
    if |s| > 1 && room > 0 {
      assert forall i :: 0 <= i < |s| - 1 ==> s[1..][i] == s[i + 1];
      PieceLenOfLine(s[1..], room - 1);
    }
  }

  /** A line that fits the buffer is one piece. */
  lemma PiecesOfLine(s: string)
    requires OneLine(s) && 0 < |s| <= MAX_PIECE
    ensures Pieces(s) == [s]
  {
    PieceLenOfLine(s, MAX_PIECE);
    assert s[..|s|] == s && s[|s|..] == "";
  }

  lemma {:induction false} PiecesBlank(s: string)
    requires Blank(s)
    ensures forall p :: p in Pieces(s) ==> Blank(p)
    decreases |s|
  {
    if s != "" {
      var n := PieceLen(s, MAX_PIECE);
      assert Blank(s[..n]) && Blank(s[n..]);
      PiecesBlank(s[n..]);
    }
  }

  /** Pieces lose nothing: put together they are the file, and each fits the line buffer. */
  lemma {:induction false} PiecesCover(s: string)
    ensures Concat(Pieces(s)) == s
    ensures forall p :: p in Pieces(s) ==> 0 < |p| <= MAX_PIECE && |p| <= |s|
    decreases |s|
  {
    if s != "" {
      var n := PieceLen(s, MAX_PIECE);
      var rest := Pieces(s[n..]);
      PiecesCover(s[n..]);
      assert Concat([s[..n]] + rest) == s[..n] + Concat(rest) by {
        assert ([s[..n]] + rest)[1..] == rest;
      }
    }
  }
}
