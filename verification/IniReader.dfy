/** The reader on top of the parser: a map of values by case-insensitive section and name. */
module IniReader {
  import opened Basics
  import opened IniText
  import opened IniGrammar
  import IniLines
  import opened IniShape
  import opened IniDump
  import opened IniReadBack
  import opened IniRoundTrip
  import opened IniExact
  import IniParser

  // ------------------------------------------------------------------ keys

  /** Lower case of the C locale. */
  function LowerChar(c: char): char {
    if 'A' <= c <= 'Z' then c - 'A' + 'a' else c
  }

  function Lower(s: string): (l: string)
    ensures |l| == |s| && forall i :: 0 <= i < |s| ==> l[i] == LowerChar(s[i])
  {
    seq(|s|, i requires 0 <= i < |s| => LowerChar(s[i]))
  }

  function MakeKey(section: string, name: string): string {
    Lower(section + "=" + name)
  }

  /** The call is for this section and name, letter case aside. */
  predicate Matches(c: Call, section: string, name: string) {
    Lower(c.section) == Lower(section) && Lower(c.name) == Lower(name)
  }

  // ------------------------------------------------------------------ what a lookup means

  /** The values of all calls for a section and name, in order. */
  function Values(log: seq<Call>, section: string, name: string): seq<string> {
    if log == [] then []
    else
      var front, c := log[..|log| - 1], log[|log| - 1];
      Values(front, section, name) + if Matches(c, section, name) then [c.value] else []
  }

  /** One more value: on a new line unless there is nothing yet. */
  function Add(sofar: string, value: string): string {
    (if sofar == "" then "" else sofar + "\n") + value
  }

  function Join(values: seq<string>): string {
    if values == [] then "" else Add(Join(values[..|values| - 1]), values[|values| - 1])
  }

  /** The answer a log of handler calls gives: nothing if no call matches, else all their values. */
  function Lookup(log: seq<Call>, section: string, name: string): Option<string> {
    var values := Values(log, section, name);
    if values == [] then None else Some(Join(values))
  }

  // ------------------------------------------------------------------ the reader

  /** The map after a log of handler calls. */
  function Stored(log: seq<Call>): map<string, string> {
    if log == [] then map[]
    else
      var front, c := log[..|log| - 1], log[|log| - 1];
      var key := MakeKey(c.section, c.name);
      Stored(front)[key := Add(Fetch(Stored(front), key).UnwrapOr(""), c.value)]
  }

  function Fetch(values: map<string, string>, key: string): Option<string> {
    if key in values then Some(values[key]) else None
  }

  class INIReader {
    var error: int
    var values: map<string, string>
    ghost var log: seq<Call>

    ghost predicate Valid()
      reads this
    {
      values == Stored(log) && NamesAreSplit(log)
    }

    /** Parses a file; `None` is a file that cannot be opened. */
    constructor (cfg: Config, stop: bool, file: Option<string>)
      requires file.Some? ==> '\0' !in file.value
      ensures Valid()
      ensures file.None? ==> error == -1 && log == []
      ensures file.Some? ==> error >= 0 && Outcome(log, error) == Meaning(cfg, stop, Accepting(), file.value)
      ensures file.Some? ==> IniLines.FileReads(cfg, stop, Accepting(), file.value, log, error)
    {
      error, values, log := -1, map[], [];
      new;
      if file.Some? {
        var calls, line := IniParser.ParseFile(cfg, stop, Accepting(), file.value);
        assert NamesAreSplit(calls) by { MeaningShapely(cfg, stop, Accepting(), file.value); }
        Receive(calls);
        error := line;
      }
    }

    /** The parser's calls of the handler. */
    method Receive(calls: seq<Call>)
      requires Valid() && NamesAreSplit(calls)
      modifies this
      ensures Valid() && log == old(log) + calls && error == old(error)
    {
      for i := 0 to |calls|
        invariant Valid() && log == old(log) + calls[..i] && error == old(error)
      {
        assert calls[i] in calls;
        ValueHandler(calls[i].section, calls[i].name, calls[i].value);
        Assoc(old(log), calls[..i], [calls[i]]);
        assert calls[..i] + [calls[i]] == calls[..i + 1];
      }
      assert calls[..|calls|] == calls;
    }

    method ValueHandler(section: string, name: string, value: string)
      requires Valid() && '=' !in name
      modifies this
      ensures Valid() && log == old(log) + [Call(section, name, value)] && error == old(error)
    {
      var key := MakeKey(section, name);
      if key !in values {
        values := values[key := ""];
      }
      if |values[key]| > 0 {
        values := values[key := values[key] + "\n"];
      }
      values := values[key := values[key] + value];
      ghost var c := Call(section, name, value);
      assert (log + [c])[..|log|] == log;
      log := log + [c];
    }

    /** For a name without '=' the answer is the one the log of calls gives. */
    method Get(section: string, name: string, defaultValue: string) returns (value: string)
      requires Valid()
      ensures '=' !in name ==> value == Lookup(log, section, name).UnwrapOr(defaultValue)
      ensures '=' !in name ==>
                if exists c :: c in log && IsFor(c, section, name) then IsAnswer(log, section, name, value)
                else value == defaultValue
      ensures value == Fetch(values, MakeKey(section, name)).UnwrapOr(defaultValue)
    {
      LookupMeans(log, section, name);
      var key := MakeKey(section, name);
      value := if key in values then values[key] else defaultValue;
      if '=' !in name {
        FetchIsLookup(log, section, name);
      }
    }
  }

  // ------------------------------------------------------------------ what case and lookups come to

  /** The same character, or the upper and the lower case of one of the 26 letters. */
  predicate SameLetter(c: char, d: char) {
    || c == d
    || ('A' <= c <= 'Z' && d as int == c as int + 32)
    || ('A' <= d <= 'Z' && c as int == d as int + 32)
  }

  predicate SameText(s: string, t: string) {
    |s| == |t| && forall i :: 0 <= i < |s| ==> SameLetter(s[i], t[i])
  }

  /** Texts are equal in lower case exactly if they are the same but for the case of letters. */
  lemma LowerExactly(s: string, t: string)
    ensures Lower(s) == Lower(t) <==> SameText(s, t)
  {
    if Lower(s) == Lower(t) {
      assert |s| == |Lower(s)| == |Lower(t)| == |t|;
      forall i | 0 <= i < |s| ensures SameLetter(s[i], t[i]) {
        assert Lower(s)[i] == Lower(t)[i];
      }
    }
    if SameText(s, t) {
      forall i | 0 <= i < |s| ensures Lower(s)[i] == Lower(t)[i] {
        assert SameLetter(s[i], t[i]);
      }
    }
  }

  /** The call has this section and name, but for the case of letters. */
  predicate IsFor(c: Call, section: string, name: string) {
    SameText(c.section, section) && SameText(c.name, name)
  }

  /** `at` are the places of the calls for this section and name, in order. */
  ghost predicate PlacesOf(log: seq<Call>, section: string, name: string, at: seq<nat>) {
    && (forall i, j :: 0 <= i < j < |at| ==> at[i] < at[j])
    && (forall i :: 0 <= i < |at| ==> at[i] < |log| && IsFor(log[at[i]], section, name))
    && forall k: nat :: k < |log| && IsFor(log[k], section, name) ==> k in at
  }

  function ValuesAt(log: seq<Call>, at: seq<nat>): (values: seq<string>)
    requires forall i :: 0 <= i < |at| ==> at[i] < |log|
    ensures |values| == |at| && forall i :: 0 <= i < |at| ==> values[i] == log[at[i]].value
  {
    seq(|at|, i requires 0 <= i < |at| => log[at[i]].value)
  }

  /** The values of all calls for this section and name, with newlines between them but without empty ones at the
      start. */
  ghost predicate IsAnswer(log: seq<Call>, section: string, name: string, value: string) {
    exists at: seq<nat> :: PlacesOf(log, section, name, at) && value == Joined(SkipEmpty(ValuesAt(log, at)))
  }

  /** The values looked up are those at the places of the calls. */
  lemma {:induction false} ValuesExactly(log: seq<Call>, section: string, name: string) returns (at: seq<nat>)
    ensures PlacesOf(log, section, name, at) && Values(log, section, name) == ValuesAt(log, at)
    decreases |log|
  {
    at := [];
    if log != [] {
      var n := |log| - 1;
      LowerExactly(log[n].section, section);
      LowerExactly(log[n].name, name);
      var before := ValuesExactly(log[..n], section, name);
      at := PlacesNext(log[..n], log[n], log, section, name, before);
    }
  }

  lemma PlacesNext(front: seq<Call>, c: Call, log: seq<Call>, section: string, name: string, before: seq<nat>)
    returns (at: seq<nat>)
    requires PlacesOf(front, section, name, before) && log == front + [c]
    ensures at == if IsFor(c, section, name) then before + [|front|] else before
    ensures PlacesOf(log, section, name, at)
    ensures ValuesAt(log, at) == ValuesAt(front, before) + if IsFor(c, section, name) then [c.value] else []
  {
    at := PlacesMore(front, c, log, section, name, before);
    ValuesAtFront(front, c, log, before);
    if IsFor(c, section, name) {
      assert ValuesAt(log, at) == ValuesAt(log, before) + [c.value];
    }
  }

  lemma ValuesAtFront(front: seq<Call>, c: Call, log: seq<Call>, at: seq<nat>)
    requires log == front + [c] && forall i :: 0 <= i < |at| ==> at[i] < |front|
    ensures ValuesAt(log, at) == ValuesAt(front, at)
  {
    assert forall i :: 0 <= i < |at| ==> log[at[i]] == front[at[i]];
  }

  lemma PlacesMore(front: seq<Call>, c: Call, log: seq<Call>, section: string, name: string, before: seq<nat>)
    returns (at: seq<nat>)
    requires PlacesOf(front, section, name, before) && log == front + [c]
    ensures at == if IsFor(c, section, name) then before + [|front|] else before
    ensures PlacesOf(log, section, name, at)
  {
    at := if IsFor(c, section, name) then before + [|front|] else before;
    forall k: nat | k < |log| && IsFor(log[k], section, name) ensures k in at {
      if k < |front| {
        assert log[k] == front[k] && k in before;
      } else {
        assert at[|before|] == k;
      }
    }
  }

  /** A lookup is answered from the calls for its section and name, and not answered only if there is none. */
  lemma LookupMeans(log: seq<Call>, section: string, name: string)
    ensures Lookup(log, section, name).Some? <==> exists c :: c in log && IsFor(c, section, name)
    ensures Lookup(log, section, name).Some? ==> IsAnswer(log, section, name, Lookup(log, section, name).value)
  {
    var at := ValuesExactly(log, section, name);
    JoinMeans(ValuesAt(log, at));
    if at != [] {
      assert log[at[0]] in log && IsFor(log[at[0]], section, name);
    }
    if c :| c in log && IsFor(c, section, name) {
      var k: nat :| k < |log| && log[k] == c;
      assert k in at;
    }
  }

  // ------------------------------------------------------------------ why lookups are right

  ghost predicate NamesAreSplit(log: seq<Call>) {
    forall c :: c in log ==> '=' !in c.name
  }

  lemma MeaningShapely(cfg: Config, stop: bool, accepts: Handler, file: string)
    ensures NamesAreSplit(Meaning(cfg, stop, accepts, file).calls)
  {
    var pieces := Pieces(file);
    var e := FirstFault(Reading(cfg), accepts, pieces);
    CallsShapely(cfg, if stop && e != 0 then pieces[..e] else pieces);
  }

  lemma LowerKeepsEquals(s: string)
    ensures forall i :: 0 <= i < |s| ==> (Lower(s)[i] == '=' <==> s[i] == '=')
  {
  }

  lemma LowerAppend(a: string, b: string)
    ensures Lower(a + b) == Lower(a) + Lower(b)
  {
  }

  lemma KeyParts(section: string, name: string)
    ensures MakeKey(section, name) == Lower(section) + "=" + Lower(name)
  {
    LowerAppend(section + "=", name);
    LowerAppend(section, "=");
  }

  /** The last '=' of a text determines its parts. */
  lemma SplitAtLastEquals(a: string, b: string, c: string, d: string)
    requires a + "=" + b == c + "=" + d && '=' !in b && '=' !in d
    ensures a == c && b == d
  {
    var s, t := a + "=" + b, c + "=" + d;
    assert s[|a|] == '=' && t[|c|] == '=';
    assert forall i :: |a| < i < |s| ==> s[i] == b[i - |a| - 1] && s[i] in b;
    assert forall i :: |c| < i < |t| ==> t[i] == d[i - |c| - 1] && t[i] in d;
    assert s[..|a|] == a && t[..|c|] == c;
    assert s[|a| + 1..] == b && t[|c| + 1..] == d;
  }

  /** Keys tell sections and names apart up to letter case, because a name holds no '='. */
  lemma KeysMatchExactly(c: Call, section: string, name: string)
    requires '=' !in c.name && '=' !in name
    ensures MakeKey(c.section, c.name) == MakeKey(section, name) <==> Matches(c, section, name)
  {
    KeyParts(c.section, c.name);
    KeyParts(section, name);
    LowerKeepsEquals(c.name);
    LowerKeepsEquals(name);
    if MakeKey(c.section, c.name) == MakeKey(section, name) {
      SplitAtLastEquals(Lower(c.section), Lower(c.name), Lower(section), Lower(name));
    }
  }

  lemma JoinSnoc(values: seq<string>, value: string)
    ensures Join(values + [value]) == Add(Join(values), value)
  {
    assert (values + [value])[..|values|] == values;
  }

  /** The map answers like the log: nothing if no call matches, else all matching values joined. */
  lemma {:induction false} FetchIsLookup(log: seq<Call>, section: string, name: string)
    requires NamesAreSplit(log) && '=' !in name
    ensures Fetch(Stored(log), MakeKey(section, name)) == Lookup(log, section, name)
    decreases |log|
  {
    if log != [] {
      var front, c := log[..|log| - 1], log[|log| - 1];
      FetchIsLookup(front, section, name);
      KeysMatchExactly(c, section, name);
      var values := Values(front, section, name);
      JoinSnoc(values, c.value);
      assert values + [] == values;
    }
  }

  lemma {:induction false} LastEquals(name: string) returns (a: string, b: string)
    requires '=' in name
    ensures name == a + "=" + b && '=' !in b
    decreases |name|
  {
    var n := |name| - 1;
    if name[n] == '=' {
      a, b := name[..n], "";
    } else {
      assert name == name[..n] + [name[n]];
      a, b := LastEquals(name[..n]);
      b := b + [name[n]];
    }
  }

  /** What is printed is read: the reader of a printed file answers every '='-free lookup from the calls that
      were printed. */
  lemma PrintedIsRead(cfg: Config, stop: bool, calls: seq<Call>, section: string, name: string)
    requires AllReadBack(cfg, calls) && '=' !in name
    ensures var m := Meaning(cfg, stop, Accepting(), Printed(calls));
            m.error == 0 && Fetch(Stored(m.calls), MakeKey(section, name)) == Lookup(calls, section, name)
  {
    RoundTrip(cfg, stop, Accepting(), calls);
    FirstRejectedMeans(Accepting(), calls);
    forall c | c in calls ensures '=' !in c.name {
      var i :| 0 <= i < |calls| && calls[i] == c;
      assert ReadsBack(cfg, calls[..i], calls[i]);
    }
    FetchIsLookup(calls, section, name);
  }

  // ------------------------------------------------------------------ exactly when lookups are right

  /** The reader of a file answers this lookup from the calls of the file. */
  ghost predicate RightIn(cfg: Config, stop: bool, file: string, section: string, name: string) {
    var calls := Meaning(cfg, stop, Accepting(), file).calls;
    Fetch(Stored(calls), MakeKey(section, name)) == Lookup(calls, section, name)
  }

  /** The name asked for holds an '=', and what is in front of its last '=' makes, with the section asked for, a
      section that a file can have. */
  ghost predicate Confusable(cfg: Config, section: string, name: string) {
    exists a: string, b: string :: SplitsAt(name, a, b) && CanReport(cfg, section + "=" + a, b)
  }

  predicate SplitsAt(name: string, a: string, b: string) {
    name == a + "=" + b && '=' !in b
  }

  /** Lookups are right in every file exactly if the name asked for has no '=', or the section and the rest of the
      name behind its last '=' are none that a file can report. */
  lemma LookupExactly(cfg: Config, stop: bool, section: string, name: string)
    ensures (forall file | NUL !in file :: RightIn(cfg, stop, file, section, name))
            <==> '=' !in name || !Confusable(cfg, section, name)
  {
    if '=' !in name || !Confusable(cfg, section, name) {
      forall file | NUL !in file ensures RightIn(cfg, stop, file, section, name) {
        RightUnlessConfusable(cfg, stop, file, section, name);
      }
    } else {
      var a, b :| SplitsAt(name, a, b) && CanReport(cfg, section + "=" + a, b);
      var file := WrongFile(cfg, stop, section, a, b);
      assert !RightIn(cfg, stop, file, section, name);
    }
  }

  lemma RightUnlessConfusable(cfg: Config, stop: bool, file: string, section: string, name: string)
    requires NUL !in file && ('=' !in name || !Confusable(cfg, section, name))
    ensures RightIn(cfg, stop, file, section, name)
  {
    var calls := Meaning(cfg, stop, Accepting(), file).calls;
    MeaningShape(cfg, stop, Accepting(), file);
    if '=' !in name {
      FetchIsLookup(calls, section, name);
    } else {
      NoMatch(calls, section, name);
      if MakeKey(section, name) in Stored(calls) {
        var c := StoredFor(calls, MakeKey(section, name));
        KeyOfAnother(cfg, c, section, name);
      }
    }
  }

  /** No '='-free name matches one with '='. */
  lemma {:induction false} NoMatch(log: seq<Call>, section: string, name: string)
    requires NamesAreSplit(log) && '=' in name
    ensures Lookup(log, section, name) == None
    decreases |log|
  {
    if log != [] {
      var front, c := log[..|log| - 1], log[|log| - 1];
      NoMatch(front, section, name);
      LowerKeepsEquals(name);
      LowerKeepsEquals(c.name);
      var i :| 0 <= i < |name| && name[i] == '=';
      assert Lower(name)[i] == '=' && (i < |c.name| ==> Lower(c.name)[i] != '=');
    }
  }

  /** Every key was stored for some call. */
  lemma {:induction false} StoredFor(log: seq<Call>, key: string) returns (c: Call)
    requires key in Stored(log)
    ensures c in log && MakeKey(c.section, c.name) == key
    decreases |log|
  {
    var front, last := log[..|log| - 1], log[|log| - 1];
    if MakeKey(last.section, last.name) == key {
      c := last;
    } else {
      c := StoredFor(front, key);
    }
  }

  /** A call under the key of a name with '=' makes that name confusable. */
  lemma KeyOfAnother(cfg: Config, c: Call, section: string, name: string)
    requires CallShape(cfg, c) && '=' in name && MakeKey(c.section, c.name) == MakeKey(section, name)
    ensures Confusable(cfg, section, name)
  {
    var a, b := LastEquals(name);
    var other := section + "=" + a;
    assert section + "=" + name == other + "=" + b;
    KeyParts(c.section, c.name);
    KeyParts(other, b);
    LowerKeepsEquals(c.name);
    LowerKeepsEquals(b);
    SplitAtLastEquals(Lower(c.section), Lower(c.name), Lower(other), Lower(b));
    CanReportAnyCase(cfg, c.section, c.name, other, b);
    assert SplitsAt(name, a, b);
  }

  /** Letter case does not matter for what a file can report. */
  lemma CanReportAnyCase(cfg: Config, s: string, n: string, t: string, m: string)
    requires CanReport(cfg, s, n) && Lower(s) == Lower(t) && Lower(n) == Lower(m)
    ensures CanReport(cfg, t, m)
  {
    SameButCase(s, t);
    SameButCase(n, m);
  }

  predicate IsLetter(c: char) {
    'A' <= c <= 'Z' || 'a' <= c <= 'z'
  }

  lemma SameButCase(s: string, t: string)
    requires Lower(s) == Lower(t)
    ensures |s| == |t| && (Plain(s) ==> Plain(t)) && (Trimmed(s) ==> Trimmed(t))
    ensures (']' !in s ==> ']' !in t) && ('=' !in s ==> '=' !in t) && (NameShape(s) ==> NameShape(t))
  {
    assert |s| == |Lower(s)| == |Lower(t)| == |t|;
    forall i | 0 <= i < |s| ensures LowerChar(s[i]) == LowerChar(t[i]) {
      assert Lower(s)[i] == Lower(t)[i];
    }
    assert forall i :: 0 <= i < |s| ==> t[i] == s[i] || (IsLetter(s[i]) && IsLetter(t[i]));
    if Plain(s) {
      forall k | 0 <= k < |t| ensures !CommentAt(t, k) {
        assert !CommentAt(s, k);
      }
    }
  }

  /** A call that shares the key of a name with '=' answers for it, although no call matches. */
  lemma AnsweredByAnother(log: seq<Call>, c: Call, section: string, a: string, b: string)
    requires c in log && NamesAreSplit(log) && c.section == section + "=" + a && c.name == b
    ensures Fetch(Stored(log), MakeKey(section, a + "=" + b)).Some? && Lookup(log, section, a + "=" + b) == None
  {
    NoMatch(log, section, a + "=" + b);
    KeyIsStored(log, c);
    assert c.section + "=" + b == section + "=" + (a + "=" + b);
  }

  lemma {:induction false} KeyIsStored(log: seq<Call>, c: Call)
    requires c in log
    ensures MakeKey(c.section, c.name) in Stored(log)
    decreases |log|
  {
    var front, last := log[..|log| - 1], log[|log| - 1];
    if c != last {
      FrontAndLast(log);
      KeyIsStored(front, c);
    }
  }

  /** A file for which a confusable lookup goes wrong. */
  lemma WrongFile(cfg: Config, stop: bool, section: string, a: string, b: string) returns (file: string)
    requires CanReport(cfg, section + "=" + a, b) && '=' !in b
    ensures NUL !in file && !RightIn(cfg, stop, file, section, a + "=" + b)
  {
    var value;
    file, value := ReportingFile(cfg, stop, section + "=" + a, b);
    var c := Call(section + "=" + a, b, value);
    MeaningShapely(cfg, stop, Accepting(), file);
    AnsweredByAnother(Meaning(cfg, stop, Accepting(), file).calls, c, section, a, b);
  }

  /** Whatever can be reported is reported for some file. */
  lemma ReportingFile(cfg: Config, stop: bool, section: string, name: string) returns (file: string, value: string)
    requires CanReport(cfg, section, name)
    ensures NUL !in file && Call(section, name, value) in Meaning(cfg, stop, Accepting(), file).calls
  {
    if Trimmed(name) {
      file, value := SectionLine(section) + (name + "="), "";
      ReportedAlone(cfg, stop, section, name);
    } else {
      file, value := SectionLine(section) + (TightLine(Call(section, name + "x", "")) + " y"), "y";
      ReportedContinued(cfg, stop, section, name);
    }
  }

  lemma TwoPieces(one: string, two: string)
    requires OneLine(one) && EndsLine(one) && OneLine(two) && 0 < |one| <= MAX_PIECE && 0 < |two| <= MAX_PIECE
    ensures Pieces(one + two) == [one] + [two]
  {
    PiecesAppend(one, two);
    PiecesOfLine(one);
    PiecesOfLine(two);
  }

  lemma ReportedAlone(cfg: Config, stop: bool, section: string, name: string)
    requires CanReport(cfg, section, name) && Trimmed(name)
    ensures var file := SectionLine(section) + (name + "=");
            NUL !in file && Meaning(cfg, stop, Accepting(), file) == Outcome([Call(section, name, "")], 0)
  {
    var one, two := SectionLine(section), name + "=";
    assert Pieces(one + two) == [one] + [two] by {
      SectionLineOneLine(section);
      assert forall i :: 0 <= i < |name| ==> two[i] == name[i];
      TwoPieces(one, two);
    }
    AloneWalk(cfg, section, name);
    assert NUL !in one && NUL !in two;
  }

  lemma AloneWalk(cfg: Config, section: string, name: string)
    requires CanReport(cfg, section, name) && Trimmed(name)
    ensures At(cfg, Accepting(), [SectionLine(section)] + [name + "="], [Call(section, name, "")],
               Context(section, Truncate(name, MAX_NAME)), 0)
  {
    var one, none: seq<string> := [SectionLine(section)], [];
    SectionStep(cfg, Accepting(), none, section, [], FRESH, 0);
    assert none + one == one && [] + [Call(section, name, "")] == [Call(section, name, "")];
    assert name + ("=" + "") + "" == name + "=";
    TightRead(cfg, name, "", "", 2, Context(section, ""));
    PairLineStep(cfg, Accepting(), one, name + "=", [], Context(section, ""), 0, Call(section, name, ""));
  }

  /** A name cut off behind a blank is reported with a continued value. */
  lemma ReportedContinued(cfg: Config, stop: bool, section: string, name: string)
    requires CanReport(cfg, section, name) && cfg.multiline && |name| == MAX_NAME - 1
    ensures var file := SectionLine(section) + (TightLine(Call(section, name + "x", "")) + " y");
            NUL !in file && Call(section, name, "y") in Meaning(cfg, stop, Accepting(), file).calls
  {
    var c := Call(section, name + "x", "");
    var one, two := SectionLine(section), TightLine(c);
    LongerName(name, c);
    assert Pieces(one + (two + " y")) == [one] + ([two] + [" y"]) by {
      SectionLineOneLine(section);
      ThreePieces(one, two, " y");
    }
    assert NUL !in one && NUL !in two;
    ContinuedWalk(cfg, section, name, c);
    assert [one] + [two] + [" y"] == [one] + ([two] + [" y"]);
  }

  lemma ContinuedWalk(cfg: Config, section: string, name: string, c: Call)
    requires Tight(c) && SectionShape(section) && |section| < MAX_SECTION && cfg.multiline && c.section == section
    requires name != "" && Truncate(c.name, MAX_NAME) == name
    ensures At(cfg, Accepting(), [SectionLine(section)] + [TightLine(c)] + [" y"], [c] + [Call(section, name, "y")],
               Context(section, name), 0)
  {
    var one, none: seq<string> := [SectionLine(section)], [];
    assert At(cfg, Accepting(), one, [], Context(section, ""), 0) by {
      SectionStep(cfg, Accepting(), none, section, [], FRESH, 0);
      assert none + one == one;
    }
    assert At(cfg, Accepting(), one + [TightLine(c)], [c], Context(section, name), 0) by {
      TightStep(cfg, one, [], Context(section, ""), c);
      assert [] + [c] == [c];
    }
    ContinuationStep(cfg, one + [TightLine(c)], [c], Context(section, name));
  }

  lemma ContinuationStep(cfg: Config, done: seq<string>, calls: seq<Call>, ctx: Context)
    requires At(cfg, Accepting(), done, calls, ctx, 0) && cfg.multiline && ctx.prevName != "" && |done| > 0
    ensures At(cfg, Accepting(), done + [" y"], calls + [Call(ctx.section, ctx.prevName, "y")], ctx, 0)
  {
    ContinuationRead(cfg, |done| + 1, ctx);
    var after := WalkSnoc(Reading(cfg), Accepting(), done, " y", Walked(ctx, calls), Continuation("y"));
  }

  lemma ContinuationRead(cfg: Config, n: nat, ctx: Context)
    requires cfg.multiline && ctx.prevName != ""
    ensures LineOf(cfg, " y", n, ctx) == Continuation("y")
  {
    assert " y"[0..] == " y" && " y"[1..] == "y" && LSkip("y") == "y";
  }

  lemma LongerName(name: string, c: Call)
    requires NameShape(name) && |name| == MAX_NAME - 1 && c.name == name + "x" && c.value == ""
    ensures Truncate(c.name, MAX_NAME) == name && Tight(c) && EndsLine(TightLine(c)) && NUL !in TightLine(c)
  {
    forall k | 0 <= k < |c.name| ensures !CommentAt(c.name, k) {
      assert k < |name| ==> c.name[k] == name[k] && !CommentAt(name, k);
      assert 0 < k <= |name| ==> c.name[k - 1] == name[k - 1];
    }
    assert TightLine(c) == c.name + "=\n";
    assert forall i :: 0 <= i < |c.name| ==> TightLine(c)[i] == c.name[i];
  }

  // ------------------------------------------------------------------ what joining means

  /** Values with a newline between every two. */
  function Joined(values: seq<string>): string {
    if values == [] then ""
    else if |values| == 1 then values[0]
    else values[0] + "\n" + Joined(values[1..])
  }

  function SkipEmpty(values: seq<string>): seq<string> {
    if values != [] && values[0] == "" then SkipEmpty(values[1..]) else values
  }

  lemma {:induction false} SkipEmptyMeans(values: seq<string>)
    ensures SkipEmpty(values) != [] ==> SkipEmpty(values)[0] != ""
    decreases |values|
  {
    if values != [] && values[0] == "" {
      SkipEmptyMeans(values[1..]);
    }
  }

  lemma {:induction false} SkipEmptySnoc(values: seq<string>, value: string)
    ensures SkipEmpty(values + [value])
            == if SkipEmpty(values) == [] && value == "" then [] else SkipEmpty(values) + [value]
    decreases |values|
  {
    if values == [] {
      assert values + [value] == [value] && [value][1..] == [];
    } else {
      TailOfAppend(values, [value]);
      if values[0] == "" {
        SkipEmptySnoc(values[1..], value);
      }
    }
  }

  lemma {:induction false} JoinedSnoc(values: seq<string>, value: string)
    requires values != []
    ensures Joined(values + [value]) == Joined(values) + "\n" + value
    decreases |values|
  {
    TailOfAppend(values, [value]);
    if |values| == 1 {
      assert values[1..] + [value] == [value];
    } else {
      JoinedSnoc(values[1..], value);
      Assoc(values[0] + "\n", Joined(values[1..]), "\n" + value);
      Assoc(Joined(values[1..]), "\n", value);
      Assoc(Joined(values), "\n", value);
    }
  }

  /** Accumulating values line by line is joining them with newlines, but empty values at the start are lost. */
  lemma {:induction false} JoinMeans(values: seq<string>)
    ensures Join(values) == Joined(SkipEmpty(values))
    decreases |values|
  {
    if values != [] {
      var front, v := values[..|values| - 1], values[|values| - 1];
      assert front + [v] == values;
      JoinMeans(front);
      SkipEmptySnoc(front, v);
      SkipEmptyMeans(front);
      if SkipEmpty(front) != [] {
        JoinedSnoc(SkipEmpty(front), v);
      }
    }
  }
}
