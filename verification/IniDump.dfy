/** The printer of INI files. */
module IniDump {
  import opened Basics
  import opened CText
  import opened IniText
  import opened IniGrammar
  import opened IniLines

  // ------------------------------------------------------------------ what is printed

  function PairLine(c: Call): string {
    c.name + " = " + c.value + "\n"
  }

  function SectionLine(section: string): string {
    "[" + section + "]\n"
  }

  /** The lines that announce a section when the last section printed was `prev`. */
  function Title(prev: string, section: string): seq<string> {
    if section == prev then []
    else if prev == "" then [SectionLine(section)]
    else ["\n", SectionLine(section)]
  }

  /** The lines printed for one call when the last section printed was `prev`. */
  function LinesFor(prev: string, c: Call): seq<string> {
    Title(prev, c.section) + [PairLine(c)]
  }

  /** The section remembered after a call. */
  function Remember(prev: string, c: Call): string {
    if c.section == prev then prev else Truncate(c.section, MAX_SECTION)
  }

  /** The section remembered after all calls. */
  function Remembered(calls: seq<Call>): string {
    if calls == [] then ""
    else Remember(Remembered(calls[..|calls| - 1]), calls[|calls| - 1])
  }

  function Lines(calls: seq<Call>): seq<string> {
    if calls == [] then []
    else Lines(calls[..|calls| - 1]) + LinesFor(Remembered(calls[..|calls| - 1]), calls[|calls| - 1])
  }

  /** The text printed for a list of calls. */
  function Printed(calls: seq<Call>): string {
    Concat(Lines(calls))
  }

  /** The printing handler: it keeps the last section in a static buffer. */
  class Dumper {
    const prevSection: array<char>
    var out: string
    ghost var calls: seq<Call>

    ghost predicate Valid()
      reads this, prevSection
    {
      && prevSection.Length == MAX_SECTION
      && Holds(prevSection, 0, Remembered(calls))
      && out == Printed(calls)
    }

    constructor ()
      ensures Valid() && fresh(prevSection) && calls == [] && out == ""
    {
      prevSection := new char[MAX_SECTION](_ => NUL);
      out, calls := "", [];
    }

    /** Prints one call; `section` is the buffer in which the parser hands over the section. */
    method Dump(section: array<char>, name: string, value: string, ghost sectionText: string) returns (ok: bool)
      requires Valid() && Holds(section, 0, sectionText) && section != prevSection
      modifies this, prevSection
      ensures Valid() && ok && calls == old(calls) + [Call(sectionText, name, value)]
    {
      ghost var c, prev := Call(sectionText, name, value), Remembered(calls);
      var now := TextAt(section, 0, sectionText);
      var last := TextAt(prevSection, 0, prev);
      var heading := "";
      if now != last {
        heading := (if last == "" then "" else "\n") + SectionLine(now);
        Strncpy0(prevSection, section, 0, sectionText);
      }
      out := out + (heading + PairLine(Call(now, name, value)));
      assert (calls + [c])[..|calls|] == calls;
      ConcatAppend(Lines(calls), LinesFor(prev, c));
      ConcatLinesFor(prev, c);
      calls := calls + [c];
      ok := true;
    }
  }

  /** The section printed last is remembered as far as it fits a buffer of 50 characters. */
  lemma {:induction false} RememberedIs(calls: seq<Call>)
    ensures Remembered(calls) == if calls == [] then "" else Truncate(calls[|calls| - 1].section, 50)
    decreases |calls|
  {
    if calls != [] {
      RememberedIs(calls[..|calls| - 1]);
    }
  }

  /** What is printed for one more call: a line with its section in brackets, unless that is what is remembered of
      the section before it, with a blank line in front if something is, and a line with name and value. */
  lemma PrintedNext(calls: seq<Call>, c: Call, prev: string)
    requires calls == [] ==> prev == ""
    requires calls != [] ==> Fitted(calls[|calls| - 1].section, prev)
    ensures Printed([]) == ""
    ensures Printed(calls + [c])
            == Printed(calls)
               + ((if c.section == prev then "" else (if prev == "" then "" else "\n") + "[" + c.section + "]\n")
                  + (c.name + " = " + c.value + "\n"))
  {
    RememberedIs(calls);
    if calls != [] {
      FittedExactly(calls[|calls| - 1].section, prev);
    }
    assert (calls + [c])[..|calls|] == calls;
    ConcatAppend(Lines(calls), LinesFor(prev, c));
    ConcatLinesFor(prev, c);
    if prev != "" {
      assert ("\n" + "[") + c.section + "]\n" == "\n" + ("[" + c.section + "]\n");
    } else {
      assert ("" + "[") + c.section + "]\n" == "" + ("[" + c.section + "]\n");
    }
  }

  lemma {:induction false} ConcatAppend(a: seq<string>, b: seq<string>)
    ensures Concat(a + b) == Concat(a) + Concat(b)
    decreases |a|
  {
    if a == [] {
      assert a + b == b;
    } else {
      ConcatAppend(a[1..], b);
      TailOfAppend(a, b);
      Assoc(a[0], Concat(a[1..]), Concat(b));
    }
  }

  lemma ConcatOne(line: string)
    ensures Concat([line]) == line
  {
    assert Concat([line]) == line + Concat([]);
  }

  lemma ConcatLinesFor(prev: string, c: Call)
    ensures Concat(LinesFor(prev, c))
            == (if c.section == prev then "" else (if prev == "" then "" else "\n") + SectionLine(c.section))
               + PairLine(c)
  {
    var s, p := SectionLine(c.section), PairLine(c);
    ConcatAppend(Title(prev, c.section), [p]);
    ConcatOne(p);
    ConcatOne(s);
    assert ["\n", s] == ["\n"] + [s];
    ConcatAppend(["\n"], [s]);
    ConcatOne("\n");
  }
}
