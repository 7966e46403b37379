/** pytouch: one Python stub per argument, with a documentation header that
    names the program and carries today's date. */
module Pytouch {
  import opened Seqs
  import opened Strings
  import opened FileSystem
  import opened Backend

  const Extension: string := ".py"
  const Maker: FileMaker := FileMaker("pytouch", Extension)

  /** Today's date, passed in instead of read from the clock. */
  datatype Date = Date(day: nat, month: nat, year: nat)

  predicate ValidDate(d: Date) {
    1 <= d.day <= 31 && 1 <= d.month <= 12 && 1000 <= d.year <= 9999
  }

  /** The date as "%d/%m/%Y" renders it; day, month and year read back
      from their places. */
  function DateString(d: Date): (s: string)
    requires ValidDate(d)
    ensures |s| == 10
    ensures s[2] == '/' && s[5] == '/'
    ensures forall i :: 0 <= i < |s| && i != 2 && i != 5 ==> IsDigit(s[i])
    ensures DigitsValue(s[..2]) == d.day
    ensures DigitsValue(s[3..5]) == d.month
    ensures DigitsValue(s[6..]) == d.year
  {
    var day := Pad2(d.day);
    var month := Pad2(d.month);
    var year := NatToString(d.year);
    YearDigits(d.year);
    NatToStringRoundTrip(d.year);
    var s := day + "/" + month + "/" + year;
    assert s[..2] == day && s[3..5] == month && s[6..] == year;
    s
  }

  lemma YearDigits(y: nat)
    requires 1000 <= y <= 9999
    ensures |NatToString(y)| == 4
  {
    assert NatToString(y) == NatToString(y / 10) + [DigitChar(y % 10)];
    assert NatToString(y / 10) == NatToString(y / 100) + [DigitChar(y / 10 % 10)];
    assert NatToString(y / 100) == NatToString(y / 1000) + [DigitChar(y / 100 % 10)];
  }

  /** The name shown in the stub: ".py" stripped the htouch way, then the
      last path segment. */
  function DisplayName(arg: string): (name: string)
    ensures '/' !in name
  {
    LastSegment(StripExtension(arg, Extension))
  }

  /** The coding line and the docstring up to the author. */
  function StubHead(name: string): seq<string> {
    [ "# -*- coding: utf-8 -*-",
      "\"\"\"",
      name,
      "==============",
      "",
      "Brief desription of the program.",
      "",
      "Detailed description of the program explaining simple functions.",
      "",
      "Author: Riley Ava" ]
  }

  /** The dated part of the docstring. */
  function StubDated(date: string): seq<string> {
    [ "Created: " + date,
      "Last Modified: " + date,
      "Version: 1.0.0",
      "License: MPL 2.0" ]
  }

  /** The repository, requirements, usage and copyright lines, and the end
      of the docstring. */
  function StubTail(name: string, year: string): seq<string> {
    [ "Repository: https://github.com/RileyMeta/" + name,
      "",
      "Requirements:",
      "    - Python 3.10 (or newer)",
      "",
      "Usage:",
      "    " + name + " [option] FILE...",
      "",
      "Copyright (c) " + year + " Riley Ava",
      "\"\"\"" ]
  }

  /** The lines of the stub for a display name, a date string and a year. */
  function StubLines(name: string, date: string, year: string): seq<string> {
    StubHead(name) + StubDated(date) + StubTail(name, year)
  }

  /** The coding line and the docstring's opening, title and underline,
      as the stub for `name` begins. */
  function TitleBlock(name: string): string {
    "# -*- coding: utf-8 -*-\n\"\"\"\n" + name + "\n==============\n"
  }

  /** The stub written for an argument on a given day: titled by the display
      name right after the docstring opens, and ending the docstring. */
  function StubBody(arg: string, today: Date): (body: string)
    requires ValidDate(today)
    ensures StartsWith(body, TitleBlock(DisplayName(arg)))
    ensures EndsWith(body, "\"\"\"\n")
  {
    var name := DisplayName(arg);
    var date := DateString(today);
    var year := NatToString(today.year);
    StubTitle(name, date, year);
    StubCopyrightAndEnd(name, date, year);
    Unlines(StubLines(name, date, year))
  }

  /** The stub opens with the coding line. */
  lemma StubOpening(name: string, date: string, year: string)
    ensures StartsWith(Unlines(StubLines(name, date, year)), "# -*- coding: utf-8 -*-\n")
  {
    var rest := StubDated(date) + StubTail(name, year);
    AppendAssoc(StubHead(name), StubDated(date), StubTail(name, year));
    UnlinesStartsWithFirst(StubHead(name) + rest);
    FirstOfAppend(StubHead(name), rest);
  }

  /** The docstring opens on the second line and is titled by the name on
      the third, underlined on the fourth. */
  lemma StubTitle(name: string, date: string, year: string)
    ensures StartsWith(Unlines(StubLines(name, date, year)), TitleBlock(name))
  {
    var lines := StubLines(name, date, year);
    var first := ["# -*- coding: utf-8 -*-", "\"\"\"", name, "=============="];
    assert lines == first + lines[4..];
    UnlinesStartsWithLeading(first, lines[4..]);
    UnlinesCons(first[3], []);
    UnlinesCons(first[2], first[3..]);
    UnlinesCons(first[1], first[2..]);
    UnlinesCons(first[0], first[1..]);
    assert [first[0]] + first[1..] == first;
    assert [first[1]] + first[2..] == first[1..];
    assert [first[2]] + first[3..] == first[2..];
    assert [first[3]] + [] == first[3..];
  }

  /** Creation and last change carry the same date. */
  lemma StubDates(name: string, date: string, year: string)
    ensures HasLine(Unlines(StubLines(name, date, year)), "Created: " + date)
    ensures HasLine(Unlines(StubLines(name, date, year)), "Last Modified: " + date)
  {
    UnlinesHasMiddleLine(StubHead(name), StubDated(date), StubTail(name, year), 0);
    UnlinesHasMiddleLine(StubHead(name), StubDated(date), StubTail(name, year), 1);
  }

  /** The repository and the usage line are named after the program. */
  lemma StubRepositoryAndUsage(name: string, date: string, year: string)
    ensures HasLine(Unlines(StubLines(name, date, year)), "Repository: https://github.com/RileyMeta/" + name)
    ensures HasLine(Unlines(StubLines(name, date, year)), "    " + name + " [option] FILE...")
  {
    var front := StubHead(name) + StubDated(date);
    UnlinesHasMiddleLine(front, StubTail(name, year), [], 0);
    UnlinesHasMiddleLine(front, StubTail(name, year), [], 6);
    AppendEmpty(front + StubTail(name, year));
  }

  /** The copyright line carries the year, and the docstring is closed. */
  lemma StubCopyrightAndEnd(name: string, date: string, year: string)
    ensures HasLine(Unlines(StubLines(name, date, year)), "Copyright (c) " + year + " Riley Ava")
    ensures EndsWith(Unlines(StubLines(name, date, year)), "\"\"\"\n")
  {
    var front := StubHead(name) + StubDated(date);
    UnlinesHasMiddleLine(front, StubTail(name, year), [], 8);
    AppendEmpty(front + StubTail(name, year));
    UnlinesEndsWithLast(StubLines(name, date, year));
    LastOfAppend(front, StubTail(name, year));
  }

  /** The stub for an argument on a given day: titled by the display name,
      dated twice with that day, with the year of that day in the copyright
      line. */
  lemma StubBodyLines(arg: string, today: Date)
    requires ValidDate(today)
    ensures
      var body := StubBody(arg, today);
      var name := DisplayName(arg);
      var date := DateString(today);
      && StartsWith(body, "# -*- coding: utf-8 -*-\n")
      && StartsWith(body, TitleBlock(name))
      && HasLine(body, "Created: " + date)
      && HasLine(body, "Last Modified: " + date)
      && HasLine(body, "Repository: https://github.com/RileyMeta/" + name)
      && HasLine(body, "    " + name + " [option] FILE...")
      && HasLine(body, "Copyright (c) " + date[6..] + " Riley Ava")
      && DigitsValue(date[6..]) == today.year
      && EndsWith(body, "\"\"\"\n")
  {
    var name := DisplayName(arg);
    var date := DateString(today);
    var year := NatToString(today.year);
    assert date[6..] == year;
    StubOpening(name, date, year);
    StubTitle(name, date, year);
    StubDates(name, date, year);
    StubRepositoryAndUsage(name, date, year);
    StubCopyrightAndEnd(name, date, year);
  }

  /** One job per argument, in order: its own stub, handed over as given. */
  function Jobs(args: seq<string>, today: Date): (jobs: seq<Job>)
    requires ValidDate(today)
    ensures |jobs| == |args|
    ensures forall i :: 0 <= i < |args| ==> jobs[i] == Job(StubBody(args[i], today), args[i])
  {
    seq(|args|, i requires 0 <= i < |args| => Job(StubBody(args[i], today), args[i]))
  }

  /** pytouch's main program after option parsing. */
  function Pytouch(args: seq<string>, today: Date, fs: FS, answers: seq<string>, faults: Faults, verbose: bool): (r: ToolResult)
    requires ValidDate(today)
    ensures r.NoArguments? <==> args == []
    ensures r.Finished? ==> forall x :: x in r.st.report.successes ==>
      exists i :: 0 <= i < |args| && x == StripExtension(args[i], Extension) + Extension
  {
    RunTool(Maker, Jobs(args, today), fs, answers, faults, verbose)
  }

  /** The file is written under the argument's own path, directory part and
      all, while the name inside the stub keeps only the last segment. */
  lemma {:induction false} TargetKeepsDirectory(dir: string, base: string)
    requires !Contains(dir + "/" + base, Extension)
    ensures Target(Maker, dir + "/" + base) == dir + "/" + base + Extension
    ensures StartsWith(Target(Maker, dir + "/" + base), dir + "/")
    ensures DisplayName(dir + "/" + base) == LastSegment(base)
  {
    var arg := dir + "/" + base;
    if EndsWith(arg, Extension) {
      EndsWithContains(arg, Extension);
      assert false;
    }
    assert (arg + Extension)[..|dir + "/"|] == dir + "/";
    LastSegmentAfterSlash(dir, base);
  }
}
