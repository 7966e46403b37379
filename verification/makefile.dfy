/** makefile: a fixed GNU make template whose only varying text is TARGET;
    it is always written to the file named Makefile. */
module Makefile {
  import opened Seqs
  import opened Strings
  import opened FileSystem
  import opened Prompt
  import opened Backend

  /** The extension is empty, so the path passed is the path written. */
  const Maker: FileMaker := FileMaker("makefile", "")
  const MakefilePath: string := "Makefile"

  /** The lines after the TARGET line, the same for every argument. */
  const FixedLines: seq<string> := [
    "SRC := $(wildcard src/*.c)",
    "",
    "# Compiler and Flags",
    "CC = gcc",
    "CFLAGS = -Wall -std=c99 -Wno-missing-braces -Iinclude",
    "",
    "# Libraries and linking",
    "# LIBS = -lraylib -lGL -lm -lpthread -ldl -lrt -lX11",
    "",
    "# Build rule",
    "$(TARGET): $(SRC)",
    "\t$(CC) $(SRC) -o $(TARGET) $(CFLAGS) $(LIBS)",
    "",
    "# Clean rule",
    "clean:",
    "\trm -f $(TARGET)",
    "",
    "# Run rule",
    "run: $(TARGET)",
    "\t./$(TARGET)"
  ]

  /** The TARGET name: the last path segment of the argument. */
  function TargetName(arg: string): string {
    LastSegment(arg)
  }

  /** The first line of the text is the TARGET line. */
  function FirstLine(arg: string): string {
    "TARGET = " + TargetName(arg)
  }

  /** The Makefile text for an argument: the TARGET line, then the fixed
      lines, ending with the run rule's command. */
  function MakefileBody(arg: string): (body: string)
    ensures StartsWith(body, "TARGET = " + LastSegment(arg) + "\n")
    ensures EndsWith(body, "\t./$(TARGET)\n")
  {
    var lines := [FirstLine(arg)] + FixedLines;
    UnlinesStartsWithFirst(lines);
    UnlinesEndsWithLast(lines);
    Unlines(lines)
  }

  lemma FirstLineHasNoNewline(arg: string)
    requires '\n' !in arg
    ensures '\n' !in FirstLine(arg)
  {
    var name := TargetName(arg);
    assert name == arg[|arg| - |name|..];
    assert '\n' !in "TARGET = ";
  }

  /** The text opens with the TARGET line naming the last path segment. */
  lemma OpensWithTarget(arg: string)
    ensures StartsWith(MakefileBody(arg), "TARGET = " + LastSegment(arg) + "\n")
  {
    UnlinesStartsWithFirst([FirstLine(arg)] + FixedLines);
  }

  /** Split into lines, the text is `TARGET = <name>` followed by lines that
      are the same for every argument. */
  lemma MakefileBodyLines(arg: string)
    requires '\n' !in arg
    ensures SplitLines(MakefileBody(arg)) == [FirstLine(arg)] + SplitLines(Unlines(FixedLines))
  {
    FirstLineHasNoNewline(arg);
    SplitUnlinesCons(FirstLine(arg), FixedLines);
  }

  /** Every line of the template after the first is a whole line of the
      text, whatever the argument. */
  lemma FixedLinesPresent(arg: string)
    ensures forall k :: 0 <= k < |FixedLines| ==> HasLine(MakefileBody(arg), FixedLines[k])
  {
    var lines := [FirstLine(arg)] + FixedLines;
    forall k | 0 <= k < |FixedLines| ensures HasLine(MakefileBody(arg), FixedLines[k]) {
      UnlinesHasLine(lines, k + 1);
      assert lines[k + 1] == FixedLines[k];
    }
  }

  /** Two arguments give texts that differ only in the TARGET line. */
  lemma OnlyTargetVaries(a: string, b: string)
    ensures |MakefileBody(a)| > |FirstLine(a)| && |MakefileBody(b)| > |FirstLine(b)|
    ensures MakefileBody(a)[|FirstLine(a)| + 1..] == MakefileBody(b)[|FirstLine(b)| + 1..]
  {
    SameTailAfterHead(FirstLine(a), FirstLine(b), FixedLines);
  }

  /** One job per argument, each writing the path Makefile. */
  function Jobs(args: seq<string>): (jobs: seq<Job>)
    ensures |jobs| == |args|
    ensures forall i :: 0 <= i < |args| ==> jobs[i] == Job(MakefileBody(args[i]), MakefilePath)
  {
    seq(|args|, i requires 0 <= i < |args| => Job(MakefileBody(args[i]), MakefilePath))
  }

  /** makefile's main program after option parsing. */
  function Make(args: seq<string>, fs: FS, answers: seq<string>, faults: Faults, verbose: bool): (r: ToolResult)
    ensures r.NoArguments? <==> args == []
    ensures r.Finished? ==> forall x :: x in r.st.report.successes ==> x == MakefilePath
  {
    TargetIsMakefile();
    RunTool(Maker, Jobs(args), fs, answers, faults, verbose)
  }

  /** Whatever the argument, the path written is Makefile; the existence
      check fires iff that path exists, and a directory of that name is
      skipped before any prompt, with nothing recorded. */
  lemma TargetIsMakefile()
    ensures Target(Maker, MakefilePath) == MakefilePath
    ensures forall fs :: NeedsConfirm(Maker, fs, MakefilePath) <==> MakefilePath in fs
    ensures forall template: string, st: State, faults: Faults :: IsDir(st.fs, MakefilePath) ==>
      CreateFile(Maker, template, MakefilePath, st, faults) == Running(st)
  {
  }

  /** `n` copies of `x`. */
  function Repeat(x: string, n: nat): (r: seq<string>)
    ensures |r| == n
    ensures forall i :: 0 <= i < n ==> r[i] == x
  {
    if n == 0 then [] else [x] + Repeat(x, n - 1)
  }

  /** The state after writing Makefile for the first argument. */
  function AfterFirst(args: seq<string>, st: State): State
    requires |args| > 0
  {
    State(st.fs[MakefilePath := File(MakefileBody(args[0]))],
          Report(st.report.successes + [MakefilePath], st.report.failures),
          if MakefilePath in st.fs && st.answers != [] then st.answers[1..] else st.answers)
  }

  lemma MakefileFirstStep(args: seq<string>, st: State, faults: Faults)
    requires |args| > 0
    requires MakefilePath !in faults && !IsDir(st.fs, MakefilePath)
    requires MakefilePath in st.fs ==> st.answers != [] && YesSpelling(st.answers[0])
    ensures RunJobs(Maker, Jobs(args), st, faults) == RunJobs(Maker, Jobs(args[1..]), AfterFirst(args, st), faults)
  {
    TargetIsMakefile();
    var c := CreateFile(Maker, MakefileBody(args[0]), MakefilePath, st, faults);
    assert Allowed(Maker, st, MakefilePath);
    assert c == Running(AfterFirst(args, st));
    assert Jobs(args)[1..] == Jobs(args[1..]);
  }

  /** With k arguments and every answer yes, Makefile is written k times: the
      first write needs no prompt only if Makefile did not exist, every later
      one is asked about, and the last argument's template is what remains. */
  lemma {:induction false} RepeatedMakefile(args: seq<string>, st: State, faults: Faults)
    requires MakefilePath !in faults && !IsDir(st.fs, MakefilePath)
    requires forall j :: 0 <= j < |st.answers| ==> YesSpelling(st.answers[j])
    requires |args| > 0 ==> |st.answers| >= |args| - (if MakefilePath in st.fs then 0 else 1)
    ensures
      var r := RunJobs(Maker, Jobs(args), st, faults);
      && r.Running?
      && |r.st.answers| == |st.answers| - (if |args| == 0 then 0 else |args| - (if MakefilePath in st.fs then 0 else 1))
      && r.st.report.failures == st.report.failures
      && r.st.report.successes == st.report.successes + Repeat(MakefilePath, |args|)
      && (|args| > 0 ==> r.st.fs == st.fs[MakefilePath := File(MakefileBody(args[|args| - 1]))])
      && (|args| == 0 ==> r.st.fs == st.fs)
    decreases |args|
  {
    if |args| > 0 {
      MakefileFirstStep(args, st, faults);
      var st1 := AfterFirst(args, st);
      AfterFirstAnswers(args, st);
      RepeatedMakefile(args[1..], st1, faults);
      RepeatedStep(args, st, RunJobs(Maker, Jobs(args[1..]), st1, faults));
    }
  }

  /** After the first write the answers left are still all yes, and enough
      remain for one per later prompt. */
  lemma AfterFirstAnswers(args: seq<string>, st: State)
    requires |args| > 0
    requires forall j :: 0 <= j < |st.answers| ==> YesSpelling(st.answers[j])
    requires |st.answers| >= |args| - (if MakefilePath in st.fs then 0 else 1)
    ensures
      var st1 := AfterFirst(args, st);
      && MakefilePath in st1.fs && !IsDir(st1.fs, MakefilePath)
      && (forall j :: 0 <= j < |st1.answers| ==> YesSpelling(st1.answers[j]))
      && (|args[1..]| > 0 ==> |st1.answers| >= |args[1..]|)
  {
    var st1 := AfterFirst(args, st);
    forall j | 0 <= j < |st1.answers| ensures YesSpelling(st1.answers[j]) {
      if MakefilePath in st.fs && st.answers != [] {
        assert st1.answers[j] == st.answers[j + 1];
      }
    }
  }

  /** The inductive step of `RepeatedMakefile`, stated over the outcome `r1`
      of the run that starts after the first write. */
  lemma RepeatedStep(args: seq<string>, st: State, r1: Exec)
    requires |args| > 0
    requires
      var st1 := AfterFirst(args, st);
      var rest := args[1..];
      && r1.Running?
      && |r1.st.answers| == |st1.answers| - (if |rest| == 0 then 0 else |rest| - (if MakefilePath in st1.fs then 0 else 1))
      && r1.st.report.failures == st1.report.failures
      && r1.st.report.successes == st1.report.successes + Repeat(MakefilePath, |rest|)
      && (|rest| > 0 ==> r1.st.fs == st1.fs[MakefilePath := File(MakefileBody(rest[|rest| - 1]))])
      && (|rest| == 0 ==> r1.st.fs == st1.fs)
    requires MakefilePath in st.fs ==> st.answers != []
    ensures
      && |r1.st.answers| == |st.answers| - (|args| - (if MakefilePath in st.fs then 0 else 1))
      && r1.st.report.failures == st.report.failures
      && r1.st.report.successes == st.report.successes + Repeat(MakefilePath, |args|)
      && r1.st.fs == st.fs[MakefilePath := File(MakefileBody(args[|args| - 1]))]
  {
    AppendAssoc(st.report.successes, [MakefilePath], Repeat(MakefilePath, |args| - 1));
    if |args| > 1 {
      assert args[1..][|args[1..]| - 1] == args[|args| - 1];
      WriteTwice(st.fs, MakefilePath, File(MakefileBody(args[0])), File(MakefileBody(args[|args| - 1])));
    }
  }
}
