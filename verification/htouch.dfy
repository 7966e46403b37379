/** htouch: one C header per argument, with an include guard derived from
    the argument. */
module Htouch {
  import opened Strings
  import opened FileSystem
  import opened Backend

  const Extension: string := ".h"
  const Maker: FileMaker := FileMaker("htouch", Extension)

  /** The argument as htouch uses it: when it ends in ".h", every ".h" in it
      is removed. */
  function Stem(arg: string): string {
    StripExtension(arg, Extension)
  }

  /** The include-guard token: the stem upper-cased, directory part included,
      since no base name is taken. */
  function Guard(arg: string): (g: string)
    ensures |g| == |Stem(arg)|
    ensures forall i :: 0 <= i < |g| ==> (g[i] == '/' <==> Stem(arg)[i] == '/')
    ensures forall i :: 0 <= i < |g| ==> !('a' <= g[i] <= 'z')
  {
    Upper(Stem(arg))
  }

  /** The header template for a guard token: the guard test, the guard
      definition, an empty line and `#endif`, each ended by a newline. */
  function HeaderBody(guard: string): (h: string)
    ensures h == Unlines(["#ifndef " + guard + "_H", "#define " + guard + "_H", "", "#endif"])
  {
    var lines := ["#ifndef " + guard + "_H", "#define " + guard + "_H", "", "#endif"];
    assert Unlines(lines[3..]) == "#endif\n";
    assert Unlines(lines[2..]) == "\n#endif\n";
    "#ifndef " + guard + "_H\n#define " + guard + "_H\n\n#endif\n"
  }

  /** Read back line by line, the header is the guard pair and `#endif`. */
  lemma HeaderBodyLines(guard: string)
    requires '\n' !in guard
    ensures SplitLines(HeaderBody(guard)) == ["#ifndef " + guard + "_H", "#define " + guard + "_H", "", "#endif"]
  {
    var lines := ["#ifndef " + guard + "_H", "#define " + guard + "_H", "", "#endif"];
    assert HeaderBody(guard) == Unlines(lines);
    SplitUnlines(lines);
  }

  /** One job per argument, in order: its own header, handed over stripped. */
  function Jobs(args: seq<string>): (jobs: seq<Job>)
    ensures |jobs| == |args|
    ensures forall i :: 0 <= i < |args| ==> jobs[i] == Job(HeaderBody(Guard(args[i])), Stem(args[i]))
  {
    seq(|args|, i requires 0 <= i < |args| => Job(HeaderBody(Guard(args[i])), Stem(args[i])))
  }

  /** htouch's main program after option parsing. */
  function Htouch(args: seq<string>, fs: FS, answers: seq<string>, faults: Faults, verbose: bool): (r: ToolResult)
    ensures r.NoArguments? <==> args == []
    ensures r.Finished? ==> forall x :: x in r.st.report.successes ==>
      exists i :: 0 <= i < |args| && x == Target(Maker, Stem(args[i]))
  {
    RunTool(Maker, Jobs(args), fs, answers, faults, verbose)
  }

  /** "x" and "x.h" name the same header "x.h" with the same guard, when "x"
      holds no ".h" of its own. */
  lemma {:induction false} SameTargetWithOrWithoutExtension(x: string)
    requires !Contains(x, Extension)
    ensures Stem(x) == x && Stem(x + Extension) == x
    ensures Target(Maker, Stem(x)) == x + Extension
    ensures Target(Maker, Stem(x + Extension)) == x + Extension
    ensures Guard(x) == Guard(x + Extension)
  {
    assert HeadUnique(Extension);
    if EndsWith(x, Extension) {
      EndsWithContains(x, Extension);
      assert false;
    }
    StripSingleOccurrence(x, Extension);
  }

  const FooHeader: string := "#ifndef FOO_H\n#define FOO_H\n\n#endif\n"

  lemma FooHasNoExtension()
    ensures !Contains("foo", Extension)
  {
    var foo := "foo";
    forall i | 0 <= i <= |foo| ensures !OccursAt(foo, Extension, i) {
      if i + 2 <= 3 {
        assert foo[i] != '.';
      }
    }
  }

  lemma FooGuard()
    ensures Guard("foo") == "FOO"
  {
    var foo := "foo";
    assert foo[1..] == "oo" && foo[2..] == "o";
    assert Upper(foo) == "FOO";
  }

  lemma FooHeaderText()
    ensures HeaderBody("FOO") == FooHeader
  {
  }

  lemma FooHeaderBody()
    ensures HeaderBody(Guard("foo")) == FooHeader
  {
    FooGuard();
    FooHeaderText();
  }

  lemma FooJobs()
    ensures Target(Maker, "foo") == "foo.h"
    ensures Jobs(["foo"]) == [Job(FooHeader, "foo")]
  {
    FooHasNoExtension();
    SameTargetWithOrWithoutExtension("foo");
    FooHeaderBody();
    var jobs := Jobs(["foo"]);
    assert jobs == [jobs[0]];
  }

  /** `htouch foo` on a directory without foo or foo.h creates foo.h holding
      the FOO_H guard. */
  lemma FooScenario(fs: FS, answers: seq<string>, faults: Faults, verbose: bool)
    requires "foo" !in fs && "foo.h" !in fs && "foo.h" !in faults
    ensures
      var r := Htouch(["foo"], fs, answers, faults, verbose);
      && r.Finished?
      && r.st.fs == fs["foo.h" := File(FooHeader)]
      && r.st.report == Report(["foo.h"], [])
  {
    FooJobs();
    var jobs := [Job(FooHeader, "foo")];
    var st := State(fs, Report([], []), answers);
    assert Fresh(Maker, jobs, fs, faults);
    RunJobsFreshReport(Maker, jobs, st, faults);
    RunJobsFreshFiles(Maker, jobs, st, faults);
    var s := RunJobs(Maker, jobs, st, faults).st;
    assert Targets(Maker, jobs) == ["foo.h"];
    assert s.fs == fs["foo.h" := File(FooHeader)];
    assert Htouch(["foo"], fs, answers, faults, verbose) == Finished(s, Finish(Maker, s.report, verbose));
  }
}
