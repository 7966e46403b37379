/** The write pipeline shared by htouch, pytouch and makefile
    (backend/backend/filemaker.py): filename cleaning with an overwrite gate,
    file creation, and the run summary. The process-wide success and failure
    lists are a `Report` threaded through the calls. */
module Backend {
  import opened Seqs
  import opened Strings
  import opened FileSystem
  import opened Prompt

  /** The paths created and the paths that could not be created, in order. */
  datatype Report = Report(successes: seq<string>, failures: seq<string>)

  /** Everything a run reads and changes: the file system, the report and
      the operator's answers still to be read. */
  datatype State = State(fs: FS, report: Report, answers: seq<string>)

  /** A file maker: the program name used in messages and the extension. */
  datatype FileMaker = FileMaker(name: string, extension: string)

  /** A run either goes on or the process has ended on an uncaught error. */
  datatype Exec = Running(st: State) | Crashed

  /** The outcome of cleaning a filename. */
  datatype Cleaned = Proceed(name: string, st: State) | Skip(st: State) | Abort

  /** The later report extends the earlier one on both lists. */
  predicate AppendOnly(before: Report, after: Report) {
    && |before.successes| <= |after.successes|
    && after.successes[..|before.successes|] == before.successes
    && |before.failures| <= |after.failures|
    && after.failures[..|before.failures|] == before.failures
  }

  /** The existence check that triggers the prompt: the raw filename or the
      raw filename with the extension appended. */
  predicate NeedsConfirm(fm: FileMaker, fs: FS, filename: string) {
    Exists(fs, filename) || Exists(fs, filename + fm.extension)
  }

  /** The path `create_file(filename)` writes. */
  function Target(fm: FileMaker, filename: string): string {
    StripExtension(filename, fm.extension) + fm.extension
  }

  /** The write may go ahead: the name is no directory, and either nothing
      was there or the operator answered yes. */
  predicate Allowed(fm: FileMaker, st: State, filename: string) {
    && !IsDir(st.fs, filename)
    && (!NeedsConfirm(fm, st.fs, filename) || (st.answers != [] && YesSpelling(st.answers[0])))
  }

  /** `FileMaker.clean_filename`: a directory is refused without a record;
      an existing name is put to the operator first, and a refusal records
      the raw filename as a failure; otherwise the extension is stripped. */
  function CleanFilename(fm: FileMaker, filename: string, st: State): (r: Cleaned)
    ensures IsDir(st.fs, filename) ==> r == Skip(st)
    ensures r.Proceed? ==> r.name == StripExtension(filename, fm.extension)
    ensures r.Proceed? <==> Allowed(fm, st, filename)
  {
    if IsDir(st.fs, filename) then
      Skip(st)
    else if NeedsConfirm(fm, st.fs, filename) then
      match AskOnce(st.answers)
      case Aborted => Abort
      case Confirmed(yes, rest) =>
        if yes then
          Proceed(StripExtension(filename, fm.extension), st.(answers := rest))
        else
          Skip(st.(report := st.report.(failures := st.report.failures + [filename]), answers := rest))
    else
      Proceed(StripExtension(filename, fm.extension), st)
  }

  lemma FirstAnswerSpelling(answers: seq<string>)
    ensures answers != [] ==>
      && (Classify(answers[0]) == Yes <==> YesSpelling(answers[0]))
      && (Classify(answers[0]) == No <==> NoSpelling(answers[0]))
  {
    if answers != [] {
      ClassifyYes(answers[0]);
      ClassifyNo(answers[0]);
    }
  }

  /** `FileMaker.create_file`: clean the name, then write the template to the
      cleaned name plus the extension. An error is recorded, never raised: one
      at open or inside `f.write` records a failure; one when the file is
      closed comes after the success was recorded, so the path lands on both
      lists. */
  function CreateFile(fm: FileMaker, template: string, filename: string, st: State, faults: Faults): (r: Exec)
    // a directory is refused and nothing at all is recorded
    ensures IsDir(st.fs, filename) ==> r == Running(st)
    // the process ends only on an unusable answer to a prompt
    ensures r.Crashed? <==>
      && !IsDir(st.fs, filename) && NeedsConfirm(fm, st.fs, filename)
      && (st.answers == [] || Classify(st.answers[0]) == Unrecognised)
    // exactly one answer is read when, and only when, the prompt is shown
    ensures r.Running? ==>
      r.st.answers == if !IsDir(st.fs, filename) && NeedsConfirm(fm, st.fs, filename) then st.answers[1..] else st.answers
    // a refusal records the raw filename once and touches no file
    ensures !IsDir(st.fs, filename) && NeedsConfirm(fm, st.fs, filename) && st.answers != [] && NoSpelling(st.answers[0]) ==>
      r == Running(State(st.fs, Report(st.report.successes, st.report.failures + [filename]), st.answers[1..]))
    // a successful write holds exactly the template and is recorded as a success
    ensures Allowed(fm, st, filename) && Writable(st.fs, Target(fm, filename), faults) ==>
      && r.Running?
      && r.st.fs == st.fs[Target(fm, filename) := File(template)]
      && r.st.report == Report(st.report.successes + [Target(fm, filename)], st.report.failures)
    // a file that cannot be opened records the extension-qualified path as a failure and changes no file
    ensures Allowed(fm, st, filename) && !Opens(st.fs, Target(fm, filename), faults) ==>
      && r.Running?
      && r.st.fs == st.fs
      && r.st.report == Report(st.report.successes, st.report.failures + [Target(fm, filename)])
    // a raise inside `f.write` comes before the success is recorded: the path is a failure only,
    // and the truncated file keeps only a prefix of the template
    ensures Allowed(fm, st, filename) && WriteRaises(st.fs, Target(fm, filename), faults) ==>
      && r.Running?
      && Target(fm, filename) in r.st.fs && r.st.fs[Target(fm, filename)].File?
      && r.st.fs[Target(fm, filename)].content <= template
      && r.st.fs == st.fs[Target(fm, filename) := r.st.fs[Target(fm, filename)]]
      && r.st.report == Report(st.report.successes, st.report.failures + [Target(fm, filename)])
    // a write lost at close is on both lists, and the file keeps only a prefix of the template
    ensures Allowed(fm, st, filename) && CloseRaises(st.fs, Target(fm, filename), faults) ==>
      && r.Running?
      && Target(fm, filename) in r.st.fs && r.st.fs[Target(fm, filename)].File?
      && r.st.fs[Target(fm, filename)].content <= template
      && r.st.fs == st.fs[Target(fm, filename) := r.st.fs[Target(fm, filename)]]
      && r.st.report == Report(st.report.successes + [Target(fm, filename)], st.report.failures + [Target(fm, filename)])
    // the lists only grow, each by at most one entry
    ensures r.Running? ==>
      && AppendOnly(st.report, r.st.report)
      && |r.st.report.successes| <= |st.report.successes| + 1
      && |r.st.report.failures| <= |st.report.failures| + 1
    // nothing is written unless the gate allowed it
    ensures r.Running? && r.st.fs != st.fs ==> Allowed(fm, st, filename)
  {
    var c := CleanFilename(fm, filename, st);
    FirstAnswerSpelling(st.answers);
    match c
    case Abort => Crashed
    case Skip(s) => Running(s)
    case Proceed(name, s) =>
      var target := name + fm.extension;
      if !Opens(s.fs, target, faults) then
        Running(s.(report := s.report.(failures := s.report.failures + [target])))
      else
        var fs1 := WriteText(s.fs, target, template, faults);
        var written := s.report.(successes := s.report.successes + [target]);
        if Writable(s.fs, target, faults) then
          Running(s.(fs := fs1, report := written))
        else if faults[target].WriteFails? then
          Running(s.(fs := fs1, report := s.report.(failures := s.report.failures + [target])))
        else
          Running(s.(fs := fs1, report := written.(failures := written.failures + [target])))
  }

  /** When the extension can only occur at the end of the name, the path
      written is one of the two paths the existence check looked at, so an
      existing file is never replaced without the prompt. */
  lemma {:induction false} CheckCoversTarget(fm: FileMaker, base: string, filename: string)
    requires HeadUnique(fm.extension)
    requires !Contains(base, fm.extension)
    requires filename == base || filename == base + fm.extension
    ensures Target(fm, filename) == filename || Target(fm, filename) == filename + fm.extension
    ensures Target(fm, filename) == base + fm.extension
  {
    var ext := fm.extension;
    if filename == base {
      if EndsWith(base, ext) {
        EndsWithContains(base, ext);
        assert false;
      }
    } else {
      StripSingleOccurrence(base, ext);
    }
  }

  lemma OverwriteExampleNoPrompt()
    ensures !NeedsConfirm(FileMaker("pytouch", ".py"), map["my.x.py" := File("old")], "my.py.x.py")
  {
    assert |"my.py.x.py"| != |"my.x.py"|;
    assert |"my.py.x.py" + ".py"| != |"my.x.py"|;
  }

  lemma OverwriteExampleTarget()
    ensures Target(FileMaker("pytouch", ".py"), "my.py.x.py") == "my.x.py"
  {
    var fm := FileMaker("pytouch", ".py");
    assert Target(fm, "my.py.x.py") == StripExtension("my.py.x.py", fm.extension) + fm.extension;
    StripTwiceExample();
    assert "my.x" + ".py" == "my.x.py";
  }

  /** The check looks at the raw name, the write goes to the stripped one: a
      name holding the extension twice replaces an existing file unasked. */
  lemma OverwriteWithoutPrompt()
    ensures
      var fm := FileMaker("pytouch", ".py");
      var st := State(map["my.x.py" := File("old")], Report([], []), []);
      && !NeedsConfirm(fm, st.fs, "my.py.x.py")
      && Target(fm, "my.py.x.py") == "my.x.py"
      && CreateFile(fm, "new", "my.py.x.py", st, map[]) ==
         Running(State(map["my.x.py" := File("new")], Report(["my.x.py"], []), []))
  {
    OverwriteExampleNoPrompt();
    OverwriteExampleTarget();
    WriteTwice(map[], "my.x.py", File("old"), File("new"));
  }

  /** A template that `f.write` cannot encode, for a fresh `x.h`: the open
      has already created the file, which stays empty, and the path is
      recorded as a failure only. */
  lemma WriteRaisesExample()
    ensures
      var fm := FileMaker("htouch", ".h");
      CreateFile(fm, "#ifndef X_H", "x", State(map[], Report([], []), []), map["x.h" := WriteFails(0)])
        == Running(State(map["x.h" := File("")], Report([], ["x.h"]), []))
  {
    var fm := FileMaker("htouch", ".h");
    assert !EndsWith("x", ".h");
    assert Target(fm, "x") == "x.h";
  }

  /* ---------- a run over several files ---------- */

  /** One `create_file` call: the template in force and the argument passed. */
  datatype Job = Job(template: string, filename: string)

  /** The tools' main loop: one `create_file` per job, in order. */
  function RunJobs(fm: FileMaker, jobs: seq<Job>, st: State, faults: Faults): (r: Exec)
    // the answers are read in order: what is left is a suffix of the input
    ensures r.Running? ==> SuffixOf(r.st.answers, st.answers)
    decreases |jobs|
  {
    if jobs == [] then Running(st)
    else
      match CreateFile(fm, jobs[0].template, jobs[0].filename, st, faults)
      case Crashed => Crashed
      case Running(s) => RunJobs(fm, jobs[1..], s, faults)
  }

  /** Every success a run adds is the path some job writes. */
  lemma {:induction false} RunJobsSuccessesAreTargets(fm: FileMaker, jobs: seq<Job>, st: State, faults: Faults)
    ensures RunJobs(fm, jobs, st, faults).Running? ==>
      forall x :: x in RunJobs(fm, jobs, st, faults).st.report.successes ==>
        x in st.report.successes || x in Targets(fm, jobs)
    decreases |jobs|
  {
    if jobs != [] {
      var c := CreateFile(fm, jobs[0].template, jobs[0].filename, st, faults);
      if c.Running? {
        RunJobsSuccessesAreTargets(fm, jobs[1..], c.st, faults);
        assert Targets(fm, jobs) == [Target(fm, jobs[0].filename)] + Targets(fm, jobs[1..]);
      }
    }
  }

  /** Over a whole run the lists only grow, each by at most one entry per job. */
  lemma {:induction false} RunJobsAppendOnly(fm: FileMaker, jobs: seq<Job>, st: State, faults: Faults)
    ensures RunJobs(fm, jobs, st, faults).Running? ==>
      && AppendOnly(st.report, RunJobs(fm, jobs, st, faults).st.report)
      && |RunJobs(fm, jobs, st, faults).st.report.successes| <= |st.report.successes| + |jobs|
      && |RunJobs(fm, jobs, st, faults).st.report.failures| <= |st.report.failures| + |jobs|
    decreases |jobs|
  {
    if jobs != [] {
      var c := CreateFile(fm, jobs[0].template, jobs[0].filename, st, faults);
      if c.Running? {
        RunJobsAppendOnly(fm, jobs[1..], c.st, faults);
      }
    }
  }

  /** A run on a file system where no job meets an existing path: nothing a
      job checks exists beforehand or is written by another job, and every
      target can be written. */
  predicate Fresh(fm: FileMaker, jobs: seq<Job>, fs: FS, faults: Faults) {
    && (forall i :: 0 <= i < |jobs| ==> !NeedsConfirm(fm, fs, jobs[i].filename))
    && (forall i :: 0 <= i < |jobs| ==> Writable(fs, Target(fm, jobs[i].filename), faults))
    && (forall i, j :: 0 <= i < j < |jobs| ==>
          && Target(fm, jobs[i].filename) != jobs[j].filename
          && Target(fm, jobs[i].filename) != jobs[j].filename + fm.extension
          && Target(fm, jobs[i].filename) != Target(fm, jobs[j].filename))
  }

  /** The paths the jobs write, in order. */
  function Targets(fm: FileMaker, jobs: seq<Job>): (ts: seq<string>)
    ensures |ts| == |jobs|
    ensures forall i :: 0 <= i < |jobs| ==> ts[i] == Target(fm, jobs[i].filename)
  {
    if jobs == [] then [] else [Target(fm, jobs[0].filename)] + Targets(fm, jobs[1..])
  }

  lemma FreshFirstStep(fm: FileMaker, jobs: seq<Job>, st: State, faults: Faults)
    requires jobs != [] && Fresh(fm, jobs, st.fs, faults)
    ensures
      var t0 := Target(fm, jobs[0].filename);
      var fs1 := st.fs[t0 := File(jobs[0].template)];
      && CreateFile(fm, jobs[0].template, jobs[0].filename, st, faults)
         == Running(State(fs1, Report(st.report.successes + [t0], st.report.failures), st.answers))
      && Fresh(fm, jobs[1..], fs1, faults)
  {
    var t0 := Target(fm, jobs[0].filename);
    var fs1 := st.fs[t0 := File(jobs[0].template)];
    var rest := jobs[1..];
    forall i | 0 <= i < |rest|
      ensures !NeedsConfirm(fm, fs1, rest[i].filename)
      ensures Writable(fs1, Target(fm, rest[i].filename), faults)
    {
      assert rest[i] == jobs[i + 1];
    }
    forall i, j | 0 <= i < j < |rest|
      ensures Target(fm, rest[i].filename) != rest[j].filename
      ensures Target(fm, rest[i].filename) != rest[j].filename + fm.extension
      ensures Target(fm, rest[i].filename) != Target(fm, rest[j].filename)
    {
      assert rest[i] == jobs[i + 1] && rest[j] == jobs[j + 1];
    }
  }

  /** In a fresh run no prompt is shown, nothing fails, and the successes
      list every target in argument order. */
  lemma {:induction false} RunJobsFreshReport(fm: FileMaker, jobs: seq<Job>, st: State, faults: Faults)
    requires Fresh(fm, jobs, st.fs, faults)
    ensures RunJobs(fm, jobs, st, faults).Running?
    ensures RunJobs(fm, jobs, st, faults).st.answers == st.answers
    ensures RunJobs(fm, jobs, st, faults).st.report.failures == st.report.failures
    ensures RunJobs(fm, jobs, st, faults).st.report.successes == st.report.successes + Targets(fm, jobs)
    decreases |jobs|
  {
    if jobs != [] {
      var t0 := Target(fm, jobs[0].filename);
      var rest := jobs[1..];
      var st1 := State(st.fs[t0 := File(jobs[0].template)], Report(st.report.successes + [t0], st.report.failures), st.answers);
      assert RunJobs(fm, jobs, st, faults) == RunJobs(fm, rest, st1, faults) && Fresh(fm, rest, st1.fs, faults) by {
        FreshFirstStep(fm, jobs, st, faults);
      }
      RunJobsFreshReport(fm, rest, st1, faults);
      assert Targets(fm, jobs) == [t0] + Targets(fm, rest);
      AppendAssoc(st.report.successes, [t0], Targets(fm, rest));
    }
  }

  /** In a fresh run every job creates its own file holding its own template,
      and no other path changes. */
  lemma {:induction false} RunJobsFreshFiles(fm: FileMaker, jobs: seq<Job>, st: State, faults: Faults)
    requires Fresh(fm, jobs, st.fs, faults)
    ensures RunJobs(fm, jobs, st, faults).Running?
    ensures
      var fs := RunJobs(fm, jobs, st, faults).st.fs;
      && (forall i :: 0 <= i < |jobs| ==> Target(fm, jobs[i].filename) in fs && fs[Target(fm, jobs[i].filename)] == File(jobs[i].template))
      && (forall p :: p !in Targets(fm, jobs) ==> (p in fs <==> p in st.fs) && (p in st.fs ==> fs[p] == st.fs[p]))
    decreases |jobs|
  {
    if jobs != [] {
      FreshFirstStep(fm, jobs, st, faults);
      var t0 := Target(fm, jobs[0].filename);
      var st1 := CreateFile(fm, jobs[0].template, jobs[0].filename, st, faults).st;
      var rest := jobs[1..];
      RunJobsFreshFiles(fm, rest, st1, faults);
      assert RunJobs(fm, jobs, st, faults) == RunJobs(fm, rest, st1, faults);
      var fs := RunJobs(fm, jobs, st, faults).st.fs;
      assert Targets(fm, jobs) == [t0] + Targets(fm, rest);
      assert t0 !in Targets(fm, rest) by {
        forall k | 0 <= k < |rest| ensures Targets(fm, rest)[k] != t0 {
          assert rest[k] == jobs[k + 1];
        }
      }
      forall i | 0 <= i < |jobs|
        ensures Target(fm, jobs[i].filename) in fs && fs[Target(fm, jobs[i].filename)] == File(jobs[i].template)
      {
        if i > 0 {
          assert jobs[i] == rest[i - 1];
        }
      }
    }
  }

  /* ---------- the summary ---------- */

  /** One enumerated line of the summary. */
  function NumberedLine(i: nat, path: string): string {
    "  " + NatToString(i) + ". " + path
  }

  /** The paths enumerated from `first` on. */
  function Enumerate(paths: seq<string>, first: nat): (r: seq<string>)
    ensures |r| == |paths|
    ensures forall i :: 0 <= i < |paths| ==> r[i] == NumberedLine(first + i, paths[i])
    decreases |paths|
  {
    if paths == [] then [] else [NumberedLine(first, paths[0])] + Enumerate(paths[1..], first + 1)
  }

  /** `FileMaker.finish`: the lines printed at the end of a run. */
  function Finish(fm: FileMaker, report: Report, verbose: bool): (r: seq<string>)
    ensures
      var n := |report.successes|;
      var m := |report.failures|;
      var h := 1 + (if verbose then n else 0);
      && |r| == h + (if m > 0 then 1 + m else 0)
      && r[0] == fm.name + ": " + NatToString(n) + " file(s) created."
      && (verbose ==> forall i :: 0 <= i < n ==> r[1 + i] == NumberedLine(i + 1, report.successes[i]))
      && (m > 0 ==> r[h] == "There were " + NatToString(m) + " files that could not be created:")
      && (forall i :: 0 <= i < m ==> r[h + 1 + i] == NumberedLine(i + 1, report.failures[i]))
  {
    var n := |report.successes|;
    var m := |report.failures|;
    var head := [fm.name + ": " + NatToString(n) + " file(s) created."];
    var listed := if verbose then Enumerate(report.successes, 1) else [];
    var fails := if m > 0
      then ["There were " + NatToString(m) + " files that could not be created:"] + Enumerate(report.failures, 1)
      else [];
    head + listed + fails
  }

  /** The counts in the summary read back as the lengths of the two lists. */
  lemma FinishCountsReadBack(fm: FileMaker, report: Report, verbose: bool)
    ensures
      var r := Finish(fm, report, verbose);
      var n := NatToString(|report.successes|);
      && r[0][|fm.name| + 2..|fm.name| + 2 + |n|] == n
      && DigitsValue(n) == |report.successes|
  {
    NatToStringRoundTrip(|report.successes|);
  }

  /* ---------- a whole tool run ---------- */

  /** How a tool run ends: no arguments given, the summary printed, or an
      uncaught error. */
  datatype ToolResult = NoArguments | Finished(st: State, summary: seq<string>) | ToolCrashed

  /** A tool's main program from the argument check on: the lists start
      empty, every job runs in order, and `finish` runs once at the end. */
  function RunTool(fm: FileMaker, jobs: seq<Job>, fs: FS, answers: seq<string>, faults: Faults, verbose: bool): (r: ToolResult)
    ensures r.NoArguments? <==> jobs == []
    ensures r.Finished? ==> |r.st.report.successes| <= |jobs| && |r.st.report.failures| <= |jobs|
    ensures r.Finished? ==> r.summary == Finish(fm, r.st.report, verbose)
    ensures r.Finished? ==> forall x :: x in r.st.report.successes ==> x in Targets(fm, jobs)
  {
    if jobs == [] then NoArguments
    else
      var st := State(fs, Report([], []), answers);
      RunJobsAppendOnly(fm, jobs, st, faults);
      RunJobsSuccessesAreTargets(fm, jobs, st, faults);
      match RunJobs(fm, jobs, st, faults)
      case Crashed => ToolCrashed
      case Running(s) => Finished(s, Finish(fm, s.report, verbose))
  }
}
