/** cproject: for each project name, an optional removal of an existing
    directory, the skeleton folders, a README, a main.c and a Makefile step,
    as an ordered list of actions. `rm -rf` and `mkdir -pv` are modelled by
    their effect on the file system. The `makefile` child shares cproject's
    working directory and terminal, so it is modelled by what it does to
    ./Makefile and by the answer its overwrite prompt reads. `ctouch` is an
    action only. */
module CProject {
  import opened Seqs
  import opened Strings
  import opened FileSystem
  import opened Prompt
  import Backend
  import Makefile

  datatype Action =
    | Remove(path: string)
    | MkDir(path: string)
    | WriteReadme(path: string, content: string)
    | TouchMain(path: string)
    | RunMakefile(name: string)

  datatype Status = Completed | Exited(code: int) | Crashed

  /** What a run did: the actions in order, the declined projects, and how
      the run ended. */
  datatype Plan = Plan(actions: seq<Action>, failures: seq<string>, status: Status)

  /** The outcome for one project, with the state handed to the next. */
  datatype Step =
    | Declined(rest: seq<string>)
    | Built(actions: seq<Action>, fs: FS, rest: seq<string>)
    | StepExited(actions: seq<Action>)
    | StepCrashed

  function ReadmePath(project: string): string {
    project + "/README.md"
  }

  /** "# " and the last path segment, with no trailing newline. */
  function ReadmeContent(project: string): (c: string)
    ensures StartsWith(c, "# ") && '/' !in c[2..]
    ensures EndsWith(project, c[2..])
  {
    "# " + LastSegment(project)
  }

  function MainPath(project: string): string {
    project + "/src/main.c"
  }

  /** `rm -rf p`: the path and everything below it disappear. */
  function RemoveTree(fs: FS, p: string): (r: FS)
    ensures !Exists(r, p)
    ensures forall k :: k in r ==> !StartsWith(k, p + "/")
    ensures forall k :: k in fs && k != p && !StartsWith(k, p + "/") ==> k in r && r[k] == fs[k]
    ensures forall k :: k in r ==> k in fs
  {
    map k | k in fs && k != p && !StartsWith(k, p + "/") :: fs[k]
  }

  /** `mkdir -pv p` for the path itself: a missing path becomes a directory;
      an existing one, directory or file, is left as it is. */
  function MakeDir(fs: FS, p: string): (r: FS)
    ensures p in r && (p in fs ==> r == fs)
    ensures p !in fs ==> r[p] == Dir
    ensures forall k :: k != p ==> (k in r <==> k in fs)
    ensures forall k :: k in fs ==> r[k] == fs[k]
  {
    if p in fs then fs else fs[p := Dir]
  }

  /** The folders created, in order. */
  function Folders(project: string): seq<string> {
    [project, project + "/lib", project + "/include", project + "/src"]
  }

  /** The folders, each created only when missing. */
  function MakeFolders(fs: FS, project: string): (r: FS)
    ensures forall k :: k in r <==> k in fs || k in Folders(project)
    ensures forall k :: k in fs ==> r[k] == fs[k]
    ensures project !in fs ==> IsDir(r, project)
  {
    MakeDir(MakeDir(MakeDir(MakeDir(fs, project), project + "/lib"), project + "/include"), project + "/src")
  }

  /** The folder actions for one project, in creation order. */
  function MkDirs(project: string): seq<Action> {
    [MkDir(project)] + [MkDir(project + "/lib")] + [MkDir(project + "/include")] + [MkDir(project + "/src")]
  }

  /** The folder, README and main.c actions for one project. */
  function Setup(project: string): seq<Action> {
    MkDirs(project) + [WriteReadme(ReadmePath(project), ReadmeContent(project))] + [TouchMain(MainPath(project))]
  }

  /** The README path is none of the folder paths. */
  lemma ReadmeIsNotAFolder(project: string)
    ensures ReadmePath(project) !in Folders(project)
  {
    var readme := ReadmePath(project);
    var n := |project|;
    assert readme[n + 1] == 'R';
    assert (project + "/lib")[n + 1] == 'l';
    assert (project + "/include")[n + 1] == 'i';
    assert (project + "/src")[n + 1] == 's';
  }

  /** The actions for one project once its directory is clear. */
  function Layout(project: string): seq<Action> {
    Setup(project) + [RunMakefile(project)]
  }

  /** The folders come first, in order, then the README, then main.c, then
      the Makefile step, which is the only one. */
  lemma LayoutOrder(project: string)
    ensures Layout(project) ==
      [ MkDir(project), MkDir(project + "/lib"), MkDir(project + "/include"), MkDir(project + "/src"),
        WriteReadme(project + "/README.md", "# " + LastSegment(project)),
        TouchMain(project + "/src/main.c"),
        RunMakefile(project) ]
  {
  }

  lemma LayoutHasOneMakefile(project: string)
    ensures Makefiles(Layout(project)) == 1
  {
    var p := project;
    MakefilesAppend([MkDir(p)], [MkDir(p + "/lib")]);
    MakefilesAppend([MkDir(p)] + [MkDir(p + "/lib")], [MkDir(p + "/include")]);
    MakefilesAppend([MkDir(p)] + [MkDir(p + "/lib")] + [MkDir(p + "/include")], [MkDir(p + "/src")]);
    MakefilesAppend(MkDirs(p), [WriteReadme(ReadmePath(p), ReadmeContent(p))]);
    MakefilesAppend(MkDirs(p) + [WriteReadme(ReadmePath(p), ReadmeContent(p))], [TouchMain(MainPath(p))]);
    MakefilesAppend(Setup(p), [RunMakefile(p)]);
    MakefilesOne(MkDir(p));
    MakefilesOne(MkDir(p + "/lib"));
    MakefilesOne(MkDir(p + "/include"));
    MakefilesOne(MkDir(p + "/src"));
    MakefilesOne(WriteReadme(ReadmePath(p), ReadmeContent(p)));
    MakefilesOne(TouchMain(MainPath(p)));
    MakefilesOne(RunMakefile(p));
  }

  lemma MakefilesOne(a: Action)
    ensures Makefiles([a]) == if a.RunMakefile? then 1 else 0
  {
    assert [a][1..] == [];
  }

  /** A built project carries exactly one Makefile step. */
  lemma StepHasOneMakefile(project: string, fs: FS, answers: seq<string>, faults: Faults)
    ensures ProjectStep(project, fs, answers, faults).Built? ==>
      Makefiles(ProjectStep(project, fs, answers, faults).actions) == 1
  {
    if ProjectStep(project, fs, answers, faults).Built? {
      LayoutHasOneMakefile(project);
      if IsDir(fs, project) {
        MakefilesAppend([Remove(project)], Layout(project));
        MakefilesOne(Remove(project));
      } else {
        assert [] + Layout(project) == Layout(project);
      }
    }
  }

  /** What the `makefile` child leaves behind: the file system and the
      answers it did not read. */
  datatype Child = Child(fs: FS, rest: seq<string>)

  /** `makefile <project>` as a child process: one `create_file("Makefile")`
      with the template for the project, in cproject's working directory.
      An existing ./Makefile raises the overwrite prompt, which reads its
      answer from the input cproject reads from. The child's summary, its
      exit status and a crash of its own do not reach cproject. */
  function MakefileChild(project: string, fs: FS, answers: seq<string>, faults: Faults): (r: Child)
    // one answer is read when, and only when, ./Makefile is an existing file
    ensures r.rest == if IsFile(fs, Makefile.MakefilePath) && answers != [] then answers[1..] else answers
    // no other path changes
    ensures forall k :: k != Makefile.MakefilePath ==> (k in r.fs <==> k in fs) && (k in fs ==> r.fs[k] == fs[k])
    // a directory named Makefile is skipped
    ensures IsDir(fs, Makefile.MakefilePath) ==> r.fs == fs
    // a Makefile that is missing, or that the operator agreed to replace, gets this project's template
    ensures
      && !IsDir(fs, Makefile.MakefilePath)
      && (IsFile(fs, Makefile.MakefilePath) ==> answers != [] && YesSpelling(answers[0]))
      && Writable(fs, Makefile.MakefilePath, faults)
      ==> Makefile.MakefilePath in r.fs && r.fs[Makefile.MakefilePath] == File(Makefile.MakefileBody(project))
    // any other answer to the prompt leaves the old Makefile in place
    ensures IsFile(fs, Makefile.MakefilePath) && (answers == [] || !YesSpelling(answers[0])) ==> r.fs == fs
  {
    Makefile.TargetIsMakefile();
    var e := Backend.CreateFile(Makefile.Maker, Makefile.MakefileBody(project), Makefile.MakefilePath,
                                Backend.State(fs, Backend.Report([], []), answers), faults);
    if e.Running? then Child(e.st.fs, e.st.answers)
    else Child(fs, if answers == [] then [] else answers[1..])
  }

  /** ./Makefile is neither the README nor below the project path; it is a
      folder path only when the project is named Makefile. */
  lemma MakefileOutsideProject(project: string)
    ensures Makefile.MakefilePath != ReadmePath(project)
    ensures !StartsWith(Makefile.MakefilePath, project + "/")
    ensures Makefile.MakefilePath in Folders(project) ==> Makefile.MakefilePath == project
  {
    var m := Makefile.MakefilePath;
    var n := |project|;
    assert forall i :: 0 <= i < |m| ==> m[i] != '/';
    if n < |m| {
      assert (project + "/")[n] == '/';
      assert ReadmePath(project)[n] == '/';
      assert (project + "/lib")[n] == '/';
      assert (project + "/include")[n] == '/';
      assert (project + "/src")[n] == '/';
    }
  }

  /** The folder, README, main.c and Makefile steps once the directory is
      clear. A README that cannot be written ends the process with status 1;
      that happens when the project path is a plain file, so that `mkdir`
      leaves no directory to write into, or when the README itself cannot be
      written. */
  function Build(project: string, fs: FS, answers: seq<string>, prefix: seq<Action>, faults: Faults): (r: Step)
    ensures r.Built? || r.StepExited?
    ensures r.Built? ==> r.actions == prefix + Layout(project)
    ensures r.StepExited? ==> r.actions == prefix + MkDirs(project)
    ensures r.Built? <==> !IsFile(fs, project) && ReadmePath(project) !in faults && !IsDir(fs, ReadmePath(project))
    ensures r.Built? ==>
      && IsDir(r.fs, project)
      && ReadmePath(project) in r.fs && r.fs[ReadmePath(project)] == File(ReadmeContent(project))
    // the Makefile step reads one answer exactly when ./Makefile is an existing file
    ensures r.Built? ==> r.rest == if IsFile(fs, Makefile.MakefilePath) && answers != [] then answers[1..] else answers
  {
    ReadmeIsNotAFolder(project);
    var fs1 := MakeFolders(fs, project);
    var readme := ReadmePath(project);
    if IsDir(fs1, project) && Writable(fs1, readme, faults) then
      var fs2 := fs1[readme := File(ReadmeContent(project))];
      MakefileOutsideProject(project);
      AfterFolders(project, fs);
      WriteKeepsOther(fs1, readme, File(ReadmeContent(project)), Makefile.MakefilePath);
      var c := MakefileChild(project, fs2, answers, faults);
      Built(prefix + Layout(project), c.fs, c.rest)
    else
      StepExited(prefix + MkDirs(project))
  }

  /** Once the folders are in place, ./Makefile is as it was, unless the
      project itself is named Makefile. */
  lemma AfterFolders(project: string, fs: FS)
    requires IsDir(MakeFolders(fs, project), project)
    ensures IsFile(MakeFolders(fs, project), Makefile.MakefilePath) <==> IsFile(fs, Makefile.MakefilePath)
    ensures project != Makefile.MakefilePath ==>
      (IsDir(MakeFolders(fs, project), Makefile.MakefilePath) <==> IsDir(fs, Makefile.MakefilePath))
  {
    MakefileOutsideProject(project);
    if project != Makefile.MakefilePath {
      FoldersKeepOthers(fs, project, Makefile.MakefilePath);
    }
  }

  /** Writing one path leaves the kind of every other path as it was. */
  lemma WriteKeepsOther(fs: FS, p: string, n: Node, k: string)
    requires p != k
    ensures IsFile(fs[p := n], k) <==> IsFile(fs, k)
    ensures IsDir(fs[p := n], k) <==> IsDir(fs, k)
  {
  }

  /** A path that is none of the folders is left as it was. */
  lemma FoldersKeepOthers(fs: FS, project: string, k: string)
    requires k !in Folders(project)
    ensures k in MakeFolders(fs, project) <==> k in fs
    ensures k in fs ==> MakeFolders(fs, project)[k] == fs[k]
  {
  }

  /** A build keeps every existing path other than the README and
      ./Makefile as it was. */
  lemma BuildKeepsOthers(project: string, fs: FS, answers: seq<string>, prefix: seq<Action>, faults: Faults)
    ensures
      var r := Build(project, fs, answers, prefix, faults);
      r.Built? ==> forall k :: k in fs && k != ReadmePath(project) && k != Makefile.MakefilePath ==> k in r.fs && r.fs[k] == fs[k]
  {
    var r := Build(project, fs, answers, prefix, faults);
    if r.Built? {
      forall k | k in fs && k != ReadmePath(project) && k != Makefile.MakefilePath
        ensures k in r.fs && r.fs[k] == fs[k]
      {
        BuildKeepsKey(project, fs, answers, prefix, faults, k);
      }
    }
  }

  lemma BuildKeepsKey(project: string, fs: FS, answers: seq<string>, prefix: seq<Action>, faults: Faults, k: string)
    requires k in fs && k != ReadmePath(project) && k != Makefile.MakefilePath
    ensures Build(project, fs, answers, prefix, faults).Built? ==>
      k in Build(project, fs, answers, prefix, faults).fs && Build(project, fs, answers, prefix, faults).fs[k] == fs[k]
  {
    var fs1 := MakeFolders(fs, project);
    if IsDir(fs1, project) && Writable(fs1, ReadmePath(project), faults) {
      var fs2 := fs1[ReadmePath(project) := File(ReadmeContent(project))];
      var c := MakefileChild(project, fs2, answers, faults);
      assert Build(project, fs, answers, prefix, faults) == Built(prefix + Layout(project), c.fs, c.rest);
      assert k in fs1 && fs1[k] == fs[k];
      assert k in fs2 && fs2[k] == fs[k];
    }
  }

  /** A missing ./Makefile, or one the operator agreed to replace, gets the
      template for the project being built. */
  lemma BuildWritesMakefile(project: string, fs: FS, answers: seq<string>, prefix: seq<Action>, faults: Faults)
    ensures
      var r := Build(project, fs, answers, prefix, faults);
      && r.Built? && project != Makefile.MakefilePath
      && !IsDir(fs, Makefile.MakefilePath)
      && (IsFile(fs, Makefile.MakefilePath) ==> answers != [] && YesSpelling(answers[0]))
      && Makefile.MakefilePath !in faults
      ==> Makefile.MakefilePath in r.fs && r.fs[Makefile.MakefilePath] == File(Makefile.MakefileBody(project))
  {
    if project != Makefile.MakefilePath && Build(project, fs, answers, prefix, faults).Built? {
      var fs1 := MakeFolders(fs, project);
      MakefileOutsideProject(project);
      AfterFolders(project, fs);
      WriteKeepsOther(fs1, ReadmePath(project), File(ReadmeContent(project)), Makefile.MakefilePath);
    }
  }

  /** A build adds the folders, the README and ./Makefile, and nothing else;
      main.c comes from `ctouch`, which is an action only. */
  lemma BuiltKeys(project: string, fs: FS, answers: seq<string>, prefix: seq<Action>, faults: Faults)
    ensures Build(project, fs, answers, prefix, faults).Built? ==>
      forall k :: k in Build(project, fs, answers, prefix, faults).fs ==>
        k in fs || k in Folders(project) || k == ReadmePath(project) || k == Makefile.MakefilePath
  {
  }

  /** One project: an existing directory is offered for removal first. */
  function ProjectStep(project: string, fs: FS, answers: seq<string>, faults: Faults): (r: Step)
    ensures r.StepCrashed? <==> IsDir(fs, project) && AskUntilRecognised(answers).Aborted?
    ensures r.Declined? <==> IsDir(fs, project) && AskUntilRecognised(answers).Confirmed? && !AskUntilRecognised(answers).yes
    ensures r.Declined? ==> r.rest == AskUntilRecognised(answers).rest
    ensures !IsDir(fs, project) ==> r == Build(project, fs, answers, [], faults)
    ensures IsDir(fs, project) && AskUntilRecognised(answers).Confirmed? && AskUntilRecognised(answers).yes ==>
      r == Build(project, RemoveTree(fs, project), AskUntilRecognised(answers).rest, [Remove(project)], faults)
  {
    if IsDir(fs, project) then
      match AskUntilRecognised(answers)
      case Aborted => StepCrashed
      case Confirmed(yes, rest) =>
        if yes then Build(project, RemoveTree(fs, project), rest, [Remove(project)], faults)
        else Declined(rest)
    else
      Build(project, fs, answers, [], faults)
  }

  /** `create_projects`: every project in order; a declined project is
      recorded and skipped, a README error or the end of input stops the
      run. */
  function CreateProjects(projects: seq<string>, fs: FS, answers: seq<string>, faults: Faults): (r: Plan)
    ensures |r.failures| <= |projects|
    ensures forall i :: 0 <= i < |r.failures| ==> r.failures[i] in projects
    // the failures are projects taken in argument order
    ensures SubsequenceOf(r.failures, projects)
    ensures r.status.Exited? ==> r.status.code == 1
    decreases |projects|
  {
    if projects == [] then Plan([], [], Completed)
    else
      var p := projects[0];
      match ProjectStep(p, fs, answers, faults)
      case Declined(rest) =>
        var r := CreateProjects(projects[1..], fs, rest, faults);
        assert ([p] + r.failures)[1..] == r.failures;
        Plan(r.actions, [p] + r.failures, r.status)
      case Built(actions, fs1, rest) =>
        var r := CreateProjects(projects[1..], fs1, rest, faults);
        Plan(actions + r.actions, r.failures, r.status)
      case StepExited(actions) => EmptySubsequence(projects); Plan(actions, [], Exited(1))
      case StepCrashed => EmptySubsequence(projects); Plan([], [], Crashed)
  }

  /** No line of the input is a refusal. */
  predicate NoRefusal(answers: seq<string>) {
    forall i :: 0 <= i < |answers| ==> !NoSpelling(answers[i])
  }

  lemma NoRefusalTail(answers: seq<string>, j: int)
    requires NoRefusal(answers) && 0 <= j <= |answers|
    ensures NoRefusal(answers[j..])
  {
    forall i | 0 <= i < |answers[j..]| ensures !NoSpelling(answers[j..][i]) {
      assert answers[j..][i] == answers[j + i];
    }
  }

  /** Without a refusal in the input a project is never declined. */
  lemma NoRefusalNoDecline(project: string, fs: FS, answers: seq<string>, faults: Faults)
    requires NoRefusal(answers)
    ensures !ProjectStep(project, fs, answers, faults).Declined?
  {
    var a := AskUntilRecognised(answers);
    if IsDir(fs, project) && a.Confirmed? {
      var k := |answers| - |a.rest| - 1;
      ClassifyYes(answers[k]);
      ClassifyNo(answers[k]);
    }
  }

  /** A built project hands on a tail of the answers, so still without a
      refusal. */
  lemma BuiltKeepsNoRefusal(project: string, fs: FS, answers: seq<string>, faults: Faults)
    requires NoRefusal(answers)
    ensures ProjectStep(project, fs, answers, faults).Built? ==> NoRefusal(ProjectStep(project, fs, answers, faults).rest)
  {
    var a := AskUntilRecognised(answers);
    var tail := if IsDir(fs, project) && a.Confirmed? then a.rest else answers;
    if IsDir(fs, project) && a.Confirmed? {
      NoRefusalTail(answers, |answers| - |a.rest|);
    }
    if tail != [] {
      NoRefusalTail(tail, 1);
    }
  }

  /** With no refusal in the input no project is declined, so the run records
      no failure; every existing directory is replaced or ends the run. */
  lemma {:induction false} NoRefusalNoFailures(projects: seq<string>, fs: FS, answers: seq<string>, faults: Faults)
    ensures NoRefusal(answers) ==> CreateProjects(projects, fs, answers, faults).failures == []
    decreases |projects|
  {
    if projects != [] && NoRefusal(answers) {
      var s := ProjectStep(projects[0], fs, answers, faults);
      NoRefusalNoDecline(projects[0], fs, answers, faults);
      BuiltKeepsNoRefusal(projects[0], fs, answers, faults);
      if s.Built? {
        NoRefusalNoFailures(projects[1..], s.fs, s.rest, faults);
      }
    }
  }

  /** The number of Makefile steps among the actions. */
  function Makefiles(actions: seq<Action>): nat {
    if actions == [] then 0
    else (if actions[0].RunMakefile? then 1 else 0) + Makefiles(actions[1..])
  }

  lemma {:induction false} MakefilesAppend(a: seq<Action>, b: seq<Action>)
    ensures Makefiles(a + b) == Makefiles(a) + Makefiles(b)
    decreases |a|
  {
    if a != [] {
      assert (a + b)[1..] == a[1..] + b;
      MakefilesAppend(a[1..], b);
    } else {
      assert a + b == b;
    }
  }

  /** A run that completes accounts for every project: each was either
      declined or built with exactly one Makefile step. */
  lemma {:induction false} EveryProjectAccounted(projects: seq<string>, fs: FS, answers: seq<string>, faults: Faults)
    ensures
      var r := CreateProjects(projects, fs, answers, faults);
      r.status == Completed ==> |r.failures| + Makefiles(r.actions) == |projects|
    decreases |projects|
  {
    if projects != [] && CreateProjects(projects, fs, answers, faults).status == Completed {
      var p := projects[0];
      var s := ProjectStep(p, fs, answers, faults);
      if s.Declined? {
        EveryProjectAccounted(projects[1..], fs, s.rest, faults);
      } else if s.Built? {
        EveryProjectAccounted(projects[1..], s.fs, s.rest, faults);
        MakefilesAppend(s.actions, CreateProjects(projects[1..], s.fs, s.rest, faults).actions);
        StepHasOneMakefile(p, fs, answers, faults);
      }
    }
  }

  /** Once a run has stopped, later projects are never started. */
  lemma {:induction false} StopIsFinal(projects: seq<string>, more: seq<string>, fs: FS, answers: seq<string>, faults: Faults)
    ensures CreateProjects(projects, fs, answers, faults).status != Completed ==>
      CreateProjects(projects + more, fs, answers, faults) == CreateProjects(projects, fs, answers, faults)
    decreases |projects|
  {
    if CreateProjects(projects, fs, answers, faults).status != Completed {
      ConsSplit(projects, more);
      var s := ProjectStep(projects[0], fs, answers, faults);
      if s.Declined? {
        StopIsFinal(projects[1..], more, fs, s.rest, faults);
      } else if s.Built? {
        StopIsFinal(projects[1..], more, s.fs, s.rest, faults);
      }
    }
  }

  /** A declined project is recorded as a failure, adds no action, and the
      run goes on with the next project and the answers left over. */
  lemma DeclinedIsSkipped(project: string, more: seq<string>, fs: FS, answers: seq<string>, faults: Faults)
    requires IsDir(fs, project)
    requires AskUntilRecognised(answers).Confirmed? && !AskUntilRecognised(answers).yes
    ensures
      var r := CreateProjects([project] + more, fs, answers, faults);
      var next := CreateProjects(more, fs, AskUntilRecognised(answers).rest, faults);
      && r.failures == [project] + next.failures
      && r.actions == next.actions
      && r.status == next.status
  {
    ConsSplit([project], more);
    Single(project);
  }

  /** A plain file at the project path raises no prompt: `mkdir` cannot
      make the folder, the README cannot be opened, and the process exits
      with status 1 after the four folder attempts. */
  lemma PlainFileExits(project: string, more: seq<string>, fs: FS, answers: seq<string>, faults: Faults)
    requires IsFile(fs, project)
    ensures
      var r := CreateProjects([project] + more, fs, answers, faults);
      && r.status == Exited(1)
      && r.failures == []
      && r.actions == [MkDir(project), MkDir(project + "/lib"), MkDir(project + "/include"), MkDir(project + "/src")]
  {
    assert ([project] + more)[0] == project;
    assert [] + MkDirs(project) == [MkDir(project), MkDir(project + "/lib"), MkDir(project + "/include"), MkDir(project + "/src")];
  }

  /** After a confirmed overwrite nothing of the old project survives: below
      the project path there are only the new folders and the README (main.c
      comes from `ctouch`, an action only; ./Makefile is not below it). */
  lemma OverwriteStartsClean(project: string, fs: FS, answers: seq<string>, faults: Faults)
    ensures
      var r := ProjectStep(project, fs, answers, faults);
      IsDir(fs, project) && r.Built? ==>
        && r.actions[0] == Remove(project)
        && forall k :: k in r.fs && StartsWith(k, project + "/") ==> k in Folders(project) || k == ReadmePath(project)
  {
    var r := ProjectStep(project, fs, answers, faults);
    if IsDir(fs, project) && r.Built? {
      var cleared := RemoveTree(fs, project);
      var rest := AskUntilRecognised(answers).rest;
      assert r == Build(project, cleared, rest, [Remove(project)], faults);
      BuiltKeys(project, cleared, rest, [Remove(project)], faults);
      MakefileOutsideProject(project);
      forall k | k in r.fs && StartsWith(k, project + "/")
        ensures k in Folders(project) || k == ReadmePath(project)
      {
        assert k !in cleared;
      }
    }
  }

  lemma DemoHasNoSlash()
    ensures '/' !in "demo"
  {
  }

  lemma DemoLastSegment()
    ensures LastSegment("demo") == "demo"
  {
    DemoHasNoSlash();
  }

  lemma DemoReadmePath()
    ensures ReadmePath("demo") == "demo/README.md"
  {
    assert "demo" + "/README.md" == "demo/README.md";
  }

  lemma DemoReadmeContent()
    ensures ReadmeContent("demo") == "# demo"
  {
    DemoLastSegment();
  }

  lemma FreshStep(project: string, fs: FS, answers: seq<string>, faults: Faults)
    requires project !in fs && ReadmePath(project) !in fs && ReadmePath(project) !in faults
    ensures ProjectStep(project, fs, answers, faults).Built?
    ensures ProjectStep(project, fs, answers, faults).actions == Layout(project)
  {
    assert [] + Layout(project) == Layout(project);
  }

  /** A single project whose name and README are both absent is built in
      full, without cproject's own prompt. */
  lemma FreshProject(project: string, fs: FS, answers: seq<string>, faults: Faults)
    requires project !in fs && ReadmePath(project) !in fs && ReadmePath(project) !in faults
    ensures CreateProjects([project], fs, answers, faults) == Plan(Layout(project), [], Completed)
  {
    FreshStep(project, fs, answers, faults);
    Single(project);
    AppendEmpty(Layout(project));
  }

  lemma DemoPaths()
    ensures "demo" + "/lib" == "demo/lib"
    ensures "demo" + "/include" == "demo/include"
    ensures "demo" + "/src" == "demo/src"
    ensures "demo" + "/src/main.c" == "demo/src/main.c"
  {
  }

  /** `cproject demo` where nothing named demo exists builds the whole
      skeleton without a prompt and completes. */
  lemma DemoScenario(fs: FS, answers: seq<string>, faults: Faults)
    requires "demo" !in fs && "demo/README.md" !in fs && "demo/README.md" !in faults
    ensures
      var r := CreateProjects(["demo"], fs, answers, faults);
      && r.status == Completed
      && r.failures == []
      && r.actions ==
        [ MkDir("demo"), MkDir("demo/lib"), MkDir("demo/include"), MkDir("demo/src"),
          WriteReadme("demo/README.md", "# demo"), TouchMain("demo/src/main.c"), RunMakefile("demo") ]
  {
    DemoReadmePath();
    DemoReadmeContent();
    DemoPaths();
    LayoutOrder("demo");
    FreshProject("demo", fs, answers, faults);
  }

  lemma ScenarioPaths()
    ensures ReadmePath("b") == "b/README.md" && ReadmePath("c") == "c/README.md"
    ensures "c" !in Folders("b")
  {
  }

  /** Project b is new, but ./Makefile exists, so its `makefile` child
      prompts and reads the first answer. */
  lemma SharedStepB(fs: FS, answers: seq<string>)
    requires fs == map[Makefile.MakefilePath := File(""), "c" := Dir]
    ensures ProjectStep("b", fs, answers, map[]) == Build("b", fs, answers, [], map[])
    ensures Build("b", fs, answers, [], map[]).Built?
    ensures Build("b", fs, answers, [], map[]).rest == if answers == [] then [] else answers[1..]
  {
    ScenarioPaths();
    assert "b" !in fs && "b/README.md" !in fs;
    assert IsFile(fs, Makefile.MakefilePath);
  }

  lemma SharedStepBKeepsC(fs: FS, answers: seq<string>)
    requires fs == map[Makefile.MakefilePath := File(""), "c" := Dir]
    ensures Build("b", fs, answers, [], map[]).Built? ==> IsDir(Build("b", fs, answers, [], map[]).fs, "c")
  {
    ScenarioPaths();
    BuildKeepsOthers("b", fs, answers, [], map[]);
  }

  /** Once an existing directory is removed, its rebuild stops only on a
      README that cannot be written. */
  lemma RebuildAfterRemoval(project: string, fs: FS, answers: seq<string>, prefix: seq<Action>, faults: Faults)
    ensures Build(project, RemoveTree(fs, project), answers, prefix, faults).Built? <==> ReadmePath(project) !in faults
  {
    assert StartsWith(ReadmePath(project), project + "/");
  }

  /** Project c exists; a yes replaces it. */
  lemma SharedStepCBuilt(fs: FS)
    requires IsDir(fs, "c")
    ensures ProjectStep("c", fs, ["y"], map[]).Built?
  {
    ClassifyYes("y");
    assert AskUntilRecognised(["y"]) == Confirmed(true, []);
    RebuildAfterRemoval("c", fs, [], [Remove("c")], map[]);
  }

  /** ... and the run completes. */
  lemma SharedStepC(fs: FS)
    requires IsDir(fs, "c")
    ensures CreateProjects(["c"], fs, ["y"], map[]) == Plan(ProjectStep("c", fs, ["y"], map[]).actions, [], Completed)
  {
    SharedStepCBuilt(fs);
    var s := ProjectStep("c", fs, ["y"], map[]);
    assert ["c"][1..] == [];
    assert CreateProjects([], s.fs, s.rest, map[]) == Plan([], [], Completed);
    AppendEmpty(s.actions);
  }

  /** `cproject b c` with ./Makefile and c already present and the answers
      n, y: the n meant for the question about c is read by the `makefile`
      child of b, which keeps the old Makefile; the y then replaces c, and no
      project is declined. */
  lemma SharedTerminalScenario()
    ensures
      var r := CreateProjects(["b", "c"], map[Makefile.MakefilePath := File(""), "c" := Dir], ["n", "y"], map[]);
      && r.status == Completed
      && r.failures == []
  {
    var fs := map[Makefile.MakefilePath := File(""), "c" := Dir];
    SharedStepB(fs, ["n", "y"]);
    SharedStepBKeepsC(fs, ["n", "y"]);
    var s := Build("b", fs, ["n", "y"], [], map[]);
    assert s.rest == ["y"];
    SharedStepC(s.fs);
    assert ["b", "c"][1..] == ["c"];
    var next := CreateProjects(["c"], s.fs, ["y"], map[]);
    assert CreateProjects(["b", "c"], fs, ["n", "y"], map[]) == Plan(s.actions + next.actions, next.failures, next.status);
  }
}
