/** random_meme: choose a video player, list the videos of a directory, and
    play either a random one or the one recorded in the replay cache. The
    programs found on the PATH, the directory listing and the random index
    are inputs. */
module RandomMeme {
  import opened Seqs
  import opened Strings
  import opened FileSystem

  /** The players tried, in order of preference. */
  const Players: seq<string> := ["vlc", "mpv", "smplayer", "mplayer"]
  /** Where the last played video is recorded. */
  const CachePath: string := "/tmp/meme"

  /** The argument vector `program_exists` runs for a lookup method. */
  function LookupArgv(program: string, searchProg: string): seq<string> {
    (if searchProg == "command" then ["bash", "-c", "command", "-v"] else ["which"]) + [program]
  }

  /** Whether a one-line shell script exits with status 0. Only the scripts a
      lookup can build are modelled: `command -v p` succeeds exactly when p
      is found on the PATH, and the bare word `command`, with no operand,
      runs nothing and succeeds. */
  function ScriptSucceeds(script: string, onPath: set<string>): bool {
    if |script| > 11 && script[..11] == "command -v " then script[11..] in onPath
    else script == "command"
  }

  /** The result of one lookup: the exit status was 0 or not, or the lookup
      program itself could not be started, which raises an error that
      `program_exists` does not catch. */
  datatype Lookup = Status(found: bool) | NotStarted

  /** `program_exists`: run the lookup and read its exit status. `bash -c`
      takes only the word after `-c` as the script; the words after it become
      $0, $1, ... So the "command" lookup runs the bare word `command`, and the
      program name never reaches it. */
  function ProgramExists(program: string, searchProg: string, onPath: set<string>): (r: Lookup)
    ensures searchProg == "command" ==> r == if "bash" in onPath then Status(true) else NotStarted
    ensures searchProg != "command" ==> r == if "which" in onPath then Status(program in onPath) else NotStarted
  {
    var argv := LookupArgv(program, searchProg);
    if argv[0] !in onPath then NotStarted
    else if argv[0] == "bash" then Status(ScriptSucceeds(argv[2], onPath))
    else Status(argv[1] in onPath)
  }

  /** The test in the loop of `check_players`: the "command" lookup, and the
      "which" lookup only when the first one fails. */
  function Accepts(player: string, onPath: set<string>): Lookup {
    match ProgramExists(player, "command", onPath)
    case NotStarted => NotStarted
    case Status(found) => if found then Status(true) else ProgramExists(player, "which", onPath)
  }

  /** With bash installed every name passes the test, installed or not. */
  lemma LookupAcceptsEveryPlayer(player: string, onPath: set<string>)
    ensures "bash" in onPath ==> Accepts(player, onPath) == Status(true)
    ensures "bash" !in onPath ==> Accepts(player, onPath) == NotStarted
  {
  }

  /** The outcome of the search loop of `check_players`. */
  datatype Search = Found(player: string) | NotFound | LookupRaised

  /** The loop of `check_players` for a given test: the first player that
      passes it; a lookup that cannot be started ends the search with its
      error. */
  function FindPlayer(ps: seq<string>, test: string -> Lookup): (r: Search)
    ensures r.Found? ==>
      exists i :: 0 <= i < |ps| && ps[i] == r.player && test(ps[i]) == Status(true)
        && forall j :: 0 <= j < i ==> test(ps[j]) == Status(false)
    ensures r.NotFound? <==> forall j :: 0 <= j < |ps| ==> test(ps[j]) == Status(false)
    ensures r.LookupRaised? ==>
      exists i :: 0 <= i < |ps| && test(ps[i]) == NotStarted
        && forall j :: 0 <= j < i ==> test(ps[j]) == Status(false)
    decreases |ps|
  {
    if ps == [] then NotFound
    else
      match test(ps[0])
      case NotStarted => LookupRaised
      case Status(found) =>
        if found then Found(ps[0])
        else
          var r := FindPlayer(ps[1..], test);
          assert forall j :: 1 <= j < |ps| ==> ps[j] == ps[1..][j - 1];
          r
  }

  /** What `check_players` decides: a player, the exit for no player, or the
      error of a lookup that could not be started. */
  datatype Check = Chosen(player: string) | NoPlayer(message: string) | CheckRaised

  /** `check_players`: the player found replaces the one given with `-p`; when
      none is found the `-p` player stays, and without one the program exits
      after listing the players it knows. */
  function CheckPlayers(onPath: set<string>, preset: string): (r: Check)
    ensures r.NoPlayer? ==> preset == [] && r.message == NoPlayerMessage()
    ensures r.Chosen? ==> r.player != [] && (r.player in Players || r.player == preset)
  {
    match FindPlayer(Players, p => Accepts(p, onPath))
    case Found(player) => Chosen(player)
    case LookupRaised => CheckRaised
    case NotFound => if preset == [] then NoPlayer(NoPlayerMessage()) else Chosen(preset)
  }

  /** Because every name passes the test, `check_players` always picks the
      first player, vlc, whatever is installed and whatever `-p` gave; without
      bash it raises. */
  lemma {:induction false} CheckPicksFirst(onPath: set<string>, preset: string)
    ensures "bash" in onPath ==> CheckPlayers(onPath, preset) == Chosen("vlc")
    ensures "bash" !in onPath ==> CheckPlayers(onPath, preset) == CheckRaised
  {
    LookupAcceptsEveryPlayer(Players[0], onPath);
  }

  /** What the loop that lists the players prints, from index `a` on: each
      player followed by ", ", the one at index `last` by a newline. */
  function PrintedPlayers(ps: seq<string>, a: nat, last: int): string
    decreases |ps| - a
  {
    if a >= |ps| then []
    else ps[a] + (if a != last then ", " else "\n") + PrintedPlayers(ps, a + 1, last)
  }

  /** The printed list is the players joined by ", " and ended by a newline. */
  lemma {:induction false} PrintedPlayersJoin(ps: seq<string>, a: nat)
    requires a < |ps|
    ensures PrintedPlayers(ps, a, |ps| - 1) == Join(ps[a..], ", ") + "\n"
    decreases |ps| - a
  {
    if a == |ps| - 1 {
      assert ps[a..] == [ps[a]];
    } else {
      PrintedPlayersJoin(ps, a + 1);
      assert ps[a..][1..] == ps[a + 1..];
      AppendAssoc(ps[a] + ", ", Join(ps[a + 1..], ", "), "\n");
    }
  }

  function NoPlayerMessage(): (m: string)
    ensures EndsWith(m, Join(Players, ", ") + "\n")
  {
    PrintedPlayersJoin(Players, 0);
    assert Players[0..] == Players;
    "No suitable video player was found...\n" + PrintedPlayers(Players, 0, |Players| - 1)
  }

  /** A directory entry that `populate_list` keeps: a regular file whose path
      ends in ".mp4" or ".mov", compared case-sensitively. */
  predicate IsVideo(fs: FS, entry: string) {
    IsFile(fs, entry) && (EndsWith(entry, ".mp4") || EndsWith(entry, ".mov"))
  }

  /** The kept entries, in listing order. */
  function Candidates(fs: FS, listing: seq<string>): (r: seq<string>)
    ensures |r| <= |listing|
    ensures forall x :: x in r <==> x in listing && IsVideo(fs, x)
    decreases |listing|
  {
    if listing == [] then []
    else if IsVideo(fs, listing[0]) then [listing[0]] + Candidates(fs, listing[1..])
    else Candidates(fs, listing[1..])
  }

  /** Filtering a listing in two parts filters each part and keeps the
      order. */
  lemma {:induction false} CandidatesAppend(fs: FS, a: seq<string>, b: seq<string>)
    ensures Candidates(fs, a + b) == Candidates(fs, a) + Candidates(fs, b)
    decreases |a|
  {
    if a == [] {
      assert a + b == b;
    } else {
      assert (a + b)[0] == a[0];
      assert (a + b)[1..] == a[1..] + b;
      CandidatesAppend(fs, a[1..], b);
    }
  }

  /** The loop of `populate_list`, appending each kept entry in turn. */
  method CollectVideos(fs: FS, listing: seq<string>) returns (memes: seq<string>)
    ensures memes == Candidates(fs, listing)
  {
    memes := [];
    var i := 0;
    while i < |listing|
      invariant 0 <= i <= |listing|
      invariant memes == Candidates(fs, listing[..i])
    {
      CandidatesAppend(fs, listing[..i], [listing[i]]);
      assert listing[..i + 1] == listing[..i] + [listing[i]];
      if IsVideo(fs, listing[i]) {
        memes := memes + [listing[i]];
      }
      i := i + 1;
    }
    assert listing[..i] == listing;
  }

  /** `get_last`: the first line of the cache file as text-mode reading
      gives it, or "" when there is no readable file. */
  function LastVideo(fs: FS): (last: string)
    ensures !IsFile(fs, CachePath) ==> last == []
    ensures IsFile(fs, CachePath) && Breakless(fs[CachePath].content) ==> last == fs[CachePath].content
    ensures IsFile(fs, CachePath) && !Breakless(fs[CachePath].content) ==>
      var c := fs[CachePath].content;
      && 1 <= |last| <= |c|
      && last == c[..|last| - 1] + "\n"
      && IsBreak(c[|last| - 1])
      && Breakless(c[..|last| - 1])
  {
    if IsFile(fs, CachePath) then ReadLine(fs[CachePath].content) else []
  }

  /** `cache_video`: an empty path is not recorded; a write error is
      reported and ignored, so the cache is as the failed write left it. */
  function CacheVideo(fs: FS, video: string, faults: Faults): (r: FS)
    ensures video != [] && Writable(fs, CachePath, faults) ==> r == fs[CachePath := File(video)]
    ensures video == [] || !Opens(fs, CachePath, faults) ==> r == fs
    ensures r == fs || (CachePath in r && r[CachePath].File? && r[CachePath].content <= video && r == fs[CachePath := r[CachePath]])
  {
    if video == [] || !Opens(fs, CachePath, faults) then fs else WriteText(fs, CachePath, video, faults)
  }

  datatype Outcome =
    | Exit(code: int, message: string)
    | Crashed
    | Played(player: string, video: string, fs: FS)

  /** One run of the program after option parsing: the player check, the
      cache read, the listing, the choice, the player launch and the cache
      write. `onPath` holds the programs that can be started; `index` is the
      value `randrange` draws. */
  function Run(dir: string, listing: seq<string>, fs: FS, onPath: set<string>, preset: string,
               replay: bool, index: nat, faults: Faults): (r: Outcome)
    requires index < |Candidates(fs, listing)| || Candidates(fs, listing) == []
    ensures r.Exit? <==> "bash" in onPath && !Exists(fs, dir)
    ensures r.Exit? ==> r.code == -1 && StartsWith(r.message, dir)
    // a crash: no bash, a plain file for the folder, nothing to play, or vlc not installed
    ensures r.Crashed? <==>
      || "bash" !in onPath
      || (Exists(fs, dir) && (IsFile(fs, dir) || Candidates(fs, listing) == [] || "vlc" !in onPath))
    ensures r.Played? ==>
      && r.player == "vlc" && "vlc" in onPath
      && (replay ==> r.video == LastVideo(fs))
      && (!replay ==> r.video == Candidates(fs, listing)[index] && r.video in listing && IsVideo(fs, r.video))
      && r.fs == CacheVideo(fs, r.video, faults)
  {
    CheckPicksFirst(onPath, preset);
    match CheckPlayers(onPath, preset)
    case CheckRaised => Crashed
    case NoPlayer(message) => Exit(-1, message)
    case Chosen(player) =>
      var last := LastVideo(fs);
      if !Exists(fs, dir) then Exit(-1, dir + " folder does not exist.\n")
      else if IsFile(fs, dir) then Crashed
      else
        var memes := Candidates(fs, listing);
        if memes == [] then Crashed
        else
          var video := if replay then last else memes[index];
          if player !in onPath then Crashed
          else Played(player, video, CacheVideo(fs, video, faults))
  }

  /** The player given with `-p` never changes the outcome. */
  lemma PresetIgnored(dir: string, listing: seq<string>, fs: FS, onPath: set<string>, p1: string, p2: string,
                      replay: bool, index: nat, faults: Faults)
    requires index < |Candidates(fs, listing)| || Candidates(fs, listing) == []
    ensures Run(dir, listing, fs, onPath, p1, replay, index, faults) == Run(dir, listing, fs, onPath, p2, replay, index, faults)
  {
    CheckPicksFirst(onPath, p1);
    CheckPicksFirst(onPath, p2);
  }

  /** When every kept entry is the same video, that video is played whatever
      index is drawn. */
  lemma OnlyVideoIsChosen(dir: string, listing: seq<string>, fs: FS, onPath: set<string>, preset: string,
                          index: nat, faults: Faults, v: string)
    requires IsVideo(fs, v) && v in listing
    requires forall x :: x in listing && IsVideo(fs, x) ==> x == v
    requires "bash" in onPath && "vlc" in onPath && IsDir(fs, dir)
    requires index < |Candidates(fs, listing)|
    ensures Run(dir, listing, fs, onPath, preset, false, index, faults).Played?
    ensures Run(dir, listing, fs, onPath, preset, false, index, faults).video == v
  {
    assert v in Candidates(fs, listing);
  }

  /** Changing paths that are not kept entries in either file system does
      not change the candidates. */
  lemma {:induction false} CandidatesFrame(fs: FS, fs2: FS, listing: seq<string>)
    requires forall x :: x in listing ==> (IsVideo(fs, x) <==> IsVideo(fs2, x))
    ensures Candidates(fs, listing) == Candidates(fs2, listing)
    decreases |listing|
  {
    if listing != [] {
      CandidatesFrame(fs, fs2, listing[1..]);
    }
  }

  lemma CacheIsNoVideo()
    ensures !EndsWith(CachePath, ".mp4") && !EndsWith(CachePath, ".mov")
  {
    assert CachePath[|CachePath| - 1] == 'e';
  }

  /** Recording a path in the cache keeps the candidates as they were. */
  lemma CachingKeepsCandidates(fs: FS, listing: seq<string>, v: string)
    ensures Candidates(fs[CachePath := File(v)], listing) == Candidates(fs, listing)
  {
    var fs2 := fs[CachePath := File(v)];
    CacheIsNoVideo();
    forall x | x in listing ensures IsVideo(fs, x) <==> IsVideo(fs2, x) {
      if x == CachePath {
        assert !IsVideo(fs, x) && !IsVideo(fs2, x);
      }
    }
    CandidatesFrame(fs, fs2, listing);
  }

  /** A cached path without line breaks reads back whole, and caching it
      again changes nothing. */
  lemma CacheReadsBack(fs: FS, v: string)
    requires Breakless(v)
    ensures LastVideo(fs[CachePath := File(v)]) == v
    ensures fs[CachePath := File(v)][CachePath := File(v)] == fs[CachePath := File(v)]
  {
  }

  /** A normal play plays a non-empty path and, with the cache writable,
      records it. */
  lemma NormalPlayCaches(dir: string, listing: seq<string>, fs: FS, onPath: set<string>, preset: string,
                         index: nat, faults: Faults)
    requires index < |Candidates(fs, listing)|
    requires Run(dir, listing, fs, onPath, preset, false, index, faults).Played?
    requires Writable(fs, CachePath, faults)
    ensures
      var first := Run(dir, listing, fs, onPath, preset, false, index, faults);
      first.video != [] && first.fs == fs[CachePath := File(first.video)]
  {
    var v := Run(dir, listing, fs, onPath, preset, false, index, faults).video;
    assert IsVideo(fs, v);
  }

  /** Replay after a normal play: with the cache writable and the played
      path free of line breaks, a replay run plays the same video again and
      leaves the file system as the first run left it. */
  lemma ReplayRepeatsLastPlay(dir: string, listing: seq<string>, fs: FS, onPath: set<string>, preset: string,
                              index: nat, faults: Faults)
    requires index < |Candidates(fs, listing)|
    requires Run(dir, listing, fs, onPath, preset, false, index, faults).Played?
    requires Breakless(Run(dir, listing, fs, onPath, preset, false, index, faults).video)
    requires Writable(fs, CachePath, faults)
    ensures
      var first := Run(dir, listing, fs, onPath, preset, false, index, faults);
      && index < |Candidates(first.fs, listing)|
      && var again := Run(dir, listing, first.fs, onPath, preset, true, index, faults);
      && again.Played?
      && again.video == first.video
      && again.fs == first.fs
  {
    var first := Run(dir, listing, fs, onPath, preset, false, index, faults);
    NormalPlayCaches(dir, listing, fs, onPath, preset, index, faults);
    CachingKeepsCandidates(fs, listing, first.video);
    CacheReadsBack(fs, first.video);
  }
}
