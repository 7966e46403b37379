# py_scripts core in Dafny

This project models the core of RileyMeta's `py_scripts`, a handful of small
command-line tools:

- **FileMaker** (`backend/backend/filemaker.py`) is the write pipeline that
  `htouch`, `pytouch` and `makefile` share. It cleans the filename, with an
  overwrite prompt in front of existing files. It then writes the template
  and records a success or a failure. At the end it prints a summary.
- **htouch**, **pytouch** and **makefile** render a template per argument.
  Each tool also decides which path it hands to the pipeline.
- **cproject** plans a C project skeleton per name. The plan is an ordered
  list of actions: remove, mkdir, README, main.c and the Makefile step. It
  also keeps a list of declined projects.
- **random_meme** picks a video player and filters a directory listing down
  to videos. It then plays either a random one or the one in the replay
  cache, and records what it played.

The file system is a map from path strings to `File(content) | Dir`
(`FileSystem.FS`). The process-wide `Config.SUCCESSES` and `Config.FAILURES`
lists become a `Backend.Report` threaded through the calls. Everything else
the tools read from outside is an input:

- the operator's answers, as a sequence of lines;
- which writes fail, and whether at open or at close (`faults`);
- which programs can be started from the PATH (`onPath`), for the player
  lookups and the player launch;
- the directory listing;
- the random index;
- today's date.

Modules, one file each:

- `Seqs`: small facts about concatenation.
- `Strings`: Python's `endswith`, `replace(p, "")`, `split`, `"/"`-segment,
  ASCII `lower`/`upper`, decimal rendering and line handling.
- `FileSystem`: the abstract file system and the write faults.
- `Prompt`: the yes/no prompts.
- `Backend`: `FileMaker`.
- `Htouch`, `Pytouch`, `Makefile`, `CProject`, `RandomMeme`: the tools.

The model follows what the code does, also where that departs from what it
evidently aims for:

- **Extension stripping.** A name that ends with the extension loses every
  occurrence of it. Python's `str.replace` removes all of them, not only the
  trailing one. A suffix-only strip would avoid this; the model keeps the
  code's replace-all (`Strings.StripExtension`). One consequence is that the existence check
  looks at the raw name while the write goes to the stripped one. So
  `pytouch my.py.x.py` replaces an existing `my.x.py` without asking
  (`Backend.OverwriteWithoutPrompt`).
- **Directory target.** A directory given as the target is refused, but
  nothing is added to the failure list (filemaker.py:66-68).
- **A write that fails after the open.** `open(p, 'w')` has already
  truncated or created the file, which then keeps only a prefix of the
  template. `create_file` records the success inside the `with` block,
  after `f.write`. An error raised by `f.write` (text the encoding cannot
  represent, such as an undecodable argument byte) therefore records a
  failure only. An error raised when the file is closed (a full disk) adds
  the same path to both lists (`Backend.CreateFile`).
- **Unrecognised answer in FileMaker's prompt.** The process ends: the
  message names the undefined `repsonse`, and end of input raises too. The
  model has no re-prompt here (`Prompt.AskOnce`).
- **cproject's prompt** does re-ask. After an unrecognised answer, `getpass`
  reads an acknowledgement line whose content is ignored. The decisions are
  therefore read from the even positions of the answer stream
  (`Prompt.AskUntilRecognised`). Running out of input ends the process.
- **pytouch's target** is the original argument, directory part included.
  The stub's title is only its last segment.
- **The player lookup.** `program_exists(p, "command")` runs
  `bash -c command -v p`. Bash takes only the word `command` as the script
  and binds `-v` and `p` to `$0` and `$1`, so the lookup succeeds for every
  name whenever bash can be started. `check_players` therefore always picks
  `vlc` and replaces a `-p` player; the `which` fallback and the no-player
  exit are never reached (`RandomMeme.CheckPicksFirst`,
  `RandomMeme.PresetIgnored`). A missing vlc shows up only when `Popen`
  raises, before the cache is written. Without bash the first lookup
  raises.
- **Text-mode reads.** `get_last` opens the cache in text mode, so `\r\n`
  and `\r` both read as `\n` (`Strings.ReadLine`).
- **The replay cache** is written after every play with a non-empty path,
  in replay mode too.
- **Empty candidate list.** The random index is drawn before the mode is
  looked at, so an empty candidate list ends the process even in replay
  mode. A replay without a cache file plays `""`.
- **cproject's Makefile step.** It runs `makefile <project>` in cproject's
  working directory, so it writes `./Makefile`, not `<project>/Makefile`.
  Once a Makefile child has written `./Makefile`, the file exists, and the child's overwrite
  prompt reads a line from the terminal cproject reads from
  (`CProject.MakefileChild`). An answer meant for cproject's own next
  prompt can be taken by it (`CProject.SharedTerminalScenario`).

## Model

| member | source | states |
|---|---|---|
| Prompt.ClassifyYes | backend/backend/filemaker.py:39-42 | After lower-casing, an answer means yes exactly when it is a case variant of `y` or `yes`. |
| Prompt.ClassifyNo | backend/backend/filemaker.py:39-44 | An answer means no exactly when it is a case variant of `n` or `no`. |
| Prompt.AskOnce | backend/backend/filemaker.py:36-48 | FileMaker's prompt decides on the first answer only when it is recognised. It then consumes exactly that answer, and says yes iff the answer is a yes spelling. An unrecognised answer or end of input ends the process. |
| Prompt.AskUntilRecognised | cproject.py:66-77 | cproject's prompt aborts iff no answer at an even position is recognised (each unrecognised answer is followed by an acknowledgement line). Otherwise the decision comes from the first recognised answer at an even position, with yes iff it is a yes spelling, and the rest of the stream is exactly what follows that answer. |
| Strings.StripExtension | backend/backend/filemaker.py:75-76 | A name not ending with the extension, or any name with the empty extension, comes back unchanged. A name ending with it gets shorter by at least the extension's length. |
| Strings.StripExtensionPieces | backend/backend/filemaker.py:75-76 | Stripping removes every occurrence: the result is the concatenation of the pieces between the occurrences a left-to-right scan finds. Those pieces joined with the extension give the name back, and none of them contains the extension. |
| Strings.RemoveAllKeepsPieces | backend/backend/filemaker.py:76 | `s.replace(p, "")` equals `"".join(s.split(p))`, with the split pieces free of `p` and rejoining to `s`. |
| Strings.RemoveAllAppended | backend/backend/filemaker.py:75-76 | For an extension whose first character does not recur in it (".h", ".py"), removing every occurrence from `name + ext` equals removing them from `name`. |
| Strings.StripSingleOccurrence | backend/backend/filemaker.py:75-76 | A name holding no extension, with the extension appended, strips back to the name. |
| Strings.LastSegment | pytouch.py:90-92 | The result has no `/`, is a suffix of the argument, and is either the whole argument or what follows its last `/`. An argument without `/` is returned as it is. |
| Strings.LastSegmentAfterSlash | pytouch.py:90-92 | The last segment of `dir + "/" + base` is the last segment of `base`: the directory part never reaches the name. |
| Strings.Upper | htouch.py:83 | Upper-casing keeps the length and maps every character on its own (ASCII letters only). |
| Strings.Lower | backend/backend/filemaker.py:39 | Lower-casing keeps the length and maps every character on its own. |
| Strings.NatToStringRoundTrip | pytouch.py:82 | The decimal rendering of a number reads back as that number. |
| Strings.Pad2 | pytouch.py:83 | A two-digit `%d`/`%m` field is two digits reading back as the number. |
| Strings.ReadLine | random_meme.py:119-121 | `readline` in text mode: content with no `\n` or `\r` comes back whole. Otherwise the result is the text before the first line break, followed by one `\n`; the break is `\n`, `\r`, or the `\r` of `\r\n`. |
| Backend.CleanFilename | backend/backend/filemaker.py:53-78 | A directory is skipped with the state untouched. Cleaning proceeds iff the name is not a directory and either neither the raw name nor name+extension exists or the first answer is yes. A name that proceeds is the stripped name. |
| Backend.CreateFile | backend/backend/filemaker.py:80-104 | A directory target changes nothing and records nothing. A crash happens iff the prompt is shown and gets no recognised answer. One answer is consumed iff the prompt is shown. A refusal records the raw filename once and leaves files alone. A permitted, writable target holds exactly the template and is added to the successes. A target that cannot be opened is added to the failures, and no file changes. When `f.write` raises, the target is added to the failures only. When the close raises, it is added to both lists. In either case the file keeps a prefix of the template and no other path changes. The lists only grow, each by at most one entry, and no file changes unless the write was permitted. |
| FileSystem.WriteText | backend/backend/filemaker.py:98-101 | After `open(p, 'w')` succeeds, `p` is a file holding a prefix of the text and no other path changes. Without a fault it holds the whole text. The file is truncated by the open, so a raise at `f.write` or at close leaves only a prefix. |
| Backend.WriteRaisesExample | backend/backend/filemaker.py:94-104 | Example: `htouch x` on a tree without `x.h`, with `f.write` raising. `x.h` is left empty, and it is recorded as a failure only, with no success. |
| Backend.CheckCoversTarget | backend/backend/filemaker.py:63-76 | When the extension occurs only at the end, the written path is one of the two paths the existence check looked at, so no existing file is replaced unasked. |
| Backend.OverwriteWithoutPrompt | backend/backend/filemaker.py:63-101 | Counterexample: with `my.x.py` present, `my.py.x.py` triggers no prompt, yet its template replaces `my.x.py`. |
| Backend.RunJobs | htouch.py:79-89 | The `for arg in args: … create_file(…)` loop that htouch, pytouch (pytouch.py:85-119) and makefile (makefile.py:77-105) share. The answers are read in order, so what is left is a suffix of the input. |
| Backend.RunJobsSuccessesAreTargets | backend/backend/filemaker.py:94-101 | Every success a run adds is the path that some job writes: the stripped name plus the extension. |
| Backend.RunJobsAppendOnly | backend/backend/filemaker.py:90-104 | Over a whole run both lists only grow, each by at most one entry per `create_file` call. |
| Backend.RunJobsFreshReport | backend/backend/filemaker.py:94-101 | When no job meets an existing or earlier-written path, no prompt is shown, nothing fails, and the successes are the targets in argument order. |
| Backend.RunJobsFreshFiles | backend/backend/filemaker.py:94-101 | In such a run every target holds its own job's template and no other path changes. |
| Backend.Enumerate | backend/backend/filemaker.py:118-119 | Line i is `"  " + (first+i) + ". " + path_i`, for every path in order. |
| Backend.Finish | backend/backend/filemaker.py:106-126 | One count line. Then, only when verbose, the n successes numbered from 1. Then, only when there are m > 0 failures, a header with m followed by the m failures numbered from 1. The number of lines follows from these rules. |
| Backend.FinishCountsReadBack | backend/backend/filemaker.py:113-115 | The number printed in the first line reads back as the number of successes. |
| Backend.RunTool | htouch.py:72-91 | No arguments means no run. Otherwise each list has at most one entry per argument (a path lost at close is on both), the successes are paths the jobs write, and the summary is `finish` of the final report. |
| Htouch.Htouch | htouch.py:72-91 | With no arguments there is no run. A finished run reports as successes only the `.h` paths of its stripped arguments. |
| Htouch.Guard | htouch.py:80-83 | The guard token has the stem's length, the same `/` positions (no basename is taken), and no lower-case letter. |
| Htouch.HeaderBody | htouch.py:84-88 | The header is the four lines `#ifndef X_H`, `#define X_H`, an empty line and `#endif`, each ended by a newline. |
| Htouch.HeaderBodyLines | htouch.py:84-88 | Split into lines, the header is `#ifndef X_H`, `#define X_H`, an empty line and `#endif`. |
| Htouch.Jobs | htouch.py:79-89 | One job per argument, in order, each with its own guard and the stripped argument as filename. |
| Htouch.SameTargetWithOrWithoutExtension | htouch.py:76-89 | For a name without ".h", both `x` and `x.h` are written to `x.h` under the same guard. |
| Htouch.FooScenario | htouch.py:76-91 | `htouch foo` with no foo or foo.h present creates exactly `foo.h` holding the FOO_H guard and reports one success. |
| Pytouch.DateString | pytouch.py:83 | `%d/%m/%Y` renders ten characters with `/` at positions 2 and 5 and digits elsewhere. Day, month and year read back from their places. |
| Pytouch.DisplayName | pytouch.py:86-92 | The name shown in the stub contains no `/`. |
| Pytouch.StubBody | pytouch.py:85-118 | The stub for an argument begins with the coding line, the docstring opening and the display name with its underline, and ends by closing the docstring. |
| Pytouch.Pytouch | pytouch.py:73-121 | With no arguments there is no run. A finished run reports as successes only arguments with `.py` stripped and then appended again. |
| Pytouch.StubOpening | pytouch.py:94 | The stub starts with the coding line. |
| Pytouch.StubTitle | pytouch.py:94-97 | The stub begins with the coding line, the docstring's opening `"""`, the display name on a line of its own, and the `==============` underline, in that order. This holds also when the name is empty. |
| Pytouch.StubDates | pytouch.py:104-105 | The Created and the Last Modified lines carry the same date string. |
| Pytouch.StubRepositoryAndUsage | pytouch.py:108-114 | The repository URL ends with the name, and the usage line is the name followed by ` [option] FILE...`. |
| Pytouch.StubCopyrightAndEnd | pytouch.py:116-118 | The copyright line carries the year, and the stub ends by closing the docstring. |
| Pytouch.StubBodyLines | pytouch.py:80-118 | For an argument and a date: the coding line followed by the docstring opening, the display name and its underline, both date lines with today's date, the repository and usage lines with the name, and a copyright line whose digits read back as today's year. |
| Pytouch.Jobs | pytouch.py:85-119 | One job per argument, in order, each handing over the argument unchanged. |
| Pytouch.TargetKeepsDirectory | pytouch.py:85-119 | For `dir/base` without ".py", the file is written at `dir/base.py`, under its directory, while the stub shows only the last segment of `base`. |
| Makefile.MakefileBody | makefile.py:77-104 | The text starts with `TARGET = <last segment of the argument>` and ends with the run rule's command line `\t./$(TARGET)`. |
| Makefile.Make | makefile.py:72-107 | With no arguments there is no run. A finished run reports only `Makefile` as a success, however many arguments it had. |
| Makefile.OpensWithTarget | makefile.py:78-83 | The text starts with the line `TARGET = <last segment of the argument>`. |
| Makefile.MakefileBodyLines | makefile.py:83-104 | For an argument without newlines, the lines are the TARGET line followed by the lines of the fixed template. |
| Makefile.FixedLinesPresent | makefile.py:84-104 | Every fixed template line is a whole line of the text, whatever the argument. |
| Makefile.OnlyTargetVaries | makefile.py:78-104 | The texts for any two arguments are equal after their first line. |
| Makefile.Jobs | makefile.py:76-105 | One job per argument, each writing the literal path `Makefile`. |
| Makefile.TargetIsMakefile | makefile.py:76-105 | With the empty extension, `Makefile` is written as `Makefile`, and the existence check fires iff a path `Makefile` exists. When `Makefile` is a directory, `create_file("Makefile")` skips it before any prompt and records nothing. |
| Makefile.RepeatedMakefile | makefile.py:77-105 | With k arguments and only yes answers, Makefile is targeted k times. One answer is consumed per write, except the first when Makefile was absent. The successes gain k copies of `Makefile`, the failures nothing, and the last argument's text is what remains. |
| CProject.ReadmeContent | cproject.py:100-105 | The README reads `# ` followed by a `/`-free suffix of the project name, with no trailing newline. |
| CProject.RemoveTree | cproject.py:82-84 | `rm -rf` removes the path and everything under it, and keeps every other entry. |
| CProject.MakeDir | cproject.py:86-88 | `mkdir` adds a missing path as a directory and leaves an existing entry, and every other path, as it was. |
| CProject.MakeFolders | cproject.py:49-55 | The keys after the folder steps are the old keys plus the four folders, old entries are kept, and a missing project becomes a directory. |
| CProject.LayoutOrder | cproject.py:49-59 | The actions for a project are, in order: mkdir project, /lib, /include, /src, then the README with its content, then `src/main.c`, then the Makefile step. |
| CProject.LayoutHasOneMakefile | cproject.py:57-59 | A project's layout holds exactly one Makefile step. |
| CProject.Build | cproject.py:49-110 | The build completes iff the project path is no plain file and the README can be written; otherwise the process exits with status 1 after the folder steps. A completed build leaves the project a directory with the README content, and its Makefile step reads one answer iff `./Makefile` is an existing file. |
| CProject.MakefileChild | cproject.py:90-92 | `makefile <project>` shares cproject's terminal. It reads one answer iff `./Makefile` is an existing file, and changes no other path. It skips a directory named Makefile. A missing Makefile, or one the operator agreed to replace, gets this project's template when the write succeeds. Any other answer keeps the old Makefile. |
| CProject.BuildKeepsOthers | cproject.py:49-59 | A build keeps every existing path other than the README and `./Makefile` as it was. |
| CProject.BuildWritesMakefile | cproject.py:57-59 | A missing `./Makefile`, or one the operator agreed to replace, ends up holding the project's template, unless the project itself is named Makefile or the write fails. |
| CProject.BuiltKeys | cproject.py:49-59 | A build adds no path besides the folders, the README and `./Makefile`. `ctouch` is not part of this model, so main.c stays an action and is not in the file system. |
| CProject.ProjectStep | cproject.py:41-47 | Only an existing directory triggers the prompt. An abort crashes, a no declines with the answers left over, a yes removes the directory and builds after a `Remove`, and a missing project builds directly. |
| CProject.CreateProjects | cproject.py:37-59 | The failures are projects taken in argument order (a subsequence of the arguments), at most one per project, and an exit has status 1. |
| CProject.NoRefusalNoDecline | cproject.py:42-47 | A project is declined only on a no answer: with none in the input, the step never declines. |
| CProject.NoRefusalNoFailures | cproject.py:37-47 | With no no answer anywhere in the input, no project is declined and the failure list stays empty, whatever the Makefile children read. |
| CProject.EveryProjectAccounted | cproject.py:37-59 | A completed run accounts for every project: declined ones plus Makefile steps equal the number of projects. |
| CProject.DeclinedIsSkipped | cproject.py:42-47 | A declined project is added to the failures, adds no action, and the run continues with the next project and the remaining answers. |
| CProject.StopIsFinal | cproject.py:108-110 | Once a run has exited or crashed, later projects change nothing. |
| CProject.PlainFileExits | cproject.py:42-110 | A plain file at the project path raises no prompt. The run exits with status 1 after the four mkdir steps. |
| CProject.OverwriteStartsClean | cproject.py:42-44 | After a confirmed overwrite the first action is `Remove`, and under the project only the new folders and the README remain. `ctouch` is not part of this model, so main.c is not among them; `./Makefile` is not under the project. |
| CProject.RebuildAfterRemoval | cproject.py:42-57 | After `rm -rf`, rebuilding the project stops only when the README cannot be written. |
| CProject.FreshProject | cproject.py:37-59 | A project whose path and README are absent is built in full without cproject's own prompt. |
| CProject.DemoScenario | cproject.py:37-59 | `cproject demo` on a tree without demo completes with the seven actions for `demo`, `# demo` in `demo/README.md`. |
| CProject.SharedTerminalScenario | cproject.py:37-92 | `cproject b c` with `./Makefile` and directory c present, answering n then y: the child of b reads the n, the y replaces c, and the run completes with no failures. |
| RandomMeme.ProgramExists | random_meme.py:49-65 | The "command" lookup succeeds whenever bash can be started, whatever the program. The "which" lookup succeeds iff the program is on the PATH. A lookup program that cannot be started raises. |
| RandomMeme.LookupAcceptsEveryPlayer | random_meme.py:49-69 | With bash, every name passes the test of `check_players`, installed or not; without bash the test raises. |
| RandomMeme.FindPlayer | random_meme.py:68-71 | For any test: the result is the first player that passes, with all earlier ones failing. Not found iff every player fails. A raise happens at the first lookup that cannot start, all earlier ones failing. |
| RandomMeme.CheckPlayers | random_meme.py:67-80 | The no-player exit happens only without a `-p` player, and prints the player list. A chosen player is non-empty and is either a listed player or the `-p` one. |
| RandomMeme.CheckPicksFirst | random_meme.py:49-80 | With bash, vlc is always chosen, whatever is installed and whatever `-p` gave; without bash the check raises. |
| RandomMeme.PrintedPlayersJoin | random_meme.py:75-78 | The enumerate loop prints the players joined by `", "` and ended by a newline. |
| RandomMeme.NoPlayerMessage | random_meme.py:73-80 | The message ends with the joined player list and a newline. |
| RandomMeme.Candidates | random_meme.py:98-101 | An entry is kept iff it is a regular file ending in `.mp4` or `.mov`, case-sensitively. |
| RandomMeme.CandidatesAppend | random_meme.py:98-101 | Filtering distributes over concatenation, so listing order is kept. |
| RandomMeme.CollectVideos | random_meme.py:89-101 | The appending loop builds exactly the filtered list. |
| RandomMeme.LastVideo | random_meme.py:116-124 | The replay path is `""` without a cache file. It is the whole content when that has no line break, and otherwise the text before the first `\n`, `\r` or `\r\n`, followed by `\n`. |
| RandomMeme.CacheVideo | random_meme.py:103-114 | A non-empty path whose write succeeds replaces the cache. An empty path, or a cache that cannot be opened, changes nothing. A write lost at close leaves a prefix of the path in the cache, and no other path changes. |
| RandomMeme.Run | random_meme.py:129-148 | Exit -1 iff bash runs and the directory is missing, with a message naming it. A crash happens iff bash cannot be started, or the directory is a file, holds no video, or vlc cannot be launched. A play uses vlc, the cached path in replay mode or the indexed candidate otherwise, and leaves the cache as `cache_video` does. |
| RandomMeme.PresetIgnored | random_meme.py:67-71 | The player given with `-p` never changes the outcome of a run. |
| RandomMeme.OnlyVideoIsChosen | random_meme.py:130-134 | When the directory holds a single video, that video is played whatever index is drawn. |
| RandomMeme.CachingKeepsCandidates | random_meme.py:103-111 | Writing the cache never changes the candidate list. |
| RandomMeme.ReplayRepeatsLastPlay | random_meme.py:116-140 | A replay right after a normal play, with the cache writable and the path free of line breaks, plays the same video and leaves the file system as it was. |

## Left out

- Option parsing, the help, version and usage texts, and the exit codes of flags: glue without logic.
- cproject's `-v` flag (cproject.py:153): it refers to an undefined `Config`.
- Console output other than `finish`'s summary and random_meme's no-player message: error prints and "readme: 1 file(s) created." carry no state.
- `Path` normalisation, `expanduser` and `resolve`: paths are raw strings compared as they are. The resolved path in "Video Played" is not modelled. The most visible consequence is `htouch .h`. htouch strips the argument to `""` before calling `create_file`, and `Path("")` is `.`, a directory, so the source skips it (filemaker.py:63-68). The model treats `""` as an ordinary path and writes `.h`, so `Backend.CleanFilename`'s directory case does not cover this input. `pytouch .py` is not affected: it hands over the raw `.py`, which the source writes as `.py`, as the model does.
- Effects of the subprocesses beyond what later steps observe. For `mkdir -pv`, only the path itself is modelled, not its missing parents, and a plain file at one of the sub-folder paths is left as it is without further consequence. `ctouch` is not part of this model: main.c, and any prompt `ctouch` would show, stay an abstract action. The player lookups and the player launch depend only on which programs can be started (`onPath`); what the player does is not modelled.
- Randomness and the clock: `randrange`'s result and `date.today()` are parameters.
- Ctrl-C at either prompt: signals are not modelled.
- Text decoding: files hold characters; a cache file that is not valid UTF-8, which `get_last` reports and ignores, is not modelled.
- Permission errors other than `FileNotFoundError` in `get_last`: the cache read is either a file's first line or `""`.
- `iterdir`'s order and contents: the listing is an input sequence of path strings.
- Unicode case mapping: `Lower` and `Upper` change ASCII letters only.
- CProject.CreateProjects: `ctouch` and `makefile` are taken to be installed. If either cannot be started, `subprocess.run` raises `FileNotFoundError` after the first README, which nothing catches (cproject.py:90-96). The model has no outcome for that.
- Python version: `check_players` prints each player with an f-string that nests `"` quotes (random_meme.py:78). Only Python 3.12 or newer parses that, although random_meme.py:19 names 3.10. The model describes a 3.12+ interpreter.
- Pytouch.DateString: only valid dates with four-digit years are rendered.
- Makefile.MakefileBodyLines: stated only for arguments without newlines. `Makefile.OpensWithTarget` and `Makefile.FixedLinesPresent` cover every argument.
- RandomMeme.Run: the caller must give an index inside the candidate list when the list is non-empty, because `randrange` always does.
