# anthrex: a verified model of its small cores

This project models the self-contained cores of anthrex in Dafny and proves what they
are for. Each part follows the form of the code: objects that change in place are classes
whose methods are proved against a specification function, loops are loops with
invariants, pure code is functions; runs are sequences of calls or events.

- **The rotating log** (`LogModel`, `RotatingLog`, `LogFaults`, `LogSurvival`,
  `LogHistory`). A small file system of names, inodes and contents in which every remove,
  rename and open may fail. Under every fault pattern bytes move only by whole appended
  writes and `len` is true. Two conditions are exact, for every mix of failures: which
  calls separate the writer from the current file, and which calls take a file's last
  name, for the file it writes to and for every other. Without faults the disk is the
  newest `keep` generations of a log that never deletes anything.
- **The filter run** (`Lines`, `CappedLog`, `FilterRun`). The line collector and the
  capped log are functions of the stream alone, however it is cut into chunks and
  wherever reads are interrupted or log writes fail.
- **The locks and `daemon stop`** (`LockFile`, `StopProtocol`, `StopHistory`). The retry
  loops with a deadline, and the two-lock protocol as interleaved steps of any number of
  daemons, claimers and stops, with what a report means told by the events of the run.
- **The calendar and the UTC stamp** (`Calendar`, `UtcStamp`). `civil_from_days` on every
  integer, its inverse, its successor law, and the stamp's round trip and text order.
- **Word wrap** (`Wrap`, `WrapLaws`): conservation, width, where words are split and cut,
  full lines, and the least number of lines.
- **FNV-1a names** (`Fnv`, `WorktreeNames`): every step is invertible, so inputs one byte
  apart never collide; which other inputs can share a name.
- **The terminal screen** of the smoke test (`ScreenModel`, `ScreenLaws`, `TerminalScreen`):
  the grid and the cursor stay in bounds, every token has its exact effect, and a stream
  may be cut between any two tokens.
- **Reading `config.toml`** (`ConfigModel`, `ConfigLaws`, `ConfigReader`,
  `ConfigFields`, `ConfigProblems`, `ConfigNames`): which values every key may have, that
  every key is taken or gets its problem, exactly once, that no key disturbs another, and
  which keys can be printed under one name.
- **Project selection** of `anthrex tree` (`ProjectSelection`).

Three comments in the source promise more than the code does; the model follows the code:

- `crates/common/src/logfile.rs:165-170` says that bytes written after a rename whose
  create failed are "not lost". The open file keeps a name over a run if and only if no
  call loses it (`LogFaults.NeverLostIff`), and a call loses it exactly when the file is
  in the oldest kept slot, that slot is removed or renamed onto, and no other file gets
  opened (`LogFaults.Loses`). While nothing can be created, that is the `keep`-th such
  call in a row (`LogFaults.NotLostIffFewerThanKeep`); after `keep`-1 of them another
  failure can do the same (`LogFaults.MixedFaultsLose`). A lost file is lost for good
  (`LogFaults.LostForGood`). Failing rotations also reach the files that were rotated
  before: a rename of the current file that keeps failing empties every other slot in
  `keep`-1 calls without beginning a file (`LogSurvival.StuckRenameDrains`).
- `crates/common/src/lockfile.rs:194` reads a refused `hold_until_exit` as "a daemon still
  exiting". It can also be a stop's own probe (`StopProtocol.RefusedByAProbe`), after
  which the refused daemon may be reported stopped while it lives
  (`StopProtocol.StoppedButAlive`). `StopProtocol.RefusedMeans` gives the exact meaning.
- `crates/common/src/lockfile.rs:220` says that a missing lock file counts as released.
  The code counts every failing open as released. What a successful stop then means
  depends on each wait separately (`StopProtocol.StopMeansExited`), and each of the two
  is needed (`StopProtocol.ExitOpenErrorIsUnsound`, `StopProtocol.LifeOpenErrorIsUnsound`).

## Model

| member | source | states |
|---|---|---|
| RotatingLog.RotatingFile.constructor | crates/common/src/logfile.rs:51-65 | opening finds or creates the current file, takes its length and starts unlatched |
| RotatingLog.RotatingFile.Rotate | crates/common/src/logfile.rs:128-150 | the descending rename loop under any faults is the recursive shift, and the step that failed is reported |
| RotatingLog.RotatingFile.Recover | crates/common/src/logfile.rs:186-210 | the latch, the reopen and the re-derived length |
| RotatingLog.RotatingFile.RotateIfNeeded | crates/common/src/logfile.rs:84-104 | a failed rotation recovers and never fails the call |
| RotatingLog.RotatingFile.RotateIfOverCap | crates/common/src/logfile.rs:76-78 | it is the same step with no incoming bytes |
| RotatingLog.RotatingFile.Write | crates/common/src/logfile.rs:214-222 | rotates or recovers first, then appends the whole buffer to the open file and returns its length |
| LogModel.ShiftKeepsInodes | crates/common/src/logfile.rs:132-137 | wherever the shift stops, no contents change and no file gains a name it did not have |
| LogModel.MoveAsideKeepsInodes | crates/common/src/logfile.rs:129-143 | the same for everything `rotate` does before its open |
| LogFaults.CapCheckIsEmptyWrite | crates/common/src/logfile.rs:76-78 | `rotate_if_over_cap` equals a write of no bytes, so theorems on runs of writes cover it |
| LogFaults.OpenIsValid | crates/common/src/logfile.rs:51-65 | opening a directory without hard links establishes the run invariant at the current file and leaves other names alone |
| LogFaults.AppendsInPlace | crates/common/src/logfile.rs:85-89 | an empty file takes any write, and any file one within the limit, by appending alone: no name, no other file and no diagnostic changes, whatever would fail |
| LogFaults.TriesToRotate | crates/common/src/logfile.rs:89-102 | any other write begins a file with exactly its bytes or leaves the failure latched |
| LogFaults.RunKeepsValid | crates/common/src/logfile.rs:84-104 | after every run under every fault pattern `len` is the open file's length and no two names link one file |
| LogFaults.RunAppendsWholeWrites | crates/common/src/logfile.rs:214-222 | over every faulty run each file is its initial contents followed by exactly the buffers that landed in it, in order and whole |
| LogFaults.StepCurrent | crates/common/src/logfile.rs:128-150 | one call separates the writer from the current file if and only if it frees the current name and both opens fail |
| LogFaults.CurrentStaysOpen | crates/common/src/logfile.rs:156-172 | over every run the open file is always the current one if and only if no call does that; so no failure up to the current-to-`.1` rename separates them |
| LogFaults.StepDriftsAtMostOne | crates/common/src/logfile.rs:128-150 | whatever fails, a call moves the open file by at most one slot, and it is lost only from the oldest kept one |
| LogFaults.LinkedBelowKeep | crates/common/src/logfile.rs:165-170 | fewer than `keep` calls after being current, the open file still has a kept name, under every fault pattern |
| LogFaults.MoveAsideShifts | crates/common/src/logfile.rs:114-138 | when removals and renames succeed every kept slot takes exactly its predecessor's file, missing slots included |
| LogFaults.StepKeepsOrLoses | crates/common/src/logfile.rs:128-150 | one call under any faults: the open file keeps a kept name if and only if the call does not have it in the oldest slot, take that slot's file by removal or rename, and fail to open another; a lost file has no name at all |
| LogFaults.NeverLostIff | crates/common/src/logfile.rs:156-172 | over every run and every mix of faults the open file always has a kept name if and only if no call loses it in that way |
| LogFaults.NotLostIffFewerThanKeep | crates/common/src/logfile.rs:165-170 | the case the comment describes: while files can be moved but none created, the open file has a name if and only if fewer than `keep` such calls were made, and it is the same file all along |
| LogFaults.MixedFaultsLose | crates/common/src/logfile.rs:131-138 | after `keep`-1 such calls, any call that removes the oldest file and cannot reopen takes its last name, whatever its renames do |
| LogFaults.LostAfterTwoOfThree | crates/common/src/logfile.rs:165-170 | the input for `keep` = 3: two such calls, then one whose renames fail, and the file has no name |
| LogFaults.LostForGood | crates/common/src/logfile.rs:165-170 | a file without a name never gets one again, in any run |
| LogFaults.Heals | crates/common/src/logfile.rs:202-209 | a call that rotates, or whose recovery can open, ends with the writer at the current file, from any state |
| LogFaults.NoNameBeyondKeep | crates/common/src/logfile.rs:48-50 | over every faulty run no name past `.keep-1` is created |
| LogFaults.OneMessagePerEpisode | crates/common/src/logfile.rs:174-201 | over every run the number of diagnostics is the number of failed rotations that are first or directly follow a successful one |
| LogSurvival.StaysOrMovesUp | crates/common/src/logfile.rs:128-150 | whatever fails, any file below the oldest slot stays in its slot or moves up by one |
| LogSurvival.OldestStaysOrGoes | crates/common/src/logfile.rs:128-150 | the oldest file keeps its slot unless a rotation removes it or renames onto it, and then has no name |
| LogSurvival.StepKeepsFileIff | crates/common/src/logfile.rs:128-150 | one call under any faults: a kept file, open or not, stays kept if and only if the call does not drop it from the oldest slot |
| LogSurvival.SurvivesFor | crates/common/src/logfile.rs:48-50 | under every fault pattern a file in slot q is still kept after as many calls as there are slots above q |
| LogSurvival.FileSurvivesIff | crates/common/src/logfile.rs:128-150 | over every run and every mix of faults a file still has a kept name at the end if and only if no call dropped it |
| LogSurvival.StuckRenameDrains | crates/common/src/logfile.rs:129-138 | while only the current file cannot be renamed, each call moves every other file up one slot, the slots empty from below, no file begins, and the current one grows |
| LogSurvival.HistoryGoneAfterTwo | crates/common/src/logfile.rs:129-138 | the input for `keep` = 3: two such calls leave only the current file |
| LogHistory.OpenRefines | crates/common/src/logfile.rs:51-65 | the files found at open are the first generations of the unbounded log |
| LogHistory.StepRotates | crates/common/src/logfile.rs:128-150 | a fault-free rotation shifts every slot by one and begins a new file with exactly the triggering write |
| LogHistory.BeginsFileIff | crates/common/src/logfile.rs:85-89 | a fault-free write begins a file if and only if the current one is not empty and cannot take it within the limit |
| LogHistory.StepRefines | crates/common/src/logfile.rs:214-222 | one fault-free write keeps the disk equal to the newest generations |
| LogHistory.RunRefines | crates/common/src/logfile.rs:128-150 | after every fault-free run the disk is exactly the newest `keep` generations of the unbounded log |
| LogHistory.HistoryIsEverything | crates/common/src/logfile.rs:214-222 | the unbounded log holds the initial pieces and every write, in order, nothing else |
| LogHistory.ReadBackIsSuffix | crates/common/src/logfile.rs:128-150 | reading the kept files oldest first gives a suffix of the files at open followed by all writes, cut only between whole pieces |
| LogHistory.HistoryPacked | crates/common/src/logfile.rs:85-89 | every file begun after open is bounded, and each rotated file and its successor together exceed `max_bytes` |
| LogHistory.BeginsGenerationIff | crates/common/src/logfile.rs:85-89 | the same for the unbounded log, in sizes |
| LogHistory.SetAsideIsNotEmpty | crates/common/src/logfile.rs:85-89 | over every run, whatever is rotated away holds something |
| LogHistory.RotationsAreGenerations | crates/common/src/logfile.rs:99-102 | without faults every attempted rotation adds one generation |
| LogHistory.KeptFileBounded | crates/common/src/logfile.rs:216-218 | a kept file begun after open is within `max_bytes` or is exactly one write |
| LogHistory.RetainsHalf | crates/common/src/logfile.rs:48-50 | after `keep`-1 rotations more than floor(`keep`/2) * `max_bytes` bytes are kept |
| Lines.LinesAreTheStream | crates/cli/src/filter_run.rs:231-235 | the lines are the stream cut at its newlines: terminated and joined they give it back, and none contains a newline |
| Lines.LinesCoverTheStream | crates/cli/src/filter_run.rs:230-263 | all lines, each ended by a newline, are the stream, to which only a missing last newline is added |
| Lines.ClipLaws | crates/cli/src/filter_run.rs:236-250 | a line before a CR is kept without it, but for only one CR; a line of up to 2048 bytes is kept whole, a longer one as its first 2048 |
| Lines.ViewIsTheEnd | crates/cli/src/filter_run.rs:254-266 | the caller sees all lines up to 20 000 and else the last 5 000, each clipped, in order |
| Lines.HeldStep | crates/cli/src/filter_run.rs:254-256 | how many lines are held after n of them, as a closed form of the two thresholds |
| Lines.LastStep | crates/cli/src/filter_run.rs:246-257 | ending a line holds at most 20 001 lines and drains to exactly the last ones the closed form allows |
| Lines.RestExtends | crates/cli/src/filter_run.rs:236-239 | text without a newline only lengthens the open line |
| Lines.Collector.constructor | crates/cli/src/filter_run.rs:221-227 | an empty collector has collected the empty stream |
| Lines.Collector.EndLine | crates/cli/src/filter_run.rs:246-257 | the ended line is kept as its clipped form, counted, and the lines held are the last ones allowed |
| Lines.Collector.Piece | crates/cli/src/filter_run.rs:232-242 | one piece, terminated or not, extends the collected stream by exactly its bytes |
| Lines.Collector.Push | crates/cli/src/filter_run.rs:230-244 | one chunk extends the collected stream by the chunk, wherever it is cut |
| Lines.Collector.Finish | crates/cli/src/filter_run.rs:260-273 | the count is the stream's number of lines; the lines are all of them up to 20 000, else the last 5 000, each its first `LINE_BYTES` bytes less one CR |
| Lines.Collect | crates/cli/src/filter_run.rs:230-273 | for every chunking the result is that function of the concatenated stream |
| CappedLog.Log.constructor | crates/cli/src/filter_run.rs:187-193 | a new log is the log of the empty stream |
| CappedLog.Log.Write | crates/cli/src/filter_run.rs:195-216 | `written` never passes `LOG_MAX`, failing or not; the file is the log of the stream so far unless a write that was made failed, and then it gains what that write landed and nothing more, ever |
| CappedLog.Log.CutOff | crates/cli/src/filter_run.rs:205-212 | the end of a full log: a newline only if the last kept byte is none, then the cut line once |
| CappedLog.BodyLands | crates/cli/src/filter_run.rs:199-204 | what a body write lands is a prefix of the log however it ends |
| CappedLog.LogGrows | crates/cli/src/filter_run.rs:18-20 | more stream only extends the log, and nothing is added after the cut line |
| CappedLog.LogShape | crates/cli/src/filter_run.rs:18-20 | a stream within 64 MiB is its own log; a longer one's log is its first 64 MiB, then the cut line on a line of its own, with no byte more than that takes |
| FilterRun.Filtered | crates/cli/src/filter_run.rs:142-157 | log, count and lines are functions of the bytes delivered before the first end or error, interrupted reads not counting; failing log writes never change the lines |
| FilterRun.InterruptedIsRetried | crates/cli/src/filter_run.rs:152-152 | an interrupted read changes nothing, wherever it is |
| FilterRun.BytesAreDelivered | crates/cli/src/filter_run.rs:148-151 | reads that bring bytes are delivered one after the other |
| FilterRun.EndsThere | crates/cli/src/filter_run.rs:147-153 | the stream ends at the first read that brings nothing or fails, and nothing after it matters |
| LockFile.DeadlinePasses | crates/common/src/lockfile.rs:170-177 | after ceil(wait / 100 ms) sleeps the deadline has passed |
| LockFile.AcquireOrYield | crates/common/src/lockfile.rs:149-179 | at most ceil(wait / 100 ms) + 1 attempts, one probe per busy attempt, every earlier round busy, unprobed and before the deadline, and each of the four outcomes exactly when the last round found it |
| LockFile.WaitReleased | crates/common/src/lockfile.rs:221-247 | true exactly when its last probe got the lock or could not open the file, false only past the deadline, every earlier probe held or in error, within ceil(timeout / 100 ms) + 1 probes |
| StopProtocol.ApplyKeepsLife | crates/common/src/lockfile.rs:29-77 | every step keeps the lifetime lock's holder, if any, exactly the one process that believes to hold it |
| StopProtocol.ApplyKeepsExit | crates/common/src/lockfile.rs:196-214 | every step does the same for the exit lock, which only a process's end releases |
| StopProtocol.ApplyKeepsStopper | crates/cli/src/daemon_cmd.rs:58-95 | every step keeps what a stop may rely on about its target |
| StopProtocol.ReachableInv | crates/cli/src/daemon_cmd.rs:25-46 | the invariant holds after every interleaving of daemons, claimers, stops and killed stops |
| StopProtocol.StopMeansExited | crates/common/src/lockfile.rs:186-192 | in every interleaving, once a stop has reported success: if its exit wait saw the lock free and the target's `hold_until_exit` returned true, the process has exited, however the lifetime wait ended; if its lifetime wait saw the lock free, `run` has returned |
| StopProtocol.LocksExclude | crates/common/src/lockfile.rs:44-77 | no two of all daemons, claimers and probes ever have the lifetime lock at once, nor the exit lock |
| StopProtocol.RefusedMeans | crates/common/src/lockfile.rs:194-210 | `hold_until_exit` is refused if and only if a live daemon has the exit lock or a stop is in the middle of a probe of it |
| StopProtocol.RefusedByAProbe | crates/common/src/lockfile.rs:194-195 | a run in which it is refused though no daemon holds the exit lock |
| StopProtocol.StoppedButAlive | crates/cli/src/daemon_cmd.rs:31-35 | a run in which the daemon so refused is reported stopped while its process lives |
| StopProtocol.ExitOpenErrorIsUnsound | crates/common/src/lockfile.rs:234-238 | a run in which only the exit lock's open fails and a stop reports success with its target alive and holding that lock |
| StopProtocol.LifeOpenErrorIsUnsound | crates/common/src/lockfile.rs:234-238 | a run in which only the lifetime lock's open fails and a stop reports success with a target that lacks the exit lock still serving |
| StopProtocol.OpenErrorIsUnsound | crates/common/src/lockfile.rs:234-238 | a run in which both opens fail and a stop reports success with its target serving and holding both locks |
| StopHistory.StopsAreRecorded | crates/cli/src/daemon_cmd.rs:58-95 | in every run a stop's state says exactly which of its events happened: it gave up if and only if it timed out or was killed, and a wait went unseen if and only if an open failed |
| StopHistory.DaemonsAreRecorded | crates/cli/src/daemon_cmd.rs:25-46 | a daemon's phase and exit lock say exactly whether its `hold_until_exit` returned true, its `run` returned and its process exited |
| StopHistory.FilesAreRecorded | crates/common/src/lockfile.rs:196-207 | a lock file exists if and only if some process has tried to take its lock, other than by a stop's probe |
| StopHistory.ReportIsTrue | crates/cli/src/daemon_cmd.rs:58-95 | told by events alone: a stop that reported success never timed out, and if none of its opens failed its target's `run` returned or its process exited, and if the target had taken the exit lock its process exited |
| StopHistory.TargetWasServing | crates/cli/src/daemon_cmd.rs:58-62 | a stop's target had begun to listen |
| StopHistory.UnseenMeansOpenError | crates/common/src/lockfile.rs:234-238 | a successful stop saw both locks free if and only if none of its opens failed |
| StopHistory.StopNeverStuck | crates/common/src/lockfile.rs:221-232 | a stop that has not ended can always go on or give up, whatever the others do |
| StopHistory.DaemonNeverStuck | crates/cli/src/daemon_cmd.rs:25-46 | a daemon that has not exited can exit, and give up or return where it may |
| StopHistory.ClaimMeans | crates/common/src/lockfile.rs:44-77 | `try_claim` and a daemon's lock attempt succeed if and only if no process has the lifetime lock |
| Calendar.EraSplits | crates/common/src/numbers.rs:159-160 | the era formula rounds down under truncating division, on negative days too |
| Calendar.YearOfEraHolds | crates/common/src/numbers.rs:161-163 | the year formula finds the year that holds the day, for every day of the era |
| Calendar.CodeOnParts | crates/common/src/numbers.rs:157-168 | on era, year, month and day in range the code gives exactly that date |
| Calendar.DaysRoundTrip | crates/common/src/numbers.rs:157-168 | every integer day is a valid Gregorian date, and days-from-civil recovers it |
| Calendar.DateRoundTrip | crates/common/src/numbers.rs:157-168 | every valid date is the date of its day number |
| Calendar.NextDayCounts | crates/common/src/numbers.rs:156-168 | the calendar's next day has the next day number, across months, leap days and eras |
| Calendar.EpochDay | crates/common/src/numbers.rs:150-168 | day 0 is 1970-01-01 |
| Calendar.SuccessorDay | crates/common/src/numbers.rs:157-168 | day n+1 is the calendar's day after day n, for every integer n; with day 0 this fixes every date |
| Calendar.DaysKeepOrder | crates/common/src/numbers.rs:157-168 | later days are later dates |
| Calendar.LocalPartsRecombine | crates/common/src/numbers.rs:110-118 | for every u64 time and i64 offset, day and second of day recombine to the shifted time if and only if nothing saturates, before the epoch too, and else to the clamped one |
| Calendar.NoOverflow | crates/common/src/numbers.rs:110-168 | for every u64 time and i32 offset no intermediate of `civil_from_days` leaves its machine type |
| UtcStamp.PaddedIsNumber | crates/common/src/text.rs:14-14 | the zero-padded decimal text denotes the number, at any width |
| UtcStamp.PaddedIsShortest | crates/common/src/text.rs:14-14 | more digits than asked for only when the number needs them, and then no leading zero |
| UtcStamp.PaddedOrder | crates/common/src/text.rs:14-14 | at one width, text order is number order |
| UtcStamp.LessIsTotal | crates/common/src/text.rs:14-14 | the text order is the dictionary's: a text before its continuations, and of two texts one first |
| UtcStamp.PrintThenParse | crates/common/src/text.rs:9-15 | parsing a printed stamp gives its second count |
| UtcStamp.StampRoundTrip | crates/common/src/text.rs:9-15 | every Unix second is recovered from its text |
| UtcStamp.EpochStamp | crates/common/src/text.rs:7-15 | second 0 is `1970-01-01 00:00:00Z` |
| UtcStamp.TextOrderIsTimeOrder | crates/common/src/text.rs:9-15 | up to the end of year 9999 the texts sort as the times do |
| UtcStamp.YearTenThousandSortsFirst | crates/common/src/text.rs:14-14 | the next second's text sorts before it |
| UtcStamp.OrderHoldsUpTo9999 | crates/common/src/text.rs:9-15 | text order agrees with time order on all times up to t if and only if t is at most the last second of year 9999 |
| Wrap.WordsAreVisible | crates/cli/src/lessons_cmd.rs:245-245 | the words are the text's non-space characters in order, each nonempty and without space |
| Wrap.GreedyIsFewest | crates/cli/src/lessons_cmd.rs:242-269 | no way of breaking the same words into lines that fit uses fewer lines than filling each line |
| Wrap.GreedyExtends | crates/cli/src/lessons_cmd.rs:257-263 | one more word goes on the last line if it fits there, else begins a line |
| Wrap.LinesShowTheText | crates/cli/src/lessons_cmd.rs:240-269 | for every text and width every line is nonempty and at most `width` characters, and the visible characters are the text's in order |
| Wrap.WordsOfJoin | crates/cli/src/lessons_cmd.rs:257-263 | words joined by single spaces are the words read from the line |
| Wrap.WordsThatFitStayWhole | crates/cli/src/lessons_cmd.rs:240-252 | the words read from the printed lines are the text's in order, cut only where longer than `width` |
| Wrap.FewestLines | crates/cli/src/lessons_cmd.rs:242-269 | no other breaking of the same pieces into lines that fit has fewer lines than the wrapped text |
| Wrap.AddWord | crates/cli/src/lessons_cmd.rs:245-264 | the loop body that cuts and places one word extends the greedy filling by that word's pieces |
| Wrap.Wrap | crates/cli/src/lessons_cmd.rs:242-269 | the line-by-line loop computes the greedy filling of the text's pieces |
| Wrap.BodyLines | crates/cli/src/lessons_cmd.rs:229-231 | every body line of a lesson is indented and at most `WRAP` characters, none missing |
| WrapLaws.Spaces | crates/cli/src/lessons_cmd.rs:245-245 | what separates words: the 25 characters with Unicode's White_Space property |
| WrapLaws.WordsSplitAtSpaces | crates/cli/src/lessons_cmd.rs:245-245 | a text is split at every whitespace character, and what has none is one word |
| WrapLaws.PiecesAreFull | crates/cli/src/lessons_cmd.rs:247-252 | a long word is cut from its first character on: every piece but the last has exactly `width` characters |
| WrapLaws.PiecesAreUnique | crates/cli/src/lessons_cmd.rs:247-253 | no other cut of the word has that property |
| WrapLaws.LongWordFillsLines | crates/cli/src/lessons_cmd.rs:247-252 | on the printed lines each piece of a long word but its last is a line by itself, its beginning first |
| WrapLaws.LinesAreFull | crates/cli/src/lessons_cmd.rs:257-259 | no printed line has room for the word that begins the next one |
| Fnv.StepInverts32 | crates/common/src/worktree_names.rs:15-18 | a hash step is undone by the prime's inverse modulo 2^32 |
| Fnv.CommonEnding32 | crates/common/src/worktree_names.rs:14-18 | a common ending neither makes nor removes a collision |
| Fnv.OneByteChangesHash32 | crates/common/src/worktree_names.rs:11-20 | inputs that differ in exactly one byte never share a 32-bit hash |
| Fnv.StepInverts64 | scripts/smoke_task_tmp.py:54-56 | the same inverse modulo 2^64 |
| Fnv.CommonEnding64 | scripts/smoke_task_tmp.py:52-56 | a common ending neither makes nor removes a 64-bit collision |
| Fnv.OneByteChangesHash64 | scripts/smoke_task_tmp.py:49-57 | inputs that differ in exactly one byte never share a 64-bit hash |
| Fnv.HexSeparates | crates/common/src/worktree_names.rs:19-19 | eight hex digits are equal exactly when the hashes are |
| Fnv.HexIsNumber | crates/common/src/worktree_names.rs:19-19 | the eight digits, most significant first, are the hash |
| WorktreeNames.Hash8 | crates/common/src/worktree_names.rs:11-20 | the byte loop computes the 32-bit hash and prints its eight digits |
| WorktreeNames.Hash8Vectors | crates/daemon/src/worktree/tests.rs:9-11 | the pinned vectors of the empty path and `a`, which fix the constants |
| WorktreeNames.Hash8OfTmpRepo | crates/daemon/src/worktree/tests.rs:12-12 | the pinned hash of `/tmp/repo` |
| WorktreeNames.SameDirSameHash | crates/common/src/worktree_names.rs:32-48 | two roots share a directory name only if their full hashes and their sanitized last components agree |
| WorktreeNames.PlainCharacters | crates/common/src/worktree_names.rs:28-31 | which characters a directory name keeps, one by one |
| WorktreeNames.SanitizedLaws | crates/common/src/worktree_names.rs:37-46 | a plain name stays as it is, and every other character alone becomes a dash |
| WorktreeNames.SanitizedAlike | crates/common/src/worktree_names.rs:37-46 | two names are made plain alike if and only if they differ only at characters both written as a dash |
| WorktreeNames.DirsSharedIff | crates/common/src/worktree_names.rs:32-48 | two roots share a directory if and only if their hashes agree and their last components differ only in that way |
| WorktreeNames.DirReadsBack | crates/common/src/worktree_names.rs:47-47 | the plain name, a dash and the eight digits are read back from the directory |
| WorktreeNames.MyRepo | crates/daemon/src/worktree/tests.rs:21-29 | the pinned directory of `my repo` |
| WorktreeNames.RootsOneByteApart | crates/common/src/worktree_names.rs:28-48 | project roots that differ in one byte never share a worktrees directory |
| WorktreeNames.BranchesShareDir | crates/common/src/worktree_names.rs:22-26 | two branches share a directory if and only if they differ at most in `/` against `-` |
| WorktreeNames.BranchDirLaws | crates/common/src/worktree_names.rs:22-26 | a branch without a slash is its own directory, and each slash becomes a dash |
| WorktreeNames.CheckoutsSharedIff | crates/common/src/worktree_names.rs:64-66 | two checkouts share a directory if and only if their roots' directories are the same and their branches share one |
| WorktreeNames.CheckoutsOneByteApart | crates/common/src/worktree_names.rs:50-66 | roots that differ in one byte never share a checkout, whatever the branches |
| WorktreeNames.PlainSpelling | scripts/smoke_task_tmp.py:41-46 | every list of proper parts is the components of its plain spelling |
| WorktreeNames.PartsAreProper | scripts/smoke_task_tmp.py:42-46 | no part is empty, `.` or contains a slash |
| WorktreeNames.ComponentsGrow | scripts/smoke_task_tmp.py:41-46 | one more part is one more component, `..` too, but an empty one and `.` are none |
| WorktreeNames.SpellingDoesNotMatter | scripts/smoke_task_tmp.py:41-46 | an absolute path has the components of its plain spelling |
| WorktreeNames.ComputeTaskName | scripts/smoke_task_tmp.py:52-57 | the nested loops hash the closed concatenation of the components |
| WorktreeNames.PinnedTaskName | scripts/smoke_task_tmp.py:28-33 | the pinned task name of `/x/runs/r/tasks/t` |
| WorktreeNames.TasksOneByteApart | scripts/smoke_task_tmp.py:49-57 | encodings one byte apart never share a task name |
| WorktreeNames.ComponentChange | scripts/smoke_task_tmp.py:53-56 | one byte of one component changed is one byte of the encoding changed |
| WorktreeNames.TaskNameSeesEveryByte | scripts/smoke_task_tmp.py:49-57 | changing one byte of one component changes the task name |
| WorktreeNames.EncodingSeparates | scripts/smoke_task_tmp.py:50-56 | lists of components without the byte 0xff are recovered from what is hashed |
| WorktreeNames.CutEncodes | scripts/smoke_task_tmp.py:54-56 | a component and its parts between 0xff bytes are hashed as the same bytes |
| WorktreeNames.SameEncodingIff | scripts/smoke_task_tmp.py:50-56 | any two lists of components are hashed as the same bytes if and only if they are equal once every component is cut at its 0xff bytes |
| WorktreeNames.PlainPathsSeparate | scripts/smoke_task_tmp.py:41-56 | absolute paths without the byte 0xff are hashed as the same bytes if and only if they have the same components |
| WorktreeNames.ClosingByteCollides | scripts/smoke_task_tmp.py:41-57 | the input: the directories `/a\xffb` and `/a/b` have different components and share their task name |
| ScreenModel.FindLetter | scripts/pty-smoke.py:293-293 | the first letter at or after a position, none before it |
| ScreenModel.TokenAt | scripts/pty-smoke.py:306-339 | every position has one token and it moves on, so `feed` ends |
| ScreenModel.Csi | scripts/pty-smoke.py:341-384 | no control sequence changes the grid's size or moves the cursor out of it |
| ScreenModel.Fed | scripts/pty-smoke.py:306-339 | for every text the grid stays exactly rows x cols and the cursor inside |
| ScreenModel.EraseInDisplayCells | scripts/pty-smoke.py:360-373 | ED cell by cell: exactly the cells from the cursor, up to the cursor, or all, are blanked (section 8.3.39 of ECMA-48) |
| ScreenModel.EraseInLineCells | scripts/pty-smoke.py:374-383 | EL cell by cell, within the cursor's line (section 8.3.41 of ECMA-48) |
| ScreenModel.CursorAddress | scripts/pty-smoke.py:349-351 | CUP counts from 1, takes 0 as 1, clamps to the screen and defaults to the corner (section 8.3.21 of ECMA-48) |
| ScreenModel.MovesUndo | scripts/pty-smoke.py:352-359 | up then down, and left then right, by one parameter give the screen back while inside |
| ScreenModel.PutAdvances | scripts/pty-smoke.py:332-339 | a character changes its own cell only and the cursor goes to the next cell in reading order; the last cell leads back to its line's start |
| ScreenModel.ParamsAreTheText | scripts/pty-smoke.py:342-342 | the parameters joined by semicolons are the text, and none contains one |
| ScreenModel.CutBetweenTokens | scripts/pty-smoke.py:306-339 | feeding a + b is feeding a then b whenever the cut is a token boundary of a + b |
| ScreenModel.CutInsideToken | scripts/pty-smoke.py:310-323 | a cut inside an escape sequence is not: its rest becomes visible text |
| ScreenLaws.ControlSequence | scripts/pty-smoke.py:293-293 | escape, `[`, any text without an ASCII letter and a letter are one control sequence with that text and letter |
| ScreenLaws.SystemCommand | scripts/pty-smoke.py:294-294 | escape and `]` are ignored up to the end of the first terminator, BEL or escape and backslash |
| ScreenLaws.BareEscape | scripts/pty-smoke.py:310-323 | an escape that begins no sequence, or one that does not end, is ignored alone |
| ScreenLaws.SingleCharacter | scripts/pty-smoke.py:324-339 | every other character is a token by itself |
| ScreenLaws.BoundariesAreTokenEnds | scripts/pty-smoke.py:306-339 | the places where a text may be cut are exactly where its tokens end, its own end included |
| ScreenLaws.LineMoves | scripts/pty-smoke.py:324-331 | CR goes to the line's start, LF down to the last line at most, and neither changes a cell |
| ScreenLaws.CursorMoves | scripts/pty-smoke.py:352-359 | the four moves go their number of cells in their own direction and stop at the edge |
| ScreenLaws.OtherSequences | scripts/pty-smoke.py:349-384 | `f` is `H`, ED and EL read their mode from the first parameter, and no other letter changes anything |
| ScreenLaws.SplitOfJoin | scripts/pty-smoke.py:342-342 | parameters joined by semicolons are split into themselves |
| ScreenLaws.NumReads | scripts/pty-smoke.py:344-347 | a parameter is the number its own text denotes, and the default when it is missing or no number |
| TerminalScreen.Terminal.constructor | scripts/pty-smoke.py:300-304 | a blank rows x cols grid with the cursor in the corner, which is inside it if and only if there is a cell |
| TerminalScreen.Terminal.BlankSpan | scripts/pty-smoke.py:365-366 | the cell loop blanks exactly a span of the cursor's line |
| TerminalScreen.Terminal.BlankLines | scripts/pty-smoke.py:367-368 | the row loop blanks exactly a range of lines |
| TerminalScreen.Terminal.Csi | scripts/pty-smoke.py:341-384 | the in-place control sequences are the screen function |
| TerminalScreen.Terminal.Feed | scripts/pty-smoke.py:306-339 | the index loop ends, applies the stream's tokens in order and keeps grid and cursor in bounds |
| ProjectSelection.LongestIsUnique | crates/cli/src/tree_cmd.rs:225-231 | at most one root is the longest component-wise prefix of a path |
| ProjectSelection.ContainingIsLongest | crates/cli/src/tree_cmd.rs:225-231 | the containing step finds it, and nothing only when no root contains the path |
| ProjectSelection.ExactIsRedundant | crates/cli/src/tree_cmd.rs:219-235 | the exact step finds nothing the containing step would not |
| ProjectSelection.RootIsLongest | crates/cli/src/tree_cmd.rs:232-235 | the root is the longest one containing the request, or, only when none does, the normalized path; none exactly when neither is contained |
| ProjectSelection.RootIsOrderIndependent | crates/cli/src/tree_cmd.rs:212-235 | the root depends only on the set of windows' roots |
| ProjectSelection.SelectionSharesRoot | crates/cli/src/tree_cmd.rs:236-242 | exactly the windows of the chosen root are selected, each as often as it occurs; none exactly when there is no root |
| ProjectSelection.SelectionKeepsOrder | crates/cli/src/tree_cmd.rs:216-242 | without a project every window is shown; with one, each is kept or left out by its root and the order stays |
| ProjectSelection.OneRootIsShown | crates/cli/src/tree_cmd.rs:236-242 | windows that all have the root are all shown |
| ConfigModel.StoppedEntries | crates/config/src/git.rs:91-118 | stopping at the first item after 32 accepted ones yields exactly the first 32 valid entries |
| ConfigModel.CleanEntries | crates/config/src/git.rs:101-116 | there is no entry problem exactly when every entry is a single path component, and every problem names the list |
| ConfigModel.IgnoreAccounts | crates/config/src/git.rs:78-119 | the list is named by a problem if and only if it is too long or has a bad entry |
| ConfigModel.KeyAccounts | crates/config/src/lib.rs:425-443 | reading one key names that key, if it is present with a value it may not have, and no other |
| ConfigModel.SchemaAccounts | crates/config/src/delivery.rs:91-158 | reading a table names exactly its known keys whose values they may not have |
| ConfigLaws.BooleanKeys | crates/config/src/lib.rs:425-443 | which keys take a boolean and nothing else |
| ConfigLaws.NumberKeys | crates/config/src/lib.rs:411-547 | the number keys outside `[delivery]` take exactly the integers between their two ends, ends included |
| ConfigLaws.DeliveryNumberKeys | crates/config/src/delivery.rs:100-138 | the same for the numbers of `[delivery]` |
| ConfigLaws.ChoiceKeys | crates/config/src/delivery.rs:233-273 | `sync` takes exactly its two words, `stage_target_lines` exactly two integers between 50 and 5000 in rising order |
| ConfigLaws.Scrollback | crates/config/src/lib.rs:372-384 | `scrollback_lines` is its value if that is an integer from 0 to 100 000, else 5000 |
| ConfigLaws.IgnoreEntryIff | crates/config/src/git.rs:59-73 | an entry is refused if and only if it is no text, empty, over 64 characters, has a slash in it or is `.` or `..` |
| ConfigLaws.EntriesOneByOne | crates/config/src/git.rs:92-117 | entries are taken or reported one after the other, each for its own reason, in order |
| ConfigLaws.IgnoreIsFirst32 | crates/config/src/git.rs:91-118 | the list is the first 32 good entries, and an item after those is reported once |
| ConfigLaws.LoginIff | crates/config/src/delivery.rs:207-211 | a login is 1 to 39 ASCII letters, digits and dashes, and a bot's the same with its suffix |
| ConfigReader.Reader.ReadEntries | crates/config/src/git.rs:91-118 | the loop that skips bad entries and stops at 32 gives the first 32 valid ones and their problems |
| ConfigReader.Reader.ReadIgnore | crates/config/src/git.rs:78-119 | `git.ignore`, with its problems |
| ConfigReader.ReadLogins | crates/config/src/delivery.rs:217-222 | walking the items gives all their texts if each is a login, and nothing from the first that is not |
| ConfigReader.Reader.ReadReviewers | crates/config/src/delivery.rs:213-231 | all logins or none, and one problem for none |
| ConfigReader.Reader.ReadSync | crates/config/src/delivery.rs:233-246 | the two policies, anything else a problem |
| ConfigReader.Reader.ReadBellTable | crates/config/src/lib.rs:453-460 | the table's fields and problems, nothing else changed |
| ConfigReader.Reader.ReadUiTable | crates/config/src/lib.rs:472-496 | the table's fields and problems, nothing else changed |
| ConfigReader.Reader.ReadPanesTable | crates/config/src/lib.rs:508-521 | the table's field and problems, nothing else changed |
| ConfigReader.Reader.ReadGitTable | crates/config/src/git.rs:130-153 | the table's fields and problems, nothing else changed |
| ConfigReader.Reader.ReadDeliveryTable | crates/config/src/delivery.rs:99-157 | the table's eleven fields and problems, nothing else changed |
| ConfigReader.Reader.ReadTop | crates/config/src/lib.rs:372-416 | `scrollback_lines` and the renamed `sidebar_width`, which is always reported |
| ConfigReader.Reader.ReadSection | crates/config/src/lib.rs:445-452 | a missing table changes nothing, a non-table costs one problem, a table is read |
| ConfigReader.Reader.ReportNested | crates/config/src/lib.rs:574-590 | what was reported stays first, and after it each unknown key of the table is reported exactly once |
| ConfigReader.Reader.ReportUnknown | crates/config/src/lib.rs:549-572 | the same for every key nothing reads, at the top and in the tables |
| ConfigReader.Reader.ReadAll | crates/config/src/lib.rs:223-258 | all modelled readers in order give the configuration and their problems in order |
| ConfigReader.Parse | crates/config/src/lib.rs:203-263 | never fails; the fields are those of the present valid keys, every numeric field is in its range, the problems of read keys come first and in order, every problem occurs exactly as often as expected, and exactly the reported keys are named; a syntax error keeps all defaults with one problem |
| ConfigReader.EveryKeyIsAccounted | crates/config/src/lib.rs:203-206 | a key of a modelled table is named by a problem if and only if it is not a known key with a value it may have |
| ConfigProblems.SchemaTimes | crates/config/src/delivery.rs:91-158 | in a table's problems a key's own ones occur as often as its reader adds them |
| ConfigProblems.KnownKeyOnce | crates/config/src/lib.rs:203-206 | a known key is never reported for a value it may have and exactly once, with its rule's reason, for any other; `git.ignore` as often as its reader does |
| ConfigProblems.UnknownKeyOnce | crates/config/src/delivery.rs:160-177 | an unknown key of a table is reported exactly once, with the hint for the two that a profile sets |
| ConfigProblems.NotATableIsReportedOnce | crates/config/src/lib.rs:580-584 | a table that is no table gets exactly one problem, and nothing inside it gets any |
| ConfigProblems.TopKeyOnce | crates/config/src/lib.rs:372-409 | `scrollback_lines` out of range is reported once; the old `sidebar_width` always once, as renamed when it is valid |
| ConfigProblems.OtherTopKeyOnce | crates/config/src/lib.rs:549-572 | any other top-level key is reported once if nothing knows it, and not at all if another part reads it |
| ConfigProblems.ProblemsInOrder | crates/config/src/lib.rs:226-255 | the problems of read keys come in the order of the readers |
| ConfigNames.SharedNames | crates/config/src/lib.rs:574-590 | two different reported keys are printed under one name only if one is a top-level key with a dot in it |
| ConfigNames.PrintedExactlyWhen | crates/config/src/lib.rs:549-590 | the name `table.key` is printed if and only if that key is reported or the same text, quoted, is a top-level key |
| ConfigNames.ValidKeyPrinted | crates/config/src/lib.rs:569-587 | the input: a valid `poll_secs` in `[git]` and a quoted top-level `git.poll_secs`, whose problem carries the valid key's name |
| ConfigFields.SetKeyIsTaken | crates/config/src/lib.rs:203-206 | a key with a value it may have gives its own field exactly that value, whatever else the file holds |
| ConfigFields.OtherKeyKeepsDefault | crates/config/src/lib.rs:203-206 | a missing or refused key leaves its field at the default, but for the good entries of `git.ignore` and the renamed `sidebar_width` |
| ConfigFields.KeysDoNotInterfere | crates/config/src/lib.rs:223-258 | files that agree on a key, for the sidebar's width on its old name too, agree on its field, however they differ elsewhere |

## Left out

- The daemon's run engine, merge queue, wire protocol and terminal UI: not modelled.
- `tokens`, `duration`, `duration_coarse`, `weekday`, `clock` and `clock_full` of `crates/common/src/numbers.rs`: one-step formatting that would only add easy members.
- The rotating log takes `write_all` and `metadata` to succeed, `exists` to be exact, `len` not to overflow u64 and no other process to touch its names; an `open` that fails is a constructor that does not return.
- RotatingLog.RotatingFile.RotateIfNeeded: the text of the diagnostic is not modelled, only that one is printed.
- Lines.Collector.Finish: gives the kept lines as bytes; `String::from_utf8_lossy` and the `apply` that follows are not part of this model.
- FilterRun.Filtered: the child process, its exit code and what is printed are not modelled; what each read and each log write gives is a parameter.
- CappedLog.Log.Write: a `write_all` that fails is taken to have written some prefix of its bytes.
- LockFile.AcquireOrYield: clock readings, lock attempts and probes are parameters; `sleep` lasts at least as long as asked.
- StopProtocol.StopMeansExited: assumes that an `flock` is exclusive per open file description, that lock files are never removed or replaced, and that no child inherits a descriptor; a refused or failed `hold_until_exit` followed by an early exit is the event of a daemon's exit. The deadlines of a stop are an event that may happen at any time.
- StopProtocol.ReachableInv: sockets and message exchange are reduced to connecting to a serving daemon and seeing the connection close; the close itself promises nothing.
- Calendar.NoOverflow: covers day counts that `local_parts` gives; `format_utc` has smaller ones.
- Wrap.BodyLines: takes the body after `one_line`, which is not part of this model, and leaves out the title and files lines.
- WorktreeNames.SameDirSameHash: the last component is a parameter; its lossy decoding is not modelled.
- WorktreeNames.ComputeTaskName: paths are bytes; `os.fsencode` is not modelled.
- TerminalScreen.Terminal.Feed: needs a screen with a cell, as the smoke test gives it; on one without, the original's index errors are not modelled.
- ScreenModel.CursorAddress: what counts as a numeral is a parameter; digits that `isdigit` accepts and `int` rejects raise in the original and are not modelled.
- ConfigReader.Parse: models `scrollback_lines`, the old `sidebar_width` and the tables `bell`, `ui`, `panes`, `git` and `delivery`; the other keys and tables are taken as known and read elsewhere, TOML parsing is a parameter, and a problem carries its key's components and a reason; `ConfigNames` joins the components to the printed name, the message and default texts are not modelled.
- ConfigReader.Reader.ReportUnknown: the order among unknown keys is that of the table, which is not modelled.
- ProjectSelection.RootIsLongest: paths are their components; how a request is normalized is a parameter.
- Rendering of the tree (`tree_text`, `tree_json`), the lessons list headers, hooks, MCP commands and the smoke test's driver: input and output plumbing or fixed text.
