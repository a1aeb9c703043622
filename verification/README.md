# gopro-merge: a Dafny model of concat_go.py

`concat_go.py` merges the split segments of a GoPro recording into one MP4.
It sorts the segments by modification time and writes an ffmpeg concat
manifest. It starts `ffmpeg -f concat ... -c copy` and shows a curses
progress screen while the output file grows. When the child exits or the
user interrupts, it cleans up. This project models the rules behind that
plumbing as pure Dafny functions over integers, exact reals and sequences:

- `RateEstimation` (`rate_estimator.dfy`) covers `RateEstimator`. It keeps
  two samples of the output size and the time each was taken. It reports
  N/A, or the remaining bytes floor-divided by the growth (Python 2 `/` on
  ints) times the elapsed time. `FloorDiv` is written out because Dafny's
  `/` is Euclidean.
- `Progress` (`progress.dfy`) covers `draw_progress` and the percentage
  computed in `check_file`.
- `Videos` (`videos.dfy`) covers `cmp_vids`, the stable sort in
  `find_vids`, and `total_files_size`.
- `Manifest` (`manifest.dfy`) covers the manifest lines of `merge_vids`.
  Every `'` becomes `\\'`, and each path is written as `file '<path>'` plus
  a newline. `ParseManifest` is the model's own line reader. It is the
  inverse the round-trip lemma is stated against.
- `Command` (`command.dfy`) covers the argv of `merge_vids`:
  `FFMPEG_CMD.format(...).split(' ')`.
- `Supervisor` (`supervisor.dfy`) covers `CursesUI` and the try/except/finally
  of `main`. It is a state machine over abstract events. Each tick carries
  the `os.stat` result, the clock reading and the `proc.poll()` result. A
  keyboard interrupt is one more event. The machine ends in a pure decision:
  kill the child or not, save the last directory or not, and which files to
  delete.

Parameters stand in for I/O. Clock readings are caller-supplied integer
ticks. Each `os.stat` result is an `Option<nat>` (`None` for OSError). The
glob results are sequences of `Video(path, mtime, size)`. The poll results
and interrupts are a sequence of events.

The estimator and the screen behave as follows:

- The estimator keeps exactly two samples: the previous one and the current one.
- Estimates are not clamped. An overshoot gives a negative estimate, and a
  shrinking file can too.
- A zero elapsed time is not treated as unknown. It gives an estimate of 0.
- The ratio of remaining bytes to growth is floor-divided before it is
  multiplied by the elapsed time. Take growth from 100,000,000 to
  300,000,000 bytes over 10 s towards 1,000,000,000 bytes. The code gives
  30 s for it, and the exact extrapolation is 35 s
  (`RateEstimation.WorkedExample`). `NewEstimateValue` states this order
  for every estimator. `EstimateWithinOneInterval` bounds this
  gap by one elapsed interval.
- When the expected size is 0, `check_file` raises ZeroDivisionError. The
  `finally` block still runs with whatever returncode the child has at that
  moment. The model keeps this as the `Crashed` outcome.
- When `merge_vids` raises after the temporary manifest exists (ffmpeg
  missing, `/tmp/merge.log` not writable), `proc` and `tfile` are never
  bound. The `finally` block then fails on `proc.returncode` before it
  removes anything, so the `delete=False` manifest stays on disk. This is
  the `LaunchFailed` outcome (see Findings).

## Model

| member | source | states |
|---|---|---|
| RateEstimation.FloorDiv | concat_go.py:61 | the quotient is bracketed as floor division requires, for either sign of the divisor |
| RateEstimation.FloorDivIsFloorOfQuotient | concat_go.py:61 | Python 2 int division equals the floor of the exact rational quotient |
| RateEstimation.FloorDivDiffersFromEuclidean | concat_go.py:61 | on a negative divisor the floor quotient differs from Dafny's Euclidean one (1 // -2 is -1, not 0) |
| RateEstimation.NewEstimator | concat_go.py:40-45 | both samples start at size 0 at the same instant, so a fresh estimator reports N/A |
| RateEstimation.AddData | concat_go.py:47-52 | the current sample moves into the previous slot, the new size and time become current, and the target size is unchanged |
| RateEstimation.NewEstimate | concat_go.py:54-63 | N/A exactly when the two sizes agree; 0 when the current size equals the target or no time elapsed between the samples; nonnegative for growth towards an unreached target with nondecreasing time; negative (unclamped) when growth has overshot the target |
| RateEstimation.NewEstimateValue | concat_go.py:54-63 | whenever the sizes differ the estimate is the floor of the exact ratio of remaining bytes to growth, multiplied afterwards by the elapsed time |
| RateEstimation.EstimateWithinOneInterval | concat_go.py:59-63 | with positive elapsed time the estimate is at most the exact linear extrapolation and falls short of it by less than one elapsed interval |
| RateEstimation.EstimateForgetsOlderSamples | concat_go.py:47-63 | after two samples the estimate depends only on them, not on anything seen earlier |
| RateEstimation.FirstEmptySampleIsNotAvailable | concat_go.py:40-57 | a fresh estimator whose first sample is 0 bytes reports N/A |
| RateEstimation.WorkedExample | concat_go.py:59-63 | growth 100,000,000 to 300,000,000 bytes over 10 ticks towards 1,000,000,000 gives 30, while the exact extrapolation is 35 |
| Progress.Repeat | concat_go.py:113 | string repetition gives n copies of the character, and none for n <= 0 |
| Progress.FilledCount | concat_go.py:110 | the filled count is the integer within one below percent/100 times ticks |
| Progress.DrawProgress | concat_go.py:109-113 | the bar is '[' and ']' around the symbol at cells 1..done and spaces after; its length is 2 plus the clipped counts, which is ticks + 2 for 0..100 percent |
| Progress.FilledCountBounds | concat_go.py:110-111 | for 0..100 percent the filled count lies in 0..ticks |
| Progress.FilledCountMonotone | concat_go.py:110 | a larger percentage never fills fewer cells |
| Progress.EmptyBar | concat_go.py:109-113 | at 0% every cell is a space and the bar has ticks + 2 characters |
| Progress.FullBar | concat_go.py:109-113 | at 100% every cell is the symbol |
| Progress.HalfBar | concat_go.py:109-113 | 50% on the default 50-cell bar gives 25 '=' followed by 25 spaces |
| Progress.Percent | concat_go.py:97 | undefined (ZeroDivisionError) exactly when the expected size is 0; otherwise percent times expected equals 100 times current, nonnegative, at most 100 while current <= expected, and 0 for an empty or missing file |
| Videos.CmpVids | concat_go.py:133-144 | 0 iff the mtimes are equal, -1 iff the first is older, 1 iff it is newer |
| Videos.CmpVidsIsOrdering | concat_go.py:133-144 | the comparator is antisymmetric (cmp(a,b) == -cmp(b,a)) and transitive |
| Videos.Insert | concat_go.py:153 | inserting into a sorted list keeps it sorted and adds exactly that video |
| Videos.SortVids | concat_go.py:153 | the sorted list is ordered by nondecreasing mtime and is a permutation of the input |
| Videos.SortVidsIsStable | concat_go.py:153 | videos with equal mtimes keep their input order |
| Videos.FindVids | concat_go.py:147-153 | the result is a sorted permutation of the four glob results concatenated, with ties in glob order |
| Videos.TotalFilesSize | concat_go.py:156-161 | the total is the sum of the file sizes and no file is larger than it |
| Videos.TotalSizeIgnoresOrder | concat_go.py:198-202 | the expected byte count of the sorted list equals that of the unsorted one |
| Videos.TotalSizeExample | concat_go.py:156-161 | files of 10, 20 and 30 MiB give exactly 60 MiB |
| Manifest.Escape | concat_go.py:167 | escaping adds exactly two characters per quote, leaves quote-free paths unchanged, puts two backslashes before every quote, and adds no newline |
| Manifest.UnescapeEscape | concat_go.py:167 | removing the two backslashes before each quote recovers the original path |
| Manifest.EscapeInjective | concat_go.py:167 | distinct paths have distinct escaped forms |
| Manifest.ManifestLine | concat_go.py:167 | a line is "file '" then the escaped path then "'" and a newline |
| Manifest.ManifestText | concat_go.py:165-167 | the manifest is empty iff there are no videos, and each video contributes at least the eight characters of `file ''` and a newline |
| Manifest.ManifestLineCount | concat_go.py:165-167 | with newline-free paths the manifest holds exactly one newline per video |
| Manifest.ManifestRoundTrip | concat_go.py:164-168 | for newline-free paths the manifest reads back as exactly the given paths, one line each, in order |
| Manifest.NewlineInPathBreaksManifest | concat_go.py:166-167 | a path holding a newline splits its line and the manifest no longer reads back |
| Command.SplitSpaces | concat_go.py:170 | splitting on ' ' gives at least one piece and no piece holds a space |
| Command.SplitJoin | concat_go.py:170 | splitting a space-joined list of space-free words gives back the words |
| Command.JoinSplit | concat_go.py:170 | joining the pieces of a split with spaces gives back the string |
| Command.FfmpegCommand | concat_go.py:170 | the formatted command is the template text with the manifest name and the output name in its two holes |
| Command.TemplateWords | concat_go.py:170 | joining the template's ten words with single spaces gives the template text |
| Command.FfmpegArgs | concat_go.py:170 | argv is at least one piece, no piece holds a space, and the pieces joined by spaces give the formatted command, so argv is the split of that command; it is exactly the template's ten words with the names in place iff neither name contains a space |
| Supervisor.NewUi | concat_go.py:71-76 | the screen starts with a fresh estimator towards the expected byte count, reporting N/A |
| Supervisor.SampleBytes | concat_go.py:91-94 | the size read is the stat size, or 0 when stat raised |
| Supervisor.MakeStatus | concat_go.py:96-104 | the status holds the sizes rounded down to whole MiB, the percentage, the estimate, and the bar drawn from that percentage on the default 50-cell '=' bar, which has ticks + 2 characters for 0..100 percent |
| Supervisor.MbBounds | concat_go.py:96 | integer division by 1024**2 rounds down to whole MiB |
| Supervisor.CheckFile | concat_go.py:90-106 | raises exactly when the expected size is 0; otherwise a missing file counts as 0 bytes, the status shows that sample and the expected size in whole MiB together with the sample's percentage, the estimator is fed the sample, the estimate shown is the fed estimator's, N/A iff the size did not change, and the bar is drawn from the shown percentage |
| Supervisor.UiLoop | concat_go.py:82-88 | once a returncode is set the loop returns it without another screen update |
| Supervisor.UiCall | concat_go.py:78-88 | a zero expected size raises in the first update with the returncode of that moment; otherwise a returncode already set ends the call with it; a normal return on a running child needs a poll that reported the exit; the call is still waiting only while no returncode is set |
| Supervisor.LoopReturnsOnlyAfterExit | concat_go.py:82-88 | the loop returns code c iff the expected size is nonzero and the first event other than a still-running tick is a poll reporting c |
| Supervisor.LoopAbortsOnlyOnInterrupt | concat_go.py:82-88 | with a nonzero expected size the loop is aborted iff an interrupt comes before any poll reports an exit |
| Supervisor.LoopNeverRaises | concat_go.py:82-97 | with a nonzero expected size no screen update in the loop raises, so the loop never crashes |
| Supervisor.LoopFeedsEstimator | concat_go.py:82-99 | while the child keeps running every tick's sample reaches the estimator, and the loop stays pending |
| Supervisor.Main | concat_go.py:204-210 | a raising merge_vids ends in LaunchFailed; a zero expected size ends in a crash with the launch poll's returncode; a child that had already exited at launch completes with its code; main still waits only for a running child with a nonzero expected size; completion on a running child needs a poll that reported the code; the iff forms for a running child are in MainEndings |
| Supervisor.MainEndings | concat_go.py:204-210 | for a child still running after the launch and a nonzero expected size, main is interrupted iff an interrupt comes before any reported exit, completes with code c iff a poll reports c before any interrupt, and never crashes |
| Supervisor.FinalReturncode | concat_go.py:208-213 | the returncode the finally block reads is -1 after an interrupt, the polled code after a normal return, the child's at a crash, and none when merge_vids raised |
| Supervisor.Decide | concat_go.py:208-221 | once merge_vids has returned the manifest is removed and the output is removed iff the final returncode is not 0; after a failed launch neither is removed; the child is killed iff interrupted; the directory is saved iff the screen returned normally |
| Supervisor.CleanupContract | concat_go.py:204-221 | the manifest is removed exactly when merge_vids returned; an interrupt kills the child and removes partial output; saving happens only after a poll reported the exit; after a launch, output survives only with returncode 0 |
| Supervisor.ZeroExpectedSizeCrashes | concat_go.py:90-97 | a non-empty set of zero-byte files makes the first screen update raise, the directory is not saved, the returncode is the one from the launch poll, and the output is removed unless that poll reported 0 |
| Supervisor.LaunchFailureKeepsManifest | concat_go.py:164-172 | when merge_vids raises after creating the manifest, main ends in LaunchFailed and the manifest is not removed |
| Supervisor.DecideGuarded | concat_go.py:212-221 | the corrected cleanup removes the manifest on every ending and otherwise decides as the code does |
| Supervisor.GuardedCleanupRemovesManifest | concat_go.py:204-221 | with the corrected cleanup the manifest is removed on every ending of main, and every ending after a launch is cleaned up as before |

## Left out

- Curses rendering, screen refresh and the 0.5 s sleep are terminal I/O and timing. The loop is a state machine over abstract events.
- `PROGRESS_MSG` formatting (`{:10,}`, `{:3.2f}`) and the `timedelta` conversion are float and string formatting. The status keeps the numbers unformatted.
- `datetime.now()` is the wall clock. Times are integer ticks, so the fractional seconds of `total_seconds()` are not modelled.
- RateEstimation.NewEstimate: the source multiplies the floored ratio by a float number of seconds. The model multiplies by integer ticks, so a fractional elapsed time is not represented.
- Process control is OS-level: `subprocess.Popen`, `proc.poll`, `proc.kill` and the `/tmp/merge.log` redirection. The poll result is an input, and killing the child is the `killChild` flag of the cleanup decision.
- File system calls (`os.stat`, `glob.glob`, `tempfile.NamedTemporaryFile`, `os.remove`) are replaced by their results, passed in as data. The delete operations are flags of the cleanup decision.
- An `os.stat` failure inside `cmp_vids` or `total_files_size` is not modelled, because each video comes with its mtime and size already read.
- `save_last_dir` and `get_last_dir` are cache-file I/O. Saving is the `saveLastDir` flag.
- Argument handling, directory validation and the date-stamped output name in `main` are environment glue.
- Videos.CmpVids: `st_mtime` is a float in the source. The model compares integer mtimes.
- A keyboard interrupt that arrives before `merge_vids` has returned is not modelled. At that point `proc` is unbound and the except block itself fails.
- A failure of `tempfile.NamedTemporaryFile` itself is not a separate launch outcome: no manifest exists then, so there is nothing to remove.
- Supervisor.Decide: the manifest is no longer promised to be removed on every ending; after a failed launch the code removes nothing.
- An interrupt is modelled between screen updates. When the launch poll left the returncode unset, an interrupt in the middle of the first screen update is not separate from one right after it, because the outcome is the same. When the launch poll already reported an exit, the loop reads no events, so an interrupt during the first screen update or during `save_last_dir` is not representable; the source would send it to the except block.
- Curses errors are not modelled. For example, `addstr` raises `_curses.error` when the terminal is too small for the message (concat_go.py:80, 84). That error would pass through the except block: the child is not killed, the returncode may still be unset, and the output is removed. `Crashed` covers only the ZeroDivisionError.
- Calling `draw_progress` with an integer percentage truncates `percent/100` to 0 under Python 2. The only caller passes a float, so the model uses the real-valued behaviour.
- How ffmpeg's concat demuxer parses the manifest is not part of this model. `ParseManifest` is the model's own reader, used to state that the manifest is unambiguous for newline-free paths.
- Percentages are exact reals. Float rounding is not modelled.

## Findings

| source | as written | input that shows it | evidently intended | confidence | as-written member | corrected member |
|---|---|---|---|---|---|---|
| concat_go.py:204-221 | the `finally` block reads `proc.returncode` first; when `merge_vids` raised, `proc` is unbound, UnboundLocalError escapes, and `os.remove(tfile)` is never reached | ffmpeg not on PATH: `subprocess.Popen` raises OSError after the `delete=False` manifest was written | the manifest is removed on every ending of `main` | high; not executed | Supervisor.LaunchFailureKeepsManifest | Supervisor.GuardedCleanupRemovesManifest |
