# vidgen core, modelled in Dafny

vidgen turns a directory of numbered image files into a video. It indexes the
frames of the source directory. It then spawns an ffmpeg child with a piped
stdin and streams every frame file into that pipe in id order, deleting each
file once it has been copied. The program consumes the runner's events. In
"keysight quirks" mode a watchdog task keeps a `_progress.json` snapshot of
how far the encoding has got.

The model has one module per source file:

| file | module | models |
|---|---|---|
| `common.dfy` | `Common`, `Text` | `anyhow` cause chains (`Result.Context`), the `u8`/`u32`/`u64` limits, Rust's `str::parse` for unsigned integers (a leading `+` is allowed; errors are empty, invalid digit, overflow), `to_string` of a number, `split` and `splitn(2, …)` |
| `framelist.dfy` | `FrameIndex` | `NAME_REGEX` as an unanchored, leftmost match of `(\d+)\.\w{3,4}`, `filter_item`, the collecting stream of `from_dir`, and `frames.sort()` as a stable sort by id |
| `runner.dfy` | `RunnerTask` | `Runner::start` (wiring, spawn failure) and `Runner::run`. This is a class whose loop is proved equal to a frame-by-frame specification `RunSpec`. The lemmas give its closed forms: events, stdin bytes, file store and effect trace, for a complete run, a run whose receiver goes away, and a run that stops at a failing file. |
| `quirks.dfy` | `Quirks` | one iteration of `KeysightQuirks::run`, schedules of pushes, kills and timer iterations over it, the `ProgressFile`/`Status` shape, and the task with its handle as the class `Watchdog` |
| `program.dfy` | `Program` | `parse_resolution`, `find_ident_frame`, the `--extra-arg` loop, the `DebugLevel` tables, and the event-consumption loop of `program` driving a `Watchdog` |
| `x264.dfy` | `X264` | `Crf::parse`, and the `Display` tables and derived order of `X264Preset` and `X264Tune` |

Some of the outside world is modelled as parameters rather than as I/O:
- A directory is a `Directory` value: a listing error, or a sequence of entries. Each entry has a name that may not be UTF-8, a path, and a flag for whether the stream yielded it.
- What the runner cannot know in advance is a `World`:
  - after how many delivered messages the receiver is gone (once gone, it stays gone);
  - which paths fail to open, to copy (after how many bytes) or to be removed;
  - the elapsed time.
- A spawn failure is an `Option<string>` given to `Runner.Start`.
- The watchdog's timer is a count of loop iterations after each push (`ticks`). Its write failures are a set of attempt numbers. `tokio::fs::write` truncates the file before it writes, so after a failed attempt the model's file content is `Unknown`: the old snapshot, an empty file or a partial one.

Code and prose disagree in two places, and the model follows the code:
- The runner's error does not carry the frame id. `Runner::run` only logs the id (src/runner.rs:130). The error it returns is the anyhow chain built by `.context(...)` on the I/O error. So the model's error chains are `[OPEN_FAILED_MSG, why]`, `[STREAM_FAILED_MSG, why]` and `[REMOVE_FAILED_MSG, why]`.
- A refused `Frame` announcement does not stop the runner at once. The `snd_chk!` for it sits inside the frame's `async` block (src/runner.rs:85-125), so its `return Ok(())` ends only that block, and the block's `Ok` does not trigger the error return at src/runner.rs:129-132. The loop then offers every remaining announcement, each refused and without touching its file. After the loop the runner closes stdin, waits for the child, offers `Stop` (refused too) and returns `Ok`. Only a refused `Start` (src/runner.rs:72-79) returns from `run` directly.

## Model

| member | source | states |
|---|---|---|
| Text.Decimal | src/main.rs:179 | the decimal text of a number is a nonempty digit string with no leading zero |
| Text.Accumulate | src/framelist.rs:45 | defines the digit loop of the unsigned parse: left to right, failing on a non-digit or as soon as the value passes the maximum |
| Text.ParseUnsignedSpec | src/framelist.rs:45 | an unsigned parse succeeds exactly on an optional `+` followed by at least one ASCII digit whose value is at most the type's maximum, and yields that value |
| Text.ParseUnsigned | src/framelist.rs:45 | a successful parse never exceeds the type's maximum |
| Text.DecimalRoundTrip | src/main.rs:179 | the decimal text of any `n` up to the maximum parses back to `n` |
| Text.DecimalOverflow | src/framelist.rs:45 | the decimal text of a number above the maximum fails with the overflow error |
| Text.Split | src/main.rs:307 | `split` yields at least one piece and no piece contains the separator |
| Text.Join | src/main.rs:307 | defines joining pieces with the separator, the inverse `split` is checked against |
| Text.JoinSplit | src/main.rs:307 | joining the pieces of `split` with the separator gives the text back |
| Text.SplitTwo | src/main.rs:307-308 | `split` yields exactly two pieces iff the text is `a + sep + b` with the separator in neither part |
| Text.SplitOnce | src/main.rs:222-224 | defines `splitn(2, sep)`: the text before the first separator and, if there is one, the rest |
| Text.SplitOnceSpec | src/main.rs:222-224 | `splitn(2, sep)`: the key has no separator, there is a value iff the text has a separator, and key, separator and value rejoin to the text |
| FrameIndex.MatchesAt | src/framelist.rs:8-9 | defines the pattern test at one position: the whole digit run there, a dot, then at least 3 word characters, which is what `\w{3,4}` needs to match |
| FrameIndex.MatchesAtSpec | src/framelist.rs:8-9 | the match test at a position decides the pattern (digits, a dot, 3 or 4 word characters), and every match there captures the whole digit run |
| FrameIndex.FirstMatchFrom | src/framelist.rs:44 | the search finds the leftmost match position, and finds nothing only when no position matches |
| FrameIndex.CaptureId | src/framelist.rs:44-45 | the captured group is a nonempty run of digits |
| FrameIndex.FilterItem | src/framelist.rs:42-47 | a kept entry keeps its full path unchanged and gets an id within `u64` |
| FrameIndex.FilterItemSpec | src/framelist.rs:42-47 | an entry is a frame iff its name is UTF-8, contains a match, and the leftmost match's digits fit in a `u64`; the id is their value |
| FrameIndex.NoMatchNoFrame | src/framelist.rs:44 | a name with no match anywhere is never a frame |
| FrameIndex.FrameNameExamples | src/framelist.rs:8-9 | `frame_0007.png` gives id 7 with its path; `report.txt` and a non-UTF-8 name are rejected |
| FrameIndex.DigitRunEnd | src/framelist.rs:8-9 | the digit run from a position consists of digits only and stops at the end of the name or at the first non-digit |
| FrameIndex.Keep | src/framelist.rs:32-33 | defines the two `filter_map`s for one entry: drop an unreadable entry, then apply `filter_item` |
| FrameIndex.CollectSpec | src/framelist.rs:32-34 | a frame is collected iff some readable entry's `filter_item` yields it; unreadable entries are dropped silently |
| FrameIndex.Collect | src/framelist.rs:32-34 | the stream keeps at most one frame per directory entry |
| FrameIndex.InsertById | src/framelist.rs:14-18 | defines insertion by id after every frame of equal or smaller id |
| FrameIndex.SortById | src/framelist.rs:37 | defines the stable sort as insertion of each frame in list order |
| FrameIndex.InsertSorted | src/framelist.rs:37 | inserting into an id-sorted list keeps it sorted |
| FrameIndex.InsertPermutes | src/framelist.rs:37 | insertion adds exactly the new frame and loses none |
| FrameIndex.InsertBounded | src/framelist.rs:37 | insertion keeps every id of the list and of the new frame, so a bound on all of them still holds |
| FrameIndex.InsertStable | src/framelist.rs:14-18 | insertion puts a frame after every frame of equal id, so equal ids keep their order |
| FrameIndex.SortByIdSpec | src/framelist.rs:37 | the sort's output is nondecreasing by id, is a permutation of its input, and keeps the frames of each id in encounter order |
| FrameIndex.FromDir | src/framelist.rs:26-40 | defines `from_dir`: the listing error under its context, or the kept entries sorted by id |
| FrameIndex.FromDirSpec | src/framelist.rs:26-40 | `from_dir` fails iff the directory cannot be listed, with chain `[list message, why]`; otherwise the frames are sorted, a permutation of the kept entries, stable per id, and are exactly the frames of readable entries |
| X264.PresetName | src/x264.rs:18-33 | defines the `Display` name of each preset |
| X264.PresetRank | src/x264.rs:5-16 | defines the declaration index the derived order compares |
| X264.PresetOrder | src/x264.rs:5-16 | the nine presets in declaration order are strictly increasing, and any two distinct presets are ordered |
| X264.PresetNamesDistinct | src/x264.rs:18-33 | the nine preset names are pairwise different lowercase words |
| X264.TuneName | src/x264.rs:45-57 | defines the `Display` name of each tuning |
| X264.TuneNamesDistinct | src/x264.rs:45-57 | the six tuning names are pairwise different lowercase words |
| X264.ParseCrf | src/x264.rs:64-75 | an accepted factor lies in 0 to 51 |
| X264.ParseCrfSpec | src/x264.rs:62-75 | success iff the text is a `u8` literal of value at most 51, yielding `Crf` of it; "crf is not a number" iff it is no `u8`; "crf out of range" iff its value lies in 52 to 255 |
| X264.CrfRoundTrip | src/x264.rs:64-67 | the decimal text of every `n` up to 51 parses to `Crf(n)` |
| X264.CrfRejects | src/x264.rs:65-73 | 52 to 255 fail as out of range; above 255 fail as not a number, with the overflow cause |
| RunnerTask.SendStep | src/runner.rs:15-21 | defines `snd_chk!`: a delivered send appends the message; a refused one is traced and makes the enclosing body return `Ok` |
| RunnerTask.FrameStep | src/runner.rs:85-132 | defines one pass of the loop: announce (a refusal ends only this pass), open, copy, remove, with the error each failure returns |
| RunnerTask.Pump | src/runner.rs:83-133 | defines the loop: the passes in list order until one returns an error |
| RunnerTask.Prelude | src/runner.rs:64-79 | defines what comes before the loop: take stdin or fail with its message, then send `Start` with the frame count |
| RunnerTask.RunSpec | src/runner.rs:64-151 | defines the whole run: prelude, loop, then close stdin, wait for the child and send `Stop` |
| RunnerTask.FrameMessages | src/runner.rs:83-93 | one `Frame` message per frame, with that frame's id and path, in list order |
| RunnerTask.RemovedPaths | src/runner.rs:109-120 | a path is removed iff it belongs to a frame whose removal does not fail |
| RunnerTask.Refusals | src/runner.rs:86-93 | one refused announcement per frame, with that frame's id and path, in list order |
| RunnerTask.AfterKeepsLaterFiles | src/runner.rs:83-127 | a frame's file is untouched until the loop reaches that frame |
| RunnerTask.FrameStepAfter | src/runner.rs:83-132 | from the state after the first `j` frames, frame `j` goes through to the state after `j + 1` frames when it is good. When the receiver is gone by its announcement, only the refused send is traced and the loop goes on. When its file fails, it ends the run. |
| RunnerTask.AfterSnocLists | src/runner.rs:86-113 | one good frame further on, the events gain its `Frame` message, stdin gains its bytes and the trace gains its effects |
| RunnerTask.AfterSnocFiles | src/runner.rs:109-120 | one good frame further on, its file is gone unless its removal fails |
| RunnerTask.PumpStep | src/runner.rs:83-133 | when the loop is still running after `i` frames, frame `i` decides the next step |
| RunnerTask.PumpChain | src/runner.rs:83-133 | a chain of states in which each frame leads from one state to the next is what the whole loop goes through |
| RunnerTask.PumpAllOk | src/runner.rs:83-133 | when every frame goes through, the loop ends in the closed form: all frame messages, all contents concatenated, removed files gone |
| RunnerTask.PumpFirstBad | src/runner.rs:95-132 | the loop exits exactly at the first frame whose announcement is delivered but whose file fails, with that frame's step result |
| RunnerTask.PumpRefused | src/runner.rs:83-93 | once the receiver is gone the loop only offers the remaining announcements: nothing is delivered, opened, copied or removed |
| RunnerTask.PumpAppend | src/runner.rs:83-133 | the loop over two lists in a row is the loop over the first and, unless it exited, then over the second |
| RunnerTask.PumpThenRefused | src/runner.rs:83-133 | a loop that got through a first part and then found the receiver gone only adds refusals for the rest |
| RunnerTask.PumpGoneAt | src/runner.rs:83-133 | when the receiver is gone by frame `j`'s announcement, the loop ends in the closed form of the first `j` frames plus the refused announcements of the rest |
| RunnerTask.PumpSpec | src/runner.rs:83-133 | the three ways the loop ends, for every index. Every frame good: the closed form of all of them. The receiver gone at frame `j`: the closed form of the first `j` plus refused announcements. A first failing file: that frame's exit. |
| RunnerTask.FrameStepFails | src/runner.rs:86-120 | in source order. A refused announcement returns from that frame's block only: the refusal is traced and the loop goes on. A failed open, copy or (without `delete_quirk`) delete returns its error. Each case states the exact new state, and a failed copy leaves a prefix of the file on stdin. |
| RunnerTask.RunNoStdin | src/runner.rs:65-69 | without a stdin the run fails with "no stdin, is ffmpeg running?" before anything is sent or touched |
| RunnerTask.RunRefusedStart | src/runner.rs:72-79 | when the receiver refuses `Start` the run returns `Ok` at once: nothing delivered, no stdin bytes, files untouched, the one refused send traced |
| RunnerTask.RunAllOk | src/runner.rs:83-151 | when every frame goes through the run returns `Ok`. Its events are `Start(n)`, every frame, and `Stop` if delivered. Stdin holds all contents in order and the removed files are gone. The trace ends with closing stdin, waiting for the child and sending `Stop`. |
| RunnerTask.RunFirstBad | src/runner.rs:95-132 | a run whose first failing frame is `j` (announced, file fails) ends in that frame's exit state and result |
| RunnerTask.RunGoneAt | src/runner.rs:83-151 | the receiver gone at frame `j`: events, stdin and files are those after the first `j` frames. The trace adds refusals for the rest, then closing stdin, waiting for the child and a refused `Stop`. The result is `Ok`. |
| RunnerTask.ReceiverGoneExample | src/runner.rs:83-151 | one frame `a` with the receiver gone right after `Start`: the trace is `Start` delivered, the frame announcement refused, close stdin, wait for the child, `Stop` refused. File `a` stays and the result is `Ok`. |
| RunnerTask.RunSpecCases | src/runner.rs:64-151 | a run is one of four cases. `Start` refused. Every frame good: stdin is the concatenation of the files in list order, the trace closes stdin before waiting for the child, and `Stop` is offered last. The receiver gone at frame `j`: the later announcements are refused, no file is touched, then close, wait, a refused `Stop` and `Ok`. Or it ends at the first failing file. |
| RunnerTask.StopMeansComplete | src/runner.rs:135-150 | `Stop` is delivered iff the run had stdin, every frame went through and the receiver was still there. Then the result is `Ok`, the events are exactly `Start`, the frames in order, then `Stop`, stdin holds every file's bytes in order, and without `delete_quirk` no frame file remains. |
| RunnerTask.StopOnlyIfComplete | src/runner.rs:135-150 | `Stop` is among the delivered events iff the run had stdin, every frame went through and the receiver was still there for it |
| RunnerTask.CompleteRun | src/runner.rs:83-151 | a complete run returns `Ok`, delivers exactly the protocol, puts every file's bytes on stdin in order, ends with close, wait and the delivered `Stop`, and without `delete_quirk` leaves no frame file behind |
| RunnerTask.EventsFollowProtocol | src/runner.rs:72-147 | whatever fails, the delivered events are a prefix of `Start(n)`, the frames in list order, `Stop` |
| RunnerTask.ProtocolPrefix | src/runner.rs:72-93 | `Start` and the first `j` frame messages are the first `j + 1` events of the protocol, and one more frame gives the next prefix |
| RunnerTask.FrameStepEvents | src/runner.rs:86-93 | one frame adds at most its own `Frame` message to the events |
| RunnerTask.RunEnds | src/runner.rs:72-150 | an error has one of the four messages as its outermost cause and its failing operation is the last effect. `Ok` ends with either a refused `Start` or the offered `Stop`, never with a frame announcement. |
| RunnerTask.QuirkToleratesRemoval | src/runner.rs:114-120 | with `delete_quirk` a failed removal never ends the run |
| RunnerTask.FirstBadIndex | src/runner.rs:83-133 | when not every frame goes through there is a first bad frame |
| RunnerTask.ExitAbsorbs | src/runner.rs:129-132 | after an exit, later frames change nothing |
| RunnerTask.Wire | src/runner.rs:39-42 | the child gets a piped stdin, and its stdout and stderr are discarded; program and arguments unchanged |
| RunnerTask.Runner.Start | src/runner.rs:33-61 | a spawn failure is returned, as "failed to start ffmpeg process" over the OS error, before any runner exists. Otherwise a fresh runner with stdin, empty logs and the given files. |
| RunnerTask.Runner.constructor | src/runner.rs:47-52 | a new runner holds the given stdin flag, quirk flag, world and frames, with empty logs over the given files |
| RunnerTask.Runner.Send | src/runner.rs:15-21 | a send appends the message when the receiver is there and reports whether it was delivered, as `SendStep` says |
| RunnerTask.Runner.StreamFrame | src/runner.rs:85-132 | one loop body changes the state and picks the result exactly as `FrameStep` does; a refused announcement does not stop the loop |
| RunnerTask.Runner.PumpFrames | src/runner.rs:83-133 | the frame loop leaves the state `Pump` gives and stops early exactly when `Pump` exits (a failing file), with its result |
| RunnerTask.Runner.Run | src/runner.rs:64-151 | the run's final events, stdin, files, trace and result are those of `RunSpec` |
| Quirks.StatusTag | src/quirks.rs:141-147 | defines the `status` tag serde writes for each variant |
| Quirks.JsonKeys | src/quirks.rs:132-147 | defines the keys of the serialised snapshot, with `status` flattened in |
| Quirks.Iterate | src/quirks.rs:57-95 | defines one loop pass: the kill check first, then the slot's message, with the snapshot it writes |
| Quirks.Apply | src/quirks.rs:57-129 | defines one event on the task: a push overwrites the slot, a kill raises the signal, a wake is one pass unless the loop has exited |
| Quirks.Run | src/quirks.rs:55-129 | defines a schedule of events applied in order, collecting the snapshots written |
| Quirks.SnapshotShape | src/quirks.rs:132-147 | the status tag is one of rendering, done and error, the tag tells the error variant apart, and `error_chain` is a key iff the tag is error |
| Quirks.IterateSpec | src/quirks.rs:57-95 | the kill check comes first (done or error snapshot, empty path, exit); a frame sets `frames` to its id and writes a rendering snapshot; an error writes and exits; anything else writes nothing; the slot is always left empty |
| Quirks.LastPushWins | src/quirks.rs:121 | of two pushes with nothing in between, the first is lost |
| Quirks.ExitedIsFinal | src/quirks.rs:55-97 | once the loop has exited nothing more is written and `frames` stays |
| Quirks.StopEndsLoop | src/quirks.rs:60-68 | kill and one iteration always end the loop with one done or error snapshot, of the current `frames`, with an empty path |
| Quirks.RunWriteLog | src/quirks.rs:55-97 | over any schedule from a fresh task, every snapshot keeps the same total and every rendering snapshot shows a pushed frame's id and path. Only the last snapshot can be done or error, and then the loop has exited. |
| Quirks.RunMonotone | src/quirks.rs:73-94 | when frames are pushed in nondecreasing id order, rendering snapshots never go backwards and never exceed the last pushed id, whichever pushes the timer misses |
| Quirks.JoinPath | src/quirks.rs:35 | `Path::join`: the directory, a `/` unless it is empty or already ends with one, then the name |
| Quirks.Watchdog.Start | src/quirks.rs:34-53 | the task starts with `frames` 0, an empty slot, the fixed total, no snapshot written, and `_progress.json` joined onto the source directory as its path |
| Quirks.Watchdog.PushMsg | src/quirks.rs:121 | the slot is overwritten with the message; nothing else changes |
| Quirks.Watchdog.WriteProgress | src/quirks.rs:25-31 | every write is attempted and logged and does not stop the loop. A successful write replaces the file with the snapshot; after a failed one the file's text is unknown. |
| Quirks.Watchdog.Wake | src/quirks.rs:57-95 | one loop pass changes the state and writes exactly as `Iterate` does; after exit it does nothing |
| Quirks.Watchdog.Stop | src/quirks.rs:123-129 | `stop` returns `Ok` and leaves the task exited, in the state that kill then one iteration lead to |
| Quirks.NoFailuresShowLatest | src/quirks.rs:108-110 | with no failed writes the file shows the latest snapshot |
| Quirks.FileAfterSnoc | src/quirks.rs:108-110 | each attempt replaces the file: it leaves its snapshot, or unknown text if it fails |
| Quirks.FileNeverStale | src/quirks.rs:108-110 | a readable file never shows a stale snapshot: it holds one exactly when the latest attempt succeeded, and then it holds that attempt's snapshot |
| Program.ParseResolution | src/main.rs:306-315 | defines `parse_resolution`: split at `x`, require two pieces, parse width then height as `u32` |
| Program.ParseResolutionPieces | src/main.rs:306-315 | for `a x b` with no other `x`: two `u32` numbers give `(width, height)`; a bad width is reported first, then a bad height |
| Program.ParseResolutionSpec | src/main.rs:306-315 | success iff the text is two `u32` literals around a single `x`; any other piece count fails with the format message |
| Program.ResolutionRoundTrip | src/main.rs:179 | the `{w}x{h}` text of two `u32` values parses back to `(w, h)` |
| Program.IdentFold | src/main.rs:326-332 | defines the fold: a frame replaces the accumulator only when its id is strictly smaller |
| Program.FindIdentFrame | src/main.rs:318-341 | defines `find_ident_frame`: the listing error, the fold from the `u64::MAX` sentinel, and the error when the sentinel survives |
| Program.IdentFoldSpec | src/main.rs:326-332 | the fold yields the first frame of smallest id when one beats the accumulator, otherwise the accumulator itself |
| Program.FindIdentFrameSpec | src/main.rs:318-341 | it fails with the listing error, or with "no valid init frame found" iff every kept frame has id `u64::MAX`. Otherwise it names the first kept frame of smallest id. |
| Program.IdentOfListing | src/main.rs:326-335 | the fold over the kept frames gives the sentinel id iff every kept id is `u64::MAX`; otherwise a kept frame of smallest id, below the sentinel, with no frame of that id before it |
| Program.IdentIsFirstOfFrameList | src/main.rs:326-332 | the frame found is the head of the sorted frame list |
| Program.SortedHead | src/framelist.rs:37 | the first frame of smallest id heads the stably sorted list |
| Program.KeptIdsBounded | src/main.rs:335 | every kept id is at most `u64::MAX`, so the sentinel is never beaten by a larger id |
| Program.ExtraArgWords | src/main.rs:222-229 | defines the words of one `--extra-arg`: the key, then the value if there is one |
| Program.ExtraArgWordsSpec | src/main.rs:222-229 | one `--extra-arg` gives one or two words; the key has no `=`; the value comes iff the argument has an `=`; rejoined with `=` they give the argument back |
| Program.AppendExtraArgs | src/main.rs:221-230 | the loop appends the words of every extra argument, in order |
| Program.ExtraArgsWordsCount | src/main.rs:221-230 | n extra arguments add between n and 2n words; arguments without `=` are passed as they are |
| Program.ConsoleLevel | src/main.rs:33-38 | defines the console filter of each debug level |
| Program.FileLevel | src/main.rs:40-45 | defines the log-file filter of each debug level |
| Program.DebugName | src/main.rs:456-461 | defines the command-line name of each debug level |
| Program.Enabled | src/main.rs:468 | defines `enabled`: every level but off |
| Program.DebugLevelTables | src/main.rs:33-45 | both filters grow with the level; the file filter is one step more verbose than the console's (up to trace); the level names differ; only off is disabled |
| Program.LogLayersSpec | src/main.rs:52-70 | there is a file layer iff the level is not off and the file could be created, and it is more verbose than the console unless the level is full |
| Program.Forwarded | src/main.rs:272-292 | defines what the loop forwards to the watchdog: one frame message per `Frame` event, and whether a second `Start` made it panic |
| Program.ConsumeSpec | src/main.rs:256-303 | defines how the program ends on the runner's events: missed start, panic, or the runner's result under its context |
| Program.PushTo | src/main.rs:276 | a forwarded frame is pushed to the watchdog: its state follows the schedule extended by that push |
| Program.WakeTimes | src/quirks.rs:70 | n timer passes extend the watchdog's schedule by n iterations |
| Program.Notify | src/main.rs:274-277 | a push and the timer passes after it keep the watchdog on the schedule |
| Program.Consume | src/main.rs:256-303 | the loop's exit is that of `ConsumeSpec`: missed start, panic on a second `Start`, or the runner's result under "runner exited with error". The watchdog exists iff progress is on, and it follows the pushes, then kill and a final iteration. |
| Program.QuirksFrames | src/main.rs:274-277 | one watchdog frame message per frame, with the frame's id and path, in order |
| Program.ForwardedOfProtocol | src/main.rs:272-292 | on any prefix of the runner's protocol the loop never panics and forwards one message per delivered frame, in order |
| Program.EventsAfterStart | src/runner.rs:72-147 | a run that delivered anything delivered `Start(n)` first and then follows the protocol |
| Program.ForwardedIsPrefix | src/main.rs:272-292 | the forwarded messages are those of the first k frames |
| Program.ConsumeRunner | src/main.rs:256-303 | on the runner's own events the program never panics. Without a delivered `Start` (no stdin, or the receiver gone) it fails with the missed-start error. Otherwise it returns the runner's result under "runner exited with error", and the watchdog gets a prefix of the frames, then the error chain if there is one. |
| Program.ConsumeCompleteRun | src/main.rs:279-303 | once `Stop` arrived, every frame was forwarded, no error is pushed, and the program returns `Ok` |
| Program.ScheduleInOrder | src/main.rs:272-278 | the timer passes push nothing, so the watchdog sees the pushes in the order they were made |
| Program.SortedFramesInOrder | src/framelist.rs:37 | the frames of the sorted list, then an error, are pushed in nondecreasing id order |
| Program.ScheduleMonotone | src/quirks.rs:73-94 | pushes in id order with any interleaving of timer passes, then `stop`: rendering snapshots never go backwards |
| Program.ProgressNeverGoesBack | src/quirks.rs:90-94 | end to end: indexed frames are streamed and forwarded, and however many updates the timer drops, the progress file's rendering snapshots never show a smaller frame id than an earlier one |

## Left out

- The frame-name pattern uses ASCII `\d` and `\w`, where the source's regex classes are Unicode. A name whose leftmost digit run includes a non-ASCII digit (such as `٣12.png`) is skipped by the source, because the `u64` parse of the whole run fails. The model may instead keep it, under the id of its ASCII digits. A non-ASCII letter in the extension matches `\w` in the source and not here.
- `frames.sort()` is a library call with no loop in the source. It is modelled as a pure stable insertion sort by id, not an in-place array algorithm.
- The derived `Ord`/`PartialEq` on `Frame` also compare the path. The sort never uses them, so they are not modelled.
- File paths are plain strings. `Path::join` is modelled for the progress file only (Unix separator, relative name). `display()` and lossy conversion are not modelled; the frame message's path is the frame's path.
- The runner's closed-form lemmas assume that the frame list has pairwise distinct paths, as a directory listing has.
- RunnerTask.Runner.Run: it requires a runner with empty logs, as the source's `run(self)` consumes the runner and so runs once.
- RunnerTask.FrameStep: the bytes a failed `copy_buf` wrote are modelled as a prefix of the file of a length given by the world. Partial writes into the pipe buffer are not modelled.
- The child's exit status from `wait` is ignored by the source. The model records only that it waited.
- Concurrency is left out: tokio tasks, the bounded channel of capacity 64 and its backpressure, `select!` with its one-second sleep, and the mutex. The runner's receiver going away is a count of delivered messages. The watchdog's timer is a number of loop passes after each push.
- The runner's `join` error from a panicked task ("await failed") is not modelled. `joined` is any result given to `Consume`.
- The byte-exact JSON written by `serde_json` and `tokio::fs::write` is not modelled. A snapshot is a record with its key set, and a write failure is an attempt number in a set.
- The `Stop` message's duration is a number. Its human-readable formatting in the log is not modelled.
- The program surfaces a runner without stdin as "somehow missed start message", not as the runner's own error. That is what the source does, since `Start` is never sent and the first `event()` returns `None`.
- Building the ffmpeg argument list with the `Command` API is not modelled, apart from the extra-argument words and the `-s`/`-crf` texts. Program discovery, ffprobe and its JSON, and audio options are not modelled either, because they are process spawns, floating point and library builders.
- clap argument parsing, the tokio runtime setup, tracing output formatting and `wait_before_exit` are not modelled.
- src/transparency.rs (floating-point colour arithmetic, not part of the build) and src/ffmpeg.rs (process spawning and path checks) are not part of this model.
- Numbers are unbounded `nat`s with explicit `u8`/`u32`/`u64` maxima wherever the source parses. The `usize` to `u64` cast of the frame count cannot overflow in practice and is not modelled.
