# The audio output mixer's window synchroniser, in Dafny

This project models the mixing stage of an audio output instance
(`src/audio_output/mixer.c`). The core is one mixing cycle, `MixBuffer`. It
works out the next output window `[start, end)`, and it checks every input
queue against that window, repairing the queue where it can:

- it drops late buffers while it computes the start date;
- it drops buffers that ended before the window, with one unit of slack;
- it cuts the queue at holes in timestamp contiguity;
- for linear formats, it snaps the input's byte cursor to the timing.

After that it either stamps one output buffer and hands it on (0) or gives up
(-1). Around the cycle sit its drive loop, `aout_MixerRun`, and the mixer
lifecycle: `aout_MixerNew`, `aout_MixerDelete` and `aout_MixerMultiplierSet`.

The model has five modules:

- `Wrappers`: an `Option` type.
- `Timestamps`: the time arithmetic. It has C's truncating division and the
  drift-free timestamp accumulator `date_t`, which is a date plus a remainder
  counted in 1/rate of a microsecond.
- `Fifo`: a buffer queue and its three repairs. Each repair is specified by a
  function on the queue (`FirstNotLate`, `FirstNotStale`, `Repair`). Each is
  also implemented by a method whose loop pops buffers off the head, as the
  C code does on its linked list, and the method is proved to agree with the
  function.
- `Window`: one cycle as functions on a value snapshot of the instance
  (`PrepareInput`, `StartScan`, `SyncLoop`, `Emit`, `Cycle`, `Run`), with the
  lemmas that state what a cycle guarantees.
- `AudioOutput`: the class `AoutInstance`. Its fields are the instance fields
  that the mixer reads and updates in place. The cycle methods (`FreeInputs`,
  `FindStart`, `MixBuffer`, `EmitBuffer`, `MixerRun`) run the cycle
  imperatively, and each is proved to leave exactly the state that the
  `Window` functions prescribe. The lifecycle methods (the constructor,
  `MixerNew`, `MixerDelete`, `MixerMultiplierSet`) state their new state
  directly in their contracts.

Two details of the code that the model follows as written:

- In reuse mode the output buffer is the head of the first usable input
  (`mixer.c:335`).
- The cursor is truncated toward zero to a whole frame (`mixer.c:299-300`),
  although the comment at `mixer.c:298` says "Round to the nearest multiple".

## Model

| member | source | states |
|---|---|---|
| `Timestamps.TruncDiv` | src/audio_output/mixer.c:277-281 | C division by a positive divisor: the quotient has the sign of the dividend and the remainder lies strictly within one divisor, on the dividend's side of zero |
| `Timestamps.TruncToMultiple` | src/audio_output/mixer.c:299-300 | `i_buffer /= bpf; i_buffer *= bpf` yields a multiple of `bpf` between zero and the original value, less than one `bpf` away from it |
| `Timestamps.TruncDivNested` | src/audio_output/mixer.c:277-281 | dividing by the frame length and then by 10⁶, each time truncating, gives the same result as one truncating division by their product |
| `Timestamps.Date.Set` | src/audio_output/mixer.c:176-177 | date_Set gives the accumulator the new date and drops its fractional remainder (the remainder is 0) |
| `Timestamps.Date.Increment` | src/audio_output/mixer.c:188-189 | date_Increment by `n` samples adds exactly `n` seconds' worth of 1/rate units to date·rate + remainder, and keeps the remainder in range |
| `Timestamps.IncrementStep` | src/audio_output/mixer.c:188-189 | one window moves the end date by the whole number of microseconds in `n` samples, or by one more when the remainder carries |
| `Timestamps.AdvanceConserves` | src/audio_output/mixer.c:188-189 | after `k` successive windows not a single 1/rate unit is lost or gained |
| `Timestamps.DriftFree` | src/audio_output/mixer.c:188-189 | from a freshly set origin `t`, `k` windows of `n` samples end exactly at `t + ⌊k·n·10⁶ / rate⌋`: rounding never accumulates |
| `Window.FreeQueues` | src/audio_output/mixer.c:104-118 | without a mixer every input not in error has its queue emptied; an input in error is left as it was; flags and cursors are kept |
| `Window.DropLateInput` | src/audio_output/mixer.c:158-167 | one input after its late buffers are popped: a suffix of its queue, every dropped buffer had a pts before `now`, the new head (if any) does not, and the cursor is cleared exactly when something was dropped |
| `Fifo.FirstNotLate` | src/audio_output/mixer.c:159-167 | the first index from `i` whose pts is not before `now`; every buffer before it is late |
| `Fifo.DropLate` | src/audio_output/mixer.c:159-167 | the pop loop leaves exactly the queue from the first buffer that is not late, and reports whether it popped any |
| `Fifo.FirstNotStale` | src/audio_output/mixer.c:215-226 | the first index from `i` whose end is at or after `start - 1`; every buffer before it ended before `start - 1` |
| `Fifo.DropStale` | src/audio_output/mixer.c:215-226 | the free-and-advance loop leaves exactly the queue from the first buffer that is not stale, and reports whether it dropped any |
| `Fifo.ScanFrom` | src/audio_output/mixer.c:240-256 | the contiguity scan stops at the first hole (checked first), else at the first buffer reaching `end`, else runs out with the whole queue contiguous and short of `end` |
| `Fifo.ScanGaps` | src/audio_output/mixer.c:236-256 | the inner `for` loop finds the same hole, reaching buffer or exhaustion as `ScanFrom` |
| `Fifo.Repair` | src/audio_output/mixer.c:234-269 | the number of buffers gap repair cuts off the head never exceeds the queue, and a non-empty queue is never emptied |
| `Fifo.RepairGaps` | src/audio_output/mixer.c:234-269 | the outer `for(;;)` loop leaves exactly the queue from `Repair`'s cut, and reports readiness as `Repair` does |
| `Fifo.RepairCutsAtHole` | src/audio_output/mixer.c:257-267 | on a hole exactly the buffers before the first post-hole buffer are removed, so the new head follows a hole |
| `Fifo.RepairLeavesCoverage` | src/audio_output/mixer.c:236-256 | when repair reports ready, the queue left is contiguous from its head up to the first buffer whose end reaches `end` |
| `Fifo.RepairLeavesShortfall` | src/audio_output/mixer.c:244-270 | when repair does not report ready, the queue left is contiguous and every buffer in it ends before `end`, so the cycle aborts |
| `Fifo.RepairKeepsCoveringQueue` | src/audio_output/mixer.c:234-268 | a queue already contiguous up to a buffer reaching `end` is left untouched and ready |
| `Fifo.RepairIsMinimal` | src/audio_output/mixer.c:257-267 | repair drops no more than it must: no earlier cut point (the head, or any hole before the cut) leaves a queue that reaches `end` without a hole |
| `Fifo.HoleBeforeCoverage` | src/audio_output/mixer.c:246-253 | a hole met before any buffer reaches `end` means the queue does not cover the window from its head |
| `Window.TimingOffset` | src/audio_output/mixer.c:277-281 | the byte offset into the head buffer for the window start is `(start - pts)·bytes_per_frame·rate` divided, truncating, by `frame_length·10⁶`; it is non-negative when the buffer starts at or before the window and non-positive when it starts at or after it |
| `Window.SnapCursor` | src/audio_output/mixer.c:288-312 | a cursor strictly within one frame of the timing offset is kept. Otherwise it becomes the offset truncated to a whole frame. A negative result fails and leaves the cursor as it was. For a valid cursor, the check fails exactly when the offset is at least one frame negative |
| `Window.PrepareInput` | src/audio_output/mixer.c:201-313 | checking one input keeps its error/paused flags. It skips the input exactly when the input is in error or paused. A ready input has a queue that covers the window, and valid cursors stay valid |
| `Window.PrepareMarksInvalid` | src/audio_output/mixer.c:201-206 | `is_invalid` becomes `error \|\| paused`, and a skipped input is changed in nothing else |
| `Window.PrepareOnlyPops` | src/audio_output/mixer.c:215-269 | checking an input only pops buffers off its head, at least all of the stale ones |
| `Window.PrepareForgetsCursor` | src/audio_output/mixer.c:215-226 | after stale buffers are dropped the cursor is unset, unless a linear format re-places it from the head of the buffer |
| `Window.PrepareAbortsWhenShort` | src/audio_output/mixer.c:208-270 | a usable input aborts the cycle without touching the output exactly when its remaining queue is empty or falls short of `end` |
| `Window.PrepareReadyCursor` | src/audio_output/mixer.c:273-313 | for a linear format, a ready input's cursor lies strictly within one frame of the offset implied by its head's timing |
| `Window.PrepareResetsWhenBehind` | src/audio_output/mixer.c:299-309 | the output is reset only for a linear format, and (for a valid cursor) only when the timing offset is at least one frame negative |
| `Window.StartScan` | src/audio_output/mixer.c:149-179 | the start-date loop keeps the number of inputs, their flags and valid cursors, and the accumulator's rate |
| `Window.StartScanTrims` | src/audio_output/mixer.c:149-186 | the start-date loop completes exactly when no usable input is left empty after its late buffers go. When it completes, it has popped the late buffers of every usable input, cleared the cursor where it popped any, and touched nothing else |
| `Window.StartScanLatest` | src/audio_output/mixer.c:174-178 | with the clock past 0, the start date is the latest head pts among the usable inputs, and every usable head is at or after `now`. It stays 0 only when no input is usable |
| `Window.FirstUsable` | src/audio_output/mixer.c:201-205 | the index of the first input that is not in error or paused; all before it are |
| `Window.FirstUsableUnique` | src/audio_output/mixer.c:204 | `i_first_input` as the loop counts it (leading invalid inputs) is exactly `FirstUsable`, so it equals the input count exactly when every input is invalid |
| `Window.SyncInput` | src/audio_output/mixer.c:195-313 | one pass of the input loop on input `i` followed by the rest of the loop: it keeps the number of inputs, their flags and valid cursors, leaves the inputs before `i` untouched, and when the loop completes every usable input from `i` on covers the window |
| `Window.SyncLoop` | src/audio_output/mixer.c:193-314 | the input loop from input `i` keeps the flags and valid cursors of all inputs and leaves the inputs before `i` untouched. When it completes, every usable input has a non-empty queue covering the window |
| `Window.ResetOutput` | src/audio_output/mixer.c:137-138 | `aout_FifoSet(…, 0)` with `date_Set(…, 0)`: the output fifo is emptied and its end date becomes 0 with no remainder at the same rate; every other field is kept, and a well-formed instance stays well formed |
| `Window.Emit` | src/audio_output/mixer.c:188-350 | once the start is known, a cycle either hands over exactly one buffer (0) or none (-1), and keeps the instance well formed |
| `Window.EmitOutcome` | src/audio_output/mixer.c:316-350 | a buffer is produced exactly when the input loop completed, some input is usable and an allocating mixer's allocation succeeds. The buffer is stamped `pts = start`, `length = end - start`. It is either a fresh block of `nb_samples·bpf/frame_length` bytes or the restamped head of the first usable input. The output fifo is reset only on a cursor that cannot be placed |
| `Window.Cycle` | src/audio_output/mixer.c:96-351 | one call returns 0 or -1, produces one buffer on 0 and none on -1, and keeps the instance well formed |
| `Window.CycleWithoutMixer` | src/audio_output/mixer.c:102-120 | without a mixer the call returns -1 after freeing every buffer queued on an input not in error; inputs in error and everything else are untouched |
| `Window.CycleClearsLateOutput` | src/audio_output/mixer.c:130-140 | an output dated but behind the clock is cleared: the output fifo ends empty and its date is 0, whatever else the cycle does |
| `Window.CycleKeepsTimelyOutput` | src/audio_output/mixer.c:126-140 | when the output's end date is set and not behind the clock, the window starts at that date and spans `nbSamples` samples from it, and the output fifo and its date are kept unless a cursor could not be placed |
| `Window.StartScanNotPast` | src/audio_output/mixer.c:149-179 | for any clock, the start-date loop from an unset or not-past date ends at a date not before the clock, unless no usable input was met and the date is still 0 |
| `Window.CycleNeverEmitsPast` | src/audio_output/mixer.c:126-187 | for any clock, a produced buffer never starts before the clock |
| `Window.Run` | src/audio_output/mixer.c:358-361 | the drive loop runs at most one cycle per clock reading. When it stops early, every cycle but the last produced one buffer. The produced buffers follow, in order, those handed over before |
| `AudioOutput.CheckOneInput` | src/audio_output/mixer.c:201-313 | the body of the input loop on one input computes exactly `PrepareInput` |
| `AudioOutput.CheckInput` | src/audio_output/mixer.c:195-313 | one iteration advances `i_first_input` past a leading invalid input and stops the loop exactly when `SyncLoop` does, with the same reset decision |
| `AudioOutput.CheckInputs` | src/audio_output/mixer.c:193-314 | the input loop ends in exactly the outcome of `SyncLoop`. When it completes, `i_first_input` counts the leading invalid inputs |
| `AudioOutput.AoutInstance.MixerNew` | src/audio_output/mixer.c:44-71 | requires no mixer. It succeeds exactly when object creation and module loading both succeed, and only then installs a mixer with the instance's format and gain and the module's allocation policy |
| `AudioOutput.AoutInstance.MixerDelete` | src/audio_output/mixer.c:78-89 | always leaves no mixer |
| `AudioOutput.AoutInstance.MixerMultiplierSet` | src/audio_output/mixer.c:369-374 | stores the gain on the instance, and on the mixer when there is one |
| `AudioOutput.AoutInstance.FreeInputs` | src/audio_output/mixer.c:104-118 | empties the queue of every input not in error, and changes nothing else |
| `AudioOutput.AoutInstance.FindStart` | src/audio_output/mixer.c:146-186 | the start-date loop leaves the inputs and the start date that `StartScan` prescribes, and fails exactly when `StartScan` starves |
| `AudioOutput.AoutInstance.MixBuffer` | src/audio_output/mixer.c:96-351 | one call leaves the instance exactly in the state `Cycle` prescribes and returns its status |
| `AudioOutput.AoutInstance.EmitBuffer` | src/audio_output/mixer.c:188-350 | the part after the start date leaves the instance exactly as `Emit` prescribes |
| `AudioOutput.AoutInstance.MixerRun` | src/audio_output/mixer.c:358-361 | the loop `while (MixBuffer() != -1);` leaves the state, the cycle count and the produced count that `Run` prescribes |

## Left out

- Locking is not modelled (the input and output fifo locks, and the lock assertions). One call runs atomically.
- The `mix` callback and `aout_OutputPlay` are not modelled. The model records each buffer handed to them in `played`; sample data, and their effect on the queues and on the output fifo's end date, are not modelled.
- Window.Run: `aout_MixerRun` loops until a cycle returns -1, with no bound. Because the output date does not advance in the model, the loop is driven by a finite sequence of clock readings (one per cycle) and allocation outcomes, and stops when those run out.
- `mdate()` is read several times per cycle in the source. The model reads the clock once per cycle, as `now`.
- `mtime_t` is 64-bit and sizes are unsigned in the source. The model uses unbounded integers, so overflow and wrap-around are not modelled.
- The implementation of `date_t` (date_Set, date_Get, date_Increment) is not part of this model. It is modelled from its documented behaviour as an exact accumulator with a divider of 1.
- Object creation and mixer module loading and unloading are not modelled as such. They become boolean success inputs of `MixerNew`, and the module's choice of allocation policy is an input too.
- The gain is a `real`. It is only ever copied, so single-precision float behaviour is not modelled.
- `block_Alloc` may fail, which is an input of the cycle. Fields of a fresh block other than its size, sample count and stamp are not modelled.
- Freeing a buffer is its removal from the sequence. Without a mixer, the source frees the buffers but leaves `p_first` pointing at them; the model empties the queue instead.
- The `pp_last` pointer and the other linked-list bookkeeping are not modelled: a queue is a sequence.
- The cursor is a byte offset into the head buffer, standing for the `begin` pointer. After a gap cut the source keeps `begin` pointing into a freed buffer. The model keeps the offset unchanged and proves nothing that depends on it being meaningful after a gap cut.
- After a gap cut the new head is not checked for staleness again, in the source or in the model. No property claims a fresh head after a cut.
- Warnings and error messages are not modelled.
- AudioOutput.AoutInstance.EmitBuffer runs the input loop on a local copy of the inputs and writes it back. A cursor reset of the output fifo is applied just after the loop instead of inside it. Nothing reads the inputs or the output fifo in between, so the final state is the same.
- Window.StartScanLatest is stated only for a clock past 0, because the source reads a start date of 0 as "unset". With a head pts of 0 or below, the fold is no longer a maximum.
