/**
 * The window synchroniser and mixing invocation of one mixer cycle
 * (`MixBuffer`), as functions on a value snapshot of the audio output
 * instance. The class in module AudioOutput runs the same cycle
 * imperatively and is proved equal to `Cycle` below; the lemmas at the end
 * of this module state what a cycle guarantees.
 */
module Window {
  import opened Wrappers
  import opened Timestamps
  import opened Fifo

  /** The mixer's sample format, as far as the synchroniser reads it. */
  datatype Format = Format(bytesPerFrame: int, rate: int, frameLength: int, nonLinear: bool) {
    /** Frame size and frame length are divisors in the source. */
    predicate Valid() {
      bytesPerFrame > 0 && rate >= 0 && frameLength > 0
    }
  }

  /** A loaded mixer: its format, its allocation policy and its gain (only ever copied). */
  datatype Mixer = Mixer(fmt: Format, alloc: bool, multiplier: real)

  /**
   * One input stream as the mixer sees it: its fifo, the byte offset into
   * the head buffer where unmixed data begins (`None`: the start of the
   * buffer), the decoder-side flags, and the mixer's `is_invalid` mark.
   */
  datatype Input = Input(queue: seq<Buffer>, cursor: Option<int>, error: bool, paused: bool, invalid: bool)

  /** An input in error or paused takes no part in the window. */
  predicate Excluded(inp: Input) {
    inp.error || inp.paused
  }

  predicate CursorOk(c: Option<int>) {
    c.Some? ==> c.value >= 0
  }

  ghost predicate CursorsOk(inputs: seq<Input>) {
    forall k :: 0 <= k < |inputs| ==> CursorOk(inputs[k].cursor)
  }

  /** `p` is `q` with the decoder-side flags kept. */
  predicate SameFlags(p: Input, q: Input) {
    p.error == q.error && p.paused == q.paused
  }

  /**
   * The fields of the audio output instance the mixer reads and writes:
   * the inputs, the output fifo and its end-date accumulator, the output
   * buffer size in samples, the mixer format and gain, the mixer if one is
   * loaded, and the log of buffers handed to mixing and playback.
   */
  datatype InstanceState = InstanceState(
    inputs: seq<Input>,
    outFifo: seq<Buffer>,
    outEnd: Date,
    nbSamples: nat,
    mixerFormat: Format,
    multiplier: real,
    mixer: Option<Mixer>,
    played: seq<Buffer>)

  ghost predicate WellFormed(a: InstanceState) {
    && a.outEnd.Valid()
    && a.mixerFormat.Valid()
    && (a.mixer.Some? ==> a.mixer.value.fmt.Valid())
    && CursorsOk(a.inputs)
  }

  // ---------------------------------------------------------------------
  // Without a mixer: free every queued buffer of inputs not in error
  // ---------------------------------------------------------------------

  function FreeQueues(inputs: seq<Input>): (r: seq<Input>)
    ensures |r| == |inputs|
    ensures forall k :: 0 <= k < |inputs| ==> SameFlags(r[k], inputs[k]) && r[k].cursor == inputs[k].cursor
    ensures forall k :: 0 <= k < |inputs| ==> if inputs[k].error then r[k] == inputs[k] else r[k].queue == []
  {
    seq(|inputs|, k requires 0 <= k < |inputs| =>
      if inputs[k].error then inputs[k] else inputs[k].(queue := []))
  }

  // ---------------------------------------------------------------------
  // Start date from the inputs (when the output has no date)
  // ---------------------------------------------------------------------

  /** One input after its late buffers are popped; the cursor is cleared if any went. */
  function DropLateInput(inp: Input, now: int): (r: Input)
    ensures SameFlags(r, inp) && r.invalid == inp.invalid
    ensures |r.queue| <= |inp.queue| && r.queue == inp.queue[|inp.queue| - |r.queue|..]
    ensures forall k :: 0 <= k < |inp.queue| - |r.queue| ==> inp.queue[k].pts < now
    ensures r.queue != [] ==> r.queue[0].pts >= now
    ensures r.cursor == if |r.queue| < |inp.queue| then None else inp.cursor
  {
    var n := FirstNotLate(inp.queue, now, 0);
    inp.(queue := inp.queue[n..], cursor := if n > 0 then None else inp.cursor)
  }

  datatype StartOutcome = Started(inputs: seq<Input>, exact: Date) | Starved(inputs: seq<Input>)

  /**
   * The start-date loop from input `i` on: trim late buffers of each
   * usable input and raise the start date to its head pts (0 meaning
   * "not yet set"); stop at the first usable input left empty.
   */
  function StartScan(inputs: seq<Input>, i: nat, exact: Date, now: int): (o: StartOutcome)
    requires i <= |inputs| && exact.Valid()
    ensures |o.inputs| == |inputs|
    ensures o.Started? ==> o.exact.Valid() && o.exact.rate == exact.rate
    ensures forall k :: 0 <= k < |inputs| ==> SameFlags(o.inputs[k], inputs[k])
    ensures CursorsOk(inputs) ==> CursorsOk(o.inputs)
    decreases |inputs| - i
  {
    if i == |inputs| then Started(inputs, exact)
    else if Excluded(inputs[i]) then StartScan(inputs, i + 1, exact, now)
    else
      var inp := DropLateInput(inputs[i], now);
      if inp.queue == [] then Starved(inputs[i := inp])
      else
        var pts := inp.queue[0].pts;
        StartScan(inputs[i := inp], i + 1, if exact.date == 0 || exact.date < pts then exact.Set(pts) else exact, now)
  }

  // ---------------------------------------------------------------------
  // Checking one input against the window [start, end)
  // ---------------------------------------------------------------------

  /**
   * The byte offset into a buffer starting at `pts` that corresponds to
   * `start`, computed with C's truncating divisions in the source's order.
   */
  function TimingOffset(start: int, pts: int, fmt: Format): (r: int)
    requires fmt.Valid()
    ensures r == TruncDiv((start - pts) * fmt.bytesPerFrame * fmt.rate, fmt.frameLength * UsPerSecond)
    ensures pts <= start ==> r >= 0
    ensures start <= pts ==> r <= 0
  {
    TruncDivNested((start - pts) * fmt.bytesPerFrame * fmt.rate, fmt.frameLength, UsPerSecond);
    OffsetSign(start - pts, fmt.bytesPerFrame, fmt.rate);
    TruncDiv(TruncDiv((start - pts) * fmt.bytesPerFrame * fmt.rate, fmt.frameLength), UsPerSecond)
  }

  /** The sign of `d * bpf * rate` follows that of `d` for a positive `bpf` and a non-negative `rate`. */
  lemma OffsetSign(d: int, bpf: int, rate: int)
    requires bpf > 0 && rate >= 0
    ensures d >= 0 ==> d * bpf * rate >= 0
    ensures d <= 0 ==> d * bpf * rate <= 0
  {
    if d <= 0 {
      assert d * bpf * rate == -((-d) * bpf * rate);
    }
  }

  datatype Snapped = Snapped(cursor: int, ok: bool)

  /**
   * The cursor check: a cursor `nb` strictly within one frame of the timing
   * offset is kept; otherwise the offset is truncated toward zero to a
   * whole frame, and a negative result fails (`ok` false, cursor kept).
   */
  function SnapCursor(nb: int, offset: int, bpf: int): (s: Snapped)
    requires bpf > 0
    ensures nb - bpf < offset < nb + bpf ==> s == Snapped(nb, true)
    ensures s.ok ==> -bpf < s.cursor - offset < bpf
    ensures s.ok && s.cursor != nb ==> s.cursor == TruncToMultiple(offset, bpf) && s.cursor >= 0
    ensures !s.ok ==> s.cursor == nb && offset <= -bpf
    ensures nb >= 0 ==> (s.ok <==> offset > -bpf)
  {
    if nb - bpf < offset < nb + bpf then Snapped(nb, true)
    else
      var snapped := TruncToMultiple(offset, bpf);
      if snapped < 0 then Snapped(nb, false) else Snapped(snapped, true)
  }

  /** What checking one input decided: skip it, it is ready, or abort the cycle. */
  datatype Verdict = Skip | Ready | Abort(resetOutput: bool)

  datatype Prepared = Prepared(input: Input, verdict: Verdict)

  /**
   * One iteration of the input loop: mark the input invalid if it is in
   * error or paused; otherwise drop stale buffers, repair holes, and (for
   * linear formats) check the cursor against the timing-implied offset.
   */
  function PrepareInput(inp: Input, start: int, end: int, fmt: Format): (p: Prepared)
    requires fmt.Valid()
    ensures SameFlags(p.input, inp)
    ensures p.verdict.Skip? <==> Excluded(inp)
    ensures p.verdict.Ready? ==> p.input.queue != [] && Covers(p.input.queue, end)
    ensures CursorOk(inp.cursor) ==> CursorOk(p.input.cursor)
  {
    var marked := inp.(invalid := Excluded(inp));
    if marked.invalid then Prepared(marked, Skip)
    else if marked.queue == [] then Prepared(marked, Abort(false))
    else
      var n := FirstNotStale(marked.queue, start, 0);
      var kept := marked.queue[n..];
      var trimmed := marked.(queue := kept, cursor := if n > 0 then None else marked.cursor);
      if kept == [] then Prepared(trimmed, Abort(false))
      else
        var rep := Repair(kept, end);
        RepairSound(kept, end);
        var repaired := trimmed.(queue := kept[rep.cut..]);
        if !rep.ready then Prepared(repaired, Abort(false))
        else if fmt.nonLinear then Prepared(repaired, Ready)
        else
          var offset := TimingOffset(start, repaired.queue[0].pts, fmt);
          var s := SnapCursor(repaired.cursor.GetOr(0), offset, fmt.bytesPerFrame);
          Prepared(repaired.(cursor := Some(s.cursor)), if s.ok then Ready else Abort(true))
  }

  /** `first` counts the leading excluded inputs among the first `n`. */
  ghost predicate LeadingExcluded(inputs: seq<Input>, n: int, first: int) {
    0 <= first <= n <= |inputs|
    && (forall k :: 0 <= k < first ==> Excluded(inputs[k]))
    && (first < n ==> !Excluded(inputs[first]))
  }

  /** The index of the first input from `i` on that is not excluded (`|inputs|` if none is). */
  function FirstUsable(inputs: seq<Input>, i: nat): (n: nat)
    requires i <= |inputs|
    ensures i <= n <= |inputs|
    ensures forall k :: i <= k < n ==> Excluded(inputs[k])
    ensures n < |inputs| ==> !Excluded(inputs[n])
    decreases |inputs| - i
  {
    if i == |inputs| || !Excluded(inputs[i]) then i else FirstUsable(inputs, i + 1)
  }

  /** The first usable input is the one index before which every input is excluded. */
  lemma {:induction false} FirstUsableUnique(inputs: seq<Input>, i: nat, n: nat)
    requires i <= n <= |inputs|
    requires forall k :: i <= k < n ==> Excluded(inputs[k])
    requires n < |inputs| ==> !Excluded(inputs[n])
    ensures FirstUsable(inputs, i) == n
    decreases n - i
  {
    if i < n {
      FirstUsableUnique(inputs, i + 1, n);
    }
  }

  datatype SyncOutcome = Synced(inputs: seq<Input>) | Interrupted(inputs: seq<Input>, resetOutput: bool)

  /**
   * What the input loop from input `i` on guarantees of its outcome `o`:
   * it keeps the number of inputs and their flags, leaves the inputs
   * before `i` alone, keeps cursors well-formed, and when it runs to the
   * end every usable input from `i` on reaches `end` without a hole.
   */
  ghost predicate SyncKeeps(inputs: seq<Input>, i: nat, end: int, o: SyncOutcome) {
    && |o.inputs| == |inputs|
    && (forall k :: 0 <= k < |inputs| ==> SameFlags(o.inputs[k], inputs[k]))
    && (forall k :: 0 <= k < i && k < |inputs| ==> o.inputs[k] == inputs[k])
    && (CursorsOk(inputs) ==> CursorsOk(o.inputs))
    && (o.Synced? ==> forall k :: i <= k < |inputs| && !Excluded(inputs[k]) ==>
          o.inputs[k].queue != [] && Covers(o.inputs[k].queue, end))
  }

  /** The input loop from input `i` on: stop at the first input whose check aborts. */
  function SyncLoop(inputs: seq<Input>, i: nat, start: int, end: int, fmt: Format): (o: SyncOutcome)
    requires i <= |inputs| && fmt.Valid()
    ensures SyncKeeps(inputs, i, end, o)
    decreases |inputs| - i, 1
  {
    if i == |inputs| then Synced(inputs) else SyncInput(inputs, i, start, end, fmt)
  }

  /** One iteration of the input loop, on input `i`, followed by the rest of the loop. */
  function SyncInput(inputs: seq<Input>, i: nat, start: int, end: int, fmt: Format): (o: SyncOutcome)
    requires i < |inputs| && fmt.Valid()
    ensures SyncKeeps(inputs, i, end, o)
    decreases |inputs| - i, 0
  {
    var p := PrepareInput(inputs[i], start, end, fmt);
    if p.verdict.Abort? then Interrupted(inputs[i := p.input], p.verdict.resetOutput)
    else SyncLoop(inputs[i := p.input], i + 1, start, end, fmt)
  }

  /** The input loop from input `i` on ends in `o`. */
  ghost predicate SyncsTo(inputs: seq<Input>, i: nat, start: int, end: int, fmt: Format, o: SyncOutcome)
    requires i <= |inputs| && fmt.Valid()
  {
    SyncLoop(inputs, i, start, end, fmt) == o
  }

  // ---------------------------------------------------------------------
  // One cycle
  // ---------------------------------------------------------------------

  /** The outcome of one cycle: the new instance state and the return code (0 or -1). */
  datatype Step = Step(state: InstanceState, status: int)

  /** The output fifo after aout_FifoSet(…, 0): emptied, its date set to 0. */
  function ResetOutput(a: InstanceState): (r: InstanceState)
    requires a.outEnd.Valid()
    ensures r.outFifo == [] && r.outEnd == Date(0, 0, a.outEnd.rate)
    ensures r.inputs == a.inputs && r.played == a.played && r.mixer == a.mixer
    ensures r.nbSamples == a.nbSamples && r.mixerFormat == a.mixerFormat && r.multiplier == a.multiplier
    ensures WellFormed(a) ==> WellFormed(r)
  {
    a.(outFifo := [], outEnd := a.outEnd.Set(0))
  }

  /**
   * The part of the cycle after the start date is known: compute the end
   * date, check every input, then obtain, stamp and hand over the output
   * buffer (a fresh one, or the head of the first usable input).
   */
  function Emit(a: InstanceState, exact: Date, allocOk: bool): (s: Step)
    requires WellFormed(a) && a.mixer.Some? && exact.Valid()
    ensures WellFormed(s.state)
    ensures s.status == -1 ==> s.state.played == a.played
    ensures s.status == 0 ==> |s.state.played| == |a.played| + 1 && s.state.played[..|a.played|] == a.played
    ensures s.status == 0 || s.status == -1
  {
    var m := a.mixer.value;
    var start := exact.date;
    var end := exact.Increment(a.nbSamples).date;
    match SyncLoop(a.inputs, 0, start, end, m.fmt)
    case Interrupted(ins, reset) =>
      Step(if reset then ResetOutput(a.(inputs := ins)) else a.(inputs := ins), -1)
    case Synced(ins) =>
      var first := FirstUsable(ins, 0);
      if first == |ins| then Step(a.(inputs := ins), -1)
      else if m.alloc then
        if !allocOk then Step(a.(inputs := ins), -1)
        else
          var out := Buffer(start, end - start, a.nbSamples * m.fmt.bytesPerFrame / m.fmt.frameLength, a.nbSamples);
          Step(a.(inputs := ins, played := a.played + [out]), 0)
      else
        var head := ins[first].queue[0];
        var out := head.(pts := start, length := end - start);
        var reused := ins[first].(queue := [out] + ins[first].queue[1..]);
        Step(a.(inputs := ins[first := reused], played := a.played + [out]), 0)
  }

  /** Whether the output date is set but already behind the wall clock. */
  predicate OutputLate(a: InstanceState, now: int) {
    a.outEnd.date != 0 && a.outEnd.date < now
  }

  /** One call of the cycle, with the wall clock read as `now`. */
  function Cycle(a: InstanceState, now: int, allocOk: bool): (s: Step)
    requires WellFormed(a)
    ensures WellFormed(s.state)
    ensures s.status == -1 ==> s.state.played == a.played
    ensures s.status == 0 ==> |s.state.played| == |a.played| + 1 && s.state.played[..|a.played|] == a.played
    ensures s.status == 0 || s.status == -1
  {
    if a.mixer.None? then Step(a.(inputs := FreeQueues(a.inputs)), -1)
    else
      var a1 := if OutputLate(a, now) then ResetOutput(a) else a;
      if a1.outEnd.date == 0 then
        match StartScan(a1.inputs, 0, a1.outEnd, now)
        case Starved(ins) => Step(a1.(inputs := ins), -1)
        case Started(ins, exact) => Emit(a1.(inputs := ins), exact, allocOk)
      else Emit(a1, a1.outEnd, allocOk)
  }

  /** The outcome of the drive loop: final state, cycles run, buffers produced. */
  datatype RunOutcome = RunOutcome(state: InstanceState, cycles: nat, produced: nat)

  /**
   * The drive loop: run cycles until one returns -1, the `k`-th cycle
   * reading the clock as `clock[k]` and allocating successfully iff
   * `allocs[k]`; at most `|clock|` cycles are run.
   */
  function Run(a: InstanceState, clock: seq<int>, allocs: seq<bool>): (o: RunOutcome)
    requires WellFormed(a) && |clock| == |allocs|
    ensures WellFormed(o.state)
    ensures o.cycles <= |clock| && o.produced <= o.cycles
    ensures |o.state.played| == |a.played| + o.produced && o.state.played[..|a.played|] == a.played
    ensures o.cycles < |clock| ==> o.produced == o.cycles - 1
    decreases |clock|
  {
    if clock == [] then RunOutcome(a, 0, 0)
    else
      var s := Cycle(a, clock[0], allocs[0]);
      if s.status == -1 then RunOutcome(s.state, 1, 0)
      else
        var rest := Run(s.state, clock[1..], allocs[1..]);
        RunOutcome(rest.state, rest.cycles + 1, rest.produced + 1)
  }

  // ---------------------------------------------------------------------
  // What one cycle guarantees
  // ---------------------------------------------------------------------

  /**
   * Once the start date is known, a buffer is produced exactly when the
   * input loop ran to the end, some input is usable and (for an allocating
   * mixer) the allocation succeeds. It covers [start, end): it is a fresh
   * block of the output size, or the restamped head of the first usable
   * input. The output fifo is touched only to reset it, and only when a
   * cursor could not be placed.
   */
  lemma EmitOutcome(a: InstanceState, exact: Date, allocOk: bool)
    requires WellFormed(a) && a.mixer.Some? && exact.Valid()
    ensures var s := Emit(a, exact, allocOk);
      var m := a.mixer.value;
      var start := exact.date;
      var end := exact.Increment(a.nbSamples).date;
      var o := SyncLoop(a.inputs, 0, start, end, m.fmt);
      && (s.status == 0 <==> o.Synced? && FirstUsable(o.inputs, 0) < |o.inputs| && (m.alloc ==> allocOk))
      && (s.status == 0 ==>
            var out := s.state.played[|a.played|];
            && out.pts == start && out.length == end - start
            && (m.alloc ==> out.bytes == a.nbSamples * m.fmt.bytesPerFrame / m.fmt.frameLength
                            && out.samples == a.nbSamples)
            && (!m.alloc ==> out == o.inputs[FirstUsable(o.inputs, 0)].queue[0].(pts := start, length := end - start)))
      && (if o.Interrupted? && o.resetOutput
          then s.state.outFifo == [] && s.state.outEnd == a.outEnd.Set(0)
          else s.state.outFifo == a.outFifo && s.state.outEnd == a.outEnd)
  {
  }

  /**
   * Without a mixer the cycle is not ready: every buffer queued on an
   * input that is not in error is freed, and nothing else changes.
   */
  lemma CycleWithoutMixer(a: InstanceState, now: int, allocOk: bool)
    requires WellFormed(a) && a.mixer.None?
    ensures var s := Cycle(a, now, allocOk);
      && s.status == -1
      && s.state == a.(inputs := s.state.inputs)
      && |s.state.inputs| == |a.inputs|
      && forall k :: 0 <= k < |a.inputs| ==>
           if a.inputs[k].error then s.state.inputs[k] == a.inputs[k]
           else s.state.inputs[k] == a.inputs[k].(queue := [])
  {
  }

  /**
   * An output whose date is set but already behind the clock is cleared:
   * whatever the cycle does, it leaves the output fifo empty and undated.
   */
  lemma CycleClearsLateOutput(a: InstanceState, now: int, allocOk: bool)
    requires WellFormed(a) && a.mixer.Some? && OutputLate(a, now)
    ensures var s := Cycle(a, now, allocOk);
      s.state.outFifo == [] && s.state.outEnd == a.outEnd.Set(0)
  {
    var a1 := ResetOutput(a);
    match StartScan(a1.inputs, 0, a1.outEnd, now)
    case Starved(_) =>
    case Started(ins, exact) =>
      EmitOutcome(a1.(inputs := ins), exact, allocOk);
  }

  /**
   * A dated output that is not behind the clock keeps its timeline: the
   * window starts at the output's end date and spans `nbSamples` samples
   * from it, and the output fifo and its date are kept unless a cursor
   * could not be placed.
   */
  lemma CycleKeepsTimelyOutput(a: InstanceState, now: int, allocOk: bool)
    requires WellFormed(a) && a.mixer.Some? && a.outEnd.date != 0 && !OutputLate(a, now)
    ensures var s := Cycle(a, now, allocOk);
      var start := a.outEnd.date;
      var end := a.outEnd.Increment(a.nbSamples).date;
      var o := SyncLoop(a.inputs, 0, start, end, a.mixer.value.fmt);
      && (s.status == 0 ==>
            s.state.played[|a.played|].pts == start && s.state.played[|a.played|].length == end - start)
      && (if o.Interrupted? && o.resetOutput
          then s.state.outFifo == [] && s.state.outEnd == a.outEnd.Set(0)
          else s.state.outFifo == a.outFifo && s.state.outEnd == a.outEnd)
  {
    EmitOutcome(a, a.outEnd, allocOk);
  }

  /**
   * A cycle never emits a buffer dated before the clock: a dated output
   * that is not late starts the window at its own date, and a window
   * started from the inputs starts at a head of a usable input, none of
   * which is late.
   */
  lemma CycleNeverEmitsPast(a: InstanceState, now: int, allocOk: bool)
    requires WellFormed(a)
    ensures var s := Cycle(a, now, allocOk);
      s.status == 0 ==> s.state.played[|a.played|].pts >= now
  {
    var s := Cycle(a, now, allocOk);
    if a.mixer.Some? && s.status == 0 {
      var a1 := if OutputLate(a, now) then ResetOutput(a) else a;
      if a1.outEnd.date == 0 {
        if StartScan(a1.inputs, 0, a1.outEnd, now).Started? {
          ScannedWindowNotPast(a1, now, allocOk);
        }
      } else {
        EmitOutcome(a1, a1.outEnd, allocOk);
      }
    }
  }

  /** A window started from the inputs does not start before the clock. */
  lemma ScannedWindowNotPast(a: InstanceState, now: int, allocOk: bool)
    requires WellFormed(a) && a.mixer.Some? && a.outEnd.date == 0
    requires StartScan(a.inputs, 0, a.outEnd, now).Started?
    ensures var o := StartScan(a.inputs, 0, a.outEnd, now);
      var s := Emit(a.(inputs := o.inputs), o.exact, allocOk);
      s.status == 0 ==> s.state.played[|a.played|].pts >= now
  {
    var o := StartScan(a.inputs, 0, a.outEnd, now);
    var s := Emit(a.(inputs := o.inputs), o.exact, allocOk);
    if s.status == 0 {
      StartScanNotPast(a.inputs, 0, a.outEnd, now);
      EmitOutcome(a.(inputs := o.inputs), o.exact, allocOk);
      // the first usable input after the input loop was usable all along
      var end := o.exact.Increment(a.nbSamples).date;
      var so := SyncLoop(o.inputs, 0, o.exact.date, end, a.mixer.value.fmt);
      var k := FirstUsable(so.inputs, 0);
      assert SameFlags(so.inputs[k], o.inputs[k]) && SameFlags(o.inputs[k], a.inputs[k]);
      assert !NoneUsable(a.inputs, 0);
    }
  }

  /** No input from index `i` on is usable. */
  ghost predicate NoneUsable(inputs: seq<Input>, i: int) {
    forall k :: 0 <= i <= k < |inputs| ==> Excluded(inputs[k])
  }

  /**
   * When the start-date loop from input `i` completes, its date is at or
   * after the clock if the date it was given was, and otherwise it is
   * still 0 only because no usable input was left to set it.
   */
  ghost predicate ScanNotPast(inputs: seq<Input>, i: nat, exact: Date, now: int)
    requires i <= |inputs| && exact.Valid()
  {
    var o := StartScan(inputs, i, exact, now);
    o.Started? ==>
      && (exact.date >= now ==> o.exact.date >= now)
      && (o.exact.date >= now || (o.exact.date == 0 && NoneUsable(inputs, i)))
  }

  /**
   * For any clock, a start date that is unset or not in the past stays so
   * through the start-date loop, and meeting a usable input makes it not
   * in the past: every date the loop sets is a head that is not late.
   */
  lemma {:induction false} StartScanNotPast(inputs: seq<Input>, i: nat, exact: Date, now: int)
    requires i <= |inputs| && exact.Valid()
    requires exact.date == 0 || exact.date >= now
    ensures ScanNotPast(inputs, i, exact, now)
    decreases |inputs| - i
  {
    if i < |inputs| {
      if Excluded(inputs[i]) {
        StartScanNotPast(inputs, i + 1, exact, now);
        assert ScanNotPast(inputs, i, exact, now) by {
          assert StartScan(inputs, i, exact, now) == StartScan(inputs, i + 1, exact, now);
        }
      } else {
        var inp := DropLateInput(inputs[i], now);
        if inp.queue != [] {
          var pts := inp.queue[0].pts;
          var next := if exact.date == 0 || exact.date < pts then exact.Set(pts) else exact;
          StartScanNotPast(inputs[i := inp], i + 1, next, now);
          UsableNotPast(inputs, i, exact, next, now);
        }
      }
    }
  }

  /** `ScanNotPast` carries over the loop's step on a usable input that keeps a head. */
  lemma UsableNotPast(inputs: seq<Input>, i: nat, exact: Date, next: Date, now: int)
    requires i < |inputs| && exact.Valid() && !Excluded(inputs[i])
    requires exact.date == 0 || exact.date >= now
    requires var inp := DropLateInput(inputs[i], now);
      && inp.queue != []
      && next == (if exact.date == 0 || exact.date < inp.queue[0].pts then exact.Set(inp.queue[0].pts) else exact)
      && ScanNotPast(inputs[i := inp], i + 1, next, now)
    ensures ScanNotPast(inputs, i, exact, now)
  {
    var inp := DropLateInput(inputs[i], now);
    assert StartScan(inputs, i, exact, now) == StartScan(inputs[i := inp], i + 1, next, now);
    assert next.date >= now;
  }

  // ---------------------------------------------------------------------
  // What the start-date loop guarantees
  // ---------------------------------------------------------------------

  /**
   * `out` is `inputs` with the late buffers of every usable input from
   * index `i` on popped, and nothing else changed.
   */
  ghost predicate LateTrimmedFrom(inputs: seq<Input>, out: seq<Input>, i: int, now: int) {
    |out| == |inputs|
    && forall k :: 0 <= k < |inputs| ==>
         out[k] == if k < i || Excluded(inputs[k]) then inputs[k] else DropLateInput(inputs[k], now)
  }

  /** Every usable input from index `i` on keeps a buffer once its late ones are popped. */
  ghost predicate NoneStarved(inputs: seq<Input>, i: int, now: int) {
    forall k :: 0 <= i <= k < |inputs| && !Excluded(inputs[k]) ==> DropLateInput(inputs[k], now).queue != []
  }

  /**
   * The start-date loop completes exactly when no usable input is left
   * empty, and then it has popped the late buffers of every usable input.
   */
  ghost predicate ScanTrims(inputs: seq<Input>, i: nat, exact: Date, now: int)
    requires i <= |inputs| && exact.Valid()
  {
    var o := StartScan(inputs, i, exact, now);
    && (o.Started? <==> NoneStarved(inputs, i, now))
    && (o.Started? ==> LateTrimmedFrom(inputs, o.inputs, i, now))
  }

  /** The start-date loop from input `i` on trims as `ScanTrims` says. */
  lemma {:induction false} StartScanTrims(inputs: seq<Input>, i: nat, exact: Date, now: int)
    requires i <= |inputs| && exact.Valid()
    ensures ScanTrims(inputs, i, exact, now)
    decreases |inputs| - i
  {
    if i < |inputs| {
      if Excluded(inputs[i]) {
        StartScanTrims(inputs, i + 1, exact, now);
        SkipTrims(inputs, i, exact, now);
      } else {
        var inp := DropLateInput(inputs[i], now);
        if inp.queue != [] {
          var next := if exact.date == 0 || exact.date < inp.queue[0].pts then exact.Set(inp.queue[0].pts) else exact;
          StartScanTrims(inputs[i := inp], i + 1, next, now);
        }
        UsableTrims(inputs, i, exact, now);
      }
    }
  }

  /** `ScanTrims` carries over the loop's step past an excluded input. */
  lemma SkipTrims(inputs: seq<Input>, i: nat, exact: Date, now: int)
    requires i < |inputs| && exact.Valid() && Excluded(inputs[i])
    requires ScanTrims(inputs, i + 1, exact, now)
    ensures ScanTrims(inputs, i, exact, now)
  {
    var o := StartScan(inputs, i + 1, exact, now);
    if o.Started? {
      SkipStep(inputs, i, o.inputs, now);
    }
  }

  /** `ScanTrims` carries over the loop's step on a usable input. */
  lemma UsableTrims(inputs: seq<Input>, i: nat, exact: Date, now: int)
    requires i < |inputs| && exact.Valid() && !Excluded(inputs[i])
    requires var inp := DropLateInput(inputs[i], now);
      inp.queue != [] ==>
        var next := if exact.date == 0 || exact.date < inp.queue[0].pts then exact.Set(inp.queue[0].pts) else exact;
        ScanTrims(inputs[i := inp], i + 1, next, now)
    ensures ScanTrims(inputs, i, exact, now)
  {
    var inp := DropLateInput(inputs[i], now);
    TrimStep(inputs, i, now);
    if inp.queue != [] {
      var next := if exact.date == 0 || exact.date < inp.queue[0].pts then exact.Set(inp.queue[0].pts) else exact;
      var o := StartScan(inputs[i := inp], i + 1, next, now);
      if o.Started? {
        TrimmedStep(inputs, i, o.inputs, now);
      }
    }
  }

  /** The start-date loop's step over an excluded input. */
  lemma SkipStep(inputs: seq<Input>, i: nat, out: seq<Input>, now: int)
    requires i < |inputs| && Excluded(inputs[i])
    requires LateTrimmedFrom(inputs, out, i + 1, now)
    ensures LateTrimmedFrom(inputs, out, i, now)
    ensures NoneStarved(inputs, i, now) <==> NoneStarved(inputs, i + 1, now)
  {
  }

  /** One usable input's step of the start-date loop, as far as starvation goes. */
  lemma TrimStep(inputs: seq<Input>, i: nat, now: int)
    requires i < |inputs| && !Excluded(inputs[i])
    ensures var inp := DropLateInput(inputs[i], now);
      NoneStarved(inputs, i, now) <==> inp.queue != [] && NoneStarved(inputs[i := inp], i + 1, now)
  {
    var inp := DropLateInput(inputs[i], now);
    var rest := inputs[i := inp];
    assert forall k :: i < k < |inputs| ==> rest[k] == inputs[k];
  }

  /** One usable input's step of the start-date loop, as far as trimming goes. */
  lemma TrimmedStep(inputs: seq<Input>, i: nat, out: seq<Input>, now: int)
    requires i < |inputs| && !Excluded(inputs[i])
    requires LateTrimmedFrom(inputs[i := DropLateInput(inputs[i], now)], out, i + 1, now)
    ensures LateTrimmedFrom(inputs, out, i, now)
  {
    var rest := inputs[i := DropLateInput(inputs[i], now)];
    forall k | 0 <= k < |inputs|
      ensures out[k] == if k < i || Excluded(inputs[k]) then inputs[k] else DropLateInput(inputs[k], now)
    {
      assert k != i ==> rest[k] == inputs[k];
    }
  }

  /** The head pts of an input once its late buffers are popped (0 if none is left). */
  function HeadPts(inp: Input, now: int): int {
    var h := DropLateInput(inp, now).queue;
    if h == [] then 0 else h[0].pts
  }

  /** Every usable input from index `i` on has its head pts in `[lo, hi]`. */
  ghost predicate HeadsWithin(inputs: seq<Input>, i: int, lo: int, hi: int, now: int) {
    forall k :: 0 <= i <= k < |inputs| && !Excluded(inputs[k]) ==> lo <= HeadPts(inputs[k], now) <= hi
  }

  /** Some usable input from index `i` on has its head pts at `d`. */
  ghost predicate SomeHeadAt(inputs: seq<Input>, i: int, d: int, now: int) {
    exists k :: 0 <= i <= k < |inputs| && !Excluded(inputs[k]) && HeadPts(inputs[k], now) == d
  }

  /**
   * When the start-date loop from input `i` completes, its date is no
   * earlier than the one it was given, every usable head lies between
   * `now` and it, and it is either the date it was given or a usable head.
   */
  ghost predicate ScanLatest(inputs: seq<Input>, i: nat, exact: Date, now: int)
    requires i <= |inputs| && exact.Valid()
  {
    var o := StartScan(inputs, i, exact, now);
    o.Started? ==>
      && (exact.date != 0 ==> exact.date <= o.exact.date)
      && HeadsWithin(inputs, i, now, o.exact.date, now)
      && (o.exact.date == exact.date || SomeHeadAt(inputs, i, o.exact.date, now))
  }

  /**
   * With the clock past 0, the start date the loop settles on is the
   * latest head pts among the usable inputs (all of which are at or after
   * `now`), or the date it was given if that is later; 0 stays 0 only when
   * no input is usable.
   */
  lemma {:induction false} StartScanLatest(inputs: seq<Input>, i: nat, exact: Date, now: int)
    requires i <= |inputs| && exact.Valid() && now > 0
    requires exact.date == 0 || exact.date >= now
    ensures ScanLatest(inputs, i, exact, now)
    decreases |inputs| - i
  {
    if i < |inputs| {
      if Excluded(inputs[i]) {
        StartScanLatest(inputs, i + 1, exact, now);
        SkipLatest(inputs, i, exact, now);
      } else {
        var inp := DropLateInput(inputs[i], now);
        if inp.queue != [] {
          var pts := inp.queue[0].pts;
          var next := if exact.date == 0 || exact.date < pts then exact.Set(pts) else exact;
          StartScanLatest(inputs[i := inp], i + 1, next, now);
          UsableLatest(inputs, i, exact, next, now);
        }
      }
    }
  }

  /** `ScanLatest` carries over the loop's step past an excluded input. */
  lemma SkipLatest(inputs: seq<Input>, i: nat, exact: Date, now: int)
    requires i < |inputs| && exact.Valid() && Excluded(inputs[i])
    requires ScanLatest(inputs, i + 1, exact, now)
    ensures ScanLatest(inputs, i, exact, now)
  {
    var o := StartScan(inputs, i + 1, exact, now);
    if o.Started? {
      HeadsStep(inputs, inputs, i, now, o.exact.date, now);
    }
  }

  /** `ScanLatest` carries over the loop's step on a usable input that keeps a head. */
  lemma UsableLatest(inputs: seq<Input>, i: nat, exact: Date, next: Date, now: int)
    requires i < |inputs| && exact.Valid() && !Excluded(inputs[i]) && now > 0
    requires exact.date == 0 || exact.date >= now
    requires var inp := DropLateInput(inputs[i], now);
      && inp.queue != []
      && next == (if exact.date == 0 || exact.date < inp.queue[0].pts then exact.Set(inp.queue[0].pts) else exact)
      && ScanLatest(inputs[i := inp], i + 1, next, now)
    ensures ScanLatest(inputs, i, exact, now)
  {
    var inp := DropLateInput(inputs[i], now);
    var rest := inputs[i := inp];
    var o := StartScan(rest, i + 1, next, now);
    if o.Started? {
      HeadsStep(inputs, rest, i, now, o.exact.date, now);
    }
  }

  /**
   * A bound or a witness over the inputs after index `i` of `rest` carries
   * over to `inputs` from `i` on, when the two differ at most at `i` and the
   * head at `i` is within the bound.
   */
  lemma HeadsStep(inputs: seq<Input>, rest: seq<Input>, i: nat, lo: int, hi: int, now: int)
    requires i < |inputs| == |rest|
    requires forall k :: i < k < |inputs| ==> rest[k] == inputs[k]
    requires !Excluded(inputs[i]) ==> lo <= HeadPts(inputs[i], now) <= hi
    ensures HeadsWithin(rest, i + 1, lo, hi, now) ==> HeadsWithin(inputs, i, lo, hi, now)
    ensures SomeHeadAt(rest, i + 1, hi, now) ==> SomeHeadAt(inputs, i, hi, now)
  {
    if SomeHeadAt(rest, i + 1, hi, now) {
      var k :| 0 <= i + 1 <= k < |rest| && !Excluded(rest[k]) && HeadPts(rest[k], now) == hi;
      assert rest[k] == inputs[k];
    }
  }

  // ---------------------------------------------------------------------
  // What checking one input guarantees
  // ---------------------------------------------------------------------

  /** An input in error or paused is only marked invalid, and skipped; no other input is. */
  lemma PrepareMarksInvalid(inp: Input, start: int, end: int, fmt: Format)
    requires fmt.Valid()
    ensures var p := PrepareInput(inp, start, end, fmt);
      && p.input.invalid == Excluded(inp)
      && (p.verdict.Skip? ==> p.input == inp.(invalid := true))
  {
  }

  /**
   * Checking an input only pops buffers off its head: first the stale
   * ones, then those before a hole.
   */
  lemma PrepareOnlyPops(inp: Input, start: int, end: int, fmt: Format)
    requires fmt.Valid()
    ensures var p := PrepareInput(inp, start, end, fmt);
      && |p.input.queue| <= |inp.queue|
      && p.input.queue == inp.queue[|inp.queue| - |p.input.queue|..]
      && (!Excluded(inp) ==> |p.input.queue| <= |inp.queue| - FirstNotStale(inp.queue, start, 0))
  {
    var p := PrepareInput(inp, start, end, fmt);
    var q := inp.queue;
    if !Excluded(inp) && q != [] {
      var n := FirstNotStale(q, start, 0);
      if n == |q| {
        assert p.input.queue == q[n..];
      } else {
        var c := Repair(q[n..], end).cut;
        assert p.input.queue == q[n..][c..] == q[n + c..];
      }
    }
  }

  /**
   * When stale buffers were dropped the cursor is forgotten: it is left
   * unset unless a linear format places it afresh from the head of the
   * buffer, where the window start falls.
   */
  lemma PrepareForgetsCursor(inp: Input, start: int, end: int, fmt: Format)
    requires fmt.Valid() && !Excluded(inp) && inp.queue != []
    requires FirstNotStale(inp.queue, start, 0) > 0
    ensures var p := PrepareInput(inp, start, end, fmt);
      && (fmt.nonLinear || p.verdict == Abort(false) ==> p.input.cursor.None?)
      && (!fmt.nonLinear && p.verdict != Abort(false) ==>
            p.input.cursor == Some(SnapCursor(0, TimingOffset(start, p.input.queue[0].pts, fmt), fmt.bytesPerFrame).cursor))
  {
  }

  /**
   * A usable input aborts the cycle without touching the output exactly
   * when what is left of its queue is empty or falls short of `end`.
   */
  lemma PrepareAbortsWhenShort(inp: Input, start: int, end: int, fmt: Format)
    requires fmt.Valid() && !Excluded(inp)
    ensures var p := PrepareInput(inp, start, end, fmt);
      p.verdict == Abort(false) <==> p.input.queue == [] || ShortOf(p.input.queue, end)
  {
    var p := PrepareInput(inp, start, end, fmt);
    var q := inp.queue;
    if q != [] {
      var n := FirstNotStale(q, start, 0);
      if n < |q| {
        RepairSound(q[n..], end);
        if Repair(q[n..], end).ready {
          CoversExcludesShort(p.input.queue, end);
        }
      }
    }
  }

  /**
   * For a linear format, a ready input's cursor lies within one frame of
   * the offset the timing of its head buffer implies.
   */
  lemma PrepareReadyCursor(inp: Input, start: int, end: int, fmt: Format)
    requires fmt.Valid()
    ensures var p := PrepareInput(inp, start, end, fmt);
      p.verdict.Ready? && !fmt.nonLinear ==>
        && p.input.cursor.Some?
        && -fmt.bytesPerFrame < p.input.cursor.value - TimingOffset(start, p.input.queue[0].pts, fmt) < fmt.bytesPerFrame
  {
  }

  /**
   * The output is reset only for a linear format, and (for a valid cursor)
   * only when the timing offset is at least a whole frame negative.
   */
  lemma PrepareResetsWhenBehind(inp: Input, start: int, end: int, fmt: Format)
    requires fmt.Valid()
    ensures var p := PrepareInput(inp, start, end, fmt);
      p.verdict == Abort(true) ==>
        && !fmt.nonLinear && p.input.queue != []
        && (CursorOk(inp.cursor) ==> TimingOffset(start, p.input.queue[0].pts, fmt) <= -fmt.bytesPerFrame)
  {
  }
}
