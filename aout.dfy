/**
 * The audio output instance as the mixer updates it in place: the mixer
 * lifecycle (aout_MixerNew, aout_MixerDelete, aout_MixerMultiplierSet), one
 * mixing cycle (MixBuffer) and its drive loop (aout_MixerRun). Each method
 * is proved to leave the instance in the state the functions of module
 * Window prescribe. Locking is not modelled: a call runs atomically.
 */
module AudioOutput {
  import opened Wrappers
  import opened Timestamps
  import opened Fifo
  import opened Window

  /** The two return codes of aout_MixerNew. */
  datatype Status = Success | Generic

  /**
   * The body of the input loop on one input: mark it invalid if it is in
   * error or paused; otherwise drop stale buffers, repair holes and, for
   * linear formats, check its cursor against the timing.
   */
  method CheckOneInput(inp: Input, start: int, end: int, fmt: Format) returns (p: Prepared)
    requires fmt.Valid()
    ensures p == PrepareInput(inp, start, end, fmt)
  {
    var bpf := fmt.bytesPerFrame;
    var cur := inp.(invalid := inp.error || inp.paused);
    if cur.invalid {
      return Prepared(cur, Skip);
    }
    if cur.queue == [] {
      return Prepared(cur, Abort(false));
    }
    // drop the buffers that ended before the window, forgetting the cursor if any went
    var q, dropped := DropStale(cur.queue, start);
    cur := cur.(queue := q, cursor := if dropped then None else cur.cursor);
    if q == [] {
      return Prepared(cur, Abort(false));
    }
    // cut the queue at holes until what is left reaches the window end
    var ready;
    q, ready := RepairGaps(q, end);
    cur := cur.(queue := q);
    if !ready {
      return Prepared(cur, Abort(false));
    }
    if !fmt.nonLinear {
      // linear format: snap the byte cursor to the offset given by the head's timing
      var offset := TimingOffset(start, q[0].pts, fmt);
      var nb := cur.cursor.GetOr(0);
      cur := cur.(cursor := Some(nb));
      if !(offset + bpf > nb && offset < bpf + nb) {
        offset := TruncToMultiple(offset, bpf);
        if offset < 0 {
          return Prepared(cur, Abort(true));
        }
        cur := cur.(cursor := Some(offset));
      }
    }
    return Prepared(cur, Ready);
  }

  /**
   * One iteration of the input loop, on input `i` of `inputs`, with `first`
   * the count of leading invalid inputs so far and `goal` the outcome of
   * the loop: `stop` when the input's check aborts the loop.
   */
  method CheckInput(inputs: seq<Input>, i: nat, first: nat, start: int, end: int, fmt: Format, ghost goal: SyncOutcome)
    returns (ins: seq<Input>, next: nat, stop: bool, reset: bool)
    requires fmt.Valid() && i < |inputs| && LeadingExcluded(inputs, i, first)
    requires SyncsTo(inputs, i, start, end, fmt, goal)
    ensures |ins| == |inputs|
    ensures stop ==> goal == Interrupted(ins, reset)
    ensures !stop ==> !reset && LeadingExcluded(ins, i + 1, next) && SyncsTo(ins, i + 1, start, end, fmt, goal)
  {
    var p := CheckOneInput(inputs[i], start, end, fmt);
    assert SyncInput(inputs, i, start, end, fmt) == goal;
    ins := inputs[i := p.input];
    next, stop, reset := first, false, false;
    match p.verdict {
      case Skip =>
        if first == i {
          next := first + 1;
        }
      case Ready =>
      case Abort(r) =>
        stop, reset := true, r;
    }
  }

  /**
   * The input loop over the window [start, end): check each input in turn
   * and stop at the first whose check aborts the cycle. Returns the
   * checked inputs, the count of leading invalid inputs, whether the loop
   * ran to the end, and whether a cursor that could not be placed calls
   * for the output fifo to be reset.
   */
  method CheckInputs(inputs: seq<Input>, start: int, end: int, fmt: Format)
    returns (ins: seq<Input>, first: nat, complete: bool, reset: bool)
    requires fmt.Valid()
    ensures SyncsTo(inputs, 0, start, end, fmt, if complete then Synced(ins) else Interrupted(ins, reset))
    ensures complete ==> !reset && LeadingExcluded(ins, |ins|, first)
  {
    ghost var goal := SyncLoop(inputs, 0, start, end, fmt);
    ins := inputs;
    first, complete, reset := 0, true, false;
    var i := 0;
    while i < |ins|
      invariant 0 <= i <= |ins|
      invariant LeadingExcluded(ins, i, first) && !reset
      invariant SyncsTo(ins, i, start, end, fmt, goal)
    {
      var next, stop;
      ins, next, stop, reset := CheckInput(ins, i, first, start, end, fmt, goal);
      if stop {
        complete := false;
        break;
      }
      first, i := next, i + 1;
    }
  }

  class AoutInstance {
    var inputs: seq<Input>
    var outFifo: seq<Buffer>
    var outEnd: Date
    var nbSamples: nat
    var mixerFormat: Format
    var multiplier: real
    var mixer: Option<Mixer>
    var played: seq<Buffer>

    /** The instance's fields as one value. */
    function State(): InstanceState
      reads this
    {
      InstanceState(inputs, outFifo, outEnd, nbSamples, mixerFormat, multiplier, mixer, played)
    }

    ghost predicate Valid()
      reads this
    {
      WellFormed(State())
    }

    /** An instance with the given inputs, an undated output fifo and no mixer. */
    constructor (inputs: seq<Input>, rate: int, nbSamples: nat, fmt: Format, multiplier: real)
      requires rate > 0 && fmt.Valid() && CursorsOk(inputs)
      ensures Valid()
      ensures State() == InstanceState(inputs, [], Date(0, 0, rate), nbSamples, fmt, multiplier, None, [])
    {
      this.inputs := inputs;
      this.outFifo := [];
      this.outEnd := Date(0, 0, rate);
      this.nbSamples := nbSamples;
      this.mixerFormat := fmt;
      this.multiplier := multiplier;
      this.mixer := None;
      this.played := [];
    }

    // -------------------------------------------------------------------
    // Mixer lifecycle
    // -------------------------------------------------------------------

    /**
     * aout_MixerNew: create the mixer object (`created`) and load a mixer
     * module for it (`loaded`); the module may switch the allocation policy
     * to `alloc`. The mixer is installed only when both succeed.
     */
    method MixerNew(created: bool, loaded: bool, alloc: bool) returns (status: Status)
      requires Valid() && mixer.None?
      modifies this`mixer
      ensures Valid()
      ensures status == Success <==> created && loaded
      ensures mixer == if created && loaded then Some(Mixer(mixerFormat, alloc, multiplier)) else None
    {
      if !created {
        return Generic;
      }
      var m := Mixer(mixerFormat, true, multiplier);
      if !loaded {
        return Generic;
      }
      m := m.(alloc := alloc);
      mixer := Some(m);
      return Success;
    }

    /** aout_MixerDelete: unload and release the mixer, if any. */
    method MixerDelete()
      requires Valid()
      modifies this`mixer
      ensures Valid() && mixer == None
    {
      if mixer.None? {
        return;
      }
      mixer := None;
    }

    /** aout_MixerMultiplierSet: store the gain, and hand it to the mixer if there is one. */
    method MixerMultiplierSet(m: real)
      requires Valid()
      modifies this`multiplier, this`mixer
      ensures Valid() && multiplier == m
      ensures mixer == if old(mixer).Some? then Some(old(mixer).value.(multiplier := m)) else None
    {
      multiplier := m;
      if mixer.Some? {
        mixer := Some(mixer.value.(multiplier := m));
      }
    }

    // -------------------------------------------------------------------
    // One cycle
    // -------------------------------------------------------------------

    /** Without a mixer: free every buffer queued on an input that is not in error. */
    method FreeInputs()
      requires Valid()
      modifies this`inputs
      ensures Valid() && inputs == FreeQueues(old(inputs))
    {
      var i := 0;
      while i < |inputs|
        invariant 0 <= i <= |inputs| == |old(inputs)|
        invariant forall k :: 0 <= k < i ==> inputs[k] == FreeQueues(old(inputs))[k]
        invariant forall k :: i <= k < |inputs| ==> inputs[k] == old(inputs)[k]
      {
        if !inputs[i].error {
          inputs := inputs[i := inputs[i].(queue := [])];
        }
        i := i + 1;
      }
    }

    /**
     * The start-date loop: pop late buffers from every usable input and take
     * the latest head pts as the start date; `ok` is false when it stopped at
     * a usable input left empty.
     */
    method FindStart(exact: Date, now: int) returns (latest: Date, ok: bool)
      requires Valid() && exact.Valid()
      modifies this`inputs
      ensures Valid()
      ensures var o := StartScan(old(inputs), 0, exact, now);
              inputs == o.inputs && ok == o.Started? && (ok ==> latest == o.exact)
    {
      latest := exact;
      var i := 0;
      while i < |inputs|
        invariant 0 <= i <= |inputs| && latest.Valid() && Valid()
        invariant StartScan(inputs, i, latest, now) == StartScan(old(inputs), 0, exact, now)
      {
        if inputs[i].error || inputs[i].paused {
          i := i + 1;
          continue;
        }
        ghost var before := inputs;
        var q, dropped := DropLate(inputs[i].queue, now);
        inputs := inputs[i := inputs[i].(queue := q, cursor := if dropped then None else inputs[i].cursor)];
        assert inputs[i] == DropLateInput(before[i], now);
        if q == [] {
          assert StartScan(old(inputs), 0, exact, now) == Starved(inputs);
          break;
        }
        if latest.date == 0 || latest.date < q[0].pts {
          latest := latest.Set(q[0].pts);
        }
        i := i + 1;
      }
      ok := i == |inputs|;
    }

    /**
     * MixBuffer: try to prepare one output buffer at wall-clock time `now`;
     * `allocOk` says whether allocating the output block succeeds. Returns 0
     * when a buffer was stamped and handed over, -1 when not ready.
     */
    method MixBuffer(now: int, allocOk: bool) returns (r: int)
      requires Valid()
      modifies this
      ensures Valid()
      ensures State() == Cycle(old(State()), now, allocOk).state
      ensures r == Cycle(old(State()), now, allocOk).status
    {
      if mixer.None? {
        FreeInputs();
        return -1;
      }
      var m := mixer.value;

      // the window starts at the output fifo's end date
      var exact := outEnd;
      if exact.date != 0 && exact.date < now {
        // an end date already behind the clock: empty the output fifo and unset its date
        outFifo, outEnd := [], outEnd.Set(0);
        exact := exact.Set(0);
      }
      ghost var a1 := State();
      assert a1 == if OutputLate(old(State()), now) then ResetOutput(old(State())) else old(State());

      if exact.date == 0 {
        var ok;
        exact, ok := FindStart(exact, now);
        if !ok {
          return -1;
        }
      }
      r := EmitBuffer(exact, allocOk);
    }

    /**
     * The part of MixBuffer after the start date is known: compute the end
     * date, check every input, then obtain, stamp and hand over the output
     * buffer.
     */
    method EmitBuffer(exact: Date, allocOk: bool) returns (r: int)
      requires Valid() && mixer.Some? && exact.Valid()
      modifies this
      ensures Valid()
      ensures State() == Emit(old(State()), exact, allocOk).state
      ensures r == Emit(old(State()), exact, allocOk).status
    {
      var m := mixer.value;
      var start := exact.date;
      var end := exact.Increment(nbSamples).date;
      var ins, first, complete, reset := CheckInputs(inputs, start, end, m.fmt);
      inputs := ins;
      if reset {
        // the input loop stopped on a cursor that could not be placed
        outFifo, outEnd := [], outEnd.Set(0);
      }
      if !complete {
        return -1;
      }
      FirstUsableUnique(inputs, 0, first);
      if first == |inputs| {
        // every input is in error or paused
        return -1;
      }

      // obtain the output buffer: a fresh one, or the head of the first usable input
      var outbuf: Option<Buffer>;
      if m.alloc {
        outbuf := if allocOk then Some(Buffer(0, 0, nbSamples * m.fmt.bytesPerFrame / m.fmt.frameLength, nbSamples)) else None;
      } else {
        outbuf := Some(inputs[first].queue[0]);
      }
      if outbuf.None? {
        return -1;
      }
      var out := outbuf.value.(pts := start, length := end - start);
      if !m.alloc {
        // the reused input buffer is stamped in place
        inputs := inputs[first := inputs[first].(queue := [out] + inputs[first].queue[1..])];
      }
      // mixing, then hand-over to the playback stage
      played := played + [out];
      return 0;
    }

    /**
     * aout_MixerRun: run cycles until one is not ready. The `k`-th cycle
     * reads the clock as `clock[k]` and allocates successfully iff
     * `allocs[k]`; at most `|clock|` cycles are run.
     */
    method MixerRun(clock: seq<int>, allocs: seq<bool>) returns (cycles: nat, produced: nat)
      requires Valid() && |clock| == |allocs|
      modifies this
      ensures Valid()
      ensures Run(old(State()), clock, allocs) == RunOutcome(State(), cycles, produced)
    {
      cycles, produced := 0, 0;
      while cycles < |clock|
        invariant 0 <= cycles <= |clock| && Valid() && produced == cycles
        invariant var o := Run(State(), clock[cycles..], allocs[cycles..]);
                  Run(old(State()), clock, allocs) == RunOutcome(o.state, o.cycles + cycles, o.produced + produced)
      {
        var r := MixBuffer(clock[cycles], allocs[cycles]);
        cycles := cycles + 1;
        if r == -1 {
          break;
        }
        produced := produced + 1;
      }
    }
  }
}
