/**
 * An input fifo of timestamped audio buffers and the three repairs the
 * window synchroniser performs on it: dropping buffers that start before
 * the wall clock, dropping buffers that ended before the window, and
 * cutting the queue at holes in timestamp contiguity. Each repair is
 * specified by a function on the queue and implemented by a method whose
 * loop pops buffers off the head, as the C code does on its linked list.
 */
module Fifo {

  /** An audio block: presentation time, duration, and its byte and sample counts. */
  datatype Buffer = Buffer(pts: int, length: int, bytes: int, samples: int) {

    /** The date just after the last sample of the buffer. */
    function End(): int {
      pts + length
    }
  }

  // ---------------------------------------------------------------------
  // Late buffers: pts already in the past when the start date is computed
  // ---------------------------------------------------------------------

  /** The index of the first buffer from `i` on whose pts is not before `now`. */
  function FirstNotLate(q: seq<Buffer>, now: int, i: nat): (n: nat)
    requires i <= |q|
    ensures i <= n <= |q|
    ensures forall k :: i <= k < n ==> q[k].pts < now
    ensures n < |q| ==> q[n].pts >= now
    decreases |q| - i
  {
    if i < |q| && q[i].pts < now then FirstNotLate(q, now, i + 1) else i
  }

  /**
   * The pop-and-free loop over late buffers: what is left is the queue from
   * its first buffer that is not late on, and `dropped` tells whether any went.
   */
  method DropLate(q: seq<Buffer>, now: int) returns (r: seq<Buffer>, dropped: bool)
    ensures r == q[FirstNotLate(q, now, 0)..]
    ensures dropped <==> FirstNotLate(q, now, 0) > 0
  {
    r, dropped := q, false;
    ghost var n := 0;
    while r != [] && r[0].pts < now
      invariant n <= |q| && r == q[n..]
      invariant FirstNotLate(q, now, n) == FirstNotLate(q, now, 0)
      invariant dropped <==> n > 0
    {
      r, n := r[1..], n + 1;
      dropped := true;
    }
  }

  // ---------------------------------------------------------------------
  // Stale buffers: ended before the window start, with one unit of slack
  // ---------------------------------------------------------------------

  /** A buffer that ended more than one time unit before `start`. */
  predicate Stale(b: Buffer, start: int) {
    b.End() < start - 1
  }

  /** The index of the first buffer from `i` on that is not stale. */
  function FirstNotStale(q: seq<Buffer>, start: int, i: nat): (n: nat)
    requires i <= |q|
    ensures i <= n <= |q|
    ensures forall k :: i <= k < n ==> Stale(q[k], start)
    ensures n < |q| ==> q[n].End() >= start - 1
    decreases |q| - i
  {
    if i < |q| && Stale(q[i], start) then FirstNotStale(q, start, i + 1) else i
  }

  /**
   * The pop-and-free loop over stale buffers: what is left is the queue from
   * its first buffer that is not stale on, and `dropped` tells whether any went.
   */
  method DropStale(q: seq<Buffer>, start: int) returns (r: seq<Buffer>, dropped: bool)
    ensures r == q[FirstNotStale(q, start, 0)..]
    ensures dropped <==> FirstNotStale(q, start, 0) > 0
  {
    r, dropped := q, false;
    ghost var n := 0;
    while r != [] && r[0].End() < start - 1
      invariant n <= |q| && r == q[n..]
      invariant FirstNotStale(q, start, n) == FirstNotStale(q, start, 0)
      invariant dropped <==> n > 0
    {
      r, n := r[1..], n + 1;
      dropped := true;
    }
  }

  // ---------------------------------------------------------------------
  // Contiguity and coverage of the window end
  // ---------------------------------------------------------------------

  /** Buffer `j` starts exactly where buffer `j - 1` ends. */
  predicate Continues(q: seq<Buffer>, j: int)
    requires 0 < j < |q|
  {
    q[j].pts == q[j - 1].End()
  }

  /** Each of the buffers `1 .. n-1` starts exactly where its predecessor ends. */
  ghost predicate ContiguousUpTo(q: seq<Buffer>, n: int) {
    forall j :: 0 < j < n && j < |q| ==> Continues(q, j)
  }

  /** Index `d` is a hole: the buffer there does not continue its predecessor. */
  ghost predicate HoleAt(q: seq<Buffer>, d: int) {
    0 < d < |q| && !Continues(q, d)
  }

  /**
   * Buffer `c` is the first to end at or after `end`, and the buffers up to
   * it are contiguous.
   */
  ghost predicate CoversAt(q: seq<Buffer>, end: int, c: int) {
    0 <= c < |q| && q[c].End() >= end && ContiguousUpTo(q, c + 1)
    && forall j :: 0 <= j < c ==> q[j].End() < end
  }

  /** `q` reaches `end` without a hole. */
  ghost predicate Covers(q: seq<Buffer>, end: int) {
    exists c :: CoversAt(q, end, c)
  }

  /** `q` is contiguous throughout and every buffer ends before `end`. */
  ghost predicate ShortOf(q: seq<Buffer>, end: int) {
    ContiguousUpTo(q, |q|) && forall j :: 0 <= j < |q| ==> q[j].End() < end
  }

  /** No queue both reaches `end` and falls short of it. */
  lemma CoversExcludesShort(q: seq<Buffer>, end: int)
    requires Covers(q, end)
    ensures !ShortOf(q, end)
  {
    var c :| CoversAt(q, end, c);
  }

  /** How the forward scan over a queue stopped. */
  datatype ScanOutcome = Hole(at: int) | Reached(at: int) | Exhausted

  /**
   * The inner scan: from index `k`, find the first buffer that breaks
   * contiguity (checked first) or ends at or after `end`.
   */
  function ScanFrom(q: seq<Buffer>, end: int, k: int): (o: ScanOutcome)
    requires 1 <= k <= |q|
    requires ContiguousUpTo(q, k) && forall j :: 0 <= j < k ==> q[j].End() < end
    ensures o.Hole? ==> k <= o.at < |q| && HoleAt(q, o.at) && ContiguousUpTo(q, o.at)
                        && forall j :: 0 <= j < o.at ==> q[j].End() < end
    ensures o.Reached? ==> k <= o.at < |q| && q[o.at].End() >= end && ContiguousUpTo(q, o.at + 1)
                           && forall j :: 0 <= j < o.at ==> q[j].End() < end
    ensures o.Exhausted? ==> ShortOf(q, end)
    decreases |q| - k
  {
    if k == |q| then Exhausted
    else if q[k].pts != q[k - 1].End() then Hole(k)
    else if q[k].End() >= end then Reached(k)
    else ScanFrom(q, end, k + 1)
  }

  /**
   * The result of gap repair: how many buffers it drops off the head of
   * the queue, and whether what is left reaches the window end.
   */
  datatype Repaired = Repaired(cut: nat, ready: bool)

  /**
   * Gap repair: while the queue does not reach `end` contiguously, drop
   * every buffer before the first hole and scan again. A non-empty queue
   * stays non-empty; `RepairSound` says what is dropped and what is left.
   */
  function Repair(q: seq<Buffer>, end: int): (r: Repaired)
    ensures r.cut <= |q| && (q != [] ==> r.cut < |q|)
    decreases |q|
  {
    if q == [] then Repaired(0, false)
    else if q[0].End() >= end then Repaired(0, true)
    else match ScanFrom(q, end, 1)
      case Exhausted => Repaired(0, false)
      case Reached(_) => Repaired(0, true)
      case Hole(g) =>
        var r := Repair(q[g..], end);
        Repaired(g + r.cut, r.ready)
  }

  /** Gap repair of `q` drops only the buffers before a hole. */
  ghost predicate CutsAtHole(q: seq<Buffer>, end: int) {
    var r := Repair(q, end);
    r.cut > 0 ==> HoleAt(q, r.cut)
  }

  /** What gap repair of `q` leaves reaches `end` when it reports ready. */
  ghost predicate LeavesCoverage(q: seq<Buffer>, end: int) {
    var r := Repair(q, end);
    r.ready ==> Covers(q[r.cut..], end)
  }

  /** What gap repair of `q` leaves falls short of `end` when it does not report ready. */
  ghost predicate LeavesShortfall(q: seq<Buffer>, end: int) {
    var r := Repair(q, end);
    !r.ready ==> ShortOf(q[r.cut..], end)
  }

  /** Gap repair drops only the buffers before a hole. */
  lemma {:induction false} RepairCutsAtHole(q: seq<Buffer>, end: int)
    ensures CutsAtHole(q, end)
    decreases |q|
  {
    if q != [] && q[0].End() < end {
      var o := ScanFrom(q, end, 1);
      if o.Hole? {
        RepairAfterHole(q, end);
        RepairCutsAtHole(q[o.at..], end);
        CutAfterHole(q, o.at, Repair(q[o.at..], end).cut);
      }
    }
  }

  /** What gap repair leaves reaches `end` without a hole exactly when it reports ready. */
  lemma {:induction false} RepairLeavesCoverage(q: seq<Buffer>, end: int)
    ensures LeavesCoverage(q, end)
    decreases |q|
  {
    if q != [] && q[0].End() >= end {
      assert q[0..] == q && CoversAt(q, end, 0);
    } else if q != [] {
      var o := ScanFrom(q, end, 1);
      if o.Reached? {
        assert q[0..] == q && CoversAt(q, end, o.at);
      } else if o.Hole? {
        RepairAfterHole(q, end);
        RepairLeavesCoverage(q[o.at..], end);
        CutAfterHole(q, o.at, Repair(q[o.at..], end).cut);
      }
    }
  }

  /** When gap repair does not report ready, what it leaves is contiguous and ends before `end`. */
  lemma {:induction false} RepairLeavesShortfall(q: seq<Buffer>, end: int)
    ensures LeavesShortfall(q, end)
    decreases |q|
  {
    if q != [] && q[0].End() < end {
      var o := ScanFrom(q, end, 1);
      if o.Exhausted? {
        assert q[0..] == q;
      } else if o.Hole? {
        RepairAfterHole(q, end);
        RepairLeavesShortfall(q[o.at..], end);
        CutAfterHole(q, o.at, Repair(q[o.at..], end).cut);
      }
    }
  }

  /**
   * Only the buffers before a hole are dropped, and what is left either
   * reaches `end` without a hole or falls short of it without a hole.
   */
  lemma RepairSound(q: seq<Buffer>, end: int)
    ensures var r := Repair(q, end);
      && (r.cut > 0 ==> HoleAt(q, r.cut))
      && (r.ready ==> Covers(q[r.cut..], end))
      && (!r.ready ==> ShortOf(q[r.cut..], end))
  {
    RepairCutsAtHole(q, end);
    RepairLeavesCoverage(q, end);
    RepairLeavesShortfall(q, end);
  }

  /** Cutting `c` more buffers after the first `g` cuts `g + c`; a hole keeps its place. */
  lemma CutAfterHole(q: seq<Buffer>, g: nat, c: nat)
    requires g + c <= |q|
    ensures q[g..][c..] == q[g + c..]
    ensures HoleAt(q[g..], c) ==> HoleAt(q, g + c)
  {
    if 0 < c < |q| - g {
      assert q[g..][c] == q[g + c] && q[g..][c - 1] == q[g + c - 1];
    }
  }

  /**
   * The inner loop of gap repair: walk the queue from its second buffer
   * while each buffer continues its predecessor and ends before `end`.
   */
  method ScanGaps(q: seq<Buffer>, end: int) returns (k: nat, hole: bool)
    requires q != [] && q[0].End() < end
    ensures ScanFrom(q, end, 1) == if hole then Hole(k) else if k < |q| then Reached(k) else Exhausted
  {
    var prev := q[0].End();
    k, hole := 1, false;
    while k < |q|
      invariant 1 <= k <= |q| && prev == q[k - 1].End()
      invariant ContiguousUpTo(q, k) && forall j :: 0 <= j < k ==> q[j].End() < end
      invariant ScanFrom(q, end, k) == ScanFrom(q, end, 1)
    {
      if prev != q[k].pts {
        hole := true;
        break;
      }
      if q[k].End() >= end {
        break;
      }
      prev := q[k].End();
      k := k + 1;
    }
  }

  /** Gap repair of `q`, after `cut` buffers were already dropped, ends in `goal`. */
  ghost predicate RepairsTo(q: seq<Buffer>, end: int, cut: nat, goal: Repaired) {
    var r := Repair(q, end);
    goal == Repaired(cut + r.cut, r.ready)
  }

  /** The outer loop of gap repair: drop the buffers before each hole until none is left. */
  method RepairGaps(q: seq<Buffer>, end: int) returns (r: seq<Buffer>, ready: bool)
    requires q != []
    ensures r == q[Repair(q, end).cut..] && ready == Repair(q, end).ready
  {
    ghost var goal := Repair(q, end);
    r := q;
    ghost var cut := 0;
    while true
      invariant r != [] && cut <= |q| && r == q[cut..]
      invariant RepairsTo(r, end, cut, goal)
      decreases |r|
    {
      if r[0].End() >= end {
        return r, true;
      }
      var k, hole := ScanGaps(r, end);
      if !hole {
        return r, k < |r|;
      }
      r, cut := r[k..], cut + k;
    }
  }

  // ---------------------------------------------------------------------
  // Properties of gap repair
  // ---------------------------------------------------------------------

  /** A queue contiguous up to a buffer that reaches `end` is left untouched. */
  lemma {:induction false} RepairKeepsCoveringQueue(q: seq<Buffer>, end: int)
    requires Covers(q, end)
    ensures Repair(q, end) == Repaired(0, true)
  {
    var c :| CoversAt(q, end, c);
    if q[0].End() < end {
      var o := ScanFrom(q, end, 1);
      assert !o.Exhausted? && !o.Hole?;
    }
  }

  /** A queue with a hole before any buffer reaches `end` does not cover `end`. */
  lemma HoleBeforeCoverage(q: seq<Buffer>, end: int, g: int)
    requires HoleAt(q, g) && ContiguousUpTo(q, g)
    requires forall j :: 0 <= j < g ==> q[j].End() < end
    ensures !Covers(q, end)
  {
  }

  /**
   * Gap repair drops no more than it must: no earlier cut point (the head
   * or a hole) would have left a queue that reaches `end`.
   */
  lemma {:induction false} RepairIsMinimal(q: seq<Buffer>, end: int, d: int)
    requires 0 <= d < Repair(q, end).cut
    requires d == 0 || HoleAt(q, d)
    ensures !Covers(q[d..], end)
    decreases |q|
  {
    var o := ScanFrom(q, end, 1);
    assert q != [] && q[0].End() < end && o.Hole?;
    var g := o.at;
    RepairAfterHole(q, end);
    if d < g {
      // the same hole at g - d is met first from index d
      var s := q[d..];
      assert HoleAt(s, g - d);
      assert ContiguousUpTo(s, g - d) by {
        forall j | 0 < j < g - d && j < |s| ensures Continues(s, j) {
          assert s[j] == q[d + j] && s[j - 1] == q[d + j - 1];
        }
      }
      HoleBeforeCoverage(s, end, g - d);
    } else if d == g {
      assert q[g..][0..] == q[g..];
      RepairIsMinimal(q[g..], end, 0);
    } else {
      var s := q[g..];
      assert HoleAt(s, d - g) by { assert s[d - g] == q[d] && s[d - g - 1] == q[d - 1]; }
      RepairIsMinimal(s, end, d - g);
      assert s[d - g..] == q[d..];
    }
  }

  /** After a hole at `g`, repair goes on with the queue from `g`. */
  lemma RepairAfterHole(q: seq<Buffer>, end: int)
    requires q != [] && q[0].End() < end && ScanFrom(q, end, 1).Hole?
    ensures var g := ScanFrom(q, end, 1).at;
      Repair(q, end) == Repaired(g + Repair(q[g..], end).cut, Repair(q[g..], end).ready)
  {
  }
}
