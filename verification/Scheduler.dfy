/** The virtual clock and the cursor it drives over a schedule. */
module Scheduler {
  import opened Words
  import opened Schedule

  /** 64-bit fetch-and-add. */
  function Tick(now: u64, delta: u64): u64 {
    (now + delta) % MODULUS
  }

  class VirtualClock {
    var ns: u64

    constructor (startNs: u64)
      ensures ns == startNs
    {
      ns := startNs;
    }

    method Advance(deltaNs: u64)
      modifies this
      ensures ns == Tick(old(ns), deltaNs)
    {
      ns := (ns + deltaNs) % MODULUS;
    }
  }

  /** The cursor after everything due at `now` has fired. */
  function DueEnd(steps: seq<Step>, cursor: nat, now: u64): (end: nat)
    requires cursor <= |steps|
    ensures cursor <= end <= |steps|
    ensures forall i :: cursor <= i < end ==> steps[i].atNs <= now
    ensures end < |steps| ==> steps[end].atNs > now
    decreases |steps| - cursor
  {
    if cursor < |steps| && steps[cursor].atNs <= now then DueEnd(steps, cursor + 1, now) else cursor
  }

  class CursorScheduler {
    const steps: seq<Step>
    const clock: VirtualClock
    var cursor: nat

    ghost predicate Valid()
      reads this
    {
      cursor <= |steps|
    }

    constructor (steps: seq<Step>, startNs: u64)
      ensures Valid() && fresh(clock)
      ensures this.steps == steps && clock.ns == startNs && cursor == 0
    {
      this.steps := steps;
      clock := new VirtualClock(startNs);
      cursor := 0;
    }

    method Advance(deltaNs: u64) returns (due: seq<Step>)
      requires Valid()
      modifies this, clock
      ensures Valid()
      ensures clock.ns == Tick(old(clock.ns), deltaNs)
      ensures cursor == DueEnd(steps, old(cursor), clock.ns)
      ensures due == steps[old(cursor)..cursor]
    {
      clock.Advance(deltaNs);
      var now := clock.ns;
      var start := cursor;
      while cursor < |steps| && steps[cursor].atNs <= now
        invariant start <= cursor <= |steps| && clock.ns == now
        invariant DueEnd(steps, cursor, now) == DueEnd(steps, start, now)
      {
        cursor := cursor + 1;
      }
      due := steps[start..cursor];
    }

    predicate IsFinished()
      reads this
    {
      cursor >= |steps|
    }
  }

  // ---------------------------------------------------------------------
  // Whole runs of the scheduler
  // ---------------------------------------------------------------------

  /** The slices handed out for a sequence of clock advances. */
  function DueSlices(steps: seq<Step>, cursor: nat, now: u64, deltas: seq<u64>): (slices: seq<seq<Step>>)
    requires cursor <= |steps|
    ensures |slices| == |deltas|
    decreases |deltas|
  {
    if deltas == [] then []
    else
      var now' := Tick(now, deltas[0]);
      var end := DueEnd(steps, cursor, now');
      [steps[cursor..end]] + DueSlices(steps, end, now', deltas[1..])
  }

  function FinalCursor(steps: seq<Step>, cursor: nat, now: u64, deltas: seq<u64>): (end: nat)
    requires cursor <= |steps|
    ensures cursor <= end <= |steps|
    decreases |deltas|
  {
    if deltas == [] then cursor
    else FinalCursor(steps, DueEnd(steps, cursor, Tick(now, deltas[0])), Tick(now, deltas[0]), deltas[1..])
  }

  function Concat(slices: seq<seq<Step>>): seq<Step> {
    if slices == [] then [] else slices[0] + Concat(slices[1..])
  }

  /** However the clock is driven, wrapping or not, the slices handed out are
      consecutive: nothing is skipped, repeated or reordered. */
  lemma {:induction false} SlicesAreConsecutive(steps: seq<Step>, cursor: nat, now: u64, deltas: seq<u64>)
    requires cursor <= |steps|
    ensures Concat(DueSlices(steps, cursor, now, deltas)) == steps[cursor..FinalCursor(steps, cursor, now, deltas)]
    decreases |deltas|
  {
    if deltas != [] {
      var now' := Tick(now, deltas[0]);
      var mid := DueEnd(steps, cursor, now');
      SlicesAreConsecutive(steps, mid, now', deltas[1..]);
      var end := FinalCursor(steps, mid, now', deltas[1..]);
      assert steps[cursor..mid] + steps[mid..end] == steps[cursor..end];
      assert DueSlices(steps, cursor, now, deltas)[1..] == DueSlices(steps, mid, now', deltas[1..]);
    }
  }

  /** Replay fidelity of the scheduler: any two ways of driving it to the end
      fire the same steps in the same order, namely the schedule. */
  lemma FinishedRunsAgree(steps: seq<Step>, deltas: seq<u64>, deltas': seq<u64>)
    requires FinalCursor(steps, 0, 0, deltas) == |steps|
    requires FinalCursor(steps, 0, 0, deltas') == |steps|
    ensures Concat(DueSlices(steps, 0, 0, deltas)) == steps
    ensures Concat(DueSlices(steps, 0, 0, deltas')) == Concat(DueSlices(steps, 0, 0, deltas))
  {
    SlicesAreConsecutive(steps, 0, 0, deltas);
    SlicesAreConsecutive(steps, 0, 0, deltas');
    assert steps[0..|steps|] == steps;
  }

  function Sum(deltas: seq<u64>): nat {
    if deltas == [] then 0 else deltas[0] + Sum(deltas[1..])
  }

  /** On a sorted schedule, as long as the clock does not wrap, the fired steps
      are exactly those whose time has come. */
  lemma {:induction false} FiredIffDue(steps: seq<Step>, cursor: nat, now: u64, deltas: seq<u64>, i: nat)
    requires Sorted(steps) && cursor <= |steps| && i < |steps|
    requires now + Sum(deltas) <= U64_MAX
    requires deltas != []
    requires forall j :: 0 <= j < cursor ==> steps[j].atNs <= now
    ensures i < FinalCursor(steps, cursor, now, deltas) <==> steps[i].atNs <= now + Sum(deltas)
    decreases |deltas|
  {
    var now' := Tick(now, deltas[0]);
    var mid := DueEnd(steps, cursor, now');
    if |deltas| == 1 {
      assert FinalCursor(steps, mid, now', deltas[1..]) == mid;
      assert Sum(deltas[1..]) == 0;
    } else {
      FiredIffDue(steps, mid, now', deltas[1..], i);
    }
  }
}
