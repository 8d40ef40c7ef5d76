/** The runner: drives a schedule through the scheduler, arms and disarms
    injectors and records a trace. */
module Runner {
  import opened Words
  import opened Schedule
  import opened Scheduler
  import opened Injectors
  import opened ClockReach

  // ---------------------------------------------------------------------
  // Traces
  // ---------------------------------------------------------------------

  datatype TraceEvent = TraceEvent(step: Step, wallNs: u64)
  datatype TraceValue = TraceValue(scenarioName: string, seed: u64, events: seq<TraceEvent>)

  class Trace {
    const scenarioName: string
    const seed: u64
    var events: seq<TraceEvent>

    constructor (scenarioName: string, seed: u64)
      ensures Value() == TraceValue(scenarioName, seed, [])
    {
      this.scenarioName := scenarioName;
      this.seed := seed;
      events := [];
    }

    function Value(): TraceValue
      reads this
    {
      TraceValue(scenarioName, seed, events)
    }

    method Record(step: Step, wallNs: u64)
      modifies this
      ensures Value() == old(Value()).(events := old(events) + [TraceEvent(step, wallNs)])
    {
      events := events + [TraceEvent(step, wallNs)];
    }
  }

  function StepsOf(events: seq<TraceEvent>): (steps: seq<Step>)
    ensures |steps| == |events|
    ensures forall i :: 0 <= i < |events| ==> steps[i] == events[i].step
  {
    seq(|events|, i requires 0 <= i < |events| => events[i].step)
  }

  /** The bit-exact comparison; recorded times and the name do not take part. */
  predicate MatchesSchedule(a: TraceValue, b: TraceValue) {
    a.seed == b.seed && StepsOf(a.events) == StepsOf(b.events)
  }

  /** Two traces match exactly when they have the same seed, the same number of
      events, and the same time, fault and action at every position. */
  lemma MatchesIff(a: TraceValue, b: TraceValue)
    ensures MatchesSchedule(a, b) <==>
            && a.seed == b.seed
            && |a.events| == |b.events|
            && forall i :: 0 <= i < |a.events| ==>
                 && a.events[i].step.atNs == b.events[i].step.atNs
                 && a.events[i].step.faultId == b.events[i].step.faultId
                 && a.events[i].step.action == b.events[i].step.action
  {
    if MatchesSchedule(a, b) {
      forall i | 0 <= i < |a.events| ensures a.events[i].step == b.events[i].step {
        assert StepsOf(a.events)[i] == StepsOf(b.events)[i];
      }
    } else if a.seed == b.seed && |a.events| == |b.events| {
      var i :| 0 <= i < |a.events| && StepsOf(a.events)[i] != StepsOf(b.events)[i];
    }
  }

  // ---------------------------------------------------------------------
  // Timing
  // ---------------------------------------------------------------------

  function CeilDiv(a: nat, b: nat): nat
    requires b > 0
  {
    (a + b - 1) / b
  }

  /** The number of the advance at which a step fires. */
  function FiringTick(atNs: u64, tickNs: u64): (k: nat)
    requires tickNs > 0
    ensures k >= 1
  {
    if CeilDiv(atNs, tickNs) == 0 then 1 else CeilDiv(atNs, tickNs)
  }

  /** The clock reading at which a step fires. */
  function FiringTime(atNs: u64, tickNs: u64): nat
    requires tickNs > 0
  {
    FiringTick(atNs, tickNs) * tickNs
  }

  lemma CeilDivIs(a: nat, b: nat, k: nat)
    requires b > 0 && k > 0
    requires (k - 1) * b < a <= k * b
    ensures CeilDiv(a, b) == k
  {
    var x := a + b - 1;
    var r := x - k * b;
    assert x == k * b + r && 0 <= r < b by { assert (k - 1) * b == k * b - b; }
    QuotientIs(x, b, k, r);
  }

  /** A step due by advance `k` and not by the one before fires at tick `k`. */
  lemma FiringTickIs(atNs: u64, tickNs: u64, k: nat)
    requires tickNs > 0 && k > 0
    requires atNs <= k * tickNs
    requires k == 1 || (k - 1) * tickNs < atNs
    ensures FiringTick(atNs, tickNs) == k
  {
    if atNs == 0 {
      assert k == 1;
      QuotientIs(tickNs - 1, tickNs, 0, tickNs - 1);
    } else {
      CeilDivIs(atNs, tickNs, k);
    }
  }

  lemma CeilDivBounds(a: nat, b: nat)
    requires b > 0
    ensures a <= CeilDiv(a, b) * b < a + b
  {
    var x := a + b - 1;
    assert x == (x / b) * b + x % b;
  }

  /** Timing: a step never fires early, at most one tick late, and strictly
      less than one tick late unless it was scheduled at zero. */
  lemma FiringTimeBounds(atNs: u64, tickNs: u64)
    requires tickNs > 0
    ensures atNs <= FiringTime(atNs, tickNs) <= atNs + tickNs
    ensures atNs > 0 ==> FiringTime(atNs, tickNs) < atNs + tickNs
  {
    CeilDivBounds(atNs, tickNs);
    if CeilDiv(atNs, tickNs) == 0 { assert CeilDiv(atNs, tickNs) * tickNs == 0; }
  }

  /** A run reaches its last step before the clock wraps. */
  predicate NoWrapNeeded(steps: seq<Step>, tickNs: u64) {
    steps == [] || (tickNs > 0 && FiringTime(steps[|steps| - 1].atNs, tickNs) <= U64_MAX)
  }

  /** A sufficient condition on the times alone; the run then completes. */
  lemma NoWrapIfRoom(steps: seq<Step>, tickNs: u64)
    requires steps != [] && tickNs > 0
    requires steps[|steps| - 1].atNs + tickNs - 1 <= U64_MAX
    ensures NoWrapNeeded(steps, tickNs) && Finishes(steps, tickNs)
  {
    FiringTimeBounds(steps[|steps| - 1].atNs, tickNs);
    if steps[|steps| - 1].atNs == 0 { QuotientIs(tickNs - 1, tickNs, 0, tickNs - 1); }
    NoWrapFinishes(steps, tickNs);
  }

  // ---------------------------------------------------------------------
  // Termination
  // ---------------------------------------------------------------------

  /** The clock at some advance shows the time of the last step or a later one. */
  ghost predicate Finishes(steps: seq<Step>, tickNs: u64) {
    steps == [] || Reaches(steps[|steps| - 1].atNs, tickNs)
  }

  lemma NoWrapFinishes(steps: seq<Step>, tickNs: u64)
    requires NoWrapNeeded(steps, tickNs)
    ensures Finishes(steps, tickNs)
  {
    if steps != [] {
      var last := steps[|steps| - 1].atNs;
      var k := FiringTick(last, tickNs);
      FiringTimeBounds(last, tickNs);
      assert Wrapped(k, tickNs) == FiringTime(last, tickNs) by { Residue(k * tickNs, 0, k * tickNs); }
    }
  }

  lemma NextTick(k: nat, tickNs: u64)
    ensures Tick(Wrapped(k, tickNs), tickNs) == Wrapped(k + 1, tickNs)
  {
    var before, sum := k * tickNs, Wrapped(k, tickNs) + tickNs;
    assert (k + 1) * tickNs == before + tickNs;
    Residue((k + 1) * tickNs, before / MODULUS + sum / MODULUS, sum % MODULUS);
  }

  /** The cursor after `n` advances by one tick from time zero. */
  function CursorAfter(steps: seq<Step>, tickNs: u64, n: nat): (cursor: nat)
    ensures cursor <= |steps|
  {
    if n == 0 then 0 else DueEnd(steps, CursorAfter(steps, tickNs, n - 1), Wrapped(n, tickNs))
  }

  /** After `n` advances the cursor is past a step exactly when one of them
      showed its time or a later one. */
  lemma {:induction false} PastIff(steps: seq<Step>, tickNs: u64, n: nat, t: nat)
    requires Sorted(steps) && t < |steps|
    ensures CursorAfter(steps, tickNs, n) > t <==> exists j :: 1 <= j <= n && Wrapped(j, tickNs) >= steps[t].atNs
  {
    hide Wrapped, CursorAfter, DueEnd, Sorted;
    if n == 0 {
      NothingFired(steps, tickNs);
    } else {
      PastIff(steps, tickNs, n - 1, t);
      AfterStep(steps, tickNs, n);
      DuePast(steps, CursorAfter(steps, tickNs, n - 1), Wrapped(n, tickNs), t);
    }
  }

  lemma DuePast(steps: seq<Step>, cursor: nat, now: u64, t: nat)
    requires Sorted(steps) && cursor <= |steps| && t < |steps|
    ensures DueEnd(steps, cursor, now) > t <==> cursor > t || now >= steps[t].atNs
  {
    var end := DueEnd(steps, cursor, now);
    if end < t { assert steps[end].atNs <= steps[t].atNs; }
    if cursor <= t < end { assert steps[t].atNs <= now; }
  }

  lemma PastForSomeIff(steps: seq<Step>, tickNs: u64, t: nat)
    requires Sorted(steps) && t < |steps|
    ensures (exists n: nat :: CursorAfter(steps, tickNs, n) > t) <==> Reaches(steps[t].atNs, tickNs)
  {
    hide Wrapped, CursorAfter;
    if n: nat :| CursorAfter(steps, tickNs, n) > t {
      PastIff(steps, tickNs, n, t);
      var j :| 1 <= j <= n && Wrapped(j, tickNs) >= steps[t].atNs;
    }
    if Reaches(steps[t].atNs, tickNs) {
      var k: nat :| k >= 1 && Wrapped(k, tickNs) >= steps[t].atNs;
      PastIff(steps, tickNs, k, t);
    }
  }

  /** Completion, exactly: some number of advances takes the cursor through the
      whole schedule if and only if the schedule is empty or ends at time zero,
      or the tick is not zero and the last time is at most 2^64 less the tick's
      lowest set bit. */
  lemma RunCompletesIff(steps: seq<Step>, tickNs: u64)
    requires Sorted(steps)
    ensures (exists n: nat :: CursorAfter(steps, tickNs, n) == |steps|) <==>
            steps == [] || steps[|steps| - 1].atNs == 0
            || (tickNs > 0 && steps[|steps| - 1].atNs <= MODULUS - LowBit(tickNs))
    ensures Finishes(steps, tickNs) <==> exists n: nat :: CursorAfter(steps, tickNs, n) == |steps|
  {
    hide Wrapped, Reaches;
    if steps == [] {
      NothingFired(steps, tickNs);
      assert exists n: nat :: CursorAfter(steps, tickNs, n) == 0;
    } else {
      ReachesIff(steps[|steps| - 1].atNs, tickNs);
      PastForSomeIff(steps, tickNs, |steps| - 1);
      assert forall n: nat :: CursorAfter(steps, tickNs, n) == |steps| <==> CursorAfter(steps, tickNs, n) > |steps| - 1;
    }
  }

  /** After `n` advances the loop has returned: the schedule is through, or the
      cursor has passed the step whose call fails. */
  ghost predicate Over(w: World, steps: seq<Step>, tickNs: u64, n: nat)
    requires Registered(w, steps)
  {
    CursorAfter(steps, tickNs, n) == |steps| || CursorAfter(steps, tickNs, n) > Execute(w, steps).done
  }

  ghost predicate Returns(w: World, steps: seq<Step>, tickNs: u64) {
    Registered(w, steps) && exists n: nat :: Over(w, steps, tickNs, n)
  }

  /** The last step whose injector is called: the one that fails, if any. */
  ghost function LastCalled(w: World, steps: seq<Step>): (t: nat)
    requires Registered(w, steps) && steps != []
    ensures t < |steps|
  {
    if Execute(w, steps).done < |steps| then Execute(w, steps).done else |steps| - 1
  }

  lemma OverIff(w: World, steps: seq<Step>, tickNs: u64, n: nat)
    requires Registered(w, steps) && steps != []
    ensures Over(w, steps, tickNs, n) <==> CursorAfter(steps, tickNs, n) > LastCalled(w, steps)
  {
    hide Execute;
  }

  lemma ReturnsIffReaches(w: World, steps: seq<Step>, tickNs: u64)
    requires Sorted(steps) && Registered(w, steps) && steps != []
    ensures Returns(w, steps, tickNs) <==> Reaches(steps[LastCalled(w, steps)].atNs, tickNs)
  {
    hide Reaches, Wrapped, Over, LastCalled, DueEnd, Sorted, Registered;
    PastForSomeIff(steps, tickNs, LastCalled(w, steps));
    if Returns(w, steps, tickNs) {
      var n: nat :| Over(w, steps, tickNs, n);
      OverIff(w, steps, tickNs, n);
    }
    if n: nat :| CursorAfter(steps, tickNs, n) > LastCalled(w, steps) {
      OverIff(w, steps, tickNs, n);
    }
  }

  /** Termination, exactly: a run returns, with a trace or with an error, if and
      only if it has no step to call, or the clock ever shows the time of the
      last step it calls. */
  lemma RunReturnsIff(w: World, steps: seq<Step>, tickNs: u64)
    requires Sorted(steps) && Registered(w, steps)
    ensures Returns(w, steps, tickNs) <==>
            steps == []
            || var last := steps[LastCalled(w, steps)].atNs;
               last == 0 || (tickNs > 0 && last <= MODULUS - LowBit(tickNs))
    ensures Finishes(steps, tickNs) ==> Returns(w, steps, tickNs)
  {
    hide Wrapped, DueEnd, Reaches, Execute, Finishes, Sorted, Registered, LastCalled;
    RunCompletesIff(steps, tickNs);
    if Finishes(steps, tickNs) {
      var n: nat :| CursorAfter(steps, tickNs, n) == |steps|;
      assert Over(w, steps, tickNs, n);
    }
    if steps == [] {
      assert Over(w, steps, tickNs, 0);
    } else {
      ReachesIff(steps[LastCalled(w, steps)].atNs, tickNs);
      ReturnsIffReaches(w, steps, tickNs);
    }
  }

  // ---------------------------------------------------------------------
  // What a run records
  // ---------------------------------------------------------------------

  function Stamp(due: seq<Step>, now: u64): (events: seq<TraceEvent>)
    ensures |events| == |due|
    ensures forall i :: 0 <= i < |due| ==> events[i] == TraceEvent(due[i], now)
  {
    seq(|due|, i requires 0 <= i < |due| => TraceEvent(due[i], now))
  }

  lemma StampStart(due: seq<Step>, now: u64)
    ensures Stamp(due[..0], now) == []
  {}

  lemma StampStep(due: seq<Step>, j: nat, now: u64)
    requires j < |due|
    ensures Stamp(due[..j + 1], now) == Stamp(due[..j], now) + [TraceEvent(due[j], now)]
  {}

  /** The events of the first `n` advances. */
  function EventsAfter(steps: seq<Step>, tickNs: u64, n: nat): seq<TraceEvent> {
    if n == 0 then []
    else
      var before, after := CursorAfter(steps, tickNs, n - 1), CursorAfter(steps, tickNs, n);
      EventsAfter(steps, tickNs, n - 1) + Stamp(steps[before..after], Wrapped(n, tickNs))
  }

  lemma NothingFired(steps: seq<Step>, tickNs: u64)
    ensures EventsAfter(steps, tickNs, 0) == [] && StepsOf([]) == [] && CursorAfter(steps, tickNs, 0) == 0
  {}

  lemma StepsOfStamp(due: seq<Step>, now: u64)
    ensures StepsOf(Stamp(due, now)) == due
  {}

  lemma StepsOfConcat(a: seq<TraceEvent>, b: seq<TraceEvent>)
    ensures StepsOf(a + b) == StepsOf(a) + StepsOf(b)
  {}

  lemma {:induction false} EventsAreThePrefix(steps: seq<Step>, tickNs: u64, n: nat)
    ensures StepsOf(EventsAfter(steps, tickNs, n)) == steps[..CursorAfter(steps, tickNs, n)]
  {
    hide CursorAfter, EventsAfter, Wrapped, StepsOf, DueEnd;
    if n == 0 {
      NothingFired(steps, tickNs);
    } else {
      EventsAreThePrefix(steps, tickNs, n - 1);
      AfterStep(steps, tickNs, n);
      var before, after := CursorAfter(steps, tickNs, n - 1), CursorAfter(steps, tickNs, n);
      assert steps[..after] == steps[..before] + steps[before..after];
      StepsOfConcat(EventsAfter(steps, tickNs, n - 1), Stamp(steps[before..after], Wrapped(n, tickNs)));
      StepsOfStamp(steps[before..after], Wrapped(n, tickNs));
    }
  }

  /** The number of clock advances of a complete run that needs no wrap. */
  function Advances(steps: seq<Step>, tickNs: u64): nat
    requires steps != [] ==> tickNs > 0
  {
    if steps == [] then 0 else FiringTick(steps[|steps| - 1].atNs, tickNs)
  }

  ghost predicate Timed(events: seq<TraceEvent>, tickNs: u64) {
    forall i :: 0 <= i < |events| ==> tickNs > 0 && events[i].wallNs == FiringTime(events[i].step.atNs, tickNs)
  }

  /** Between advances: what has not fired is later than now. */
  ghost predicate AtTick(steps: seq<Step>, tickNs: u64, cursor: nat, n: nat) {
    && (steps != [] ==> tickNs > 0)
    && (n == 0 ==> cursor == 0)
    && (n > 0 ==> forall i :: cursor <= i < |steps| ==> n * tickNs < steps[i].atNs)
    && (cursor == |steps| <==> n == Advances(steps, tickNs))
  }

  lemma MulMonotone(a: nat, b: nat, c: nat)
    requires a <= b
    ensures a * c <= b * c
  {}

  /** Timing: if the run needs no wrap, then up to its last advance every event
      is stamped with its firing time, and the run is complete at exactly the
      advance that is its last step's firing tick. */
  lemma {:induction false} RunIsTimed(steps: seq<Step>, tickNs: u64, n: nat)
    requires Sorted(steps) && NoWrapNeeded(steps, tickNs) && n <= Advances(steps, tickNs)
    ensures Timed(EventsAfter(steps, tickNs, n), tickNs)
    ensures AtTick(steps, tickNs, CursorAfter(steps, tickNs, n), n)
    ensures CursorAfter(steps, tickNs, n) == |steps| <==> n == Advances(steps, tickNs)
  {
    hide CursorAfter, EventsAfter, Wrapped, DueEnd, AtTick, Timed, FiringTime, NoWrapNeeded, Advances;
    if n == 0 {
      StartIsTimed(steps, tickNs);
    } else {
      RunIsTimed(steps, tickNs, n - 1);
      var before, now := CursorAfter(steps, tickNs, n - 1), Wrapped(n, tickNs);
      ClockAt(steps, tickNs, n);
      TickFires(steps, tickNs, before, n, now);
      AfterStep(steps, tickNs, n);
      TimedAppend(EventsAfter(steps, tickNs, n - 1), steps[before..DueEnd(steps, before, now)], now, tickNs);
    }
  }

  lemma AfterStep(steps: seq<Step>, tickNs: u64, n: nat)
    requires n > 0
    ensures var before := CursorAfter(steps, tickNs, n - 1);
            var after := DueEnd(steps, before, Wrapped(n, tickNs));
            && CursorAfter(steps, tickNs, n) == after
            && EventsAfter(steps, tickNs, n)
               == EventsAfter(steps, tickNs, n - 1) + Stamp(steps[before..after], Wrapped(n, tickNs))
  {}

  lemma StartIsTimed(steps: seq<Step>, tickNs: u64)
    requires NoWrapNeeded(steps, tickNs)
    ensures Timed(EventsAfter(steps, tickNs, 0), tickNs)
    ensures AtTick(steps, tickNs, CursorAfter(steps, tickNs, 0), 0)
    ensures CursorAfter(steps, tickNs, 0) == |steps| <==> 0 == Advances(steps, tickNs)
  {}

  lemma TimedAppend(events: seq<TraceEvent>, due: seq<Step>, now: u64, tickNs: u64)
    requires Timed(events, tickNs) && tickNs > 0
    requires forall i :: 0 <= i < |due| ==> FiringTime(due[i].atNs, tickNs) == now
    ensures Timed(events + Stamp(due, now), tickNs)
  {
    hide FiringTime;
  }

  lemma ClockAt(steps: seq<Step>, tickNs: u64, n: nat)
    requires NoWrapNeeded(steps, tickNs) && n <= Advances(steps, tickNs)
    ensures Wrapped(n, tickNs) == n * tickNs
  {
    if steps != [] {
      MulMonotone(n, Advances(steps, tickNs), tickNs);
      Residue(n * tickNs, 0, n * tickNs);
    }
  }

  /** The steps that come due at advance `n` are those whose firing tick it is. */
  lemma TickFires(steps: seq<Step>, tickNs: u64, from: nat, n: nat, now: u64)
    requires Sorted(steps) && NoWrapNeeded(steps, tickNs) && 0 < n <= Advances(steps, tickNs)
    requires from <= |steps| && AtTick(steps, tickNs, from, n - 1) && now == n * tickNs
    ensures tickNs > 0
    ensures var to := DueEnd(steps, from, now);
            && AtTick(steps, tickNs, to, n)
            && (to == |steps| <==> n == Advances(steps, tickNs))
            && forall i :: from <= i < to ==> FiringTime(steps[i].atNs, tickNs) == now
  {
    var to := DueEnd(steps, from, now);
    var last := steps[|steps| - 1].atNs;
    forall i | from <= i < to ensures FiringTick(steps[i].atNs, tickNs) == n {
      FiringTickIs(steps[i].atNs, tickNs, n);
    }
    if to < |steps| {
      if n == Advances(steps, tickNs) { FiringTimeBounds(last, tickNs); }
    } else {
      assert FiringTick(steps[|steps| - 1].atNs, tickNs) == n;
    }
  }

  /** Replay fidelity: a complete run, whatever its tick, records exactly the
      schedule's steps in order. So the traces of complete runs of two scenarios
      match if and only if the scenarios have the same seed and the same steps;
      in particular any two complete runs of one scenario match. */
  lemma ReplayFidelity(x: Scenario, tickX: u64, n: nat, y: Scenario, tickY: u64, m: nat)
    requires CursorAfter(x.steps, tickX, n) == |x.steps|
    requires CursorAfter(y.steps, tickY, m) == |y.steps|
    ensures var a := TraceValue(x.name, x.seed, EventsAfter(x.steps, tickX, n));
            var b := TraceValue(y.name, y.seed, EventsAfter(y.steps, tickY, m));
            && StepsOf(a.events) == x.steps
            && (MatchesSchedule(a, b) <==> x.seed == y.seed && x.steps == y.steps)
  {
    EventsAreThePrefix(x.steps, tickX, n);
    EventsAreThePrefix(y.steps, tickY, m);
    assert x.steps[..|x.steps|] == x.steps && y.steps[..|y.steps|] == y.steps;
  }

  // ---------------------------------------------------------------------
  // The runner
  // ---------------------------------------------------------------------

  datatype RunResult = Ok(trace: TraceValue) | Err
  datatype NewResult = Built(runner: ScheduleRunner) | UnknownFault(at: nat)
  datatype TeardownResult = Clean | FirstError(faultId: string)

  class ScheduleRunner {
    const scenario: Scenario
    const injectors: map<string, Injector>

    ghost predicate Valid() {
      && WellFormed(scenario.steps)
      && (forall i :: 0 <= i < |scenario.steps| ==> scenario.steps[i].faultId in injectors)
      && Distinct(injectors)
    }

    ghost function Injs(): World
      reads injectors.Values
    {
      map id | id in injectors :: injectors[id].Value()
    }

    constructor (scenario: Scenario, injectors: map<string, Injector>)
      ensures this.scenario == scenario && this.injectors == injectors
    {
      this.scenario := scenario;
      this.injectors := injectors;
    }

    /** Every fault of the schedule must have a registered injector; otherwise
        the first step without one is reported. */
    static method New(scenario: Scenario, injectors: map<string, Injector>) returns (r: NewResult)
      requires WellFormed(scenario.steps) && Distinct(injectors)
      ensures r.Built? <==> forall i :: 0 <= i < |scenario.steps| ==> scenario.steps[i].faultId in injectors
      ensures r.Built? ==> r.runner.Valid() && r.runner.scenario == scenario && r.runner.injectors == injectors
      ensures r.UnknownFault? ==> r.at < |scenario.steps| && scenario.steps[r.at].faultId !in injectors
      ensures r.UnknownFault? ==> forall i :: 0 <= i < r.at ==> scenario.steps[i].faultId in injectors
    {
      for k := 0 to |scenario.steps|
        invariant forall i :: 0 <= i < k ==> scenario.steps[i].faultId in injectors
      {
        if scenario.steps[k].faultId !in injectors {
          return UnknownFault(k);
        }
      }
      var runner := new ScheduleRunner(scenario, injectors);
      r := Built(runner);
    }

    /** Runs the schedule on the virtual clock, whenever the loop returns at all
        (`RunReturnsIff`). The injectors end up exactly as executing the
        schedule in order leaves them. The run succeeds iff no call failed, and
        then its trace lists exactly the schedule's steps; it returned at the
        first advance at which the run is over. If no wrap is needed, every
        step is recorded at its firing time, after `Advances` advances. */
    method Run(tickNs: u64) returns (r: RunResult, advances: nat)
      requires Valid() && Returns(Injs(), scenario.steps, tickNs)
      modifies injectors.Values
      ensures Registered(old(Injs()), scenario.steps)
      ensures Injs() == Execute(old(Injs()), scenario.steps).world
      ensures r.Ok? <==> Execute(old(Injs()), scenario.steps).done == |scenario.steps|
      ensures Over(old(Injs()), scenario.steps, tickNs, advances)
      ensures advances > 0 ==> !Over(old(Injs()), scenario.steps, tickNs, advances - 1)
      ensures r.Ok? ==>
                r.trace == TraceValue(scenario.name, scenario.seed, EventsAfter(scenario.steps, tickNs, advances))
      ensures r.Ok? ==> StepsOf(r.trace.events) == scenario.steps
      ensures r.Ok? ==> CursorAfter(scenario.steps, tickNs, advances) == |scenario.steps|
      ensures NoWrapNeeded(scenario.steps, tickNs) ==> advances <= Advances(scenario.steps, tickNs)
      ensures NoWrapNeeded(scenario.steps, tickNs) && r.Ok? ==>
                advances == Advances(scenario.steps, tickNs) && Timed(r.trace.events, tickNs)
    {
      hide Executed, Execute, Over, Stopped, WellFormed, CursorAfter, EventsAfter, Wrapped;
      hide NoWrapNeeded, Advances, Timed;
      ghost var w, steps := Injs(), scenario.steps;
      StartOfRun(w, steps, tickNs);
      ghost var end: nat :| Over(w, steps, tickNs, end);
      var scheduler := new CursorScheduler(scenario.steps, 0);
      var trace := new Trace(scenario.name, scenario.seed);
      advances := 0;
      while !scheduler.IsFinished()
        invariant fresh(scheduler) && fresh(scheduler.clock) && fresh(trace)
        invariant trace.scenarioName == scenario.name && trace.seed == scenario.seed
        invariant OnTrack(scheduler, trace, tickNs, advances, w)
        invariant advances > 0 ==> !Over(w, steps, tickNs, advances - 1)
        invariant advances <= end
        decreases end - advances
      {
        NotYetOver(w, steps, tickNs, advances, Injs());
        var ok := RunTick(scheduler, trace, tickNs, advances, w);
        advances := advances + 1;
        if !ok {
          StoppedIsOver(w, steps, tickNs, advances, Injs());
          return Err, advances;
        }
      }
      EndOfRun(w, steps, tickNs, scheduler.cursor, advances, Injs());
      r := Ok(trace.Value());
    }

    /** The loop invariant of a run after `advances` clock advances. */
    ghost predicate OnTrack(scheduler: CursorScheduler, trace: Trace, tickNs: u64, advances: nat, w: World)
      reads scheduler, scheduler.clock, trace, injectors.Values
    {
      && scheduler.Valid() && scheduler.steps == scenario.steps
      && scheduler.clock.ns == Wrapped(advances, tickNs)
      && scheduler.cursor == CursorAfter(scenario.steps, tickNs, advances)
      && trace.events == EventsAfter(scenario.steps, tickNs, advances)
      && Executed(w, scenario.steps, scheduler.cursor, Injs())
    }

    /** One turn of the run loop: advance the clock, fire what is due. */
    method RunTick(scheduler: CursorScheduler, trace: Trace, tickNs: u64, advances: nat, ghost w: World)
      returns (ok: bool)
      requires Valid()
      requires OnTrack(scheduler, trace, tickNs, advances, w) && !scheduler.IsFinished()
      modifies injectors.Values, scheduler, scheduler.clock, trace
      ensures ok ==> OnTrack(scheduler, trace, tickNs, advances + 1, w)
      ensures !ok ==> Stopped(w, scenario.steps, CursorAfter(scenario.steps, tickNs, advances + 1), Injs())
    {
      hide Executed, Stopped, WellFormed, Wrapped, DueEnd, Tick;
      var from := scheduler.cursor;
      NextTick(advances, tickNs);
      var due := scheduler.Advance(tickNs);
      ok := Fire(from, scheduler.cursor, due, scheduler.clock.ns, trace, w);
    }

    /** The steps of one tick, until a call fails. */
    method Fire(from: nat, to: nat, due: seq<Step>, now: u64, trace: Trace, ghost w: World) returns (ok: bool)
      requires Valid() && from <= to <= |scenario.steps| && due == scenario.steps[from..to]
      requires Executed(w, scenario.steps, from, Injs())
      modifies injectors.Values, trace
      ensures ok ==> Executed(w, scenario.steps, to, Injs())
      ensures ok ==> trace.events == old(trace.events) + Stamp(due, now)
      ensures !ok ==> Stopped(w, scenario.steps, to, Injs())
    {
      hide Executed, Execute, WellFormed, Stamp;
      ghost var steps := scenario.steps;
      StampStart(due, now);
      for j := 0 to |due|
        invariant Executed(w, steps, from + j, Injs())
        invariant trace.events == old(trace.events) + Stamp(due[..j], now)
      {
        ok := FireStep(from + j, now, trace, w);
        if !ok {
          return false;
        }
        StampStep(due, j, now);
      }
      assert due[..|due|] == due;
      ok := true;
    }

    /** One step: call its injector, and record it if the call succeeded. */
    method FireStep(k: nat, now: u64, trace: Trace, ghost w: World) returns (ok: bool)
      requires Valid() && k < |scenario.steps| && Executed(w, scenario.steps, k, Injs())
      modifies injectors.Values, trace
      ensures ok ==> Executed(w, scenario.steps, k + 1, Injs())
      ensures ok ==> trace.events == old(trace.events) + [TraceEvent(scenario.steps[k], now)]
      ensures !ok ==> Stopped(w, scenario.steps, k + 1, Injs())
    {
      hide Executed, Stopped, WellFormed;
      var step := scenario.steps[k];
      ExecuteStep(w, scenario.steps, k, Injs());
      ok := CallInjector(step.faultId, step.action);
      if ok { trace.Record(step, now); }
    }

    /** Disarms whatever is still armed, visiting the injectors in any order
        and never stopping at a failure: afterwards only injectors whose disarm
        failed can be armed, each armed one got one call and no other got any,
        and after success a second teardown makes no calls. */
    method TeardownAll() returns (r: TeardownResult)
      requires Distinct(injectors)
      modifies injectors.Values
      ensures Injs() == Teardown(old(Injs()))
      ensures r.Clean? <==> forall id :: id in injectors ==> !FailsTeardown(old(Injs())[id])
      ensures r.FirstError? ==> r.faultId in injectors && FailsTeardown(old(Injs())[r.faultId])
      ensures Accounted(old(Injs()), Injs())
      ensures r.Clean? ==> AllDisarmed(Injs()) && Teardown(Injs()) == Injs()
    {
      hide PartlyTornDown, Teardown, TornDown, FailsTeardown, Accounted, AllDisarmed;
      ghost var w := Injs();
      r := Clean;
      var todo := injectors.Keys;
      assert w.Keys == injectors.Keys;
      PartlyTornDownEnds(w);
      while todo != {}
        invariant todo <= injectors.Keys && Injs() == PartlyTornDown(w, todo)
        invariant r.Clean? <==> forall id :: id in injectors && id !in todo ==> !FailsTeardown(w[id])
        invariant r.FirstError? ==> r.faultId in injectors && FailsTeardown(w[r.faultId])
        decreases todo
      {
        var id :| id in todo;
        PartlyTornDownStep(w, todo, id);
        if injectors[id].armed {
          var ok := CallInjector(id, Disarm);
          if !ok && r.Clean? { r := FirstError(id); }
        }
        todo := todo - {id};
      }
      TeardownIsComplete(w);
    }

    /** The drop guard: a teardown whose result is ignored. */
    method Drop()
      requires Distinct(injectors)
      modifies injectors.Values
      ensures Injs() == Teardown(old(Injs()))
      ensures Accounted(old(Injs()), Injs())
      ensures (forall id :: id in injectors ==> !FailsTeardown(old(Injs())[id])) ==>
                AllDisarmed(Injs()) && Teardown(Injs()) == Injs()
    {
      var _ := TeardownAll();
    }

    method CallInjector(id: string, action: StepAction) returns (ok: bool)
      requires id in injectors && Distinct(injectors)
      modifies injectors[id]
      ensures ok == old(Injs())[id].NextReply().Success?
      ensures Injs() == old(Injs())[id := old(Injs())[id].After(action)]
    {
      ok := injectors[id].Call(action);
    }
  }

  /** One more step: either it succeeds, or the execution stops there. */
  lemma ExecuteStep(w: World, steps: seq<Step>, k: nat, world: World)
    requires Executed(w, steps, k, world) && k < |steps|
    ensures var id := steps[k].faultId;
            && id in world
            && var next := world[id := world[id].After(steps[k].action)];
               if world[id].NextReply().Success? then Executed(w, steps, k + 1, next)
               else Stopped(w, steps, k + 1, next)
  {
    assert steps[..k + 1][..k] == steps[..k];
    if world[steps[k].faultId].NextReply().Failure? { FailureStops(w, steps, k + 1); }
  }

  ghost function PartlyTornDown(w: World, todo: set<string>): World {
    map id | id in w :: if id in todo then w[id] else TornDown(w[id])
  }

  lemma PartlyTornDownEnds(w: World)
    ensures PartlyTornDown(w, w.Keys) == w && PartlyTornDown(w, {}) == Teardown(w)
  {}

  lemma PartlyTornDownStep(w: World, todo: set<string>, id: string)
    requires id in todo && id in w
    ensures id in PartlyTornDown(w, todo) && PartlyTornDown(w, todo)[id] == w[id]
    ensures PartlyTornDown(w, todo - {id})
         == if w[id].armed then PartlyTornDown(w, todo)[id := w[id].After(Disarm)] else PartlyTornDown(w, todo)
    ensures FailsTeardown(w[id]) <==> w[id].armed && !w[id].NextReply().Success?
  {}

  ghost predicate Distinct(injectors: map<string, Injector>) {
    forall a, b :: a in injectors && b in injectors && injectors[a] == injectors[b] ==> a == b
  }

  /** The first `k` steps have been executed without failure. */
  ghost predicate Executed(w: World, steps: seq<Step>, k: nat, world: World) {
    k <= |steps| && Registered(w, steps) && Execute(w, steps[..k]) == Execution(world, k)
  }

  /** The call of one of the first `to` steps has failed. */
  ghost predicate Stopped(w: World, steps: seq<Step>, to: nat, world: World) {
    to <= |steps| && Registered(w, steps) && Execute(w, steps).world == world && Execute(w, steps).done < to
  }

  lemma StartOfRun(w: World, steps: seq<Step>, tickNs: u64)
    requires WellFormed(steps)
    requires forall i :: 0 <= i < |steps| ==> steps[i].faultId in w
    ensures Sorted(steps) && Registered(w, steps) && Executed(w, steps, 0, w)
    ensures CursorAfter(steps, tickNs, 0) == 0 && EventsAfter(steps, tickNs, 0) == [] && Wrapped(0, tickNs) == 0
  {
    assert steps[..0] == [];
  }

  lemma NotYetOver(w: World, steps: seq<Step>, tickNs: u64, n: nat, world: World)
    requires Executed(w, steps, CursorAfter(steps, tickNs, n), world) && CursorAfter(steps, tickNs, n) < |steps|
    ensures !Over(w, steps, tickNs, n)
  {
    DoneAtLeast(w, steps, CursorAfter(steps, tickNs, n));
  }

  lemma StoppedIsOver(w: World, steps: seq<Step>, tickNs: u64, n: nat, world: World)
    requires Sorted(steps) && Registered(w, steps) && n > 0 && !Over(w, steps, tickNs, n - 1)
    requires Stopped(w, steps, CursorAfter(steps, tickNs, n), world)
    ensures Execute(w, steps).world == world && Execute(w, steps).done < |steps| && Over(w, steps, tickNs, n)
    ensures NoWrapNeeded(steps, tickNs) ==> n <= Advances(steps, tickNs)
  {
    hide Execute, CursorAfter, NoWrapNeeded, Advances;
    AdvancesBound(steps, tickNs, n);
  }

  lemma AdvancesBound(steps: seq<Step>, tickNs: u64, advances: nat)
    requires Sorted(steps)
    requires advances > 0 ==> CursorAfter(steps, tickNs, advances - 1) < |steps|
    ensures NoWrapNeeded(steps, tickNs) ==> advances <= Advances(steps, tickNs)
  {
    hide CursorAfter, EventsAfter, Timed, AtTick;
    if NoWrapNeeded(steps, tickNs) && advances > Advances(steps, tickNs) {
      RunIsTimed(steps, tickNs, Advances(steps, tickNs));
      CursorGrows(steps, tickNs, Advances(steps, tickNs), advances - 1);
      assert false;
    }
  }

  lemma {:induction false} CursorGrows(steps: seq<Step>, tickNs: u64, a: nat, b: nat)
    requires a <= b
    ensures CursorAfter(steps, tickNs, a) <= CursorAfter(steps, tickNs, b)
    decreases b
  {
    hide Wrapped;
    if a < b { CursorGrows(steps, tickNs, a, b - 1); }
  }

  lemma EndOfRun(w: World, steps: seq<Step>, tickNs: u64, cursor: nat, advances: nat, world: World)
    requires Sorted(steps) && Executed(w, steps, cursor, world) && cursor >= |steps|
    requires cursor == CursorAfter(steps, tickNs, advances)
    requires Registered(w, steps) && (advances > 0 ==> !Over(w, steps, tickNs, advances - 1))
    ensures Execute(w, steps) == Execution(world, |steps|) && Over(w, steps, tickNs, advances)
    ensures StepsOf(EventsAfter(steps, tickNs, advances)) == steps
    ensures NoWrapNeeded(steps, tickNs) ==>
              advances == Advances(steps, tickNs) && Timed(EventsAfter(steps, tickNs, advances), tickNs)
  {
    hide CursorAfter, EventsAfter, NoWrapNeeded, Advances, Timed, AtTick;
    assert steps[..|steps|] == steps;
    EventsAreThePrefix(steps, tickNs, advances);
    if NoWrapNeeded(steps, tickNs) {
      AdvancesBound(steps, tickNs, advances);
      RunIsTimed(steps, tickNs, advances);
    }
  }
}
