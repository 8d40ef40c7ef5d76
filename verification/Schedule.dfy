/** Scenarios and their validation. */
module Schedule {
  import opened Words

  datatype StepAction = Arm | Disarm
  datatype Step = Step(atNs: u64, faultId: string, action: StepAction)
  datatype Scenario = Scenario(name: string, seed: u64, steps: seq<Step>)

  datatype Reason = OutOfOrder | ArmedTwice | NeverArmed
  datatype Verdict = Valid | Invalid(at: nat, reason: Reason)

  // ---------------------------------------------------------------------
  // What a valid schedule is
  // ---------------------------------------------------------------------

  predicate Sorted(steps: seq<Step>) {
    forall i, j :: 0 <= i < j < |steps| ==> steps[i].atNs <= steps[j].atNs
  }

  /** Comparing each step with the one before it is enough; equal times are fine. */
  lemma {:induction false} SortedIff(steps: seq<Step>)
    ensures Sorted(steps) <==> forall i :: 0 < i < |steps| ==> steps[i - 1].atNs <= steps[i].atNs
    decreases |steps|
  {
    if |steps| > 1 {
      var front := steps[..|steps| - 1];
      SortedIff(front);
      assert forall i :: 0 <= i < |front| ==> front[i] == steps[i];
      if Sorted(front) && steps[|steps| - 2].atNs <= steps[|steps| - 1].atNs {
        assert forall i :: 0 <= i < |front| ==> front[i].atNs <= front[|front| - 1].atNs;
      }
    }
  }

  /** The actions of one fault, in schedule order. */
  function ActionsOf(steps: seq<Step>, id: string): seq<StepAction> {
    if steps == [] then []
    else
      var last := steps[|steps| - 1];
      ActionsOf(steps[..|steps| - 1], id) + (if last.faultId == id then [last.action] else [])
  }

  predicate Alternates(actions: seq<StepAction>) {
    forall i :: 0 <= i < |actions| ==> actions[i] == if i % 2 == 0 then Arm else Disarm
  }

  ghost predicate WellFormed(steps: seq<Step>) {
    Sorted(steps) && forall id :: Alternates(ActionsOf(steps, id))
  }

  /** The faults armed after `steps`, as `validate` keeps them. */
  function ArmedAfter(steps: seq<Step>): set<string> {
    if steps == [] then {}
    else
      var last, armed := steps[|steps| - 1], ArmedAfter(steps[..|steps| - 1]);
      if last.action == Arm then armed + {last.faultId} else armed - {last.faultId}
  }

  // ---------------------------------------------------------------------
  // Prefixes
  // ---------------------------------------------------------------------

  lemma {:induction false} PrefixActions(steps: seq<Step>, k: nat, id: string)
    requires k <= |steps|
    ensures ActionsOf(steps[..k], id) <= ActionsOf(steps, id)
    decreases |steps|
  {
    if k == |steps| {
      assert steps[..k] == steps;
    } else {
      assert steps[..|steps| - 1][..k] == steps[..k];
      PrefixActions(steps[..|steps| - 1], k, id);
    }
  }

  lemma PrefixWellFormed(steps: seq<Step>, k: nat)
    requires k <= |steps| && WellFormed(steps)
    ensures WellFormed(steps[..k])
  {
    forall id ensures Alternates(ActionsOf(steps[..k], id)) {
      PrefixActions(steps, k, id);
    }
  }

  /** A fault is armed exactly when it has had an odd number of actions. */
  lemma {:induction false} ArmedIffOdd(steps: seq<Step>, id: string)
    requires Alternates(ActionsOf(steps, id))
    ensures id in ArmedAfter(steps) <==> |ActionsOf(steps, id)| % 2 == 1
    decreases |steps|
  {
    if steps != [] {
      var front, actions := steps[..|steps| - 1], ActionsOf(steps, id);
      assert ActionsOf(front, id) <= actions;
      ArmedIffOdd(front, id);
      if steps[|steps| - 1].faultId == id { assert actions[|actions| - 1] == steps[|steps| - 1].action; }
    }
  }

  // ---------------------------------------------------------------------
  // Validation
  // ---------------------------------------------------------------------

  /** One more step keeps a schedule well formed exactly when it is not
      earlier than the last one and toggles its fault. */
  lemma ExtendWellFormed(steps: seq<Step>, step: Step)
    requires WellFormed(steps)
    ensures WellFormed(steps + [step]) <==>
            && (steps != [] ==> steps[|steps| - 1].atNs <= step.atNs)
            && (step.faultId in ArmedAfter(steps) <==> step.action == Disarm)
  {
    hide ActionsOf, ArmedAfter, Alternates;
    var more := steps + [step];
    SortedExtends(steps, step);
    TogglesIff(steps, step);
    if Alternates(ActionsOf(more, step.faultId)) {
      forall id ensures Alternates(ActionsOf(more, id)) {
        if id != step.faultId { OthersKeep(steps, step, id); }
      }
    }
  }

  lemma SortedExtends(steps: seq<Step>, step: Step)
    requires Sorted(steps)
    ensures Sorted(steps + [step]) <==> (steps != [] ==> steps[|steps| - 1].atNs <= step.atNs)
  {
    var more := steps + [step];
    if Sorted(more) && steps != [] { assert more[|steps| - 1].atNs <= more[|steps|].atNs; }
  }

  lemma OthersKeep(steps: seq<Step>, step: Step, id: string)
    requires id != step.faultId
    ensures ActionsOf(steps + [step], id) == ActionsOf(steps, id)
  {
    assert (steps + [step])[..|steps|] == steps;
  }

  lemma TogglesIff(steps: seq<Step>, step: Step)
    requires Alternates(ActionsOf(steps, step.faultId))
    ensures Alternates(ActionsOf(steps + [step], step.faultId))
            <==> (step.faultId in ArmedAfter(steps) <==> step.action == Disarm)
  {
    ArmedIffOdd(steps, step.faultId);
    assert (steps + [step])[..|steps|] == steps;
    var before, after := ActionsOf(steps, step.faultId), ActionsOf(steps + [step], step.faultId);
    assert after == before + [step.action];
    if Alternates(after) { assert after[|before|] == step.action; }
  }

  /** What one more step does to the schedule read so far. */
  lemma ValidStep(steps: seq<Step>, i: nat)
    requires i < |steps| && WellFormed(steps[..i])
    ensures var step, armed := steps[i], ArmedAfter(steps[..i]);
            && (Sorted(steps[..i + 1]) <==> (i > 0 ==> steps[i - 1].atNs <= step.atNs))
            && (WellFormed(steps[..i + 1]) <==>
                Sorted(steps[..i + 1]) && (step.faultId in armed <==> step.action == Disarm))
            && (!WellFormed(steps[..i + 1]) ==> !WellFormed(steps))
            && ArmedAfter(steps[..i + 1])
               == if step.action == Arm then armed + {step.faultId} else armed - {step.faultId}
  {
    hide WellFormed, ActionsOf;
    assert steps[..i + 1] == steps[..i] + [steps[i]] && steps[..i + 1][..i] == steps[..i];
    ExtendWellFormed(steps[..i], steps[i]);
    SortedExtends(steps[..i], steps[i]) by { WellFormedIsSorted(steps[..i]); }
    if !WellFormed(steps[..i + 1]) { NotWellFormedExtends(steps, i + 1); }
  }

  lemma WellFormedIsSorted(steps: seq<Step>)
    requires WellFormed(steps)
    ensures Sorted(steps)
  {}

  lemma NotWellFormedExtends(steps: seq<Step>, k: nat)
    requires k <= |steps| && !WellFormed(steps[..k])
    ensures !WellFormed(steps)
  {
    if WellFormed(steps) { PrefixWellFormed(steps, k); }
  }

  lemma NothingIsWellFormed(steps: seq<Step>)
    ensures WellFormed(steps[..0]) && ArmedAfter(steps[..0]) == {}
  {}

  /** Validation is exact: a scenario is accepted iff its times never decrease
      and the actions of every fault strictly alternate starting with Arm. A
      rejection names the first step that breaks this, and how. */
  method Validate(scenario: Scenario) returns (verdict: Verdict)
    ensures verdict.Valid? <==> WellFormed(scenario.steps)
    ensures verdict.Invalid? ==>
              && verdict.at < |scenario.steps|
              && WellFormed(scenario.steps[..verdict.at])
              && !WellFormed(scenario.steps[..verdict.at + 1])
              && (verdict.reason.OutOfOrder? <==> !Sorted(scenario.steps[..verdict.at + 1]))
              && (verdict.reason.NeverArmed? ==> scenario.steps[verdict.at].action == Disarm)
              && (verdict.reason.ArmedTwice? ==> scenario.steps[verdict.at].action == Arm)
  {
    hide WellFormed, Sorted, ArmedAfter;
    var steps := scenario.steps;
    NothingIsWellFormed(steps);
    var armed: set<string> := {};
    var lastNs: u64 := 0;
    for i := 0 to |steps|
      invariant armed == ArmedAfter(steps[..i])
      invariant lastNs == if i == 0 then 0 else steps[i - 1].atNs
      invariant WellFormed(steps[..i])
    {
      var step := steps[i];
      ValidStep(steps, i);
      if step.atNs < lastNs {
        return Invalid(i, OutOfOrder);
      }
      lastNs := step.atNs;
      match step.action {
        case Arm =>
          if step.faultId in armed {
            return Invalid(i, ArmedTwice);
          }
          armed := armed + {step.faultId};
        case Disarm =>
          if step.faultId !in armed {
            return Invalid(i, NeverArmed);
          }
          armed := armed - {step.faultId};
      }
    }
    assert steps[..|steps|] == steps;
    verdict := Valid;
  }
}
