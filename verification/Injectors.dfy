/** Fault injectors by their contract: a successful call leaves the injector
    armed or disarmed as asked, a failing call may leave it either way. */
module Injectors {
  import opened Schedule

  /** What the k-th call on an injector does. */
  datatype Reply = Success | Failure(armedAfter: bool)
  type Behaviour = nat -> Reply

  /** The value of an injector: its behaviour, whether it is armed, and the
      calls made on it so far. */
  datatype Inj = Inj(behaviour: Behaviour, armed: bool, calls: seq<StepAction>) {
    function NextReply(): Reply {
      behaviour(|calls|)
    }

    function After(action: StepAction): Inj {
      var armedAfter := match NextReply() case Success => action == Arm case Failure(a) => a;
      Inj(behaviour, armedAfter, calls + [action])
    }
  }

  class Injector {
    const behaviour: Behaviour
    var armed: bool
    var calls: seq<StepAction>

    constructor (behaviour: Behaviour)
      ensures Value() == Inj(behaviour, false, [])
    {
      this.behaviour := behaviour;
      armed := false;
      calls := [];
    }

    function Value(): Inj
      reads this
    {
      Inj(behaviour, armed, calls)
    }

    method Call(action: StepAction) returns (ok: bool)
      modifies this
      ensures ok == old(Value()).NextReply().Success?
      ensures Value() == old(Value()).After(action)
      ensures calls == old(calls) + [action]
      ensures armed == match behaviour(|old(calls)|) case Success => action == Arm case Failure(after) => after
    {
      var reply := behaviour(|calls|);
      calls := calls + [action];
      match reply {
        case Success =>
          ok := true;
          armed := action == Arm;
        case Failure(armedAfter) =>
          ok := false;
          armed := armedAfter;
      }
    }
  }

  type World = map<string, Inj>

  // ---------------------------------------------------------------------
  // Executing steps
  // ---------------------------------------------------------------------

  ghost predicate Registered(w: World, steps: seq<Step>) {
    forall i :: 0 <= i < |steps| ==> steps[i].faultId in w
  }

  /** The world after executing `steps` in order up to and including the first
      failing call, and how many succeeded. */
  datatype Execution = Execution(world: World, done: nat)

  ghost function Execute(w: World, steps: seq<Step>): (e: Execution)
    requires Registered(w, steps)
    ensures e.world.Keys == w.Keys && e.done <= |steps|
  {
    if steps == [] then Execution(w, 0)
    else
      var n := |steps| - 1;
      var e := Execute(w, steps[..n]);
      if e.done < n then e else Perform(e, steps[n])
  }

  ghost function Perform(e: Execution, step: Step): (r: Execution)
    requires step.faultId in e.world
    ensures r.world.Keys == e.world.Keys && e.done <= r.done
  {
    var inj := e.world[step.faultId];
    Execution(e.world[step.faultId := inj.After(step.action)],
              if inj.NextReply().Success? then e.done + 1 else e.done)
  }

  /** Once a call fails, later steps change nothing. */
  lemma {:induction false} FailureStops(w: World, steps: seq<Step>, k: nat)
    requires Registered(w, steps) && k <= |steps|
    requires Execute(w, steps[..k]).done < k
    ensures Execute(w, steps) == Execute(w, steps[..k])
    decreases |steps|
  {
    if k == |steps| {
      assert steps[..k] == steps;
    } else {
      assert steps[..|steps| - 1][..k] == steps[..k];
      FailureStops(w, steps[..|steps| - 1], k);
    }
  }

  /** A prefix that executes without failure stays executed. */
  lemma {:induction false} DoneAtLeast(w: World, steps: seq<Step>, k: nat)
    requires Registered(w, steps) && k <= |steps|
    requires Execute(w, steps[..k]).done == k
    ensures Execute(w, steps).done >= k
    decreases |steps|
  {
    hide Perform;
    if k == |steps| {
      assert steps[..k] == steps;
    } else {
      assert steps[..|steps| - 1][..k] == steps[..k];
      DoneAtLeast(w, steps[..|steps| - 1], k);
    }
  }

  ghost predicate AllDisarmed(w: World) {
    forall id :: id in w ==> !w[id].armed
  }

  /** Armed-set agreement: from unarmed injectors, after every executed step
      the armed injectors are exactly the set `validate` held at that step, and
      each injector has received exactly its own actions of the schedule. */
  lemma {:induction false} ArmedSetAgrees(w: World, steps: seq<Step>, k: nat, id: string)
    requires Registered(w, steps) && AllDisarmed(w)
    requires k <= |steps| && Execute(w, steps[..k]).done == k
    requires id in w
    ensures Execute(w, steps[..k]).world[id].armed <==> id in ArmedAfter(steps[..k])
    ensures Execute(w, steps[..k]).world[id].calls == w[id].calls + ActionsOf(steps[..k], id)
    decreases k
  {
    if k > 0 {
      assert steps[..k][..k - 1] == steps[..k - 1];
      ArmedSetAgrees(w, steps, k - 1, id);
    } else {
      assert w[id].calls + [] == w[id].calls;
    }
  }

  /** So on a valid schedule `arm` is only ever called on an unarmed injector
      and `disarm` only on an armed one. */
  lemma CallsToggle(w: World, steps: seq<Step>, k: nat)
    requires Registered(w, steps) && AllDisarmed(w) && WellFormed(steps)
    requires k < |steps| && Execute(w, steps[..k]).done == k
    ensures Execute(w, steps[..k]).world[steps[k].faultId].armed <==> steps[k].action == Disarm
  {
    ArmedSetAgrees(w, steps, k, steps[k].faultId);
    PrefixWellFormed(steps, k);
    PrefixWellFormed(steps, k + 1);
    assert steps[..k + 1] == steps[..k] + [steps[k]];
    ExtendWellFormed(steps[..k], steps[k]);
  }

  // ---------------------------------------------------------------------
  // Teardown
  // ---------------------------------------------------------------------

  function TornDown(inj: Inj): Inj {
    if inj.armed then inj.After(Disarm) else inj
  }

  predicate FailsTeardown(inj: Inj) {
    inj.armed && inj.NextReply().Failure?
  }

  ghost function Teardown(w: World): World {
    map id | id in w :: TornDown(w[id])
  }

  /** Between two worlds: only injectors whose disarm failed are armed, and
      exactly those that were armed received one more call, a disarm. */
  ghost predicate Accounted(before: World, after: World) {
    && after.Keys == before.Keys
    && forall id :: id in before ==>
         && (after[id].armed ==> FailsTeardown(before[id]))
         && after[id].calls == before[id].calls + (if before[id].armed then [Disarm] else [])
  }

  lemma TeardownIsComplete(w: World)
    ensures Accounted(w, Teardown(w))
    ensures (forall id :: id in w ==> !FailsTeardown(w[id])) ==>
              AllDisarmed(Teardown(w)) && Teardown(Teardown(w)) == Teardown(w)
  {}
}
