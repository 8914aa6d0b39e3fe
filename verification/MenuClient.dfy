/**
 Apply as it runs against a router that changes under it (rest/menu.go:374-477).
 */
module MenuClient {
  import opened Prelude
  import opened Records
  import opened MenuPlan
  import opened MenuDevice
  import opened MenuApply
  import MenuPlanner

  /** One menu of a router: its rows, the exchanges so far, and the steps put to it. */
  class Router {
    var rows: seq<Record>
    var clock: nat
    var log: seq<Step>
    const env: Env

    constructor (rows: seq<Record>, env: Env)
      ensures this.rows == rows && this.env == env && clock == 0 && log == []
    {
      this.rows, this.env, clock, log := rows, env, 0, [];
    }

    method List() returns (ok: bool, reading: seq<Record>)
      modifies this`clock
      ensures clock == old(clock) + 1
      ensures ok == At(env, old(clock)).Done?
      ensures reading == if ok then rows else []
    {
      ok := At(env, clock).Done?;
      reading := if ok then rows else [];
      clock := clock + 1;
    }

    /** One step, as the router carries it out. */
    method Perform(step: Step) returns (ok: bool)
      modifies this
      ensures Trail(rows, 1, ok) == Exec(step, old(rows), At(env, old(clock)))
      ensures clock == old(clock) + 1 && log == old(log) + [step]
    {
      var reply := At(env, clock);
      clock, log := clock + 1, log + [step];
      if reply.Refused? {
        return false;
      }
      var effect := Effect(step, rows, reply.id);
      if effect.None? {
        return false;
      }
      rows := effect.value;
      ok := reply.Done?;
    }
  }

  lemma Halves<T>(s: seq<T>, i: nat)
    requires i <= |s|
    ensures s == s[..i] + s[i..]
  {
  }

  lemma RunPrefix(steps: seq<Step>, i: nat, rows: seq<Record>, env: Env, t: nat)
    requires i < |steps| && Run(steps[..i], rows, env, t).ok
    ensures
      var before := Run(steps[..i], rows, env, t).rows;
      var one := Exec(steps[i], before, At(env, t + i));
      && Run(steps[..i + 1], rows, env, t) == Trail(one.rows, i + 1, one.ok)
      && (!one.ok ==> Run(steps, rows, env, t) == Trail(one.rows, i + 1, false))
  {
    var before := Run(steps[..i], rows, env, t).rows;
    assert steps[..i + 1] == steps[..i] + [steps[i]];
    RunConcat(steps[..i], [steps[i]], rows, env, t);
    RunSingle(steps[i], before, env, t + i);
    Halves(steps, i + 1);
    RunConcat(steps[..i + 1], steps[i + 1..], rows, env, t);
  }

  /** Steps in order until the first failure. */
  method RunSteps(router: Router, steps: seq<Step>) returns (ok: bool)
    modifies router
    ensures
      var run := Run(steps, old(router.rows), router.env, old(router.clock));
      && router.rows == run.rows && ok == run.ok
      && router.clock == old(router.clock) + run.tried
      && router.log == old(router.log) + steps[..run.tried]
  {
    hide Run, Exec;
    RunNothing(router.rows, router.env, router.clock);
    assert steps[..0] == [];
    for i := 0 to |steps|
      invariant Run(steps[..i], old(router.rows), router.env, old(router.clock)) == Trail(router.rows, i, true)
      invariant router.clock == old(router.clock) + i
      invariant router.log == old(router.log) + steps[..i]
    {
      RunPrefix(steps, i, old(router.rows), router.env, old(router.clock));
      ok := router.Perform(steps[i]);
      assert steps[..i + 1] == steps[..i] + [steps[i]];
      if !ok {
        return;
      }
    }
    assert steps[..|steps|] == steps;
    ok := true;
  }

  /** The answers still to come. */
  function Rest(env: Env, t: nat): Env {
    if t <= |env| then env[t..] else []
  }

  lemma {:induction false} RunShift(steps: seq<Step>, rows: seq<Record>, env: Env, c: nat, t: nat)
    ensures Run(steps, rows, Rest(env, c), t) == Run(steps, rows, env, c + t)
  {
    assert At(Rest(env, c), t) == At(env, c + t);
    if steps != [] {
      var one := Exec(steps[0], rows, At(env, c + t));
      if one.ok {
        RunShift(steps[1..], one.rows, env, c, t + 1);
      }
    }
  }

  lemma RestAt(env: Env, c: nat, t: nat)
    ensures At(Rest(env, c), t) == At(env, c + t)
  {
  }

  method DropMoves(steps: seq<Step>) returns (out: seq<Step>)
    ensures out == NonMoves(steps)
  {
    out := [];
    for i := 0 to |steps|
      invariant out == NonMoves(steps[..i])
    {
      assert steps[..i + 1] == steps[..i] + [steps[i]];
      NonMovesConcat(steps[..i], [steps[i]]);
      assert [steps[i]][1..] == [];
      if !steps[i].Move? {
        out := out + [steps[i]];
      }
    }
    assert steps[..|steps|] == steps;
  }

  /** The ordering half: read again, plan again, move. */
  method ApplyMoves(router: Router, spec: MenuSpec, desired: seq<Record>, mutations: seq<Step>, matched: seq<string>,
                    ghost before: seq<Step>)
    returns (plan: Plan, failure: Option<Failure>)
    requires router.log == before + mutations
    modifies router
    ensures
      var out := ApplyOrder(spec, desired, mutations, matched, old(router.rows), router.env, old(router.clock));
      && router.rows == out.rows && plan == out.plan && failure == out.failure
      && router.log == before + out.log
  {
    hide MakePlan, Run, NonMoves, Exec;
    plan := Plan(mutations, matched);
    var ok, reading := router.List();
    if !ok {
      return plan, Some(ListAgainFailed);
    }
    var second := MenuPlanner.PlanMenu(spec, desired, reading);
    if second.Rejected? {
      return plan, Some(ReplanRejected(second.error));
    }
    var q := second.plan;
    var others := DropMoves(q.steps);
    if others != [] {
      return plan, Some(NotConverged);
    }
    var start := router.clock;
    ok := RunSteps(router, q.steps);
    assert before + mutations + q.steps[..router.clock - start] == before + (mutations + q.steps[..router.clock - start]);
    failure := if ok then None else Some(StepFailed(router.clock - start - 1));
    plan := Plan(mutations + q.steps, q.matched);
  }

  /** Apply, and ApplyChecked when `approval` is one. */
  method ApplyMenu(router: Router, spec: MenuSpec, desired: seq<Record>, approval: Approval)
    returns (plan: Plan, failure: Option<Failure>)
    modifies router
    ensures
      var out := Apply(spec, desired, approval, old(router.rows), Rest(router.env, old(router.clock)));
      && router.rows == out.rows && plan == out.plan && failure == out.failure
      && router.log == old(router.log) + out.log
  {
    hide MakePlan, Run, NonMoves, Exec, Rest, ApplyOrder;
    ghost var env, c := Rest(router.env, router.clock), router.clock;
    RestAt(router.env, c, 0);
    var ok, reading := router.List();
    if !ok {
      return NO_PLAN, Some(ListFailed);
    }
    var first := MenuPlanner.PlanMenu(spec, desired, reading);
    if first.Rejected? {
      return NO_PLAN, Some(PlanRejected(first.error));
    }
    var p := first.plan;
    if approval.Checked? && !approval.accepts(p) {
      return p, Some(NotApproved);
    }
    var start := router.clock;
    if spec.ordered && exists s | s in p.steps :: s.Create? || s.Delete? {
      var mutations := DropMoves(p.steps);
      RunShift(mutations, reading, router.env, c, 1);
      ok := RunSteps(router, mutations);
      if !ok {
        return Plan(mutations, p.matched), Some(StepFailed(router.clock - start - 1));
      }
      OrderShift(spec, desired, mutations, p.matched, router.rows, router.env, c, 1 + |mutations|);
      assert mutations[..|mutations|] == mutations;
      plan, failure := ApplyMoves(router, spec, desired, mutations, p.matched, old(router.log));
    } else {
      RunShift(p.steps, reading, router.env, c, 1);
      ok := RunSteps(router, p.steps);
      plan := p;
      failure := if ok then None else Some(StepFailed(router.clock - start - 1));
    }
  }

  lemma OrderShift(spec: MenuSpec, desired: seq<Record>, mutations: seq<Step>, matched: seq<string>,
                   rows: seq<Record>, env: Env, c: nat, t: nat)
    ensures ApplyOrder(spec, desired, mutations, matched, rows, Rest(env, c), t)
         == ApplyOrder(spec, desired, mutations, matched, rows, env, c + t)
  {
    RestAt(env, c, t);
    hide MakePlan, Run, Rest, NonMoves;
    if MakePlan(spec, desired, rows).Planned? {
      RunShift(MakePlan(spec, desired, rows).plan.steps, rows, env, c, t + 1);
    }
  }
}
