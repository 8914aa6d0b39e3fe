/**
 One apply (rest/menu.go:397-455): plan, ask, mutate, read again, plan again,
 move; the first failure stops it. Exchange 0 is the first reading.
 */
module MenuApply {
  import opened Prelude
  import opened Records
  import opened MenuPlan
  import opened MenuDevice

  /** Whether a caller must agree to the plan first, and what it says of each. */
  datatype Approval = Unchecked | Checked(accepts: Plan -> bool)

  datatype Failure =
    | ListFailed
    | PlanRejected(error: PlanError)
    | NotApproved
    | StepFailed(index: nat)
    | ListAgainFailed
    | ReplanRejected(error: PlanError)
    | NotConverged

  /** The menu left behind, the plan reported, the failure if any, and the steps put to the router. */
  datatype Outcome = Outcome(rows: seq<Record>, plan: Plan, failure: Option<Failure>, log: seq<Step>)

  const NO_PLAN := Plan([], [])

  function NonMoves(steps: seq<Step>): (out: seq<Step>)
    ensures forall s {:trigger s in out} :: s in out <==> s in steps && !s.Move?
  {
    if steps == [] then []
    else (if steps[0].Move? then [] else [steps[0]]) + NonMoves(steps[1..])
  }

  predicate Structural(spec: MenuSpec, p: Plan) {
    spec.ordered && exists s | s in p.steps :: s.Create? || s.Delete?
  }

  function Stopped(run: Trail): Option<Failure>
    requires run.ok || run.tried > 0
  {
    if run.ok then None else Some(StepFailed(run.tried - 1))
  }

  /** The plain path: the plan's steps in order. */
  function ApplyPlain(p: Plan, rows: seq<Record>, env: Env): Outcome {
    var run := Run(p.steps, rows, env, 1);
    Outcome(run.rows, p, Stopped(run), p.steps[..run.tried])
  }

  /** The ordering half of the structural path, on the menu the mutations left at exchange `t`. */
  function ApplyOrder(spec: MenuSpec, desired: seq<Record>, mutations: seq<Step>, matched: seq<string>,
                      rows: seq<Record>, env: Env, t: nat): Outcome
  {
    var p := Plan(mutations, matched);
    if !At(env, t).Done? then Outcome(rows, p, Some(ListAgainFailed), mutations)
    else
      match MakePlan(spec, desired, rows)
      case Rejected(e) => Outcome(rows, p, Some(ReplanRejected(e)), mutations)
      case Planned(q) =>
        if NonMoves(q.steps) != [] then Outcome(rows, p, Some(NotConverged), mutations)
        else
          var run := Run(q.steps, rows, env, t + 1);
          Outcome(run.rows, Plan(mutations + q.steps, q.matched), Stopped(run), mutations + q.steps[..run.tried])
  }

  /** The structural path: mutations, a second reading, then only moves. */
  function ApplyStructural(spec: MenuSpec, desired: seq<Record>, p: Plan, rows: seq<Record>, env: Env): Outcome {
    var mutations := NonMoves(p.steps);
    var run := Run(mutations, rows, env, 1);
    if !run.ok then Outcome(run.rows, Plan(mutations, p.matched), Stopped(run), mutations[..run.tried])
    else ApplyOrder(spec, desired, mutations, p.matched, run.rows, env, 1 + |mutations|)
  }

  function Apply(spec: MenuSpec, desired: seq<Record>, approval: Approval, rows: seq<Record>, env: Env): Outcome {
    if !At(env, 0).Done? then Outcome(rows, NO_PLAN, Some(ListFailed), [])
    else
      match MakePlan(spec, desired, rows)
      case Rejected(e) => Outcome(rows, NO_PLAN, Some(PlanRejected(e)), [])
      case Planned(p) =>
        if approval.Checked? && !approval.accepts(p) then Outcome(rows, p, Some(NotApproved), [])
        else if Structural(spec, p) then ApplyStructural(spec, desired, p, rows, env)
        else ApplyPlain(p, rows, env)
  }

  // ---- The two halves of a plan ----

  lemma {:induction false} NonMovesConcat(a: seq<Step>, b: seq<Step>)
    ensures NonMoves(a + b) == NonMoves(a) + NonMoves(b)
  {
    if a == [] {
      assert a + b == b;
    } else {
      assert (a + b)[1..] == a[1..] + b;
      NonMovesConcat(a[1..], b);
    }
  }

  lemma {:induction false} NonMovesAll(steps: seq<Step>)
    requires forall s | s in steps :: !s.Move?
    ensures NonMoves(steps) == steps
  {
    if steps != [] {
      assert steps[0] in steps;
      NonMovesAll(steps[1..]);
    }
  }

  lemma {:induction false} NonMovesNone(steps: seq<Step>)
    requires forall s | s in steps :: s.Move?
    ensures NonMoves(steps) == []
  {
    if steps != [] {
      assert steps[0] in steps;
      NonMovesNone(steps[1..]);
    }
  }

  lemma {:induction false} WritesShape(spec: MenuSpec, desired: seq<Record>, current: seq<Record>, matched: seq<string>, n: nat)
    requires n <= |desired| == |matched|
    ensures forall s | s in Writes(spec, desired, current, matched, n) ::
      (s.Create? && exists i | 0 <= i < n :: matched[i] == "" && s.row == desired[i])
      || (s.Update? && s.id != "" && s.id in matched && ID_FIELD !in s.row)
  {
    if n > 0 {
      WritesShape(spec, desired, current, matched, n - 1);
    }
  }

  lemma {:induction false} PrunesShape(spec: MenuSpec, current: seq<Record>, claimed: set<string>)
    ensures forall s | s in Prunes(spec, current, claimed) ::
      s.Delete? && s.row in current && s.id == IdOf(s.row) && Open(spec, claimed, s.row)
  {
    if current != [] {
      PrunesShape(spec, current[1..], claimed);
    }
  }

  lemma {:induction false} PairwiseShape(want: seq<string>, i: nat)
    requires i < |want|
    ensures forall s | s in Pairwise(want, i) :: s.Move? && |s.order| == 1 && s.order[0] in want && s.before in want
  {
    if i > 0 {
      PairwiseShape(want, i - 1);
    }
  }

  lemma ReorderShape(current: seq<Record>, matched: seq<string>)
    ensures forall s | s in Reorder(current, matched) ::
      && s.Move? && (forall id | id in s.order :: id in matched && id != "")
      && (s.before != "" ==> s.before in matched)
      && (s.order == Wanted(matched) || |s.order| == 1)
  {
    hide Pairwise, Have, Claimed;
    var want := Wanted(matched);
    if |want| >= 2 {
      PairwiseShape(want, |want| - 1);
    }
  }

  /** The non-moves of a plan are its mutations, and they come first. */
  lemma PlanHalves(spec: MenuSpec, desired: seq<Record>, current: seq<Record>, matched: seq<string>)
    requires |desired| == |matched|
    ensures NonMoves(PlanSteps(spec, desired, current, matched)) == Mutations(spec, desired, current, matched)
    ensures forall s | s in Mutations(spec, desired, current, matched) :: !s.Move?
  {
    var mutations := Mutations(spec, desired, current, matched);
    var moves := if spec.ordered then Reorder(current, matched) else [];
    WritesShape(spec, desired, current, matched, |desired|);
    PrunesShape(spec, current, Claimed(matched));
    ReorderShape(current, matched);
    NonMovesAll(mutations);
    NonMovesNone(moves);
    NonMovesConcat(mutations, moves);
  }
}
