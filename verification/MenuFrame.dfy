/**
 What an apply leaves alone, wherever it stops, and what an approval covers
 (rest/menu.go:211-214, 226-264, 351-371, 390-455).
 */
module MenuFrame {
  import opened Records
  import opened MenuPlan
  import opened MenuMatching
  import opened MenuDevice
  import opened MenuOrdering
  import opened MenuApply
  import opened MenuSoundness

  /** The rows a step names: the one it writes, the ones it moves, the one it moves them before. */
  function Touches(step: Step): set<string> {
    match step
    case Create(_) => {}
    case Update(id, _) => {id}
    case Delete(id, _) => {id}
    case Move(order, before) => Listed(order) + (if before == "" then {} else {before})
  }

  predicate Known(rows: seq<Record>, ids: set<string>) {
    forall id | id in ids :: id != "" && id in Ids(rows)
  }

  lemma KnownOnly(a: seq<Record>, b: seq<Record>, ids: set<string>)
    requires Known(a, ids) && Only(b, ids) == Only(a, ids)
    ensures Known(b, ids)
  {
    forall id | id in ids
      ensures id in Ids(b)
    {
      ByIDMember(a, id);
      assert ByID(a, id) in Only(a, ids);
      assert ByID(a, id) in Only(b, ids);
      IdsMember(b, ByID(a, id));
    }
  }

  lemma {:induction false} OnlyPatched(rows: seq<Record>, id: string, diff: Record, keep: set<string>)
    requires id !in keep && ID_FIELD !in diff
    ensures Only(Patch(rows, id, diff), keep) == Only(rows, keep)
  {
    if rows != [] {
      OnlyPatched(rows[1..], id, diff, keep);
      var out := Patch(rows, id, diff);
      assert out[1..] == Patch(rows[1..], id, diff);
      assert IdOf(out[0]) == IdOf(rows[0]);
    }
  }

  lemma OnlyPlaced(rows: seq<Record>, order: seq<string>, before: string, keep: set<string>)
    requires Movable(rows, order, before) && keep !! Listed(order)
    requires forall i, j | 0 <= i < j < |order| :: order[i] != order[j]
    ensures Only(Place(rows, order, before), keep) == Only(rows, keep)
  {
    BlockListed(rows, order);
    hide Without, Only, Ahead, Block, Movable, Manageable, Listed;
    var rest := Without(rows, Listed(order));
    var k := if before == "" then |rest| else Ahead(rest, before);
    OnlyInserted(rest, k, Block(rows, order), keep);
    OnlyWithout(rows, keep, Listed(order));
  }

  lemma OnlyInserted(rest: seq<Record>, k: nat, block: seq<Record>, keep: set<string>)
    requires k <= |rest| && forall r | r in block :: IdOf(r) !in keep
    ensures Only(rest[..k] + block + rest[k..], keep) == Only(rest, keep)
  {
    hide Only;
    OnlyNothing(block, keep);
    OnlyConcat(rest[..k] + block, rest[k..], keep);
    OnlyConcat(rest[..k], block, keep);
    OnlyConcat(rest[..k], rest[k..], keep);
    assert rest == rest[..k] + rest[k..];
    assert Only(rest[..k], keep) + [] == Only(rest[..k], keep);
  }

  /** A step leaves the rows it does not name as they were, in the same order. */
  lemma EffectFrame(step: Step, rows: seq<Record>, id: string, keep: set<string>)
    requires WellFormedStep(step) && Known(rows, keep) && keep !! Touches(step)
    ensures Effect(step, rows, id).Some? ==> Only(Effect(step, rows, id).value, keep) == Only(rows, keep)
  {
    match step
    case Create(row) =>
      if id != "" && id !in Ids(rows) {
        var made := row[ID_FIELD := id];
        OnlyConcat(rows, [made], keep);
        OnlyNothing([made], keep);
      }
    case Update(target, diff) => OnlyPatched(rows, target, diff, keep);
    case Delete(target, _) => OnlyWithout(rows, keep, {target});
    case Move(order, before) =>
      if Movable(rows, order, before) {
        OnlyPlaced(rows, order, before, keep);
      }
  }

  /** A run, wherever it stops, leaves alone the rows its steps do not name. */
  lemma {:induction false} RunFrame(steps: seq<Step>, rows: seq<Record>, env: Env, t: nat, keep: set<string>)
    requires Known(rows, keep)
    requires forall s | s in steps :: WellFormedStep(s) && keep !! Touches(s)
    ensures Only(Run(steps, rows, env, t).rows, keep) == Only(rows, keep)
  {
    if steps != [] {
      assert steps[0] in steps;
      var one := Exec(steps[0], rows, At(env, t));
      if !At(env, t).Refused? {
        EffectFrame(steps[0], rows, At(env, t).id, keep);
      }
      assert Only(one.rows, keep) == Only(rows, keep);
      if one.ok {
        KnownOnly(rows, one.rows, keep);
        RunFrame(steps[1..], one.rows, env, t + 1, keep);
      }
    }
  }

  /** Rows a plan must leave alone: those a selector selects, and under tolerate the unclaimed ones. */
  ghost predicate OutOfScope(spec: MenuSpec, rows: seq<Record>, matched: seq<string>, keep: set<string>) {
    && Known(rows, keep)
    && forall id | id in keep ::
         DevicesOwn(spec, ByID(rows, id)) || (spec.unlisted == Tolerate && id !in matched)
  }

  lemma {:induction false} WantedDistinct(matched: seq<string>)
    requires forall i, j | 0 <= i < j < |matched| && matched[i] != "" :: matched[i] != matched[j]
    ensures var want := Wanted(matched); forall i, j | 0 <= i < j < |want| :: want[i] != want[j]
  {
    if matched != [] {
      var rest := matched[1..];
      WantedDistinct(rest);
      forall j | 0 <= j < |Wanted(rest)|
        ensures matched[0] != "" ==> Wanted(rest)[j] != matched[0]
      {
        assert Wanted(rest)[j] in Wanted(rest);
        var k :| 0 <= k < |rest| && rest[k] == Wanted(rest)[j];
        assert matched[k + 1] == rest[k];
      }
    }
  }

  /** No step of a plan names a row out of its scope, not even as an anchor. */
  lemma PlanFrame(spec: MenuSpec, desired: seq<Record>, rows: seq<Record>, p: Plan, keep: set<string>)
    requires UniqueIds(rows) && MakePlan(spec, desired, rows) == Planned(p)
    requires OutOfScope(spec, rows, p.matched, keep)
    ensures forall s | s in p.steps :: WellFormedStep(s) && keep !! Touches(s)
  {
    PlannedFacts(spec, desired, rows, p);
    KeepUnmatched(spec, desired, rows, p, keep);
    forall s | s in p.steps
      ensures WellFormedStep(s) && keep !! Touches(s)
    {
      if s in Writes(spec, desired, rows, p.matched, |desired|) {
        hide *;
        WriteFrame(spec, desired, rows, p, keep, s);
      } else if s in Reorder(rows, p.matched) {
        hide *;
        MoveFrame(spec, desired, rows, p, keep, s);
      } else {
        assert s in Prunes(spec, rows, Claimed(p.matched)) && spec.unlisted == Prune;
        hide *;
        DeleteFrame(spec, rows, p.matched, keep, s);
      }
    }
  }

  lemma WriteFrame(spec: MenuSpec, desired: seq<Record>, rows: seq<Record>, p: Plan, keep: set<string>, s: Step)
    requires |desired| == |p.matched| && s in Writes(spec, desired, rows, p.matched, |desired|)
    requires forall id | id in keep :: id !in p.matched
    ensures WellFormedStep(s) && keep !! Touches(s)
  {
    WritesShape(spec, desired, rows, p.matched, |desired|);
  }

  lemma MoveFrame(spec: MenuSpec, desired: seq<Record>, rows: seq<Record>, p: Plan, keep: set<string>, s: Step)
    requires UniqueIds(rows) && Greedy(spec, desired, rows, p.matched) && s in Reorder(rows, p.matched)
    requires forall id | id in keep :: id !in p.matched
    ensures WellFormedStep(s) && keep !! Touches(s)
  {
    MatchedInjective(spec, desired, rows, p.matched);
    WantedDistinct(p.matched);
    ReorderShape(rows, p.matched);
    hide Greedy, UniqueIds, Reorder, Wanted;
    assert s.Move? && (s.order == Wanted(p.matched) || |s.order| == 1);
    assert WellFormedStep(s);
    forall id | id in Touches(s)
      ensures id !in keep
    {
      assert id in p.matched;
    }
  }

  lemma DeleteFrame(spec: MenuSpec, rows: seq<Record>, matched: seq<string>, keep: set<string>, s: Step)
    requires UniqueIds(rows) && spec.unlisted == Prune && s in Prunes(spec, rows, Claimed(matched))
    requires OutOfScope(spec, rows, matched, keep)
    ensures WellFormedStep(s) && keep !! Touches(s)
  {
    PrunesShape(spec, rows, Claimed(matched));
    ByIDFinds(rows, s.row);
    IgnoredMeans(spec, s.row);
  }

  lemma KeepUnmatched(spec: MenuSpec, desired: seq<Record>, rows: seq<Record>, p: Plan, keep: set<string>)
    requires UniqueIds(rows) && MakePlan(spec, desired, rows) == Planned(p)
    requires OutOfScope(spec, rows, p.matched, keep)
    ensures forall id | id in keep :: id !in p.matched
  {
    PlannedFacts(spec, desired, rows, p);
    forall i | 0 <= i < |p.matched|
      ensures p.matched[i] !in keep
    {
      if p.matched[i] != "" {
        MatchesAreRows(spec, desired, rows, p.matched, i);
        IgnoredMeans(spec, RowOf(rows, p.matched, i));
      }
    }
  }

  /** The rows out of scope of the first plan, and, if a second was made, of the second. */
  ghost predicate NeverClaimed(spec: MenuSpec, desired: seq<Record>, rows: seq<Record>, out: Outcome, keep: set<string>) {
    && Known(rows, keep)
    && forall id | id in keep ::
         || DevicesOwn(spec, ByID(rows, id))
         || (spec.unlisted == Tolerate && id !in out.plan.matched
             && (MakePlan(spec, desired, rows).Planned? ==> id !in MakePlan(spec, desired, rows).plan.matched))
  }

  lemma OnlySameRow(a: seq<Record>, b: seq<Record>, keep: set<string>, id: string)
    requires UniqueIds(b) && Known(a, keep) && Only(b, keep) == Only(a, keep) && id in keep
    ensures ByID(b, id) == ByID(a, id)
  {
    ByIDMember(a, id);
    assert ByID(a, id) in Only(a, keep);
    assert ByID(a, id) in Only(b, keep);
    ByIDFinds(b, ByID(a, id));
  }

  /**
   Frame of a whole apply, wherever it stops and whatever the router answered:
   ignored rows, and under tolerate all rows never claimed, are untouched and in
   their order.
   */
  lemma ApplyFrame(spec: MenuSpec, desired: seq<Record>, approval: Approval, rows: seq<Record>, env: Env, keep: set<string>)
    requires UniqueIds(rows)
    requires NeverClaimed(spec, desired, rows, Apply(spec, desired, approval, rows, env), keep)
    ensures Only(Apply(spec, desired, approval, rows, env).rows, keep) == Only(rows, keep)
  {
    hide MakePlan, Run, NonMoves, Structural, Only, ApplyStructural, UniqueIds;
    var out := Apply(spec, desired, approval, rows, env);
    if At(env, 0).Done? && MakePlan(spec, desired, rows).Planned?
       && (approval.Unchecked? || approval.accepts(MakePlan(spec, desired, rows).plan)) {
      var p := MakePlan(spec, desired, rows).plan;
      PlanFrame(spec, desired, rows, p, keep);
      if Structural(spec, p) {
        StructuralFrame(spec, desired, rows, p, env, keep);
      } else {
        RunFrame(p.steps, rows, env, 1, keep);
      }
    }
  }

  lemma StructuralFrame(spec: MenuSpec, desired: seq<Record>, rows: seq<Record>, p: Plan, env: Env, keep: set<string>)
    requires UniqueIds(rows) && MakePlan(spec, desired, rows) == Planned(p)
    requires forall s | s in p.steps :: WellFormedStep(s) && keep !! Touches(s)
    requires NeverClaimed(spec, desired, rows, ApplyStructural(spec, desired, p, rows, env), keep)
    ensures Only(ApplyStructural(spec, desired, p, rows, env).rows, keep) == Only(rows, keep)
  {
    var mutations := NonMoves(p.steps);
    var run := Run(mutations, rows, env, 1);
    RunFrame(mutations, rows, env, 1, keep);
    RunKeepsUnique(mutations, rows, env, 1);
    if run.ok {
      OrderFrame(spec, desired, rows, p.matched, mutations, run.rows, env, 1 + |mutations|, keep);
    }
  }

  lemma OrderFrame(spec: MenuSpec, desired: seq<Record>, start: seq<Record>, matched: seq<string>, mutations: seq<Step>,
                   rows: seq<Record>, env: Env, t: nat, keep: set<string>)
    requires UniqueIds(rows) && Only(rows, keep) == Only(start, keep)
    requires NeverClaimed(spec, desired, start, ApplyOrder(spec, desired, mutations, matched, rows, env, t), keep)
    ensures Only(ApplyOrder(spec, desired, mutations, matched, rows, env, t).rows, keep) == Only(start, keep)
  {
    var out := ApplyOrder(spec, desired, mutations, matched, rows, env, t);
    if At(env, t).Done? && MakePlan(spec, desired, rows).Planned? {
      var q := MakePlan(spec, desired, rows).plan;
      if NonMoves(q.steps) == [] {
        KnownOnly(start, rows, keep);
        forall id | id in keep
          ensures DevicesOwn(spec, ByID(rows, id)) || (spec.unlisted == Tolerate && id !in q.matched)
        {
          OnlySameRow(start, rows, keep, id);
        }
        hide UniqueIds, MakePlan;
        PlanFrame(spec, desired, rows, q, keep);
        RunFrame(q.steps, rows, env, t + 1, keep);
      }
    }
  }

  // ---- Under tolerate no row is lost ----

  lemma EffectKeepsIds(step: Step, rows: seq<Record>, id: string, x: string)
    requires UniqueIds(rows) && WellFormedStep(step) && !step.Delete? && x in Ids(rows)
    ensures Effect(step, rows, id).Some? ==> x in Ids(Effect(step, rows, id).value)
  {
    var k :| 0 <= k < |rows| && Ids(rows)[k] == x;
    match step
    case Create(row) =>
      if id != "" && id !in Ids(rows) {
        assert Ids(rows + [row[ID_FIELD := id]])[k] == x;
      }
    case Update(target, diff) =>
      assert Ids(Patch(rows, target, diff))[k] == x;
    case Move(order, before) =>
      if Movable(rows, order, before) {
        PlacePermutes(rows, order, before);
        assert rows[k] in multiset(Place(rows, order, before));
        IdsMember(Place(rows, order, before), rows[k]);
      }
  }

  lemma {:induction false} RunKeepsIds(steps: seq<Step>, rows: seq<Record>, env: Env, t: nat, x: string)
    requires UniqueIds(rows) && x in Ids(rows)
    requires forall s | s in steps :: WellFormedStep(s) && !s.Delete?
    ensures x in Ids(Run(steps, rows, env, t).rows)
  {
    if steps != [] {
      assert steps[0] in steps;
      if !At(env, t).Refused? {
        EffectKeepsIds(steps[0], rows, At(env, t).id, x);
        EffectKeepsUnique(steps[0], rows, At(env, t).id);
      }
      var one := Exec(steps[0], rows, At(env, t));
      if one.ok {
        hide UniqueIds, Ids, Effect;
        RunKeepsIds(steps[1..], one.rows, env, t + 1, x);
      }
    }
  }

  lemma ToleratePlan(spec: MenuSpec, desired: seq<Record>, rows: seq<Record>, p: Plan)
    requires UniqueIds(rows) && MakePlan(spec, desired, rows) == Planned(p)
    ensures forall s | s in p.steps :: WellFormedStep(s)
    ensures spec.unlisted == Tolerate ==> forall s | s in p.steps :: !s.Delete?
  {
    PlanFrame(spec, desired, rows, p, {});
    PlannedFacts(spec, desired, rows, p);
    WritesShape(spec, desired, rows, p.matched, |desired|);
    ReorderShape(rows, p.matched);
  }

  /** Under tolerate an apply, wherever it stops, still has every row it started with. */
  lemma TolerateLosesNothing(spec: MenuSpec, desired: seq<Record>, approval: Approval, rows: seq<Record>, env: Env, x: string)
    requires UniqueIds(rows) && spec.unlisted == Tolerate && x in Ids(rows)
    ensures x in Ids(Apply(spec, desired, approval, rows, env).rows)
  {
    hide UniqueIds, Ids, MakePlan, Run, NonMoves, WellFormedStep, Structural;
    if MakePlan(spec, desired, rows).Planned? {
      var p := MakePlan(spec, desired, rows).plan;
      var mutations := NonMoves(p.steps);
      var run := Run(mutations, rows, env, 1);
      ToleratePlan(spec, desired, rows, p);
      RunKeepsIds(p.steps, rows, env, 1, x);
      RunKeepsIds(mutations, rows, env, 1, x);
      RunKeepsUnique(mutations, rows, env, 1);
      if MakePlan(spec, desired, run.rows).Planned? {
        var q := MakePlan(spec, desired, run.rows).plan;
        ToleratePlan(spec, desired, run.rows, q);
        RunKeepsIds(q.steps, run.rows, env, 2 + |mutations|, x);
      }
    }
  }

  // ---- What the approval covers ----

  lemma {:induction false} NonMovesPrefix(steps: seq<Step>, k: nat)
    requires k <= |steps|
    ensures NonMoves(steps[..k]) <= NonMoves(steps)
  {
    assert steps == steps[..k] + steps[k..];
    NonMovesConcat(steps[..k], steps[k..]);
  }

  /**
   Approval containment: whatever an apply puts to the router, its creates,
   updates and deletes are the approved plan's, in plan order and without gaps;
   a plan that is not approved, or not made, reaches the router with nothing.
   */
  lemma ApprovalContains(spec: MenuSpec, desired: seq<Record>, approval: Approval, rows: seq<Record>, env: Env)
    ensures
      var out, first := Apply(spec, desired, approval, rows, env), MakePlan(spec, desired, rows);
      && (out.log != [] ==> first.Planned? && (approval.Checked? ==> approval.accepts(first.plan)))
      && (first.Planned? ==> NonMoves(out.log) <= NonMoves(first.plan.steps))
    ensures
      var out, first := Apply(spec, desired, approval, rows, env), MakePlan(spec, desired, rows);
      first.Rejected? || (approval.Checked? && !approval.accepts(first.plan)) || !At(env, 0).Done?
      ==> out.rows == rows && out.log == [] && out.failure.Some?
  {
    hide MakePlan, Run, NonMoves, ApplyPlain, ApplyStructural;
    var first := MakePlan(spec, desired, rows);
    if first.Planned? {
      PlainContains(first.plan, rows, env);
      StructuralContains(spec, desired, first.plan, rows, env);
      NonMovesNone([]);
    }
  }

  lemma PlainContains(p: Plan, rows: seq<Record>, env: Env)
    ensures NonMoves(ApplyPlain(p, rows, env).log) <= NonMoves(p.steps)
  {
    NonMovesPrefix(p.steps, Run(p.steps, rows, env, 1).tried);
  }

  lemma StructuralContains(spec: MenuSpec, desired: seq<Record>, p: Plan, rows: seq<Record>, env: Env)
    ensures NonMoves(ApplyStructural(spec, desired, p, rows, env).log) <= NonMoves(p.steps)
  {
    var mutations := NonMoves(p.steps);
    assert forall s | s in mutations :: !s.Move?;
    hide NonMoves, Run, ApplyOrder;
    NonMovesAll(mutations);
    var run := Run(mutations, rows, env, 1);
    var out := ApplyStructural(spec, desired, p, rows, env);
    if run.ok {
      OrderContains(spec, desired, mutations, p.matched, run.rows, env, 1 + |mutations|);
      assert NonMoves(out.log) == mutations;
    } else {
      NonMovesPrefix(mutations, run.tried);
      assert out.log == mutations[..run.tried];
    }
  }

  lemma OrderContains(spec: MenuSpec, desired: seq<Record>, mutations: seq<Step>, matched: seq<string>,
                      rows: seq<Record>, env: Env, t: nat)
    requires forall s | s in mutations :: !s.Move?
    ensures NonMoves(ApplyOrder(spec, desired, mutations, matched, rows, env, t).log) == mutations
  {
    NonMovesAll(mutations);
    if At(env, t).Done? && MakePlan(spec, desired, rows).Planned? {
      var q := MakePlan(spec, desired, rows).plan;
      if NonMoves(q.steps) == [] {
        var moves := q.steps[..Run(q.steps, rows, env, t + 1).tried];
        NonMovesPrefix(q.steps, Run(q.steps, rows, env, t + 1).tried);
        NonMovesConcat(mutations, moves);
      }
    }
  }
}
