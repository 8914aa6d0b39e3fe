/**
 What a successful apply means for the device: every desired row is really
 there, in order where order matters, with nothing else left where the policy is
 to prune (rest/menu.go:155-222, 397-455).
 */
module MenuSoundness {
  import opened Records
  import opened MenuPlan
  import opened MenuMatching
  import opened MenuDevice
  import opened MenuOrdering
  import opened MenuMutation
  import opened MenuStructure
  import opened MenuApply

  /** `place` sends each desired row to a device row that holds all it sets, no two to the same. */
  ghost predicate Realises(spec: MenuSpec, desired: seq<Record>, rows: seq<Record>, place: seq<nat>) {
    && |place| == |desired|
    && (forall i | 0 <= i < |desired| :: place[i] < |rows| && Subset(desired[i], rows[place[i]]))
    && (forall i, j | 0 <= i < j < |desired| :: place[i] != place[j])
    && (spec.ordered ==> forall i, j | 0 <= i < j < |desired| :: place[i] < place[j])
    && (spec.unlisted == Prune ==>
          forall k | 0 <= k < |rows| :: k in place || IdOf(rows[k]) == "" || DevicesOwn(spec, rows[k]))
  }

  /** The same through identifiers, order aside. */
  predicate Conforms(spec: MenuSpec, desired: seq<Record>, rows: seq<Record>, ids: seq<string>) {
    && |ids| == |desired|
    && Manageable(rows, ids)
    && (forall i | 0 <= i < |ids| :: Subset(desired[i], ByID(rows, ids[i])))
    && (spec.unlisted == Prune ==> forall r | r in rows :: IdOf(r) == "" || IdOf(r) in ids || Ignored(spec, r))
  }

  lemma ConformsSame(spec: MenuSpec, desired: seq<Record>, a: seq<Record>, b: seq<Record>, ids: seq<string>)
    requires UniqueIds(a) && SameRows(b, a) && UniqueIds(b) && Conforms(spec, desired, a, ids)
    ensures Conforms(spec, desired, b, ids)
  {
    ManageableSame(a, b, ids);
    forall i | 0 <= i < |ids|
      ensures ByID(b, ids[i]) == ByID(a, ids[i])
    {
      assert ids[i] in ids;
      ByIDMember(a, ids[i]);
      assert ByID(a, ids[i]) in multiset(b);
      ByIDFinds(b, ByID(a, ids[i]));
    }
    forall r | r in b
      ensures r in a
    {
      assert r in multiset(b);
    }
  }

  /** The structural phase puts every intended row in place. */
  lemma AfterConforms(job: Job)
    requires job.Valid()
    ensures UniqueIds(job.After()) && Conforms(job.spec, job.desired, job.After(), job.Targets(|job.desired|))
  {
    var ids, rows := job.Targets(|job.desired|), job.After();
    AfterUnique(job);
    TargetsDistinct(job);
    forall i | 0 <= i < |ids|
      ensures ids[i] != "" && ids[i] in Ids(rows) && Subset(job.desired[i], ByID(rows, ids[i]))
    {
      TargetRowFacts(job, i);
      TargetInAfter(job, i);
      IdsMember(rows, job.TargetRow(i));
    }
    if job.spec.unlisted == Prune {
      forall r | r in rows
        ensures IdOf(r) == "" || IdOf(r) in ids || Ignored(job.spec, r)
      {
        if IdOf(r) != "" && IdOf(r) !in ids {
          assert forall i | 0 <= i < |ids| :: ids[i] == job.Target(i) && ids[i] in ids;
          AfterOthers(job, r);
        }
      }
    }
  }

  lemma {:induction false} WritesDone(spec: MenuSpec, desired: seq<Record>, rows: seq<Record>, matched: seq<string>, n: nat, i: nat)
    requires i < n <= |desired| == |matched|
    requires Writes(spec, desired, rows, matched, n) == []
    ensures matched[i] != "" && (spec.key != "" ==> Subset(desired[i], ByID(rows, matched[i])))
  {
    if i < n - 1 {
      WritesDone(spec, desired, rows, matched, n - 1, i);
    } else {
      ChangesSettle(desired[i], ByID(rows, matched[i]));
    }
  }

  /** A menu whose plan needs no mutation already conforms. */
  lemma ConvergedConforms(spec: MenuSpec, desired: seq<Record>, rows: seq<Record>)
    requires UniqueIds(rows) && Converged(spec, desired, rows)
    ensures Conforms(spec, desired, rows, Resolve(spec, desired, rows, |desired|).matched)
  {
    var matched := Resolve(spec, desired, rows, |desired|).matched;
    ResolveIsGreedy(spec, desired, rows, |desired|);
    MatchedInjective(spec, desired, rows, matched);
    forall i | 0 <= i < |matched|
      ensures matched[i] != "" && matched[i] in Ids(rows) && Subset(desired[i], ByID(rows, matched[i]))
    {
      WritesDone(spec, desired, rows, matched, |desired|, i);
      MatchesAreRows(spec, desired, rows, matched, i);
      IdsMember(rows, RowOf(rows, matched, i));
    }
    if spec.unlisted == Prune {
      NoPrunes(spec, rows, Claimed(matched));
    }
  }

  lemma {:induction false} WantedAll(matched: seq<string>)
    requires forall id | id in matched :: id != ""
    ensures Wanted(matched) == matched
  {
    if matched != [] {
      assert matched[0] in matched;
      assert forall id | id in matched[1..] :: id in matched;
      WantedAll(matched[1..]);
    }
  }

  /** One managed row is in order by itself. */
  lemma {:induction false} HaveOne(rows: seq<Record>, id: string)
    requires UniqueIds(rows) && id != "" && id in Ids(rows)
    ensures Have(rows, {id}) == [id]
  {
    hide UniqueIds, Only, Have, IdOf;
    var head, rest := rows[0], rows[1..];
    assert rows == [head] + rest;
    UniqueParts([head], rest);
    assert head in [head];
    HaveCons(rows, {id});
    if IdOf(head) == id {
      HaveNone(rest, {id});
    } else {
      var k :| 0 <= k < |rows| && Ids(rows)[k] == id;
      assert Ids(rest)[k - 1] == id;
      HaveOne(rest, id);
    }
  }

  lemma HaveNone(rows: seq<Record>, ids: set<string>)
    requires forall r | r in rows :: IdOf(r) !in ids
    ensures Have(rows, ids) == []
  {
    OnlyNothing(rows, ids);
  }

  /** Having nothing to reorder means being in order. */
  lemma NothingToReorder(rows: seq<Record>, ids: seq<string>)
    requires UniqueIds(rows) && Manageable(rows, ids) && Reorder(rows, ids) == []
    ensures Have(rows, Listed(ids)) == ids
  {
    WantedAll(ids);
    WantedListed(ids);
    if ids == [] {
      OnlyNothing(rows, {});
      assert Listed(ids) == {};
    } else if |ids| == 1 {
      assert ids[0] in ids;
      assert Listed(ids) == {ids[0]};
      HaveOne(rows, ids[0]);
    } else if |Have(rows, Claimed(ids))| != |rows| {
      PairwiseNonempty(ids, |ids| - 1);
    }
  }

  lemma PairwiseNonempty(want: seq<string>, i: nat)
    requires 0 < i < |want|
    ensures Pairwise(want, i) != []
  {
  }

  /** The ordering phase of a conforming menu keeps it conforming and puts it in order. */
  lemma ConformsOrdered(spec: MenuSpec, desired: seq<Record>, rows: seq<Record>, ids: seq<string>, env: Env, t: nat)
    requires UniqueIds(rows) && Conforms(spec, desired, rows, ids)
    ensures
      var run := Run(Reorder(rows, ids), rows, env, t);
      run.ok ==> UniqueIds(run.rows) && Conforms(spec, desired, run.rows, ids) && Have(run.rows, Listed(ids)) == ids
  {
    var run := Run(Reorder(rows, ids), rows, env, t);
    WantedAll(ids);
    OrderingPhase(rows, ids, env, t);
    ConformsSame(spec, desired, rows, run.rows, ids);
    if run.ok {
      if Reorder(rows, ids) == [] {
        NothingToReorder(rows, ids);
      } else {
        ArrangedHave(rows, ids);
      }
    }
  }

  // ---- From identifiers to places ----

  lemma {:induction false} OnlyInPlace(rows: seq<Record>, ids: set<string>, i: nat, j: nat)
    returns (k: nat, l: nat)
    requires i < j < |Only(rows, ids)|
    ensures k < l < |rows| && rows[k] == Only(rows, ids)[i] && rows[l] == Only(rows, ids)[j]
  {
    if IdOf(rows[0]) in ids {
      if i == 0 {
        var r := Only(rows[1..], ids)[j - 1];
        assert r in Only(rows[1..], ids);
        var m :| 0 <= m < |rows[1..]| && rows[1..][m] == r;
        k, l := 0, m + 1;
      } else {
        k, l := OnlyInPlace(rows[1..], ids, i - 1, j - 1);
        k, l := k + 1, l + 1;
      }
    } else {
      k, l := OnlyInPlace(rows[1..], ids, i, j);
      k, l := k + 1, l + 1;
    }
  }

  lemma AheadIs(rows: seq<Record>, k: nat)
    requires UniqueIds(rows) && k < |rows| && IdOf(rows[k]) != ""
    ensures Ahead(rows, IdOf(rows[k])) == k
  {
    IdsMember(rows, rows[k]);
    AheadHits(rows, IdOf(rows[k]));
  }

  /** A conforming menu, in order if need be, realises the desired rows. */
  lemma ConformsRealises(spec: MenuSpec, desired: seq<Record>, rows: seq<Record>, ids: seq<string>)
    returns (place: seq<nat>)
    requires UniqueIds(rows) && Conforms(spec, desired, rows, ids)
    requires spec.ordered ==> Have(rows, Listed(ids)) == ids
    ensures Realises(spec, desired, rows, place)
  {
    place := seq(|ids|, i requires 0 <= i < |ids| => Ahead(rows, ids[i]));
    forall i | 0 <= i < |ids|
      ensures place[i] < |rows| && IdOf(rows[place[i]]) == ids[i] && rows[place[i]] == ByID(rows, ids[i])
    {
      assert ids[i] in ids;
      AheadHits(rows, ids[i]);
      ByIDFinds(rows, rows[place[i]]);
    }
    if spec.ordered {
      forall i, j | 0 <= i < j < |ids|
        ensures place[i] < place[j]
      {
        PlacesIncrease(rows, ids, i, j);
      }
    }
    if spec.unlisted == Prune {
      forall k | 0 <= k < |rows|
        ensures k in place || IdOf(rows[k]) == "" || DevicesOwn(spec, rows[k])
      {
        IgnoredMeans(spec, rows[k]);
        assert rows[k] in rows;
        if IdOf(rows[k]) != "" && IdOf(rows[k]) in ids {
          var i :| 0 <= i < |ids| && ids[i] == IdOf(rows[k]);
          AheadIs(rows, k);
          assert place[i] == k;
        }
      }
    }
  }

  lemma PlacesIncrease(rows: seq<Record>, ids: seq<string>, i: nat, j: nat)
    requires UniqueIds(rows) && Manageable(rows, ids) && Have(rows, Listed(ids)) == ids && i < j < |ids|
    ensures Ahead(rows, ids[i]) < Ahead(rows, ids[j])
  {
    var only := Only(rows, Listed(ids));
    assert |only| == |ids|;
    var k, l := OnlyInPlace(rows, Listed(ids), i, j);
    assert IdOf(only[i]) == Ids(only)[i] == ids[i] && IdOf(only[j]) == Ids(only)[j] == ids[j];
    assert ids[i] in ids && ids[j] in ids;
    AheadIs(rows, k);
    AheadIs(rows, l);
  }

  // ---- Every way an apply can succeed ----

  /** What a plan that was not refused rests on. */
  lemma PlannedFacts(spec: MenuSpec, desired: seq<Record>, rows: seq<Record>, p: Plan)
    requires UniqueIds(rows) && MakePlan(spec, desired, rows) == Planned(p)
    ensures |p.matched| == |desired| && Greedy(spec, desired, rows, p.matched)
    ensures Resolve(spec, desired, rows, |desired|) == Paired(p.matched)
    ensures forall id | id in p.matched && id != "" :: id in Ids(rows)
    ensures p.steps == PlanSteps(spec, desired, rows, p.matched)
    ensures NonMoves(p.steps) == Mutations(spec, desired, rows, p.matched)
  {
    ResolveIsGreedy(spec, desired, rows, |desired|);
    PlanHalves(spec, desired, rows, p.matched);
    forall id | id in p.matched && id != ""
      ensures id in Ids(rows)
    {
      var i :| 0 <= i < |p.matched| && p.matched[i] == id;
      MatchesAreRows(spec, desired, rows, p.matched, i);
      IdsMember(rows, RowOf(rows, p.matched, i));
    }
  }

  /** The mutations of a plan, acknowledged, make a finished job. */
  lemma MutationsDone(spec: MenuSpec, desired: seq<Record>, rows: seq<Record>, p: Plan, env: Env, t: nat)
    returns (job: Job)
    requires UniqueIds(rows) && MakePlan(spec, desired, rows) == Planned(p)
    requires Run(NonMoves(p.steps), rows, env, t).ok
    ensures job.Valid() && job.spec == spec && job.desired == desired && job.current == rows && job.matched == p.matched
    ensures Run(NonMoves(p.steps), rows, env, t).rows == job.After()
  {
    PlannedFacts(spec, desired, rows, p);
    var news := MutationPhase(spec, desired, rows, p.matched, env, t);
    job := Job(spec, desired, rows, p.matched, news);
  }

  /** A re-plan that holds only moves finds the menu conforming. */
  lemma OnlyMovesConforms(spec: MenuSpec, desired: seq<Record>, rows: seq<Record>, q: Plan)
    requires UniqueIds(rows) && MakePlan(spec, desired, rows) == Planned(q) && NonMoves(q.steps) == []
    ensures Converged(spec, desired, rows) && Conforms(spec, desired, rows, q.matched)
    ensures q.steps == if spec.ordered then Reorder(rows, q.matched) else []
  {
    PlannedFacts(spec, desired, rows, q);
    ConvergedConforms(spec, desired, rows);
  }

  lemma {:induction false} HaveByIds(a: seq<Record>, b: seq<Record>, ids: set<string>)
    requires Ids(a) == Ids(b)
    ensures Have(a, ids) == Have(b, ids)
  {
    if a == [] {
      assert |Ids(b)| == 0;
    } else {
      assert |Ids(a)| == |Ids(b)|;
      assert IdOf(a[0]) == Ids(a)[0] == Ids(b)[0] == IdOf(b[0]);
      assert Ids(a[1..]) == Ids(a)[1..] == Ids(b)[1..] == Ids(b[1..]);
      HaveByIds(a[1..], b[1..], ids);
      HaveCons(a, ids);
      HaveCons(b, ids);
    }
  }

  lemma HaveCons(rows: seq<Record>, ids: set<string>)
    requires rows != []
    ensures Have(rows, ids) == (if IdOf(rows[0]) in ids then [IdOf(rows[0])] else []) + Have(rows[1..], ids)
  {
    if IdOf(rows[0]) in ids {
      IdsCons(rows[0], Only(rows[1..], ids));
    }
  }

  /** Which moves are needed depends on the identifiers alone. */
  lemma ReorderByIds(a: seq<Record>, b: seq<Record>, matched: seq<string>)
    requires Ids(a) == Ids(b)
    ensures Reorder(a, matched) == Reorder(b, matched)
  {
    HaveByIds(a, b, Claimed(matched));
    assert |Ids(a)| == |Ids(b)|;
  }

  lemma {:induction false} WritesCreate(spec: MenuSpec, desired: seq<Record>, rows: seq<Record>, matched: seq<string>, n: nat, i: nat)
    requires i < n <= |desired| == |matched| && matched[i] == ""
    ensures Create(desired[i]) in Writes(spec, desired, rows, matched, n)
  {
    if i < n - 1 {
      WritesCreate(spec, desired, rows, matched, n - 1, i);
    }
  }

  lemma {:induction false} CreatedNone(desired: seq<Record>, matched: seq<string>, news: seq<string>, n: nat)
    requires n <= |desired| == |matched| && n <= |news| && forall i | 0 <= i < n :: matched[i] != ""
    ensures Created(desired, matched, news, n) == []
  {
    if n > 0 {
      CreatedNone(desired, matched, news, n - 1);
    }
  }

  /** Without creates and deletes every desired row is matched and no row comes or goes. */
  lemma UpdatesOnly(job: Job)
    requires job.Valid()
    requires forall s | s in Mutations(job.spec, job.desired, job.current, job.matched) :: s.Update?
    ensures job.Targets(|job.desired|) == job.matched && Ids(job.After()) == Ids(job.current)
  {
    var n := |job.desired|;
    NoCreates(job);
    NoDeletes(job);
    CreatedNone(job.desired, job.matched, job.news, n);
    var all := Revised(job.spec, job.desired, job.matched, n, job.current);
    hide Mutations, Job.Valid, UniqueIds, Greedy, Pruned;
    WithoutNothing(all, {});
    assert job.After() == all + [];
    assert Ids(all) == Ids(job.current);
  }

  lemma NoCreates(job: Job)
    requires job.Valid()
    requires forall s | s in Mutations(job.spec, job.desired, job.current, job.matched) :: s.Update?
    ensures forall i | 0 <= i < |job.desired| :: job.matched[i] != ""
  {
    hide UniqueIds, Greedy, FreshFor;
    var n := |job.desired|;
    var writes := Writes(job.spec, job.desired, job.current, job.matched, n);
    assert forall s | s in writes :: s in Mutations(job.spec, job.desired, job.current, job.matched);
    hide Mutations;
    forall i | 0 <= i < n
      ensures job.matched[i] == "" ==> Create(job.desired[i]) in writes
    {
      if job.matched[i] == "" {
        WritesCreate(job.spec, job.desired, job.current, job.matched, n, i);
      }
    }
  }

  lemma FirstIsMember<T>(s: seq<T>)
    ensures |s| == 0 || s[0] in s
  {
  }

  lemma NoDeletes(job: Job)
    requires job.Valid()
    requires forall s | s in Mutations(job.spec, job.desired, job.current, job.matched) :: s.Update?
    ensures Pruned(job.spec, job.current, Claimed(job.matched)) == {}
  {
    hide UniqueIds, Greedy, FreshFor, Writes;
    if job.spec.unlisted == Prune {
      var prunes := Prunes(job.spec, job.current, Claimed(job.matched));
      PrunesShape(job.spec, job.current, Claimed(job.matched));
      assert forall s | s in prunes :: s in Mutations(job.spec, job.desired, job.current, job.matched);
      FirstIsMember(prunes);
      NoPrunes(job.spec, job.current, Claimed(job.matched));
    }
  }

  /** Success of the ordering half. */
  lemma OrderSound(spec: MenuSpec, desired: seq<Record>, mutations: seq<Step>, matched: seq<string>,
                   rows: seq<Record>, env: Env, t: nat)
    requires UniqueIds(rows) && spec.ordered
    requires ApplyOrder(spec, desired, mutations, matched, rows, env, t).failure.None?
    ensures
      var out := ApplyOrder(spec, desired, mutations, matched, rows, env, t);
      && UniqueIds(out.rows) && Conforms(spec, desired, out.rows, out.plan.matched)
      && Have(out.rows, Listed(out.plan.matched)) == out.plan.matched
  {
    var q := MakePlan(spec, desired, rows).plan;
    OnlyMovesConforms(spec, desired, rows, q);
    ConformsOrdered(spec, desired, rows, q.matched, env, t + 1);
  }

  /** Success of the plain path on an ordered menu. */
  lemma PlainOrderedSound(spec: MenuSpec, desired: seq<Record>, rows: seq<Record>, p: Plan, env: Env)
    requires UniqueIds(rows) && spec.ordered && MakePlan(spec, desired, rows) == Planned(p)
    requires !Structural(spec, p) && ApplyPlain(p, rows, env).failure.None?
    ensures
      var out := ApplyPlain(p, rows, env);
      && UniqueIds(out.rows) && Conforms(spec, desired, out.rows, p.matched)
      && Have(out.rows, Listed(p.matched)) == p.matched
  {
    hide UniqueIds, Greedy, Mutations, Reorder, Run, Conforms, Job.Valid, Resolve, Have;
    PlannedFacts(spec, desired, rows, p);
    var mutations, moves := Mutations(spec, desired, rows, p.matched), Reorder(rows, p.matched);
    assert p.steps == mutations + moves;
    RunConcat(mutations, moves, rows, env, 1);
    var job := MutationsDone(spec, desired, rows, p, env, 1);
    PlanHalves(spec, desired, rows, p.matched);
    assert forall s | s in mutations :: s in p.steps;
    UpdatesOnly(job);
    AfterConforms(job);
    ReorderByIds(job.After(), rows, p.matched);
    ConformsOrdered(spec, desired, job.After(), p.matched, env, 1 + |mutations|);
  }

  /**
   Soundness of success: when an apply reports no error, the device realises the
   desired rows.
   */
  lemma ApplySound(spec: MenuSpec, desired: seq<Record>, approval: Approval, rows: seq<Record>, env: Env)
    returns (place: seq<nat>)
    requires UniqueIds(rows) && Apply(spec, desired, approval, rows, env).failure.None?
    ensures Realises(spec, desired, Apply(spec, desired, approval, rows, env).rows, place)
  {
    var p := MakePlan(spec, desired, rows).plan;
    PlannedFacts(spec, desired, rows, p);
    if Structural(spec, p) {
      var out := ApplyStructural(spec, desired, p, rows, env);
      var mutations := NonMoves(p.steps);
      var job := MutationsDone(spec, desired, rows, p, env, 1);
      AfterUnique(job);
      OrderSound(spec, desired, mutations, p.matched, job.After(), env, 1 + |mutations|);
      place := ConformsRealises(spec, desired, out.rows, out.plan.matched);
    } else if spec.ordered {
      PlainOrderedSound(spec, desired, rows, p, env);
      place := ConformsRealises(spec, desired, ApplyPlain(p, rows, env).rows, p.matched);
    } else {
      assert p.steps == NonMoves(p.steps);
      var job := MutationsDone(spec, desired, rows, p, env, 1);
      AfterConforms(job);
      place := ConformsRealises(spec, desired, job.After(), job.Targets(|desired|));
    }
  }
}
