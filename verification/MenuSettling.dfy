/**
 What is left to do after a successful apply where the order of the rows plays no
 part in the pairing: on unordered menus, and on menus with a key
 (rest/menu.go:172-222, 397-455).
 */
module MenuSettling {
  import opened Records
  import opened MenuPlan
  import opened MenuMatching
  import opened MenuDevice
  import opened MenuOrdering
  import opened MenuStructure
  import opened MenuApply
  import opened MenuSoundness
  import opened MenuForesight
  import opened MenuRetaking

  /** A key finds the same row in any order. */
  lemma KeyedPick(spec: MenuSpec, want: Record, a: seq<Record>, b: seq<Record>, claimed: set<string>)
    requires spec.key != "" && KeyUnique(spec, a) && SameRows(a, b)
    ensures Pick(spec, want, a, claimed) == Pick(spec, want, b, claimed)
  {
    var inA, inB := Eligibles(spec, want, a, claimed), Eligibles(spec, want, b, claimed);
    forall r
      ensures r in a <==> r in b
    {
      assert r in multiset(a) <==> r in multiset(b);
    }
    assert forall r :: r in inA <==> r in inB;
    FirstIsMember(inA);
    FirstIsMember(inB);
  }

  lemma {:induction false} KeyedPairsAlike(spec: MenuSpec, desired: seq<Record>, a: seq<Record>, b: seq<Record>, n: nat)
    requires UniqueIds(a) && UniqueIds(b) && spec.key != "" && KeyUnique(spec, a) && SameRows(a, b) && n <= |desired|
    ensures Resolve(spec, desired, a, n).Paired? && Resolve(spec, desired, a, n) == Resolve(spec, desired, b, n)
  {
    hide UniqueIds, KeyUnique, SameRows, Pick;
    if n > 0 {
      KeyedPairsAlike(spec, desired, a, b, n - 1);
      ResolveStep(spec, desired, a, n - 1);
      ResolveStep(spec, desired, b, n - 1);
      KeyedPick(spec, desired[n - 1], a, b, Claimed(Resolve(spec, desired, a, n - 1).matched));
    }
  }

  lemma {:induction false} WritesAlike(spec: MenuSpec, desired: seq<Record>, a: seq<Record>, b: seq<Record>, matched: seq<string>, n: nat)
    requires UniqueIds(b) && SameRows(b, a) && n <= |desired| == |matched|
    requires forall id | id in matched && id != "" :: id in Ids(a)
    ensures Writes(spec, desired, a, matched, n) == Writes(spec, desired, b, matched, n)
  {
    hide UniqueIds, SameRows, ByID, Changes;
    if n > 0 {
      WritesAlike(spec, desired, a, b, matched, n - 1);
      assert matched[n - 1] in matched;
      if matched[n - 1] != "" {
        SameByID(a, b, matched[n - 1]);
      }
    }
  }

  /** With a key, whether a menu still needs writes does not hang on its order. */
  lemma KeyedConvergedAlike(spec: MenuSpec, desired: seq<Record>, a: seq<Record>, b: seq<Record>)
    requires UniqueIds(a) && UniqueIds(b) && spec.key != "" && KeyUnique(spec, a) && SameRows(a, b)
    ensures Resolve(spec, desired, a, |desired|) == Resolve(spec, desired, b, |desired|)
    ensures Converged(spec, desired, a) <==> Converged(spec, desired, b)
  {
    KeyedPairsAlike(spec, desired, a, b, |desired|);
    var matched := Resolve(spec, desired, a, |desired|).matched;
    MatchedKnown(spec, desired, a);
    WritesAlike(spec, desired, a, b, matched, |desired|);
    NoPrunes(spec, a, Claimed(matched));
    NoPrunes(spec, b, Claimed(matched));
    forall r
      ensures r in a <==> r in b
    {
      assert r in multiset(a) <==> r in multiset(b);
    }
    hide UniqueIds, KeyUnique, SameRows, Resolve, Writes, Prunes, Open;
  }

  lemma MatchedKnown(spec: MenuSpec, desired: seq<Record>, rows: seq<Record>)
    requires UniqueIds(rows) && Resolve(spec, desired, rows, |desired|).Paired?
    ensures forall id | id in Resolve(spec, desired, rows, |desired|).matched && id != "" :: id in Ids(rows)
  {
    hide UniqueIds, Resolve, Eligible, Clear;
    var matched := Resolve(spec, desired, rows, |desired|).matched;
    ResolveIsGreedy(spec, desired, rows, |desired|);
    forall id | id in matched && id != ""
      ensures id in Ids(rows)
    {
      var i :| 0 <= i < |matched| && matched[i] == id;
      MatchesAreRows(spec, desired, rows, matched, i);
      IdsMember(rows, RowOf(rows, matched, i));
    }
  }

  lemma NamesNoNewSame(spec: MenuSpec, rows: seq<Record>, a: seq<Record>, b: seq<Record>)
    requires SameRows(a, b) && NamesNoNew(spec, rows, a)
    ensures NamesNoNew(spec, rows, b)
  {
    forall id | id in Ids(b)
      ensures id in Ids(a)
    {
      ByIDMember(b, id);
      assert ByID(b, id) in multiset(a);
      IdsMember(a, ByID(b, id));
    }
  }

  /** There is nothing left to do exactly on a converged menu whose managed rows stand in order. */
  lemma NothingLeft(spec: MenuSpec, desired: seq<Record>, rows: seq<Record>)
    requires UniqueIds(rows) && spec.unlisted != Unset && !(exists s | s in spec.ignore :: s == map[])
    requires spec.ordered && Converged(spec, desired, rows) ==>
      var m := Resolve(spec, desired, rows, |desired|).matched;
      Manageable(rows, m) && Have(rows, Listed(m)) == m
    ensures
      var next := MakePlan(spec, desired, rows);
      next.Planned? && next.plan.steps == [] <==> Converged(spec, desired, rows)
  {
    ReplanExact(spec, desired, rows);
    if Converged(spec, desired, rows) {
      var m := Resolve(spec, desired, rows, |desired|).matched;
      hide Resolve, UniqueIds, Reorder, Have, Manageable;
      if spec.ordered {
        ReorderEmptyExactly(rows, m);
        HaveClaimed(rows, m);
      }
    }
  }

  lemma HaveClaimed(rows: seq<Record>, m: seq<string>)
    requires Manageable(rows, m)
    ensures Have(rows, Listed(m)) == Have(rows, Claimed(m))
  {
    assert Listed(m) == Claimed(m);
  }

  // ---- A whole apply ----

  /** Where the order of the rows plays no part: no order is kept, or a proper key tells the rows apart. */
  ghost predicate OrderFree(spec: MenuSpec, desired: seq<Record>, rows: seq<Record>) {
    if spec.key == "" then !spec.ordered else KeysProper(spec, desired, rows)
  }

  /** What a successful apply leaves is what its writes left, rearranged, with the reported rows in order. */
  ghost predicate Rearranged(spec: MenuSpec, desired: seq<Record>, job: Job, out: Outcome)
    requires job.Valid()
  {
    && job.spec == spec && job.desired == desired
    && UniqueIds(out.rows) && SameRows(out.rows, job.After())
    && (if spec.ordered then
          && Manageable(out.rows, out.plan.matched) && Have(out.rows, Listed(out.plan.matched)) == out.plan.matched
          && (Converged(spec, desired, job.After()) ==> Resolve(spec, desired, job.After(), |desired|) == Paired(out.plan.matched))
        else out.rows == job.After())
  }

  lemma UnorderedEnd(spec: MenuSpec, desired: seq<Record>, approval: Approval, rows: seq<Record>, env: Env, p: Plan)
    returns (job: Job)
    requires UniqueIds(rows) && !spec.ordered && MakePlan(spec, desired, rows) == Planned(p)
    requires Apply(spec, desired, approval, rows, env).failure.None?
    ensures job.Valid() && job.current == rows && job.matched == p.matched
    ensures Rearranged(spec, desired, job, Apply(spec, desired, approval, rows, env))
  {
    hide MakePlan, Run, NonMoves, UniqueIds, Resolve, Greedy, Mutations, Job.Valid, Job.After;
    PlannedFacts(spec, desired, rows, p);
    assert p.steps == NonMoves(p.steps);
    job := MutationsDone(spec, desired, rows, p, env, 1);
    AfterUnique(job);
  }

  lemma StructuralEnd(spec: MenuSpec, desired: seq<Record>, approval: Approval, rows: seq<Record>, env: Env, p: Plan)
    returns (job: Job)
    requires UniqueIds(rows) && MakePlan(spec, desired, rows) == Planned(p) && Structural(spec, p)
    requires Apply(spec, desired, approval, rows, env).failure.None?
    ensures job.Valid() && job.current == rows && job.matched == p.matched
    ensures Rearranged(spec, desired, job, Apply(spec, desired, approval, rows, env))
  {
    hide MakePlan, Run, NonMoves, UniqueIds, Resolve, Greedy, Mutations, Job.Valid, Job.After, Reorder, Converged, Have, Subset, SameRows, Wanted;
    job := MutationsDone(spec, desired, rows, p, env, 1);
    AfterUnique(job);
    var q, t := MakePlan(spec, desired, job.After()).plan, 1 + |NonMoves(p.steps)|;
    PlannedFacts(spec, desired, job.After(), q);
    OnlyMovesConforms(spec, desired, job.After(), q);
    OrderSound(spec, desired, NonMoves(p.steps), p.matched, job.After(), env, t);
    WantedAll(q.matched);
    OrderingPhase(job.After(), q.matched, env, t + 1);
  }

  lemma PlainEnd(spec: MenuSpec, desired: seq<Record>, approval: Approval, rows: seq<Record>, env: Env, p: Plan)
    returns (job: Job)
    requires UniqueIds(rows) && spec.ordered && MakePlan(spec, desired, rows) == Planned(p) && !Structural(spec, p)
    requires Apply(spec, desired, approval, rows, env).failure.None?
    ensures job.Valid() && job.current == rows && job.matched == p.matched
    ensures
      var out := Apply(spec, desired, approval, rows, env);
      && job.spec == spec && job.desired == desired && out.plan.matched == p.matched
      && job.Targets(|job.desired|) == p.matched && SameRows(out.rows, job.After())
      && UniqueIds(out.rows) && Manageable(out.rows, p.matched) && Have(out.rows, Listed(p.matched)) == p.matched
  {
    hide UniqueIds, Greedy, Mutations, Reorder, Run, Job.Valid, Resolve, Have, MakePlan, NonMoves, Job.After;
    PlannedFacts(spec, desired, rows, p);
    PlainOrderedSound(spec, desired, rows, p, env);
    var mutations, moves := Mutations(spec, desired, rows, p.matched), Reorder(rows, p.matched);
    assert p.steps == mutations + moves;
    RunConcat(mutations, moves, rows, env, 1);
    job := MutationsDone(spec, desired, rows, p, env, 1);
    PlainUpdates(spec, desired, rows, p);
    UpdatesOnly(job);
    AfterConforms(job);
    ReorderByIds(job.After(), rows, p.matched);
    WantedAll(p.matched);
    OrderingPhase(job.After(), p.matched, env, 1 + |mutations|);
  }

  lemma PlainUpdates(spec: MenuSpec, desired: seq<Record>, rows: seq<Record>, p: Plan)
    requires UniqueIds(rows) && spec.ordered && MakePlan(spec, desired, rows) == Planned(p) && !Structural(spec, p)
    ensures |p.matched| == |desired|
    ensures forall s | s in Mutations(spec, desired, rows, p.matched) :: s.Update?
  {
    hide UniqueIds, Greedy, Reorder, Resolve, MakePlan, Mutations;
    PlannedFacts(spec, desired, rows, p);
    PlanHalves(spec, desired, rows, p.matched);
    assert forall s | s in Mutations(spec, desired, rows, p.matched) :: s in p.steps;
  }

  lemma ApplyEnd(spec: MenuSpec, desired: seq<Record>, approval: Approval, rows: seq<Record>, env: Env, p: Plan)
    returns (job: Job)
    requires UniqueIds(rows) && OrderFree(spec, desired, rows) && MakePlan(spec, desired, rows) == Planned(p)
    requires Apply(spec, desired, approval, rows, env).failure.None?
    ensures job.Valid() && job.current == rows && job.matched == p.matched && Discerning(job)
    ensures Rearranged(spec, desired, job, Apply(spec, desired, approval, rows, env))
  {
    hide Apply, MakePlan, UniqueIds, Resolve, Job.Valid, Job.After, Converged, Have, KeysProper, KeyUnique, Structural, Manageable, SameRows;
    if !spec.ordered {
      job := UnorderedEnd(spec, desired, approval, rows, env, p);
    } else if Structural(spec, p) {
      job := StructuralEnd(spec, desired, approval, rows, env, p);
    } else {
      job := PlainEnd(spec, desired, approval, rows, env, p);
      ProperDiscerning(job);
      if Converged(spec, desired, job.After()) {
        ConvergedReady(job);
        ReadyConverges(job);
      }
    }
    ProperDiscerning(job);
  }

  /**
   After a successful apply of an unordered menu, or of one with proper keys, a
   fresh plan is made and empty if and only if the first plan and reading foresaw
   it: every desired row will be found again, and none will be hidden.
   */
  lemma ApplySettlesExactly(spec: MenuSpec, desired: seq<Record>, approval: Approval, rows: seq<Record>, env: Env)
    requires UniqueIds(rows) && OrderFree(spec, desired, rows)
    requires Apply(spec, desired, approval, rows, env).failure.None?
    requires NamesNoNew(spec, rows, Apply(spec, desired, approval, rows, env).rows)
    ensures MakePlan(spec, desired, rows).Planned? && |MakePlan(spec, desired, rows).plan.matched| == |desired|
    ensures
      var next := MakePlan(spec, desired, Apply(spec, desired, approval, rows, env).rows);
      next.Planned? && next.plan.steps == [] <==> Foreseen(spec, desired, rows, MakePlan(spec, desired, rows).plan.matched)
  {
    SuccessPlanned(spec, desired, approval, rows, env);
    var p, out := MakePlan(spec, desired, rows).plan, Apply(spec, desired, approval, rows, env);
    PlannedFacts(spec, desired, rows, p);
    PolicyChosen(spec, desired, rows);
    var job := ApplyEnd(spec, desired, approval, rows, env, p);
    NamesNoNewSame(spec, rows, out.rows, job.After());
    ForeseenIsReady(job);
    StructuralPhaseExact(job);
    EndConverged(spec, desired, rows, job, out);
    NothingLeft(spec, desired, out.rows);
    ProperKey(spec, desired, rows);
    hide *;
  }

  lemma ProperKey(spec: MenuSpec, desired: seq<Record>, rows: seq<Record>)
    requires OrderFree(spec, desired, rows)
    ensures spec.key != ID_FIELD
  {
  }

  lemma SuccessPlanned(spec: MenuSpec, desired: seq<Record>, approval: Approval, rows: seq<Record>, env: Env)
    requires Apply(spec, desired, approval, rows, env).failure.None?
    ensures MakePlan(spec, desired, rows).Planned?
  {
    hide MakePlan;
  }

  lemma EndConverged(spec: MenuSpec, desired: seq<Record>, rows: seq<Record>, job: Job, out: Outcome)
    requires OrderFree(spec, desired, rows) && job.Valid() && Discerning(job) && Rearranged(spec, desired, job, out)
    ensures Converged(spec, desired, out.rows) <==> Converged(spec, desired, job.After())
    ensures spec.ordered && Converged(spec, desired, out.rows) ==>
      Resolve(spec, desired, out.rows, |desired|) == Paired(out.plan.matched)
  {
    AfterUnique(job);
    hide UniqueIds, Job.Valid, Job.After, Resolve, Converged, KeyUnique, SameRows, Have, Manageable;
    if spec.key != "" {
      SameBothWays(out.rows, job.After());
      KeyedConvergedAlike(spec, desired, job.After(), out.rows);
    }
  }

  lemma SameBothWays(a: seq<Record>, b: seq<Record>)
    requires SameRows(a, b)
    ensures SameRows(b, a)
  {
  }
}
