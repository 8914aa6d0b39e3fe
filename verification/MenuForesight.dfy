/**
 When an ordered apply gives up after its writes (rest/menu.go:430-438), told
 from the first plan alone.
 */
module MenuForesight {
  import opened Prelude
  import opened Records
  import opened MenuPlan
  import opened MenuMatching
  import opened MenuDevice
  import opened MenuStructure
  import opened MenuMutation
  import opened MenuOrdering
  import opened MenuApply
  import opened MenuSoundness

  /** What the row of desired row `i` will say after the writes; of a new row, identifier aside. */
  function Expected(spec: MenuSpec, desired: seq<Record>, current: seq<Record>, matched: seq<string>, i: nat): Record
    requires i < |matched| == |desired|
  {
    if matched[i] == "" then Content(desired[i])
    else if spec.key == "" then ByID(current, matched[i])
    else ByID(current, matched[i]) + Changes(desired[i], ByID(current, matched[i]))
  }

  /**
   What a caller can check before the first write. With a key: every desired row
   carries it, no row will come to be ignored, and the key of a row to be created
   is not the identifier, which the router chooses. Without: no row to be created
   is ignored, and a row to be created that an earlier desired row would also
   recognise says just what that one's row says.
   */
  predicate Foreseen(spec: MenuSpec, desired: seq<Record>, current: seq<Record>, matched: seq<string>)
    requires |matched| == |desired|
  {
    if spec.key != "" then
      forall i | 0 <= i < |desired| ::
        && spec.key in desired[i] && (matched[i] == "" ==> spec.key != ID_FIELD)
        && !Ignored(spec, Expected(spec, desired, current, matched, i))
    else
      && (forall j | 0 <= j < |desired| && matched[j] == "" :: !Ignored(spec, Content(desired[j])))
      && (forall i, j | 0 <= i < j < |desired| && matched[j] == "" && Subset(desired[i], desired[j]) ::
            SameContent(Expected(spec, desired, current, matched, i), desired[j]))
  }

  /** No ignore selector names the identifier of a row that is in `after` but was not in `before`. */
  predicate NamesNoNew(spec: MenuSpec, before: seq<Record>, after: seq<Record>) {
    forall s | s in spec.ignore && ID_FIELD in s :: s[ID_FIELD] in Ids(before) || s[ID_FIELD] !in Ids(after)
  }

  /** A new row is ignored exactly when what it says is. */
  lemma NewIgnored(job: Job, i: nat)
    requires job.Valid() && i < |job.desired| && job.matched[i] == ""
    requires NamesNoNew(job.spec, job.current, job.After())
    ensures Ignored(job.spec, job.TargetRow(i)) == Ignored(job.spec, Content(job.desired[i]))
  {
    var made, said := job.TargetRow(i), Content(job.desired[i]);
    TargetInAfter(job, i);
    TargetRowFacts(job, i);
    IdsMember(job.After(), made);
    forall s | s in job.spec.ignore
      ensures Contains(made, s) == Contains(said, s)
    {
      if ID_FIELD in s {
        assert s[ID_FIELD] != job.news[i];
        assert !Contains(made, s) && !Contains(said, s);
      } else {
        assert forall k | k in s :: k in made <==> k in said;
        assert forall k | k in s && k in made :: made[k] == said[k];
      }
    }
  }

  /** The rows of a finished job say what was expected. */
  lemma ExpectedRow(job: Job, i: nat)
    requires job.Valid() && i < |job.desired|
    ensures SameContent(job.TargetRow(i), Expected(job.spec, job.desired, job.current, job.matched, i))
    ensures job.matched[i] != "" ==> job.TargetRow(i) == Expected(job.spec, job.desired, job.current, job.matched, i)
    ensures job.matched[i] != "" || job.spec.key != ID_FIELD ==>
      (Recognises(job.spec, job.desired[i], job.TargetRow(i)) <==> (job.spec.key == "" || job.spec.key in job.desired[i]))
  {
    TargetRowFacts(job, i);
    if job.matched[i] != "" && job.spec.key != "" {
      MatchedInjective(job.spec, job.desired, job.current, job.matched);
      ReviseOnce(job.spec, job.desired, job.matched, |job.desired|, i, ByID(job.current, job.matched[i]));
    } else if job.matched[i] == "" {
      assert Content(job.TargetRow(i)) == Content(job.desired[i]) == Content(Content(job.desired[i]));
    }
  }

  /** `Foreseen` tells, before the writes, whether the job will be ready after them. */
  lemma ForeseenIsReady(job: Job)
    requires job.Valid() && NamesNoNew(job.spec, job.current, job.After())
    ensures Foreseen(job.spec, job.desired, job.current, job.matched) ==> job.Ready()
    ensures job.spec.key != ID_FIELD && job.Ready() ==> Foreseen(job.spec, job.desired, job.current, job.matched)
  {
    forall i | 0 <= i < |job.desired|
      ensures SameContent(job.TargetRow(i), Expected(job.spec, job.desired, job.current, job.matched, i))
      ensures Ignored(job.spec, job.TargetRow(i)) == Ignored(job.spec, Expected(job.spec, job.desired, job.current, job.matched, i))
      ensures job.matched[i] != "" || job.spec.key != ID_FIELD ==>
        (Recognises(job.spec, job.desired[i], job.TargetRow(i)) <==> (job.spec.key == "" || job.spec.key in job.desired[i]))
      ensures job.matched[i] != "" && job.spec.key == "" ==> !Ignored(job.spec, job.TargetRow(i))
    {
      ExpectedRow(job, i);
      TargetRowFacts(job, i);
      if job.matched[i] == "" {
        NewIgnored(job, i);
      }
    }
    hide Ignored, Recognises, Job.TargetRow, Subset, Content, UniqueIds, Greedy, NamesNoNew, Job.After;
  }

  // ---- Keys ----

  /**
   What a key promises, told from the first reading: it tells the rows apart, no
   two desired rows share one, and no row that can never be claimed holds one.
   */
  ghost predicate KeysProper(spec: MenuSpec, desired: seq<Record>, rows: seq<Record>) {
    && spec.key != ID_FIELD && KeyUnique(spec, rows)
    && (forall i, j | 0 <= i < j < |desired| && spec.key in desired[i] && spec.key in desired[j] ::
          desired[i][spec.key] != desired[j][spec.key])
    && (forall want, row | want in desired && row in rows && Recognises(spec, want, row) :: Open(spec, {}, row))
  }

  /** A row that survives the writes keeps its key. */
  lemma KeptKey(job: Job, row: Record) returns (was: Record)
    requires job.Valid() && job.spec.key != "" && row in job.Kept()
    ensures was in job.current && row == Revise(job.spec, job.desired, job.matched, |job.desired|, was)
    ensures job.spec.key in row <==> job.spec.key in was
    ensures job.spec.key in row ==> row[job.spec.key] == was[job.spec.key]
  {
    var all := Revised(job.spec, job.desired, job.matched, |job.desired|, job.current);
    assert row in all;
    var k :| 0 <= k < |all| && all[k] == row;
    was := job.current[k];
    if h :| 0 <= h < |job.desired| && job.matched[h] == IdOf(was) != "" {
      MatchesAreRows(job.spec, job.desired, job.current, job.matched, h);
      SameIdSameRow(job.current, was, RowOf(job.current, job.matched, h));
      MatchedInjective(job.spec, job.desired, job.current, job.matched);
      ReviseOnce(job.spec, job.desired, job.matched, |job.desired|, h, was);
      assert job.spec.key !in Changes(job.desired[h], was);
    } else {
      ReviseUntouched(job.spec, job.desired, job.matched, |job.desired|, was);
    }
  }

  lemma MadeKey(job: Job, row: Record) returns (i: nat)
    requires job.Valid() && job.spec.key != ID_FIELD && row in job.Made()
    ensures i < |job.desired| && job.matched[i] == "" && row == job.desired[i][ID_FIELD := job.news[i]]
    ensures job.spec.key in row <==> job.spec.key in job.desired[i]
    ensures job.spec.key in row ==> row[job.spec.key] == job.desired[i][job.spec.key]
  {
    CreatedIds(job.desired, job.matched, job.news, |job.desired|, row);
    i :| 0 <= i < |job.desired| && job.matched[i] == "" && row == job.desired[i][ID_FIELD := job.news[i]];
  }

  /** A row that holds the key of a desired row makes that one matched. */
  lemma HeldIsMatched(job: Job, i: nat, row: Record)
    requires job.Valid() && job.spec.key != "" && KeysProper(job.spec, job.desired, job.current)
    requires i < |job.desired| && row in job.current && Recognises(job.spec, job.desired[i], row)
    ensures job.matched[i] != ""
  {
    assert job.desired[i] in job.desired;
    assert Open(job.spec, {}, row);
    if IdOf(row) in Claimed(job.matched[..i]) {
      var h :| 0 <= h < i && job.matched[..i][h] == IdOf(row);
      MatchesAreRows(job.spec, job.desired, job.current, job.matched, h);
      SameIdSameRow(job.current, row, RowOf(job.current, job.matched, h));
      assert false;
    } else {
      PickEligible(job.spec, job.desired[i], job.current, Claimed(job.matched[..i]));
    }
  }

  /** Proper keys stay proper through the writes. */
  lemma KeysStayUnique(job: Job)
    requires job.Valid() && job.spec.key != "" && KeysProper(job.spec, job.desired, job.current)
    ensures KeyUnique(job.spec, job.After())
  {
    hide Job.Valid, Job.Kept, Job.Made, Open;
    var key := job.spec.key;
    forall r, s | r in job.After() && s in job.After() && key in r && key in s && r[key] == s[key]
      ensures r == s
    {
      AfterParts(job, r);
      AfterParts(job, s);
      if r in job.Kept() && s in job.Kept() {
        var a := KeptKey(job, r);
        var b := KeptKey(job, s);
      } else if r in job.Kept() {
        KeptNotMade(job, r, s);
      } else if s in job.Kept() {
        KeptNotMade(job, s, r);
      } else {
        var i := MadeKey(job, r);
        var j := MadeKey(job, s);
      }
    }
  }

  lemma AfterParts(job: Job, row: Record)
    requires job.Valid() && row in job.After()
    ensures row in job.Kept() || row in job.Made()
  {
  }

  lemma KeptNotMade(job: Job, kept: Record, made: Record)
    requires job.Valid() && job.spec.key != "" && KeysProper(job.spec, job.desired, job.current)
    requires kept in job.Kept() && made in job.Made() && job.spec.key in kept && job.spec.key in made
    ensures kept[job.spec.key] != made[job.spec.key]
  {
    var was := KeptKey(job, kept);
    var i := MadeKey(job, made);
    if Recognises(job.spec, job.desired[i], was) {
      HeldIsMatched(job, i, was);
    }
  }

  // ---- The whole apply ----

  /** The second plan was refused as ambiguous, or held writes again. */
  predicate GaveUp(failure: Option<Failure>) {
    failure.Some? && (failure.value.ReplanRejected? || failure.value.NotConverged?)
  }

  /**
   When an ordered apply whose writes all went through gives up at the second
   plan: never when the first plan and reading foresaw that it would not, and,
   without a key or with proper ones, always when they did not.
   */
  lemma GivesUpExactly(spec: MenuSpec, desired: seq<Record>, approval: Approval, rows: seq<Record>, env: Env, p: Plan)
    requires UniqueIds(rows) && MakePlan(spec, desired, rows) == Planned(p) && Structural(spec, p)
    requires approval.Unchecked? || approval.accepts(p)
    requires At(env, 0).Done? && Run(NonMoves(p.steps), rows, env, 1).ok && At(env, 1 + |NonMoves(p.steps)|).Done?
    requires NamesNoNew(spec, rows, Run(NonMoves(p.steps), rows, env, 1).rows)
    ensures |p.matched| == |desired|
    ensures GaveUp(Apply(spec, desired, approval, rows, env).failure) ==> !Foreseen(spec, desired, rows, p.matched)
    ensures spec.key == "" || KeysProper(spec, desired, rows) ==>
      (GaveUp(Apply(spec, desired, approval, rows, env).failure) <==> !Foreseen(spec, desired, rows, p.matched))
  {
    hide Apply, Run, NonMoves, MakePlan, UniqueIds, Structural, KeysProper, NamesNoNew, Foreseen, GaveUp;
    PlannedFacts(spec, desired, rows, p);
    var job := MutationsDone(spec, desired, rows, p, env, 1);
    SecondPlanExactly(spec, desired, approval, rows, env, p, job);
    ForeseenIsReady(job);
    if Foreseen(spec, desired, rows, p.matched) {
      ReadyConverges(job);
    }
    if spec.key == "" || KeysProper(spec, desired, rows) {
      ProperDiscerning(job);
      StructuralPhaseExact(job);
    }
    hide *;
  }

  lemma ProperDiscerning(job: Job)
    requires job.Valid() && (job.spec.key == "" || KeysProper(job.spec, job.desired, job.current))
    ensures Discerning(job)
    ensures job.spec.key != ID_FIELD
  {
    if job.spec.key != "" {
      KeysStayUnique(job);
    }
  }

  /** It gives up exactly when the menu the writes leave still needs writes. */
  lemma SecondPlanExactly(spec: MenuSpec, desired: seq<Record>, approval: Approval, rows: seq<Record>, env: Env, p: Plan, job: Job)
    requires UniqueIds(rows) && MakePlan(spec, desired, rows) == Planned(p) && Structural(spec, p)
    requires approval.Unchecked? || approval.accepts(p)
    requires At(env, 0).Done? && Run(NonMoves(p.steps), rows, env, 1).ok && At(env, 1 + |NonMoves(p.steps)|).Done?
    requires job.Valid() && Run(NonMoves(p.steps), rows, env, 1).rows == job.After()
    ensures GaveUp(Apply(spec, desired, approval, rows, env).failure) <==> !Converged(spec, desired, job.After())
  {
    AfterUnique(job);
    PolicyChosen(spec, desired, rows);
    ReplanExact(spec, desired, job.After());
    hide *;
    ReachesSecondPlan(spec, desired, approval, rows, env, p);
    OrderGivesUp(spec, desired, NonMoves(p.steps), p.matched, job.After(), env, 1 + |NonMoves(p.steps)|);
  }

  lemma ReachesSecondPlan(spec: MenuSpec, desired: seq<Record>, approval: Approval, rows: seq<Record>, env: Env, p: Plan)
    requires MakePlan(spec, desired, rows) == Planned(p) && Structural(spec, p)
    requires approval.Unchecked? || approval.accepts(p)
    requires At(env, 0).Done? && Run(NonMoves(p.steps), rows, env, 1).ok
    ensures Apply(spec, desired, approval, rows, env)
      == ApplyOrder(spec, desired, NonMoves(p.steps), p.matched, Run(NonMoves(p.steps), rows, env, 1).rows, env, 1 + |NonMoves(p.steps)|)
  {
    hide MakePlan, Structural, Run, NonMoves, ApplyOrder;
  }

  lemma OrderGivesUp(spec: MenuSpec, desired: seq<Record>, mutations: seq<Step>, matched: seq<string>,
                     rows: seq<Record>, env: Env, t: nat)
    requires At(env, t).Done?
    ensures
      GaveUp(ApplyOrder(spec, desired, mutations, matched, rows, env, t).failure) <==>
        !(MakePlan(spec, desired, rows).Planned? && NonMoves(MakePlan(spec, desired, rows).plan.steps) == [])
  {
    hide MakePlan, Run, NonMoves;
  }

  lemma PolicyChosen(spec: MenuSpec, desired: seq<Record>, rows: seq<Record>)
    requires MakePlan(spec, desired, rows).Planned?
    ensures spec.unlisted != Unset && !(exists s | s in spec.ignore :: s == map[])
  {
  }

  /** The second plan is made, and of moves only, exactly on a converged menu. */
  lemma ReplanExact(spec: MenuSpec, desired: seq<Record>, rows: seq<Record>)
    requires UniqueIds(rows) && spec.unlisted != Unset && !(exists s | s in spec.ignore :: s == map[])
    ensures Converged(spec, desired, rows) <==>
      MakePlan(spec, desired, rows).Planned? && NonMoves(MakePlan(spec, desired, rows).plan.steps) == []
  {
    if MakePlan(spec, desired, rows).Planned? {
      PlannedFacts(spec, desired, rows, MakePlan(spec, desired, rows).plan);
    }
  }

  /** However an apply goes, it gives up only where its writes went through and the menu they left still needs writes. */
  lemma GaveUpUnready(spec: MenuSpec, desired: seq<Record>, approval: Approval, rows: seq<Record>, env: Env) returns (job: Job)
    requires UniqueIds(rows) && GaveUp(Apply(spec, desired, approval, rows, env).failure)
    ensures job.Valid() && job.spec == spec && job.desired == desired && job.current == rows && !job.Ready()
    ensures job.After() == Apply(spec, desired, approval, rows, env).rows
  {
    hide MakePlan, Run, UniqueIds, NonMoves, Job.Valid, Job.After, Job.Ready, Converged;
    var p := MakePlan(spec, desired, rows).plan;
    assert Structural(spec, p);
    job := MutationsDone(spec, desired, rows, p, env, 1);
    SecondPlanExactly(spec, desired, approval, rows, env, p, job);
    if job.Ready() {
      ReadyConverges(job);
    }
  }

  /** No desired row says all that another says. */
  predicate Antichain(desired: seq<Record>) {
    forall i, j | 0 <= i < j < |desired| :: !Subset(desired[i], desired[j])
  }

  lemma AntichainReady(job: Job)
    requires job.Valid() && job.spec.key == "" && Antichain(job.desired)
    requires forall want | want in job.desired :: !Ignored(job.spec, Content(want))
    requires NamesNoNew(job.spec, job.current, job.After())
    ensures job.Ready()
  {
    hide Ignored, Job.After, Job.Ready, Content, NamesNoNew, Subset, UniqueIds, Greedy;
    ForeseenIsReady(job);
    assert forall i | 0 <= i < |job.desired| :: job.desired[i] in job.desired;
  }

  /**
   Without a key: desired rows none of which says all a later one says, and none
   of which is ignored, never make an apply give up.
   */
  lemma AntichainGoesThrough(spec: MenuSpec, desired: seq<Record>, approval: Approval, rows: seq<Record>, env: Env)
    requires UniqueIds(rows) && spec.key == "" && Antichain(desired)
    requires forall want | want in desired :: !Ignored(spec, Content(want))
    requires NamesNoNew(spec, rows, Apply(spec, desired, approval, rows, env).rows)
    ensures !GaveUp(Apply(spec, desired, approval, rows, env).failure)
  {
    hide *;
    if GaveUp(Apply(spec, desired, approval, rows, env).failure) {
      var job := GaveUpUnready(spec, desired, approval, rows, env);
      AntichainReady(job);
    }
  }

  /** A desired row rules a selector out: they set some field differently. */
  predicate RulesOut(want: Record, selector: Record) {
    exists k :: k in selector && k in want && k != ID_FIELD && selector[k] != want[k]
  }

  lemma RuledOut(spec: MenuSpec, want: Record, row: Record)
    requires Subset(want, row) && forall s | s in spec.ignore :: RulesOut(want, s)
    ensures !Ignored(spec, row)
  {
    forall s | s in spec.ignore
      ensures !Contains(row, s)
    {
      var k :| k in s && k in want && k != ID_FIELD && s[k] != want[k];
      assert row[k] == want[k];
    }
  }

  lemma KeyedReady(job: Job)
    requires job.Valid() && job.spec.key != "" && job.spec.key != ID_FIELD
    requires forall want | want in job.desired :: job.spec.key in want
    requires forall want, s | want in job.desired && s in job.spec.ignore :: RulesOut(want, s)
    ensures job.Ready()
  {
    hide Job.Valid, Job.TargetRow, Ignored, Recognises, RulesOut, Subset;
    forall i | 0 <= i < |job.desired|
      ensures !Ignored(job.spec, job.TargetRow(i)) && Recognises(job.spec, job.desired[i], job.TargetRow(i))
    {
      assert job.desired[i] in job.desired;
      NewsSize(job);
      ExpectedRow(job, i);
      TargetRowFacts(job, i);
      RuledOut(job.spec, job.desired[i], job.TargetRow(i));
    }
  }

  /**
   With a key: desired rows that all carry it, and each of which rules out every
   ignore selector, never make an apply give up.
   */
  lemma KeyedGoesThrough(spec: MenuSpec, desired: seq<Record>, approval: Approval, rows: seq<Record>, env: Env)
    requires UniqueIds(rows) && spec.key != "" && spec.key != ID_FIELD
    requires forall want | want in desired :: spec.key in want
    requires forall want, s | want in desired && s in spec.ignore :: RulesOut(want, s)
    ensures !GaveUp(Apply(spec, desired, approval, rows, env).failure)
  {
    hide *;
    if GaveUp(Apply(spec, desired, approval, rows, env).failure) {
      var job := GaveUpUnready(spec, desired, approval, rows, env);
      KeyedReady(job);
    }
  }
}
