/**
 Whether a second apply finds anything left to do on a keyless ordered menu
 (rest/menu.go:172-189, 337-372, 430-446).
 */
module MenuConvergence {
  import opened Prelude
  import opened Records
  import opened MenuPlan
  import opened MenuMatching
  import opened MenuDevice
  import opened MenuOrdering
  import opened MenuStructure
  import opened MenuApply
  import opened MenuSoundness

  /** An unclaimed row that says exactly what a claimed row says, and could be claimed in its stead. */
  ghost predicate Twin(spec: MenuSpec, rows: seq<Record>, matched: seq<string>, row: Record) {
    && row in rows && Open(spec, Claimed(matched), row)
    && exists i | 0 <= i < |matched| :: SameContent(row, ByID(rows, matched[i]))
  }

  /** Such a row standing ahead of the row of the last desired one. */
  ghost predicate TwinAhead(spec: MenuSpec, rows: seq<Record>, matched: seq<string>)
    requires matched != []
  {
    exists row :: row in rows[..Ahead(rows, matched[|matched| - 1])] && Twin(spec, rows, matched, row)
  }

  /** A menu paired off completely: every desired row has its row. */
  ghost predicate Complete(spec: MenuSpec, desired: seq<Record>, rows: seq<Record>, matched: seq<string>) {
    && spec.key == "" && UniqueIds(rows)
    && |matched| == |desired| && Greedy(spec, desired, rows, matched)
    && Manageable(rows, matched)
  }

  lemma SameEligible(spec: MenuSpec, want: Record, a: seq<Record>, b: seq<Record>, claimed: set<string>)
    requires SameRows(a, b)
    ensures Clear(spec, want, a, claimed) ==> Clear(spec, want, b, claimed)
  {
    forall r | r in b
      ensures r in a
    {
      assert r in multiset(b);
    }
  }

  lemma ArrangedSame(rows: seq<Record>, want: seq<string>)
    requires UniqueIds(rows) && Manageable(rows, want) && want != [] && want[|want| - 1] in Ids(rows)
    ensures SameRows(Arranged(rows, want), rows) && UniqueIds(Arranged(rows, want))
  {
    hide UniqueIds, Manageable, SameRows, Arranged, Run, Pairwise;
    var env: Env := seq(|want|, _ => Done(""));
    assert forall u | 0 <= u < |want| :: At(env, u).Done?;
    WillingRun(rows, want, env, 0);
    PairwisePhase(rows, want, env, 0);
  }

  /** A router that does all it is asked arranges the menu. */
  lemma WillingRun(rows: seq<Record>, want: seq<string>, env: Env, t: nat)
    requires UniqueIds(rows) && Manageable(rows, want) && want != [] && want[|want| - 1] in Ids(rows)
    requires forall u | t <= u < t + |want| - 1 :: At(env, u).Done?
    ensures
      var run := Run(Pairwise(want, |want| - 1), rows, env, t);
      run.ok && run.rows == Arranged(rows, want)
  {
    hide UniqueIds, Manageable, SameRows, Arranged, Run, Ordering, Pairwise, Without, Ahead;
    LastSettled(rows, want);
    var k := Ahead(rows, want[|want| - 1]);
    var above, below := Without(rows[..k], Listed(want)), Without(rows[k + 1..], Listed(want));
    PairwiseSucceeds(rows, want, |want| - 1, above, below, env, t);
    PairwisePhase(rows, want, env, t);
  }

  /** With no twin ahead, a row of the part above the block is never eligible. */
  lemma NothingAbove(spec: MenuSpec, desired: seq<Record>, rows: seq<Record>, matched: seq<string>, i: nat, row: Record)
    requires Complete(spec, desired, rows, matched) && i < |matched|
    requires !TwinAhead(spec, rows, matched)
    requires row in rows[..Ahead(rows, matched[|matched| - 1])] && IdOf(row) !in Listed(matched)
    ensures !Eligible(spec, desired[i], Claimed(matched[..i]), row)
  {
    assert row in rows;
    if Eligible(spec, desired[i], Claimed(matched[..i]), row) {
      assert matched[i] in matched;
      MatchesAreRows(spec, desired, rows, matched, i);
      assert SameContent(row, ByID(rows, matched[i]));
      assert Twin(spec, rows, matched, row);
    }
  }

  /** The first eligible row of a menu, once found. */
  lemma PickFirst(spec: MenuSpec, want: Record, a: seq<Record>, x: Record, rest: seq<Record>, claimed: set<string>)
    requires (forall r | r in a :: !Eligible(spec, want, claimed, r)) && Eligible(spec, want, claimed, x)
    ensures Pick(spec, want, a + ([x] + rest), claimed) == IdOf(x)
  {
    hide Eligible;
    EligiblesNone(spec, want, a, claimed);
    PickConcat(spec, want, a, [x] + rest, claimed);
    assert ([x] + rest)[0] == x;
  }

  lemma ClaimedNotEligible(spec: MenuSpec, desired: seq<Record>, rows: seq<Record>, matched: seq<string>, i: nat, r: Record)
    requires Complete(spec, desired, rows, matched) && i < |matched| && r in Block(rows, matched)[..i]
    ensures !Eligible(spec, desired[i], Claimed(matched[..i]), r)
  {
    var h :| 0 <= h < i && Block(rows, matched)[..i][h] == r;
    assert matched[h] in matched;
    MatchesAreRows(spec, desired, rows, matched, h);
    assert matched[..i][h] == matched[h];
  }

  /** Of the block, the first row still open to the `i`-th desired row is its own. */
  lemma PickInBlock(spec: MenuSpec, desired: seq<Record>, rows: seq<Record>, matched: seq<string>, i: nat,
                    above: seq<Record>, below: seq<Record>)
    requires Complete(spec, desired, rows, matched) && i < |matched|
    requires forall r | r in above :: !Eligible(spec, desired[i], Claimed(matched[..i]), r)
    ensures Pick(spec, desired[i], above + Block(rows, matched) + below, Claimed(matched[..i])) == matched[i]
  {
    var block := Block(rows, matched);
    assert matched[i] in matched;
    MatchesAreRows(spec, desired, rows, matched, i);
    forall r | r in above + block[..i]
      ensures !Eligible(spec, desired[i], Claimed(matched[..i]), r)
    {
      if r in block[..i] {
        ClaimedNotEligible(spec, desired, rows, matched, i, r);
      }
    }
    hide Eligible, Complete, Pick;
    PickFirst(spec, desired[i], above + block[..i], block[i], block[i + 1..] + below, Claimed(matched[..i]));
    CutAt(above, block, below, i);
  }

  lemma CutAt<T>(above: seq<T>, block: seq<T>, below: seq<T>, i: nat)
    requires i < |block|
    ensures above + block + below == above + block[..i] + ([block[i]] + (block[i + 1..] + below))
  {
  }

  /** With no twin ahead, the arranged menu is paired exactly as before. */
  lemma ArrangedPairsAlike(spec: MenuSpec, desired: seq<Record>, rows: seq<Record>, matched: seq<string>)
    requires Complete(spec, desired, rows, matched) && matched != [] && matched[|matched| - 1] in Ids(rows)
    requires !TwinAhead(spec, rows, matched)
    ensures Greedy(spec, desired, Arranged(rows, matched), matched)
  {
    ArrangedSame(rows, matched);
    hide Complete, Pick, Clear, TwinAhead, Eligible, SameRows, UniqueIds;
    forall i | 0 <= i < |matched|
      ensures Clear(spec, desired[i], Arranged(rows, matched), Claimed(matched[..i]))
      ensures matched[i] == Pick(spec, desired[i], Arranged(rows, matched), Claimed(matched[..i]))
    {
      GreedyAt(spec, desired, rows, matched, i);
      SameEligible(spec, desired[i], rows, Arranged(rows, matched), Claimed(matched[..i]));
      ArrangedPick(spec, desired, rows, matched, i);
    }
  }

  lemma GreedyAt(spec: MenuSpec, desired: seq<Record>, rows: seq<Record>, matched: seq<string>, i: nat)
    requires Complete(spec, desired, rows, matched) && i < |matched|
    ensures i < |desired| && Clear(spec, desired[i], rows, Claimed(matched[..i]))
  {
  }

  lemma ArrangedPick(spec: MenuSpec, desired: seq<Record>, rows: seq<Record>, matched: seq<string>, i: nat)
    requires Complete(spec, desired, rows, matched) && i < |matched| == |desired| && matched[|matched| - 1] in Ids(rows)
    requires !TwinAhead(spec, rows, matched)
    ensures matched[i] == Pick(spec, desired[i], Arranged(rows, matched), Claimed(matched[..i]))
  {
    hide Complete, Pick, TwinAhead, Eligible, Ahead, Listed;
    var k := Ahead(rows, matched[|matched| - 1]);
    AheadHits(rows, matched[|matched| - 1]);
    var above, below := Without(rows[..k], Listed(matched)), Without(rows[k + 1..], Listed(matched));
    forall r | r in above
      ensures !Eligible(spec, desired[i], Claimed(matched[..i]), r)
    {
      NothingAbove(spec, desired, rows, matched, i, r);
    }
    PickInBlock(spec, desired, rows, matched, i, above, below);
  }

  /** A twin ahead takes over: the arranged menu is no longer paired as before. */
  lemma TwinTakesOver(spec: MenuSpec, desired: seq<Record>, rows: seq<Record>, matched: seq<string>)
    requires Complete(spec, desired, rows, matched) && matched != [] && matched[|matched| - 1] in Ids(rows)
    requires TwinAhead(spec, rows, matched)
    ensures !Greedy(spec, desired, Arranged(rows, matched), matched)
  {
    hide Pick, Without, Block, Ahead, Complete, Twin, Eligible, Listed;
    var k := Ahead(rows, matched[|matched| - 1]);
    var row :| row in rows[..k] && Twin(spec, rows, matched, row);
    var i := TwinEligible(spec, desired, rows, matched, row);
    ArrangedNotPicked(spec, desired[i], rows, matched, i, Claimed(matched[..i]), row);
  }

  lemma ArrangedNotPicked(spec: MenuSpec, want: Record, rows: seq<Record>, matched: seq<string>, i: nat,
                          claimed: set<string>, row: Record)
    requires i < |matched| && matched[|matched| - 1] in Ids(rows)
    requires row in rows[..Ahead(rows, matched[|matched| - 1])] && Eligible(spec, want, claimed, row)
    requires IdOf(row) !in Listed(matched)
    ensures Pick(spec, want, Arranged(rows, matched), claimed) != matched[i]
  {
    hide Pick, Eligible, Ahead, Block;
    var k := Ahead(rows, matched[|matched| - 1]);
    AheadHits(rows, matched[|matched| - 1]);
    var above, block, below := Without(rows[..k], Listed(matched)), Block(rows, matched), Without(rows[k + 1..], Listed(matched));
    assert row in above;
    assert matched[i] in Listed(matched);
    assert forall r | r in above :: IdOf(r) !in Listed(matched);
    PickAbove(spec, want, above, block + below, claimed, row);
    Assoc(above, block, below);
  }

  lemma Assoc<T>(a: seq<T>, b: seq<T>, c: seq<T>)
    ensures a + b + c == a + (b + c)
  {
  }

  lemma TwinEligible(spec: MenuSpec, desired: seq<Record>, rows: seq<Record>, matched: seq<string>, row: Record)
    returns (i: nat)
    requires Complete(spec, desired, rows, matched) && Twin(spec, rows, matched, row)
    ensures i < |matched| == |desired| && Eligible(spec, desired[i], Claimed(matched[..i]), row)
    ensures IdOf(row) !in Listed(matched)
  {
    i :| 0 <= i < |matched| && SameContent(row, ByID(rows, matched[i]));
    assert matched[i] in matched;
    MatchesAreRows(spec, desired, rows, matched, i);
    SubsetSeesContent(desired[i], row, ByID(rows, matched[i]));
    assert forall id | id in Claimed(matched[..i]) :: id in Claimed(matched);
  }

  /** An eligible row in the upper part keeps the choice in the upper part. */
  lemma PickAbove(spec: MenuSpec, want: Record, above: seq<Record>, rest: seq<Record>, claimed: set<string>, row: Record)
    requires row in above && Eligible(spec, want, claimed, row)
    ensures exists r | r in above :: IdOf(r) == Pick(spec, want, above + rest, claimed)
  {
    PickConcat(spec, want, above, rest, claimed);
    var e := Eligibles(spec, want, above, claimed);
    assert row in e;
    assert e[0] in e;
  }

  /**
   Exactly when reordering keeps the pairing: when no twin stands ahead of the
   row of the last desired one.
   */
  lemma PairingStableExact(spec: MenuSpec, desired: seq<Record>, rows: seq<Record>, matched: seq<string>)
    requires Complete(spec, desired, rows, matched) && matched != [] && matched[|matched| - 1] in Ids(rows)
    ensures Greedy(spec, desired, Arranged(rows, matched), matched) <==> !TwinAhead(spec, rows, matched)
  {
    if TwinAhead(spec, rows, matched) {
      TwinTakesOver(spec, desired, rows, matched);
    } else {
      ArrangedPairsAlike(spec, desired, rows, matched);
    }
  }

  /** A conforming menu in order, paired with the same rows, needs no step at all. */
  lemma InOrderEmpty(spec: MenuSpec, desired: seq<Record>, rows: seq<Record>, matched: seq<string>)
    requires spec.key == "" && spec.unlisted != Unset && !(exists s | s in spec.ignore :: s == map[])
    requires UniqueIds(rows) && |matched| == |desired| && Greedy(spec, desired, rows, matched)
    requires Conforms(spec, desired, rows, matched) && Have(rows, Listed(matched)) == matched
    ensures MakePlan(spec, desired, rows) == Planned(Plan([], matched))
  {
    hide Greedy, UniqueIds, Resolve, Subset, Have, Prunes, Writes, Wanted;
    GreedyIsResolve(spec, desired, rows, matched);
    assert forall i | 0 <= i < |matched| :: matched[i] in matched;
    NoWrites(spec, desired, rows, matched, |desired|);
    WantedAll(matched);
    WantedListed(matched);
    if spec.unlisted == Prune {
      NoPrunes(spec, rows, Claimed(matched));
    }
    assert Mutations(spec, desired, rows, matched) == [];
    assert Reorder(rows, matched) == [];
  }

  // ---- A whole apply ----

  /** A plan of moves only, on a keyless ordered menu. */
  ghost predicate MovesOnly(spec: MenuSpec, desired: seq<Record>, rows: seq<Record>, q: Plan) {
    && spec.key == "" && spec.ordered && UniqueIds(rows)
    && MakePlan(spec, desired, rows) == Planned(q) && NonMoves(q.steps) == []
  }

  lemma MovesOnlyFacts(spec: MenuSpec, desired: seq<Record>, rows: seq<Record>, q: Plan)
    requires MovesOnly(spec, desired, rows, q)
    ensures q.steps == Reorder(rows, q.matched) && Wanted(q.matched) == q.matched
    ensures Conforms(spec, desired, rows, q.matched) && Complete(spec, desired, rows, q.matched)
    ensures spec.unlisted != Unset && !(exists s | s in spec.ignore :: s == map[])
    ensures q.steps != [] ==> q.matched != [] && q.matched[|q.matched| - 1] in Ids(rows)
  {
    PlannedFacts(spec, desired, rows, q);
    OnlyMovesConforms(spec, desired, rows, q);
    WantedAll(q.matched);
    assert q.matched != [] ==> q.matched[|q.matched| - 1] in q.matched;
  }

  /**
   After the moves of such a plan, a fresh plan pairs every row as before and is
   empty, if and only if nothing was moved or no twin stood ahead of the anchor.
   */
  lemma MovesSettleExact(spec: MenuSpec, desired: seq<Record>, rows: seq<Record>, q: Plan, env: Env, t: nat)
    requires MovesOnly(spec, desired, rows, q) && Run(q.steps, rows, env, t).ok
    ensures q.steps != [] ==> q.matched != []
    ensures MakePlan(spec, desired, Run(q.steps, rows, env, t).rows) == Planned(Plan([], q.matched))
      <==> (q.steps == [] || !TwinAhead(spec, rows, q.matched))
  {
    MovesOnlyFacts(spec, desired, rows, q);
    var after := Run(q.steps, rows, env, t).rows;
    if q.steps != [] {
      hide UniqueIds, Greedy, Conforms, Have, Reorder, Arranged, TwinAhead, MakePlan, Run;
      OrderingPhase(rows, q.matched, env, t);
      ConformsOrdered(spec, desired, rows, q.matched, env, t);
      PairingStableExact(spec, desired, rows, q.matched);
      if Greedy(spec, desired, after, q.matched) {
        InOrderEmpty(spec, desired, after, q.matched);
      }
      if MakePlan(spec, desired, after) == Planned(Plan([], q.matched)) {
        PlannedFacts(spec, desired, after, Plan([], q.matched));
      }
    }
  }

  /** Being a twin is a fact about the rows, not about their order. */
  lemma TwinSame(spec: MenuSpec, a: seq<Record>, b: seq<Record>, matched: seq<string>, row: Record)
    requires UniqueIds(a) && UniqueIds(b) && SameRows(a, b) && Manageable(a, matched)
    requires Twin(spec, a, matched, row)
    ensures Twin(spec, b, matched, row)
  {
    assert row in multiset(a);
    var i :| 0 <= i < |matched| && SameContent(row, ByID(a, matched[i]));
    assert matched[i] in matched;
    ByIDMember(a, matched[i]);
    assert ByID(a, matched[i]) in multiset(a);
    ByIDFinds(b, ByID(a, matched[i]));
  }

  /** No twin anywhere in the final menu means none ahead before the moves; prune leaves none at all. */
  lemma NoTwinAhead(spec: MenuSpec, desired: seq<Record>, rows: seq<Record>, q: Plan, env: Env, t: nat)
    requires MovesOnly(spec, desired, rows, q) && q.steps != []
    requires
      var after := Run(q.steps, rows, env, t).rows;
      spec.unlisted == Prune || forall r | r in after :: !Twin(spec, after, q.matched, r)
    ensures q.matched != [] && !TwinAhead(spec, rows, q.matched)
  {
    MovesOnlyFacts(spec, desired, rows, q);
    OrderingPhase(rows, q.matched, env, t);
    var after := Run(q.steps, rows, env, t).rows;
    forall row | row in rows
      ensures !Twin(spec, rows, q.matched, row)
    {
      assert row in multiset(rows) && row in multiset(after);
      if Twin(spec, rows, q.matched, row) {
        TwinSame(spec, rows, after, q.matched, row);
      }
    }
  }

  lemma {:induction false} KeylessWrites(spec: MenuSpec, desired: seq<Record>, rows: seq<Record>, matched: seq<string>, n: nat)
    requires n <= |desired| == |matched| && spec.key == ""
    ensures forall s | s in Writes(spec, desired, rows, matched, n) :: s.Create?
  {
    if n > 0 {
      KeylessWrites(spec, desired, rows, matched, n - 1);
    }
  }

  /** Without structural steps, a plan of a keyless ordered menu is moves only. */
  lemma PlainMovesOnly(spec: MenuSpec, desired: seq<Record>, rows: seq<Record>, p: Plan)
    requires spec.key == "" && spec.ordered && UniqueIds(rows)
    requires MakePlan(spec, desired, rows) == Planned(p) && !Structural(spec, p)
    ensures MovesOnly(spec, desired, rows, p)
  {
    PlannedFacts(spec, desired, rows, p);
    KeylessWrites(spec, desired, rows, p.matched, |desired|);
    PrunesShape(spec, rows, Claimed(p.matched));
    var mutations := Mutations(spec, desired, rows, p.matched);
    assert forall s | s in mutations :: s.Create? || s.Delete?;
    assert forall s | s in mutations :: s in p.steps;
    FirstIsMember(mutations);
  }

  /** The menu the moves of an apply start from: after the writes, where there are rows to make or remove. */
  function BeforeMoves(spec: MenuSpec, desired: seq<Record>, rows: seq<Record>, env: Env): seq<Record> {
    match MakePlan(spec, desired, rows)
    case Rejected(_) => rows
    case Planned(p) => if Structural(spec, p) then Run(NonMoves(p.steps), rows, env, 1).rows else rows
  }

  /** A successful apply of a keyless ordered menu ends with the moves of a plan of `BeforeMoves`, from exchange `t` on. */
  lemma EndsWithMoves(spec: MenuSpec, desired: seq<Record>, approval: Approval, rows: seq<Record>, env: Env)
    returns (q: Plan, t: nat)
    requires UniqueIds(rows) && spec.key == "" && spec.ordered
    requires Apply(spec, desired, approval, rows, env).failure.None?
    ensures
      var out, before := Apply(spec, desired, approval, rows, env), BeforeMoves(spec, desired, rows, env);
      && MovesOnly(spec, desired, before, q) && Run(q.steps, before, env, t).ok
      && out.rows == Run(q.steps, before, env, t).rows && out.plan.matched == q.matched
  {
    hide UniqueIds, Run, MakePlan, Structural, NonMoves, Job.Valid, Job.After;
    var p := MakePlan(spec, desired, rows).plan;
    if Structural(spec, p) {
      var job := MutationsDone(spec, desired, rows, p, env, 1);
      AfterUnique(job);
      q, t := MakePlan(spec, desired, job.After()).plan, 2 + |NonMoves(p.steps)|;
    } else {
      PlainMovesOnly(spec, desired, rows, p);
      q, t := p, 1;
    }
  }

  /**
   Convergence: after a successful apply of a keyless ordered menu, a fresh plan
   is empty and pairs every desired row as reported if and only if nothing had to
   be moved or no twin stood ahead of the row of the last desired one.
   */
  lemma ApplyConvergesExact(spec: MenuSpec, desired: seq<Record>, approval: Approval, rows: seq<Record>, env: Env)
    requires UniqueIds(rows) && spec.key == "" && spec.ordered
    requires Apply(spec, desired, approval, rows, env).failure.None?
    ensures MakePlan(spec, desired, BeforeMoves(spec, desired, rows, env)).Planned?
    ensures
      var before := BeforeMoves(spec, desired, rows, env);
      var q := MakePlan(spec, desired, before).plan;
      q.steps != [] ==> q.matched != []
    ensures
      var out, before := Apply(spec, desired, approval, rows, env), BeforeMoves(spec, desired, rows, env);
      var q := MakePlan(spec, desired, before).plan;
      MakePlan(spec, desired, out.rows) == Planned(Plan([], out.plan.matched))
      <==> (q.steps == [] || !TwinAhead(spec, before, q.matched))
  {
    var q, t := EndsWithMoves(spec, desired, approval, rows, env);
    hide Apply, BeforeMoves, TwinAhead;
    MovesSettleExact(spec, desired, BeforeMoves(spec, desired, rows, env), q, env, t);
    hide *;
  }

  /**
   So the plan is always empty under prune, and under tolerate when no row left
   over is a twin of a managed one.
   */
  lemma ApplyConverges(spec: MenuSpec, desired: seq<Record>, approval: Approval, rows: seq<Record>, env: Env)
    requires UniqueIds(rows) && spec.key == "" && spec.ordered
    requires Apply(spec, desired, approval, rows, env).failure.None?
    requires
      var out := Apply(spec, desired, approval, rows, env);
      spec.unlisted == Prune || forall r | r in out.rows :: !Twin(spec, out.rows, out.plan.matched, r)
    ensures
      var out := Apply(spec, desired, approval, rows, env);
      MakePlan(spec, desired, out.rows) == Planned(Plan([], out.plan.matched))
  {
    hide Apply, BeforeMoves, Twin, TwinAhead, Run, UniqueIds;
    var q, t := EndsWithMoves(spec, desired, approval, rows, env);
    ApplyConvergesExact(spec, desired, approval, rows, env);
    if q.steps != [] {
      NoTwinAhead(spec, desired, BeforeMoves(spec, desired, rows, env), q, env, t);
    }
  }
}
