/**
 Ordered applies that give up, and what every later apply then does
 (rest/menu.go:430-438).
 */
module MenuStandoffs {
  import opened Prelude
  import opened Records
  import opened MenuPlan
  import opened MenuMatching
  import opened MenuDevice
  import opened MenuMutation
  import opened MenuStructure
  import opened MenuApply
  import opened MenuSoundness
  import opened MenuForesight

  /** One more apply of the same desired rows: who is asked, and what the router answers. */
  datatype Attempt = Attempt(approval: Approval, env: Env)

  /** The menu after some applies, whether they succeed or not. */
  function Attempts(spec: MenuSpec, desired: seq<Record>, rows: seq<Record>, more: seq<Attempt>): seq<Record>
    decreases |more|
  {
    if more == [] then rows
    else Attempts(spec, desired, Apply(spec, desired, more[0].approval, rows, more[0].env).rows, more[1..])
  }

  // ---- An ambiguous second plan ----

  lemma RefusedOnce(spec: MenuSpec, desired: seq<Record>, rows: seq<Record>, e: PlanError, one: Attempt)
    requires MakePlan(spec, desired, rows) == Rejected(e)
    ensures
      var out := Apply(spec, desired, one.approval, rows, one.env);
      out.rows == rows && out.log == [] && out.failure in {Some(ListFailed), Some(PlanRejected(e))}
  {
  }

  /**
   An apply whose second plan is refused has made its writes, and no later apply
   of the same rows ever does anything: each is refused before it asks or writes.
   */
  lemma RefusedForGood(spec: MenuSpec, desired: seq<Record>, approval: Approval, rows: seq<Record>, env: Env,
                       more: seq<Attempt>, last: Attempt)
    requires Apply(spec, desired, approval, rows, env).failure.Some?
    requires Apply(spec, desired, approval, rows, env).failure.value.ReplanRejected?
    ensures
      var first := Apply(spec, desired, approval, rows, env);
      var stuck := Attempts(spec, desired, first.rows, more);
      var out := Apply(spec, desired, last.approval, stuck, last.env);
      && stuck == first.rows && out.rows == stuck && out.log == []
      && out.failure in {Some(ListFailed), Some(PlanRejected(first.failure.value.error))}
  {
    var first := Apply(spec, desired, approval, rows, env);
    var e := first.failure.value.error;
    ReplanStuck(spec, desired, approval, rows, env);
    hide Apply, MakePlan;
    StuckAll(spec, desired, first.rows, e, more);
    RefusedOnce(spec, desired, first.rows, e, last);
  }

  lemma ReplanStuck(spec: MenuSpec, desired: seq<Record>, approval: Approval, rows: seq<Record>, env: Env)
    requires Apply(spec, desired, approval, rows, env).failure.Some?
    requires Apply(spec, desired, approval, rows, env).failure.value.ReplanRejected?
    ensures
      var out := Apply(spec, desired, approval, rows, env);
      MakePlan(spec, desired, out.rows) == Rejected(out.failure.value.error)
  {
    hide MakePlan, Run, Structural, NonMoves;
  }

  lemma {:induction false} StuckAll(spec: MenuSpec, desired: seq<Record>, rows: seq<Record>, e: PlanError, more: seq<Attempt>)
    requires MakePlan(spec, desired, rows) == Rejected(e)
    ensures Attempts(spec, desired, rows, more) == rows
    decreases |more|
  {
    hide MakePlan, Apply;
    if more != [] {
      RefusedOnce(spec, desired, rows, e, more[0]);
      StuckAll(spec, desired, rows, e, more[1..]);
    }
  }

  const ORDERED := MenuSpec(true, Tolerate, "", [])

  const LESS: Record := map["a" := "1"]
  const MORE: Record := map["a" := "1", "b" := "2"]

  function Overlap(): seq<Record> { [LESS, MORE] }

  function Made(x: string, y: string): seq<Record> { [LESS[ID_FIELD := x], MORE[ID_FIELD := y]] }

  lemma OverlapFacts(x: string, y: string)
    requires x != "" && y != ""
    ensures IdOf(Made(x, y)[0]) == x && IdOf(Made(x, y)[1]) == y
    ensures Eligible(ORDERED, LESS, {}, Made(x, y)[0]) && Eligible(ORDERED, LESS, {}, Made(x, y)[1])
    ensures !SameContent(Made(x, y)[0], Made(x, y)[1])
  {
    assert "b" in Content(Made(x, y)[1]) && "b" !in Content(Made(x, y)[0]);
  }

  /** Two desired rows, one saying all the other says: on an empty menu both are to be made. */
  lemma OverlapPlan()
    ensures MakePlan(ORDERED, Overlap(), []) == Planned(Plan([Create(LESS), Create(MORE)], ["", ""]))
  {
    var desired := Overlap();
    hide LESS, MORE;
    assert Resolve(ORDERED, desired, [], 0) == Paired([]);
    assert Resolve(ORDERED, desired, [], 1) == Paired([""]);
    assert Resolve(ORDERED, desired, [], 2) == Paired(["", ""]);
    assert Writes(ORDERED, desired, [], ["", ""], 1) == [Create(LESS)];
    assert Writes(ORDERED, desired, [], ["", ""], 2) == [Create(LESS), Create(MORE)];
    assert Wanted(["", ""]) == [];
  }

  /** And once both are there, the first could be either. */
  lemma OverlapAmbiguous(x: string, y: string)
    requires x != "" && y != "" && x != y
    ensures MakePlan(ORDERED, Overlap(), Made(x, y)) == Rejected(AmbiguousRow(0, [x, y]))
  {
    var rows, desired := Made(x, y), Overlap();
    OverlapFacts(x, y);
    hide LESS, MORE, Eligible, Content, IdOf;
    assert Eligibles(ORDERED, LESS, [rows[1]], {}) == [rows[1]];
    assert rows[1..] == [rows[1]];
    assert Eligibles(ORDERED, LESS, rows, {}) == rows;
    assert Ids(rows) == [x, y];
    assert ByID(rows, x) == rows[0] && ByID(rows, y) == rows[1];
    assert Claimed([]) == {};
    assert Resolve(ORDERED, desired, rows, 0) == Paired([]);
    assert !Indistinguishable(rows, [x, y]);
    assert Resolve(ORDERED, desired, rows, 1) == Conflict(0, [x, y]);
    assert Resolve(ORDERED, desired, rows, 2) == Conflict(0, [x, y]);
  }

  /**
   So an apply that makes both, every exchange answered, leaves both there and
   gives up, though nothing was on the menu that anybody else had put there.
   */
  lemma OverlapGivesUp(x: string, y: string)
    requires x != "" && y != "" && x != y
    ensures
      var out := Apply(ORDERED, Overlap(), Unchecked, [], [Done(""), Done(x), Done(y), Done("")]);
      out.rows == Made(x, y) && out.failure == Some(ReplanRejected(AmbiguousRow(0, [x, y])))
    ensures !Foreseen(ORDERED, Overlap(), [], ["", ""])
  {
    hide LESS, MORE, Overlap, MakePlan, Run, Foreseen, Made;
    var env: Env := [Done(""), Done(x), Done(y), Done("")];
    var steps := [Create(LESS), Create(MORE)];
    OverlapPlan();
    OverlapAmbiguous(x, y);
    OverlapRun(x, y, env);
    OverlapUnforeseen();
    NonMovesAll(steps);
    assert Create(LESS) in steps;
  }

  lemma OverlapUnforeseen()
    ensures !Foreseen(ORDERED, Overlap(), [], ["", ""])
  {
    assert "b" in Content(Overlap()[1]) && "b" !in Content(Content(Overlap()[0]));
    assert Subset(Overlap()[0], Overlap()[1]);
  }

  lemma OverlapRun(x: string, y: string, env: Env)
    requires x != "" && y != "" && x != y && |env| == 4 && env[1] == Done(x) && env[2] == Done(y)
    ensures Run([Create(LESS), Create(MORE)], [], env, 1) == Trail(Made(x, y), 2, true)
  {
    OverlapFacts(x, y);
    var one := [LESS[ID_FIELD := x]];
    hide LESS, MORE, IdOf;
    assert Ids(one) == [x];
    RunCons([Create(LESS), Create(MORE)], [Create(MORE)], [], env, 1);
    assert [] + one == one;
    RunSingle(Create(MORE), one, env, 2);
    assert one + [MORE[ID_FIELD := y]] == Made(x, y);
  }

  // ---- A desired row that is ignored ----

  /** How many rows hold all that `want` sets. */
  function Holding(rows: seq<Record>, want: Record): nat {
    if rows == [] then 0 else (if Subset(want, rows[0]) then 1 else 0) + Holding(rows[1..], want)
  }

  lemma {:induction false} HoldingConcat(a: seq<Record>, b: seq<Record>, want: Record)
    ensures Holding(a + b, want) == Holding(a, want) + Holding(b, want)
  {
    hide Subset;
    if a == [] {
      assert a + b == b;
    } else {
      assert (a + b)[1..] == a[1..] + b;
      HoldingConcat(a[1..], b, want);
    }
  }

  lemma {:induction false} HoldingWithout(rows: seq<Record>, ids: set<string>, want: Record)
    requires forall r | r in rows && Subset(want, r) :: IdOf(r) !in ids
    ensures Holding(Without(rows, ids), want) == Holding(rows, want)
  {
    hide Subset;
    if rows != [] {
      HoldingWithout(rows[1..], ids, want);
      if IdOf(rows[0]) !in ids {
        assert Without(rows, ids)[1..] == Without(rows[1..], ids);
      }
    }
  }

  lemma {:induction false} HoldingMember(rows: seq<Record>, want: Record, row: Record)
    requires row in rows && Subset(want, row)
    ensures Holding(rows, want) > 0
  {
    if rows[0] != row {
      HoldingMember(rows[1..], want, row);
    }
  }

  /** What an ignored desired row says is ignored wherever it is said. */
  lemma SaidIgnored(spec: MenuSpec, want: Record, row: Record)
    requires Ignored(spec, Content(want)) && Subset(want, row)
    ensures Ignored(spec, row)
  {
    var s :| s in spec.ignore && Contains(Content(want), s);
    forall k | k in s
      ensures k in row && row[k] == s[k]
    {
      assert k in Content(want) && Content(want)[k] == want[k];
    }
    assert Contains(row, s);
  }

  /** Without a key, an ignored desired row never finds a row: every plan makes it anew. */
  lemma IgnoredUnmatched(job: Job, i: nat)
    requires job.Valid() && job.spec.key == "" && i < |job.desired| && Ignored(job.spec, Content(job.desired[i]))
    ensures job.matched[i] == ""
  {
    if job.matched[i] != "" {
      TargetRowFacts(job, i);
      SaidIgnored(job.spec, job.desired[i], ByID(job.current, job.matched[i]));
    }
  }

  /** The writes of such a plan leave one more row that says what it says. */
  lemma IgnoredMade(job: Job, i: nat)
    requires job.Valid() && job.spec.key == "" && i < |job.desired| && Ignored(job.spec, Content(job.desired[i]))
    ensures Holding(job.After(), job.desired[i]) > Holding(job.current, job.desired[i])
    ensures !job.Ready()
  {
    var want, n := job.desired[i], |job.desired|;
    IgnoredUnmatched(job, i);
    TargetRowFacts(job, i);
    SaidIgnored(job.spec, want, job.TargetRow(i));
    KeptSame(job);
    var gone := Pruned(job.spec, job.current, Claimed(job.matched));
    forall r | r in job.current && Subset(want, r)
      ensures IdOf(r) !in gone
    {
      SaidIgnored(job.spec, want, r);
      if q :| q in job.current && Open(job.spec, Claimed(job.matched), q) && IdOf(q) == IdOf(r) {
        SameIdSameRow(job.current, q, r);
      }
    }
    HoldingWithout(job.current, gone, want);
    CreatedHas(job.desired, job.matched, job.news, n, i);
    HoldingMember(job.Made(), want, job.TargetRow(i));
    HoldingConcat(job.Kept(), job.Made(), want);
  }

  /** Without a key the writes change no row that was there. */
  lemma KeptSame(job: Job)
    requires job.Valid() && job.spec.key == ""
    ensures job.Kept() == Without(job.current, Pruned(job.spec, job.current, Claimed(job.matched)))
  {
    var all := Revised(job.spec, job.desired, job.matched, |job.desired|, job.current);
    forall k | 0 <= k < |all|
      ensures all[k] == job.current[k]
    {
      ReviseUntouched(job.spec, job.desired, job.matched, |job.desired|, job.current[k]);
    }
    assert all == job.current;
  }

  /** The plan is made and agreed to, and its writes are answered. */
  predicate GoesThrough(spec: MenuSpec, desired: seq<Record>, rows: seq<Record>, one: Attempt) {
    match MakePlan(spec, desired, rows)
    case Rejected(_) => false
    case Planned(p) =>
      && (one.approval.Unchecked? || one.approval.accepts(p))
      && At(one.env, 0).Done? && Run(NonMoves(p.steps), rows, one.env, 1).ok
  }

  predicate AllGoThrough(spec: MenuSpec, desired: seq<Record>, rows: seq<Record>, more: seq<Attempt>)
    decreases |more|
  {
    more == [] || (
      && GoesThrough(spec, desired, rows, more[0])
      && AllGoThrough(spec, desired, Apply(spec, desired, more[0].approval, rows, more[0].env).rows, more[1..]))
  }

  /** A plan that makes a row of an ordered menu takes the structural path. */
  lemma IgnoredStructural(spec: MenuSpec, desired: seq<Record>, rows: seq<Record>, p: Plan, i: nat)
    requires UniqueIds(rows) && MakePlan(spec, desired, rows) == Planned(p) && spec.ordered
    requires i < |desired| == |p.matched| && p.matched[i] == ""
    ensures Structural(spec, p)
  {
    PlannedFacts(spec, desired, rows, p);
    WritesCreate(spec, desired, rows, p.matched, |desired|, i);
    assert Create(desired[i]) in p.steps;
  }

  lemma UnorderedRows(spec: MenuSpec, desired: seq<Record>, rows: seq<Record>, p: Plan, one: Attempt)
    requires UniqueIds(rows) && MakePlan(spec, desired, rows) == Planned(p) && !spec.ordered
    requires GoesThrough(spec, desired, rows, one)
    ensures
      var out := Apply(spec, desired, one.approval, rows, one.env);
      out.rows == Run(NonMoves(p.steps), rows, one.env, 1).rows && out.failure.None?
  {
    hide MakePlan, Run, NonMoves, UniqueIds, Resolve, Greedy, Mutations;
    PlannedFacts(spec, desired, rows, p);
    assert p.steps == NonMoves(p.steps);
  }

  lemma OrderedRows(spec: MenuSpec, desired: seq<Record>, rows: seq<Record>, p: Plan, one: Attempt)
    requires MakePlan(spec, desired, rows) == Planned(p) && Structural(spec, p) && GoesThrough(spec, desired, rows, one)
    ensures
      var out, after := Apply(spec, desired, one.approval, rows, one.env), Run(NonMoves(p.steps), rows, one.env, 1).rows;
      if MakePlan(spec, desired, after).Planned? && NonMoves(MakePlan(spec, desired, after).plan.steps) == [] then true
      else out.rows == after && out.failure.Some?
  {
    ReachesSecondPlan(spec, desired, one.approval, rows, one.env, p);
    hide MakePlan, Run, NonMoves;
  }

  /**
   An apply with an ignored desired row, once its writes went through, has left one
   more row saying what that one says, and where order matters it has failed.
   */
  lemma IgnoredGrows(spec: MenuSpec, desired: seq<Record>, rows: seq<Record>, one: Attempt, i: nat)
    requires UniqueIds(rows) && spec.key == "" && i < |desired| && Ignored(spec, Content(desired[i]))
    requires GoesThrough(spec, desired, rows, one)
    ensures
      var out := Apply(spec, desired, one.approval, rows, one.env);
      && UniqueIds(out.rows) && Holding(out.rows, desired[i]) > Holding(rows, desired[i])
      && (out.failure.Some? <==> spec.ordered)
  {
    var p := MakePlan(spec, desired, rows).plan;
    var job := MutationsDone(spec, desired, rows, p, one.env, 1);
    AfterUnique(job);
    IgnoredUnmatched(job, i);
    IgnoredMade(job, i);
    NewsSize(job);
    if spec.ordered {
      IgnoredStructural(spec, desired, rows, p, i);
      OrderedRows(spec, desired, rows, p, one);
      PolicyChosen(spec, desired, rows);
      ReplanExact(spec, desired, job.After());
      assert Discerning(job);
      StructuralPhaseExact(job);
    } else {
      UnorderedRows(spec, desired, rows, p, one);
    }
    hide *;
  }

  /** So the menu never stops growing: after any number of such applies there are that many more. */
  lemma {:induction false} NeverEnough(spec: MenuSpec, desired: seq<Record>, rows: seq<Record>, more: seq<Attempt>, i: nat)
    requires UniqueIds(rows) && spec.key == "" && i < |desired| && Ignored(spec, Content(desired[i]))
    requires AllGoThrough(spec, desired, rows, more)
    ensures Holding(Attempts(spec, desired, rows, more), desired[i]) >= Holding(rows, desired[i]) + |more|
    decreases |more|
  {
    hide UniqueIds, Apply, GoesThrough, Holding, Ignored;
    if more != [] {
      IgnoredGrows(spec, desired, rows, more[0], i);
      NeverEnough(spec, desired, Apply(spec, desired, more[0].approval, rows, more[0].env).rows, more[1..], i);
    }
  }

  // ---- A row that an update makes ignored ----

  const KEYED := MenuSpec(true, Tolerate, "name", [map["c" := "1", "d" := "2"]])

  function Half(id: string): Record { map[ID_FIELD := id, "name" := "x", "d" := "2"] }

  const OTHER_HALF: Record := map["name" := "x", "c" := "1"]
  const UNRELATED: Record := map["name" := "y"]
  const REST_OF_IT: Record := map["c" := "1"]

  function Halves(): seq<Record> { [OTHER_HALF, UNRELATED] }

  lemma HalfFacts(id: string)
    requires id != ""
    ensures IdOf(Half(id)) == id
    ensures !Ignored(KEYED, Half(id)) && !Ignored(KEYED, Content(OTHER_HALF)) && !Ignored(KEYED, Content(UNRELATED))
    ensures Recognises(KEYED, OTHER_HALF, Half(id)) && !Recognises(KEYED, UNRELATED, Half(id))
    ensures Changes(OTHER_HALF, Half(id)) == REST_OF_IT && REST_OF_IT != map[]
    ensures Ignored(KEYED, Half(id) + REST_OF_IT)
  {
    var s := KEYED.ignore[0];
    assert "c" in s && "d" in s && s in KEYED.ignore;
    assert forall t | t in KEYED.ignore :: t == s;
    assert "c" !in Half(id) && "d" !in Content(OTHER_HALF) && "c" !in Content(UNRELATED);
    assert Contains(Half(id) + REST_OF_IT, s);
    assert ID_FIELD != "name" && ID_FIELD != "c" && ID_FIELD != "d";
    assert UNRELATED["name"] == "y" && Half(id)["name"] == "x" && "y" != "x";
    assert "c" in REST_OF_IT;
    assert Changes(OTHER_HALF, Half(id)) == REST_OF_IT;
  }

  /** The desired rows carry their keys, the keys are proper, and nothing is ignored, not even what is wanted. */
  lemma HalvesProper(id: string)
    requires id != ""
    ensures UniqueIds([Half(id)]) && KeysProper(KEYED, Halves(), [Half(id)])
    ensures forall want | want in Halves() :: KEYED.key in want && !Ignored(KEYED, Content(want))
  {
    HalfFacts(id);
    assert OTHER_HALF["name"] == "x" && UNRELATED["name"] == "y" && "y" != "x";
    hide Ignored, Content, IdOf;
  }

  lemma HalvesPlan(id: string)
    requires id != ""
    ensures MakePlan(KEYED, Halves(), [Half(id)]) == Planned(Plan([Update(id, REST_OF_IT), Create(UNRELATED)], [id, ""]))
  {
    hide Half, OTHER_HALF, UNRELATED, REST_OF_IT, Recognises, Ignored, Changes, Content, IdOf;
    var rows, desired := [Half(id)], Halves();
    HalfFacts(id);
    assert rows[1..] == [];
    assert Eligibles(KEYED, OTHER_HALF, rows, {}) == rows;
    assert Eligibles(KEYED, UNRELATED, rows, {id}) == [];
    assert Claimed([]) == {} && Claimed([id]) == {id};
    assert Resolve(KEYED, desired, rows, 0) == Paired([]);
    assert Resolve(KEYED, desired, rows, 1) == Paired([id]);
    assert Resolve(KEYED, desired, rows, 2) == Paired([id, ""]);
    assert ByID(rows, id) == Half(id);
    assert Writes(KEYED, desired, rows, [id, ""], 1) == [Update(id, REST_OF_IT)];
    assert Writes(KEYED, desired, rows, [id, ""], 2) == [Update(id, REST_OF_IT), Create(UNRELATED)];
    assert [id, ""][1..] == [""];
    assert Wanted([""]) == [];
    assert Wanted([id, ""]) == [id];
    assert "c" in KEYED.ignore[0];
  }

  lemma HalvesRun(id: string, made: string, env: Env)
    requires id != "" && made != "" && id != made && |env| == 4 && env[1].Done? && env[2] == Done(made)
    ensures
      var run := Run([Update(id, REST_OF_IT), Create(UNRELATED)], [Half(id)], env, 1);
      run.ok && run.rows == [Half(id) + REST_OF_IT, UNRELATED[ID_FIELD := made]]
  {
    var rows, one := [Half(id)], [Half(id) + REST_OF_IT];
    HalfFacts(id);
    assert ID_FIELD !in REST_OF_IT;
    assert IdOf(Half(id) + REST_OF_IT) == id;
    hide Half, UNRELATED, REST_OF_IT, IdOf, Ignored, Recognises, Changes;
    assert Ids(rows)[0] == id && Ids(one) == [id];
    RunCons([Update(id, REST_OF_IT), Create(UNRELATED)], [Create(UNRELATED)], rows, env, 1);
    assert Patch(rows, id, REST_OF_IT) == one;
    RunSingle(Create(UNRELATED), one, env, 2);
    assert one + [UNRELATED[ID_FIELD := made]] == [Half(id) + REST_OF_IT, UNRELATED[ID_FIELD := made]];
  }

  /**
   Proper keys and nothing ignored are not enough: an update can complete a
   selector, and the row it was made on is then no longer found.
   */
  lemma MergedGivesUp(id: string, made: string)
    requires id != "" && made != "" && id != made
    ensures UniqueIds([Half(id)]) && KeysProper(KEYED, Halves(), [Half(id)])
    ensures !Ignored(KEYED, Half(id)) && forall want | want in Halves() :: KEYED.key in want && !Ignored(KEYED, Content(want))
    ensures GaveUp(Apply(KEYED, Halves(), Unchecked, [Half(id)], [Done(""), Done(""), Done(made), Done("")]).failure)
  {
    hide Half, Ignored, Content, UniqueIds, KeysProper, MakePlan, Run, Foreseen, Apply, Halves, GaveUp;
    hide OTHER_HALF, UNRELATED, REST_OF_IT;
    var env: Env := [Done(""), Done(""), Done(made), Done("")];
    var p := Plan([Update(id, REST_OF_IT), Create(UNRELATED)], [id, ""]);
    HalfFacts(id);
    HalvesProper(id);
    HalvesPlan(id);
    HalvesRun(id, made, env);
    NonMovesAll(p.steps);
    assert Create(UNRELATED) in p.steps;
    SelectorsPlain([Half(id)], Run(p.steps, [Half(id)], env, 1).rows);
    GivesUpExactly(KEYED, Halves(), Unchecked, [Half(id)], env, p);
    HalvesUnforeseen(id);
  }

  lemma SelectorsPlain(before: seq<Record>, after: seq<Record>)
    ensures NamesNoNew(KEYED, before, after)
  {
    assert ID_FIELD != "c" && ID_FIELD != "d";
    assert ID_FIELD !in KEYED.ignore[0];
  }

  lemma HalvesUnforeseen(id: string)
    requires id != ""
    ensures !Foreseen(KEYED, Halves(), [Half(id)], [id, ""])
  {
    HalfFacts(id);
    hide Half, Ignored, OTHER_HALF, UNRELATED, REST_OF_IT, Changes;
    assert ByID([Half(id)], id) == Half(id);
    assert Ignored(KEYED, Expected(KEYED, Halves(), [Half(id)], [id, ""], 0));
  }
}
