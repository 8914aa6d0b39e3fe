/**
 Counting the rows of a plan (rest/menu.go:101-109, 167-216): every desired row
 is matched or created, and under prune every device row is claimed, deleted or
 the device's own.
 */
module MenuAccounting {
  import opened Records
  import opened MenuPlan
  import opened MenuMatching
  import opened MenuMutation
  import opened MenuStructure
  import opened MenuApply
  import opened MenuSoundness

  datatype Op = OpCreate | OpUpdate | OpDelete | OpMove

  function OpOf(s: Step): Op {
    match s
    case Create(_) => OpCreate
    case Update(_, _) => OpUpdate
    case Delete(_, _) => OpDelete
    case Move(_, _) => OpMove
  }

  function Count(steps: seq<Step>, op: Op): nat {
    if steps == [] then 0 else (if OpOf(steps[0]) == op then 1 else 0) + Count(steps[1..], op)
  }

  function PlacesOf(steps: seq<Step>, op: Op): set<nat> {
    set i | 0 <= i < |steps| && OpOf(steps[i]) == op
  }

  lemma PlacesSnoc(front: seq<Step>, last: Step, op: Op)
    ensures |PlacesOf(front + [last], op)| == |PlacesOf(front, op)| + (if OpOf(last) == op then 1 else 0)
  {
    hide OpOf;
    var steps, n := front + [last], |front|;
    assert forall i | 0 <= i < n :: steps[i] == front[i];
    assert steps[n] == last;
    assert n !in PlacesOf(front, op);
    assert PlacesOf(steps, op) == PlacesOf(front, op) + (if OpOf(last) == op then {n} else {});
  }

  lemma {:induction false} CountPlaces(steps: seq<Step>, op: Op)
    ensures Count(steps, op) == |PlacesOf(steps, op)|
  {
    if steps != [] {
      var n := |steps| - 1;
      CountPlaces(steps[..n], op);
      CountSnoc(steps, n, op);
      PlacesSnoc(steps[..n], steps[n], op);
      hide *;
      assert steps == steps[..n + 1];
      assert steps[..n] + [steps[n]] == steps;
    } else {
      assert PlacesOf(steps, op) == {};
    }
  }

  /** What is counted: the places of the steps of one kind. */
  lemma CountIs(steps: seq<Step>)
    ensures Count(steps, OpCreate) == |set i | 0 <= i < |steps| && steps[i].Create?|
    ensures Count(steps, OpUpdate) == |set i | 0 <= i < |steps| && steps[i].Update?|
    ensures Count(steps, OpDelete) == |set i | 0 <= i < |steps| && steps[i].Delete?|
    ensures Count(steps, OpMove) == |set i | 0 <= i < |steps| && steps[i].Move?|
  {
    hide Count;
    CountPlaces(steps, OpCreate);
    CountPlaces(steps, OpUpdate);
    CountPlaces(steps, OpDelete);
    CountPlaces(steps, OpMove);
    assert PlacesOf(steps, OpCreate) == set i | 0 <= i < |steps| && steps[i].Create?;
    assert PlacesOf(steps, OpUpdate) == set i | 0 <= i < |steps| && steps[i].Update?;
    assert PlacesOf(steps, OpDelete) == set i | 0 <= i < |steps| && steps[i].Delete?;
    assert PlacesOf(steps, OpMove) == set i | 0 <= i < |steps| && steps[i].Move?;
  }

  /** Plan.Counts: a tally per operation. */
  method Counts(steps: seq<Step>) returns (tally: map<Op, nat>)
    ensures forall op :: (if op in tally then tally[op] else 0) == Count(steps, op)
    ensures forall op | op in tally :: tally[op] > 0
  {
    tally := map[];
    for i := 0 to |steps|
      invariant forall op :: (if op in tally then tally[op] else 0) == Count(steps[..i], op)
      invariant forall op | op in tally :: tally[op] > 0
    {
      var op := OpOf(steps[i]);
      forall o
        ensures Count(steps[..i + 1], o) == Count(steps[..i], o) + (if o == op then 1 else 0)
      {
        CountSnoc(steps, i, o);
      }
      tally := tally[op := (if op in tally then tally[op] else 0) + 1];
    }
    assert steps[..|steps|] == steps;
  }

  lemma {:induction false} CountConcat(a: seq<Step>, b: seq<Step>, op: Op)
    ensures Count(a + b, op) == Count(a, op) + Count(b, op)
  {
    if a == [] {
      assert a + b == b;
    } else {
      assert (a + b)[1..] == a[1..] + b;
      CountConcat(a[1..], b, op);
    }
  }

  lemma CountSnoc(steps: seq<Step>, i: nat, op: Op)
    requires i < |steps|
    ensures Count(steps[..i + 1], op) == Count(steps[..i], op) + (if OpOf(steps[i]) == op then 1 else 0)
  {
    assert steps[..i + 1] == steps[..i] + [steps[i]];
    CountConcat(steps[..i], [steps[i]], op);
    assert [steps[i]][1..] == [];
  }

  lemma CountWrite(spec: MenuSpec, want: Record, current: seq<Record>, id: string)
    ensures Count(Write(spec, want, current, id), OpCreate) == if id == "" then 1 else 0
    ensures Count(Write(spec, want, current, id), OpDelete) == 0
  {
    var steps := Write(spec, want, current, id);
    if steps != [] {
      assert steps[1..] == [];
    }
  }

  lemma WantedSnoc(matched: seq<string>, n: nat)
    requires n < |matched|
    ensures |Wanted(matched[..n + 1])| == |Wanted(matched[..n])| + (if matched[n] == "" then 0 else 1)
  {
    assert matched[..n + 1] == matched[..n] + [matched[n]];
    WantedConcat(matched[..n], [matched[n]]);
    assert [matched[n]][1..] == [];
  }

  lemma {:induction false} CountNone(steps: seq<Step>, op: Op)
    requires forall s | s in steps :: OpOf(s) != op
    ensures Count(steps, op) == 0
  {
    if steps != [] {
      assert steps[0] in steps;
      CountNone(steps[1..], op);
    }
  }

  lemma {:induction false} CountWrites(spec: MenuSpec, desired: seq<Record>, current: seq<Record>, matched: seq<string>, n: nat)
    requires n <= |desired| == |matched|
    ensures Count(Writes(spec, desired, current, matched, n), OpCreate) + |Wanted(matched[..n])| == n
    ensures Count(Writes(spec, desired, current, matched, n), OpDelete) == 0
  {
    hide *;
    if n == 0 {
      CountNothing(spec, desired, current, matched);
    } else {
      CountWrites(spec, desired, current, matched, n - 1);
      CountNextWrite(spec, desired, current, matched, n - 1, OpCreate);
      CountNextWrite(spec, desired, current, matched, n - 1, OpDelete);
      CountWrite(spec, desired[n - 1], current, matched[n - 1]);
      WantedSnoc(matched, n - 1);
    }
  }

  lemma CountNothing(spec: MenuSpec, desired: seq<Record>, current: seq<Record>, matched: seq<string>)
    requires |desired| == |matched|
    ensures forall op :: Count(Writes(spec, desired, current, matched, 0), op) == 0
    ensures |Wanted(matched[..0])| == 0
  {
    assert matched[..0] == [];
  }

  lemma CountNextWrite(spec: MenuSpec, desired: seq<Record>, current: seq<Record>, matched: seq<string>, n: nat, op: Op)
    requires n < |desired| == |matched|
    ensures Count(Writes(spec, desired, current, matched, n + 1), op)
         == Count(Writes(spec, desired, current, matched, n), op) + Count(Write(spec, desired[n], current, matched[n]), op)
  {
    hide Count, Write;
    CountConcat(Writes(spec, desired, current, matched, n), Write(spec, desired[n], current, matched[n]), op);
  }

  lemma {:induction false} CountPrunes(spec: MenuSpec, current: seq<Record>, claimed: set<string>)
    ensures Count(Prunes(spec, current, claimed), OpDelete) == |OpenContents(spec, current, claimed)|
    ensures Count(Prunes(spec, current, claimed), OpCreate) == 0
  {
    if current != [] {
      CountPrunes(spec, current[1..], claimed);
      var head := if Open(spec, claimed, current[0]) then [Delete(IdOf(current[0]), current[0])] else [];
      CountConcat(head, Prunes(spec, current[1..], claimed), OpDelete);
      CountConcat(head, Prunes(spec, current[1..], claimed), OpCreate);
    }
  }

  /** Rows no plan acts on: without an identifier, or ignored. */
  function Passive(spec: MenuSpec, rows: seq<Record>): seq<Record> {
    if rows == [] then []
    else (if IdOf(rows[0]) == "" || Ignored(spec, rows[0]) then [rows[0]] else []) + Passive(spec, rows[1..])
  }

  lemma {:induction false} OpenOrPassive(spec: MenuSpec, rows: seq<Record>)
    ensures |OpenContents(spec, rows, {})| + |Passive(spec, rows)| == |rows|
  {
    if rows != [] {
      OpenOrPassive(spec, rows[1..]);
    }
  }

  /** Each match takes exactly one row from those open. */
  lemma {:induction false} OpenLeft(spec: MenuSpec, desired: seq<Record>, current: seq<Record>, matched: seq<string>, n: nat)
    requires UniqueIds(current) && Greedy(spec, desired, current, matched) && n <= |matched|
    ensures |OpenContents(spec, current, Claimed(matched[..n]))| + |Wanted(matched[..n])| == |OpenContents(spec, current, {})|
  {
    if n == 0 {
      assert Claimed(matched[..0]) == {};
    } else {
      OpenLeft(spec, desired, current, matched, n - 1);
      var before, id := matched[..n - 1], matched[n - 1];
      assert matched[..n] == before + [id];
      WantedConcat(before, [id]);
      ClaimedSnoc(before, id);
      if id == "" {
        assert Claimed(before) + {} == Claimed(before);
      } else {
        MatchesAreRows(spec, desired, current, matched, n - 1);
        OpenContentsClaim(spec, current, Claimed(before), RowOf(current, matched, n - 1));
      }
    }
  }

  /**
   Exact accounting of a plan: creates and matches make up the desired rows, and
   under prune claims, deletes and passive rows make up the menu.
   */
  lemma PlanAccounting(spec: MenuSpec, desired: seq<Record>, rows: seq<Record>, p: Plan)
    requires UniqueIds(rows) && MakePlan(spec, desired, rows) == Planned(p)
    ensures Count(p.steps, OpCreate) + |Wanted(p.matched)| == |desired|
    ensures
      Count(p.steps, OpDelete) ==
        if spec.unlisted == Prune then |rows| - |Wanted(p.matched)| - |Passive(spec, rows)| else 0
  {
    hide Greedy, UniqueIds, MakePlan, Resolve, Count, Writes, Prunes, Reorder, Passive, OpenContents, NonMoves;
    PlannedFacts(spec, desired, rows, p);
    var writes := Writes(spec, desired, rows, p.matched, |desired|);
    var prunes := if spec.unlisted == Prune then Prunes(spec, rows, Claimed(p.matched)) else [];
    var moves := if spec.ordered then Reorder(rows, p.matched) else [];
    ReorderShape(rows, p.matched);
    CountNone(moves, OpCreate);
    CountNone(moves, OpDelete);
    CountConcat(writes + prunes, moves, OpCreate);
    CountConcat(writes + prunes, moves, OpDelete);
    CountConcat(writes, prunes, OpCreate);
    CountConcat(writes, prunes, OpDelete);
    CountNone([], OpDelete);
    CountNone([], OpCreate);
    assert p.matched[..|desired|] == p.matched;
    CountWrites(spec, desired, rows, p.matched, |desired|);
    CountPrunes(spec, rows, Claimed(p.matched));
    OpenLeft(spec, desired, rows, p.matched, |desired|);
    OpenOrPassive(spec, rows);
  }

  // ---- The size of the menu after the structural phase ----

  lemma {:induction false} WithoutSize(spec: MenuSpec, current: seq<Record>, rows: seq<Record>, claimed: set<string>, gone: set<string>)
    requires Ids(rows) == Ids(current)
    requires forall r | r in current :: IdOf(r) in gone <==> Open(spec, claimed, r)
    ensures |Without(rows, gone)| + |OpenContents(spec, current, claimed)| == |current|
  {
    assert |Ids(rows)| == |Ids(current)|;
    if current != [] {
      assert IdOf(rows[0]) == Ids(rows)[0] == Ids(current)[0] == IdOf(current[0]);
      assert Ids(rows[1..]) == Ids(rows)[1..] == Ids(current)[1..] == Ids(current[1..]);
      assert current[0] in current;
      WithoutSize(spec, current[1..], rows[1..], claimed, gone);
    }
  }

  lemma {:induction false} CreatedSize(desired: seq<Record>, matched: seq<string>, news: seq<string>, n: nat)
    requires n <= |desired| == |matched| && n <= |news|
    ensures |Created(desired, matched, news, n)| + |Wanted(matched[..n])| == n
  {
    if n > 0 {
      CreatedSize(desired, matched, news, n - 1);
      assert matched[..n] == matched[..n - 1] + [matched[n - 1]];
      WantedConcat(matched[..n - 1], [matched[n - 1]]);
    }
  }

  lemma OpenIdsExact(spec: MenuSpec, current: seq<Record>, claimed: set<string>, row: Record)
    requires UniqueIds(current) && row in current
    ensures IdOf(row) in OpenIds(spec, current, claimed) <==> Open(spec, claimed, row)
  {
    if IdOf(row) in OpenIds(spec, current, claimed) {
      var r :| r in current && Open(spec, claimed, r) && IdOf(r) == IdOf(row);
      SameIdSameRow(current, r, row);
    }
  }

  /** Under prune the mutated menu holds one row per desired row, and the passive ones. */
  lemma AfterSize(job: Job)
    requires job.Valid() && job.spec.unlisted == Prune
    ensures |job.After()| == |job.desired| + |Passive(job.spec, job.current)|
  {
    var n, claimed := |job.desired|, Claimed(job.matched);
    var all := Revised(job.spec, job.desired, job.matched, n, job.current);
    assert job.matched[..n] == job.matched;
    forall r | r in job.current
      ensures IdOf(r) in OpenIds(job.spec, job.current, claimed) <==> Open(job.spec, claimed, r)
    {
      OpenIdsExact(job.spec, job.current, claimed, r);
    }
    assert Ids(all) == Ids(job.current);
    OpenLeft(job.spec, job.desired, job.current, job.matched, n);
    hide Job.Valid, Greedy, UniqueIds, FreshFor, Open;
    WithoutSize(job.spec, job.current, all, claimed, OpenIds(job.spec, job.current, claimed));
    CreatedSize(job.desired, job.matched, job.news, n);
    OpenOrPassive(job.spec, job.current);
  }
}
