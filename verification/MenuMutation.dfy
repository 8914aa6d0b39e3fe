/**
 The structural phase: the menu after the creates, updates and deletes of a plan
 have been acknowledged (rest/menu.go:191-216, 416-428).
 */
module MenuMutation {
  import opened Records
  import opened MenuPlan
  import opened MenuDevice
  import opened MenuOrdering

  /** A device row once the updates of the first `n` desired rows are done. */
  function Revise(spec: MenuSpec, desired: seq<Record>, matched: seq<string>, n: nat, row: Record): (out: Record)
    requires n <= |desired| == |matched|
    ensures IdOf(out) == IdOf(row)
  {
    if n == 0 then row
    else
      var r := Revise(spec, desired, matched, n - 1, row);
      if spec.key != "" && matched[n - 1] != "" && matched[n - 1] == IdOf(row) then r + Changes(desired[n - 1], row) else r
  }

  function Revised(spec: MenuSpec, desired: seq<Record>, matched: seq<string>, n: nat, rows: seq<Record>): (out: seq<Record>)
    requires n <= |desired| == |matched|
    ensures |out| == |rows|
    ensures forall k | 0 <= k < |rows| :: out[k] == Revise(spec, desired, matched, n, rows[k])
  {
    seq(|rows|, k requires 0 <= k < |rows| => Revise(spec, desired, matched, n, rows[k]))
  }

  /** The rows made for the first `n` desired rows; `news` holds the identifiers the router gave. */
  function Created(desired: seq<Record>, matched: seq<string>, news: seq<string>, n: nat): seq<Record>
    requires n <= |desired| == |matched| && n <= |news|
  {
    if n == 0 then []
    else
      Created(desired, matched, news, n - 1)
      + (if matched[n - 1] == "" then [desired[n - 1][ID_FIELD := news[n - 1]]] else [])
  }

  /** The identifiers prune removes. */
  function Pruned(spec: MenuSpec, current: seq<Record>, claimed: set<string>): set<string> {
    if spec.unlisted == Prune then OpenIds(spec, current, claimed) else {}
  }

  function OpenIds(spec: MenuSpec, current: seq<Record>, claimed: set<string>): set<string> {
    set r | r in current && Open(spec, claimed, r) :: IdOf(r)
  }

  /** The menu the structural phase leaves: survivors in place, then the new rows. */
  function Mutated(spec: MenuSpec, desired: seq<Record>, current: seq<Record>, matched: seq<string>, news: seq<string>): seq<Record>
    requires |desired| == |matched| == |news|
  {
    Without(Revised(spec, desired, matched, |desired|, current), Pruned(spec, current, Claimed(matched)))
    + Created(desired, matched, news, |desired|)
  }

  /** `news` names each unmatched row once, with an identifier new to the menu. */
  predicate FreshFor(current: seq<Record>, matched: seq<string>, news: seq<string>) {
    && |news| <= |matched|
    && (forall i | 0 <= i < |news| && matched[i] == "" :: news[i] != "" && news[i] !in Ids(current))
    && (forall i, j | 0 <= i < j < |news| && matched[i] == "" && matched[j] == "" :: news[i] != news[j])
  }

  lemma {:induction false} CreatedIds(desired: seq<Record>, matched: seq<string>, news: seq<string>, n: nat, row: Record)
    requires n <= |desired| == |matched| && n <= |news|
    requires row in Created(desired, matched, news, n)
    ensures exists i | 0 <= i < n :: matched[i] == "" && row == desired[i][ID_FIELD := news[i]]
  {
    if row !in Created(desired, matched, news, n - 1) {
      assert matched[n - 1] == "";
    } else {
      CreatedIds(desired, matched, news, n - 1, row);
    }
  }

  lemma {:induction false} CreatedHas(desired: seq<Record>, matched: seq<string>, news: seq<string>, n: nat, i: nat)
    requires i < n <= |desired| == |matched| && n <= |news| && matched[i] == ""
    ensures desired[i][ID_FIELD := news[i]] in Created(desired, matched, news, n)
  {
    if i < n - 1 {
      CreatedHas(desired, matched, news, n - 1, i);
    }
  }

  lemma {:induction false} CreatedPrefix(desired: seq<Record>, matched: seq<string>, news: seq<string>, more: seq<string>, n: nat)
    requires n <= |desired| == |matched| && n <= |news| <= |more| && more[..|news|] == news
    ensures Created(desired, matched, more, n) == Created(desired, matched, news, n)
  {
    if n > 0 {
      CreatedPrefix(desired, matched, news, more, n - 1);
      assert more[n - 1] == more[..|news|][n - 1] == news[n - 1];
    }
  }

  /** Where an update lands: on the surviving row, never on a new one. */
  lemma PatchSplit(a: seq<Record>, b: seq<Record>, id: string, diff: Record)
    requires forall r | r in b :: IdOf(r) != id
    ensures Patch(a + b, id, diff) == Patch(a, id, diff) + b
  {
    forall k | 0 <= k < |b|
      ensures IdOf(b[k]) != id
    {
      assert b[k] in b;
    }
  }

  lemma RevisedUpdate(spec: MenuSpec, desired: seq<Record>, current: seq<Record>, matched: seq<string>, n: nat)
    requires 0 < n <= |desired| == |matched| && UniqueIds(current)
    requires spec.key != "" && matched[n - 1] != ""
    ensures
      var diff := Changes(desired[n - 1], ByID(current, matched[n - 1]));
      Patch(Revised(spec, desired, matched, n - 1, current), matched[n - 1], diff)
      == Revised(spec, desired, matched, n, current)
  {
    var id := matched[n - 1];
    var before, after := Revised(spec, desired, matched, n - 1, current), Revised(spec, desired, matched, n, current);
    var diff := Changes(desired[n - 1], ByID(current, id));
    forall k | 0 <= k < |current|
      ensures Patch(before, id, diff)[k] == after[k]
    {
      if IdOf(current[k]) == id {
        assert current[k] in current;
        ByIDFinds(current, current[k]);
      }
    }
  }

  lemma RevisedSame(spec: MenuSpec, desired: seq<Record>, current: seq<Record>, matched: seq<string>, n: nat)
    requires 0 < n <= |desired| == |matched| && UniqueIds(current)
    requires matched[n - 1] == "" || spec.key == "" || Changes(desired[n - 1], ByID(current, matched[n - 1])) == map[]
    ensures Revised(spec, desired, matched, n, current) == Revised(spec, desired, matched, n - 1, current)
  {
    var before, after := Revised(spec, desired, matched, n - 1, current), Revised(spec, desired, matched, n, current);
    forall k | 0 <= k < |current|
      ensures before[k] == after[k]
    {
      if matched[n - 1] != "" && spec.key != "" && IdOf(current[k]) == matched[n - 1] {
        assert current[k] in current;
        ByIDFinds(current, current[k]);
        assert before[k] + map[] == before[k];
      }
    }
  }

  /** The menu after the first `n` writes: survivors updated, new rows at the end. */
  lemma {:induction false} RunWrites(spec: MenuSpec, desired: seq<Record>, current: seq<Record>, matched: seq<string>,
                                     n: nat, env: Env, t: nat)
    returns (news: seq<string>)
    requires n <= |desired| == |matched| && UniqueIds(current)
    requires forall id | id in matched && id != "" :: id in Ids(current)
    ensures |news| == n && (Run(Writes(spec, desired, current, matched, n), current, env, t).ok ==> FreshFor(current, matched, news))
    ensures
      var run := Run(Writes(spec, desired, current, matched, n), current, env, t);
      run.ok ==> run.rows == Revised(spec, desired, matched, n, current) + Created(desired, matched, news, n)
  {
    hide Run, Revised, Created, FreshFor, UniqueIds, Ids, Write, Writes;
    if n == 0 {
      news := [];
      RunNoWrites(spec, desired, current, matched, env, t);
    } else {
      var init := RunWrites(spec, desired, current, matched, n - 1, env, t);
      news := init + [""];
      var steps, last := Writes(spec, desired, current, matched, n - 1), Write(spec, desired[n - 1], current, matched[n - 1]);
      WritesNext(spec, desired, current, matched, n);
      RunConcat(steps, last, current, env, t);
      if Run(steps, current, env, t).ok {
        if matched[n - 1] == "" {
          news := CreateStep(spec, desired, current, matched, n, init, env, t + |steps|);
        } else {
          assert matched[n - 1] in matched;
          UpdateStep(spec, desired, current, matched, n, init, env, t + |steps|);
        }
      }
    }
  }

  lemma RunNoWrites(spec: MenuSpec, desired: seq<Record>, current: seq<Record>, matched: seq<string>, env: Env, t: nat)
    requires |desired| == |matched|
    ensures FreshFor(current, matched, [])
    ensures
      Run(Writes(spec, desired, current, matched, 0), current, env, t).rows
      == Revised(spec, desired, matched, 0, current) + Created(desired, matched, [], 0)
  {
    assert Revised(spec, desired, matched, 0, current) == current;
  }

  lemma WritesNext(spec: MenuSpec, desired: seq<Record>, current: seq<Record>, matched: seq<string>, n: nat)
    requires 0 < n <= |desired| == |matched|
    ensures Writes(spec, desired, current, matched, n)
         == Writes(spec, desired, current, matched, n - 1) + Write(spec, desired[n - 1], current, matched[n - 1])
  {
  }

  /** The write of an unmatched row appends it under a new identifier. */
  lemma CreateStep(spec: MenuSpec, desired: seq<Record>, current: seq<Record>, matched: seq<string>,
                   n: nat, init: seq<string>, env: Env, t: nat)
    returns (news: seq<string>)
    requires 0 < n <= |desired| == |matched| && |init| == n - 1 && UniqueIds(current)
    requires matched[n - 1] == "" && FreshFor(current, matched, init)
    ensures |news| == n
    ensures
      var rows := Revised(spec, desired, matched, n - 1, current) + Created(desired, matched, init, n - 1);
      var run := Run(Write(spec, desired[n - 1], current, matched[n - 1]), rows, env, t);
      run.ok ==>
        && FreshFor(current, matched, news)
        && run.rows == Revised(spec, desired, matched, n, current) + Created(desired, matched, news, n)
  {
    var rows := Revised(spec, desired, matched, n - 1, current) + Created(desired, matched, init, n - 1);
    var reply := At(env, t);
    var id := if reply.Refused? then "" else reply.id;
    news := init + [id];
    RunSingle(Create(desired[n - 1]), rows, env, t);
    CreatedPrefix(desired, matched, init, news, n - 1);
    RevisedSame(spec, desired, current, matched, n);
    if Exec(Create(desired[n - 1]), rows, reply).ok {
      FreshCreate(spec, desired, current, matched, init, news, n);
      hide Revised, UniqueIds, FreshFor, Run;
      assert rows + [desired[n - 1][ID_FIELD := id]]
          == Revised(spec, desired, matched, n, current) + (Created(desired, matched, init, n - 1) + [desired[n - 1][ID_FIELD := id]]);
    }
  }

  lemma CreatedSkip(desired: seq<Record>, matched: seq<string>, init: seq<string>, n: nat)
    requires 0 < n <= |desired| == |matched| && |init| == n - 1 && matched[n - 1] != ""
    ensures Created(desired, matched, init + [""], n) == Created(desired, matched, init, n - 1)
  {
    CreatedPrefix(desired, matched, init, init + [""], n - 1);
  }

  lemma UpdateRuns(rows: seq<Record>, id: string, diff: Record, env: Env, t: nat)
    ensures var run := Run([Update(id, diff)], rows, env, t);
      run.ok ==> run.rows == Patch(rows, id, diff)
  {
    RunSingle(Update(id, diff), rows, env, t);
  }

  /** The write of a matched row touches that row alone. */
  lemma UpdateStep(spec: MenuSpec, desired: seq<Record>, current: seq<Record>, matched: seq<string>,
                   n: nat, init: seq<string>, env: Env, t: nat)
    requires 0 < n <= |desired| == |matched| && |init| == n - 1 && UniqueIds(current)
    requires matched[n - 1] != "" && matched[n - 1] in Ids(current) && FreshFor(current, matched, init)
    ensures FreshFor(current, matched, init + [""])
    ensures
      var rows := Revised(spec, desired, matched, n - 1, current) + Created(desired, matched, init, n - 1);
      var run := Run(Write(spec, desired[n - 1], current, matched[n - 1]), rows, env, t);
      run.ok ==> run.rows == Revised(spec, desired, matched, n, current) + Created(desired, matched, init + [""], n)
  {
    hide UniqueIds, Revised, FreshFor, Patch, Ids, Run, Changes, Created, ByID;
    var rows := Revised(spec, desired, matched, n - 1, current) + Created(desired, matched, init, n - 1);
    var id := matched[n - 1];
    CreatedSkip(desired, matched, init, n);
    FreshSkip(current, matched, init, init + [""]);
    if Write(spec, desired[n - 1], current, id) == [] {
      RevisedSame(spec, desired, current, matched, n);
      RunNothing(rows, env, t);
    } else {
      var diff := Changes(desired[n - 1], ByID(current, id));
      RevisedUpdate(spec, desired, current, matched, n);
      CreatedNot(desired, current, matched, init, n - 1, id);
      PatchSplit(Revised(spec, desired, matched, n - 1, current), Created(desired, matched, init, n - 1), id, diff);
      UpdateRuns(rows, id, diff, env, t);
    }
  }

  lemma CreatedNot(desired: seq<Record>, current: seq<Record>, matched: seq<string>, news: seq<string>, n: nat, id: string)
    requires n <= |desired| == |matched| && n <= |news| && FreshFor(current, matched, news) && id in Ids(current)
    ensures forall r | r in Created(desired, matched, news, n) :: IdOf(r) != id
  {
    forall r | r in Created(desired, matched, news, n)
      ensures IdOf(r) != id
    {
      CreatedIds(desired, matched, news, n, r);
    }
  }

  lemma FreshSkip(current: seq<Record>, matched: seq<string>, init: seq<string>, news: seq<string>)
    requires FreshFor(current, matched, init) && |init| < |matched| && matched[|init|] != "" && news == init + [""]
    ensures FreshFor(current, matched, news)
  {
  }

  lemma FreshCreate(spec: MenuSpec, desired: seq<Record>, current: seq<Record>, matched: seq<string>,
                    init: seq<string>, news: seq<string>, n: nat)
    requires 0 < n <= |desired| == |matched| && |init| == n - 1 && |news| == n && news == init + [news[n - 1]]
    requires FreshFor(current, matched, init) && matched[n - 1] == "" && news[n - 1] != ""
    requires news[n - 1] !in Ids(Revised(spec, desired, matched, n - 1, current) + Created(desired, matched, init, n - 1))
    ensures FreshFor(current, matched, news)
  {
    var r, c := Revised(spec, desired, matched, n - 1, current), Created(desired, matched, init, n - 1);
    forall k | 0 <= k < |current|
      ensures Ids(current)[k] != news[n - 1]
    {
      assert Ids(r + c)[k] == Ids(current)[k];
    }
    forall i | 0 <= i < n - 1 && matched[i] == ""
      ensures news[i] != news[n - 1]
    {
      CreatedHas(desired, matched, init, n - 1, i);
      var row := desired[i][ID_FIELD := init[i]];
      assert row in r + c;
      IdsMember(r + c, row);
    }
  }

  lemma {:induction false} RunPrunes(spec: MenuSpec, list: seq<Record>, claimed: set<string>, rows: seq<Record>, env: Env, t: nat)
    ensures
      var run := Run(Prunes(spec, list, claimed), rows, env, t);
      run.ok ==> run.rows == Without(rows, OpenIds(spec, list, claimed))
  {
    if list == [] {
      assert OpenIds(spec, list, claimed) == {};
      WithoutNothing(rows, {});
    } else {
      var head, rest := list[0], list[1..];
      assert list == [head] + rest;
      var later := OpenIds(spec, rest, claimed);
      if Open(spec, claimed, head) {
        var id := IdOf(head);
        assert OpenIds(spec, list, claimed) == {id} + later;
        RunCons(Prunes(spec, list, claimed), Prunes(spec, rest, claimed), rows, env, t);
        RunPrunes(spec, rest, claimed, Without(rows, {id}), env, t + 1);
        WithoutTwice(rows, {id}, later);
      } else {
        assert OpenIds(spec, list, claimed) == later;
        assert Prunes(spec, list, claimed) == Prunes(spec, rest, claimed);
        RunPrunes(spec, rest, claimed, rows, env, t);
      }
    }
  }

  /** Once every mutation of a plan is acknowledged, the menu is `Mutated`. */
  lemma MutationPhase(spec: MenuSpec, desired: seq<Record>, current: seq<Record>, matched: seq<string>, env: Env, t: nat)
    returns (news: seq<string>)
    requires |desired| == |matched| && UniqueIds(current)
    requires forall id | id in matched && id != "" :: id in Ids(current)
    ensures |news| == |desired|
    ensures
      var run := Run(Mutations(spec, desired, current, matched), current, env, t);
      run.ok ==> FreshFor(current, matched, news) && run.rows == Mutated(spec, desired, current, matched, news)
  {
    var claimed := Claimed(matched);
    var writes := Writes(spec, desired, current, matched, |desired|);
    var prunes := if spec.unlisted == Prune then Prunes(spec, current, claimed) else [];
    news := RunWrites(spec, desired, current, matched, |desired|, env, t);
    RunConcat(writes, prunes, current, env, t);
    var first := Run(writes, current, env, t);
    if first.ok {
      RunPrunes(spec, current, claimed, first.rows, env, t + |writes|);
      var kept, created := Revised(spec, desired, matched, |desired|, current), Created(desired, matched, news, |desired|);
      var gone := Pruned(spec, current, claimed);
      WithoutNothing(first.rows, {});
      WithoutConcat(kept, created, gone);
      forall r | r in created
        ensures IdOf(r) !in gone
      {
        CreatedIds(desired, matched, news, |desired|, r);
        PrunedKnown(spec, current, claimed, IdOf(r));
      }
      WithoutNothing(created, gone);
    }
  }

  lemma PrunedKnown(spec: MenuSpec, current: seq<Record>, claimed: set<string>, id: string)
    ensures id in Pruned(spec, current, claimed) ==> id in Ids(current)
  {
    if id in Pruned(spec, current, claimed) {
      var r :| r in current && Open(spec, claimed, r) && IdOf(r) == id;
      IdsMember(current, r);
    }
  }
}
