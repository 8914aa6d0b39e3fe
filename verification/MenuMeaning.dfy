/**
 A plan in the words of its specification: rows, fields, identifiers and
 selectors, with nothing left to the planner's own definitions
 (rest/menu.go:155-319).
 */
module MenuMeaning {
  import opened Records
  import opened MenuPlan
  import opened MenuMatching
  import opened MenuDevice
  import opened MenuOrdering
  import opened MenuApply
  import opened MenuSoundness
  import opened MenuFrame

  // ---- The reference ----

  /** A row says what is wanted: the same key, or without a key every field that is set, the identifier aside. */
  predicate SaysWanted(spec: MenuSpec, want: Record, row: Record) {
    if spec.key != "" then spec.key in want && spec.key in row && row[spec.key] == want[spec.key]
    else forall k | k in want && k != ".id" :: k in row && row[k] == want[k]
  }

  /** A row that could serve a desired one. */
  predicate Serves(spec: MenuSpec, want: Record, row: Record) {
    ".id" in row && row[".id"] != "" && !DevicesOwn(spec, row) && SaysWanted(spec, want, row)
  }

  /** Two rows that differ in nothing but their identifier. */
  ghost predicate Twins(a: Record, b: Record) {
    forall k | k != ".id" :: (k in a <==> k in b) && (k in a ==> a[k] == b[k])
  }

  lemma EligibleMeans(spec: MenuSpec, want: Record, claimed: set<string>, row: Record)
    ensures Eligible(spec, want, claimed, row) <==> Serves(spec, want, row) && row[".id"] !in claimed
  {
    IgnoredMeans(spec, row);
    hide Ignored, DevicesOwn;
  }

  lemma TwinsMeans(a: Record, b: Record)
    ensures SameContent(a, b) <==> Twins(a, b)
  {
    var x, y := Content(a), Content(b);
    if x == y {
      forall k | k != ".id"
        ensures (k in a <==> k in b) && (k in a ==> a[k] == b[k])
      {
        assert (k in x <==> k in a) && (k in y <==> k in b);
        assert k in a ==> x[k] == a[k];
        assert k in b ==> y[k] == b[k];
      }
    }
    if Twins(a, b) {
      assert forall k :: k in x <==> k in y;
      assert forall k | k in x :: x[k] == y[k];
    }
  }

  // ---- The device's own rows ----

  /** A step names a row: as what it writes or removes, as one it moves, or as the one it moves before. */
  predicate Names(step: Step, id: string) {
    match step
    case Create(_) => false
    case Update(target, _) => target == id
    case Delete(target, _) => target == id
    case Move(order, before) => id in order || before == id
  }

  /** A row with all the fields of one selector is matched by no desired row and named by no step of any plan. */
  lemma SelectedUntouched(spec: MenuSpec, desired: seq<Record>, rows: seq<Record>, p: Plan, s: Record, row: Record)
    requires UniqueIds(rows) && MakePlan(spec, desired, rows) == Planned(p)
    requires s in spec.ignore && row in rows && ".id" in row && row[".id"] != ""
    requires forall k | k in s :: k in row && row[k] == s[k]
    ensures row[".id"] !in p.matched
    ensures forall step | step in p.steps :: !Names(step, row[".id"])
  {
    var id := row[".id"];
    SelectedKeep(spec, rows, p.matched, s, row);
    hide UniqueIds, MakePlan, DevicesOwn, IdOf;
    KeepUnmatched(spec, desired, rows, p, {id});
    PlanFrame(spec, desired, rows, p, {id});
    forall step | step in p.steps
      ensures !Names(step, id)
    {
      assert {id} !! Touches(step);
      TouchesMeans(step, id);
    }
  }

  lemma SelectedKeep(spec: MenuSpec, rows: seq<Record>, matched: seq<string>, s: Record, row: Record)
    requires UniqueIds(rows) && s in spec.ignore && row in rows && ".id" in row && row[".id"] != ""
    requires forall k | k in s :: k in row && row[k] == s[k]
    ensures IdOf(row) == row[".id"] && ByID(rows, row[".id"]) == row && DevicesOwn(spec, row)
    ensures OutOfScope(spec, rows, matched, {row[".id"]})
  {
    ByIDFinds(rows, row);
    IdsMember(rows, row);
    var i :| 0 <= i < |spec.ignore| && spec.ignore[i] == s;
    assert Selects(spec.ignore[i], row);
  }

  lemma TouchesMeans(step: Step, id: string)
    requires id != ""
    ensures id in Touches(step) <==> Names(step, id)
  {
  }

  /** And after any apply, however it went, it is still there as it was. */
  lemma SelectedSurvives(spec: MenuSpec, desired: seq<Record>, approval: Approval, rows: seq<Record>, env: Env, s: Record, row: Record)
    requires UniqueIds(rows)
    requires s in spec.ignore && row in rows && ".id" in row && row[".id"] != ""
    requires forall k | k in s :: k in row && row[k] == s[k]
    ensures row in Apply(spec, desired, approval, rows, env).rows
  {
    var out := Apply(spec, desired, approval, rows, env);
    var keep := {row[".id"]};
    SelectedKeep(spec, rows, [], s, row);
    hide Apply, UniqueIds, DevicesOwn;
    assert NeverClaimed(spec, desired, rows, out, keep);
    ApplyFrame(spec, desired, approval, rows, env, keep);
    assert row in Only(rows, keep);
    assert row in Only(out.rows, keep);
  }

  /**
   Under prune exactly the addressable rows that serve no desired row and differ
   from every selector in some field are deleted; under tolerate none is.
   */
  lemma DeletedExactly(spec: MenuSpec, desired: seq<Record>, rows: seq<Record>, p: Plan, id: string, row: Record)
    requires UniqueIds(rows) && MakePlan(spec, desired, rows) == Planned(p)
    ensures Delete(id, row) in p.steps <==>
      && spec.unlisted == Prune && row in rows && ".id" in row && row[".id"] == id != "" && id !in p.matched
      && forall s | s in spec.ignore :: exists k :: k in s && (k !in row || row[k] != s[k])
  {
    hide UniqueIds, MakePlan, Greedy, Reorder, Resolve, Ignored, Writes, NonMoves, Prunes;
    PlannedFacts(spec, desired, rows, p);
    PlanHalves(spec, desired, rows, p.matched);
    WritesShape(spec, desired, rows, p.matched, |desired|);
    assert Delete(id, row) in p.steps <==> Delete(id, row) in NonMoves(p.steps);
    PrunesMeans(spec, rows, Claimed(p.matched), id, row);
    SparedMeans(spec, row);
  }

  lemma SparedMeans(spec: MenuSpec, row: Record)
    ensures !Ignored(spec, row) <==> forall s | s in spec.ignore :: exists k :: k in s && (k !in row || row[k] != s[k])
  {
    forall s | s in spec.ignore
      ensures !Contains(row, s) <==> exists k :: k in s && (k !in row || row[k] != s[k])
    {
    }
  }

  lemma {:induction false} PrunesMeans(spec: MenuSpec, rows: seq<Record>, claimed: set<string>, id: string, row: Record)
    ensures Delete(id, row) in Prunes(spec, rows, claimed) <==> row in rows && Open(spec, claimed, row) && id == IdOf(row)
  {
    hide Open;
    if rows != [] {
      PrunesMeans(spec, rows[1..], claimed, id, row);
    }
  }

  // ---- The pairing ----

  /** Which rows are still there to serve, after the desired rows before this one took theirs. */
  predicate Left(taken: seq<string>, row: Record) {
    ".id" in row && row[".id"] !in taken
  }

  predicate FirstAt(spec: MenuSpec, want: Record, rows: seq<Record>, taken: seq<string>, b: nat)
    requires b < |rows|
  {
    && Serves(spec, want, rows[b]) && Left(taken, rows[b])
    && forall a | 0 <= a < b && Serves(spec, want, rows[a]) :: !Left(taken, rows[a])
  }

  /** `id` is the identifier of the first row, in device order, that can serve and is left; the empty text when there is none. */
  ghost predicate FirstToServe(spec: MenuSpec, want: Record, rows: seq<Record>, taken: seq<string>, id: string) {
    if id == "" then forall r | r in rows && Serves(spec, want, r) :: !Left(taken, r)
    else exists b :: 0 <= b < |rows| && FirstAt(spec, want, rows, taken, b) && rows[b][".id"] == id
  }

  lemma {:induction false} PickMeans(spec: MenuSpec, want: Record, rows: seq<Record>, taken: seq<string>)
    ensures FirstToServe(spec, want, rows, taken, Pick(spec, want, rows, Claimed(taken)))
  {
    hide Serves;
    if rows != [] {
      var row, rest := rows[0], rows[1..];
      EligibleLeft(spec, want, taken, row);
      PickMeans(spec, want, rest, taken);
      var id := Pick(spec, want, rest, Claimed(taken));
      if Eligible(spec, want, Claimed(taken), row) {
        assert FirstAt(spec, want, rows, taken, 0);
      } else if id == "" {
        assert forall r | r in rows :: r == row || r in rest;
      } else {
        var b :| 0 <= b < |rest| && FirstAt(spec, want, rest, taken, b) && rest[b][".id"] == id;
        assert rows[b + 1] == rest[b];
        forall a | 0 <= a < b + 1 && Serves(spec, want, rows[a])
          ensures !Left(taken, rows[a])
        {
          if a > 0 { assert rows[a] == rest[a - 1]; }
        }
        assert FirstAt(spec, want, rows, taken, b + 1);
      }
    }
  }

  lemma EligibleLeft(spec: MenuSpec, want: Record, taken: seq<string>, row: Record)
    ensures Eligible(spec, want, Claimed(taken), row) <==> Serves(spec, want, row) && Left(taken, row)
    ensures Eligible(spec, want, Claimed(taken), row) ==> IdOf(row) == row[".id"] != ""
  {
    EligibleMeans(spec, want, Claimed(taken), row);
    hide DevicesOwn, SaysWanted, Ignored, Recognises;
  }

  /**
   The pairing of a plan: each desired row gets the first row in device order that
   can serve it and is left, and without a key all such rows are twins.
   */
  lemma PairedExactly(spec: MenuSpec, desired: seq<Record>, rows: seq<Record>, p: Plan, i: nat)
    requires UniqueIds(rows) && MakePlan(spec, desired, rows) == Planned(p) && i < |desired|
    ensures |p.matched| == |desired|
    ensures FirstToServe(spec, desired[i], rows, p.matched[..i], p.matched[i])
    ensures spec.key == "" ==>
      forall a, b | a in rows && b in rows && Serves(spec, desired[i], a) && Serves(spec, desired[i], b)
                    && Left(p.matched[..i], a) && Left(p.matched[..i], b) :: Twins(a, b)
  {
    PlannedFacts(spec, desired, rows, p);
    PickMeans(spec, desired[i], rows, p.matched[..i]);
    ClearMeans(spec, desired[i], rows, p.matched[..i]);
    hide UniqueIds, MakePlan, Resolve, Pick, FirstToServe, Serves, Left, Twins;
  }

  lemma ClearMeans(spec: MenuSpec, want: Record, rows: seq<Record>, taken: seq<string>)
    ensures Clear(spec, want, rows, Claimed(taken)) <==>
      spec.key != "" ||
      forall a, b | a in rows && b in rows && Serves(spec, want, a) && Serves(spec, want, b) && Left(taken, a) && Left(taken, b) :: Twins(a, b)
  {
    forall r | r in rows
      ensures Eligible(spec, want, Claimed(taken), r) <==> Serves(spec, want, r) && Left(taken, r)
    {
      EligibleLeft(spec, want, taken, r);
    }
    forall a, b | a in rows && b in rows
      ensures SameContent(a, b) <==> Twins(a, b)
    {
      TwinsMeans(a, b);
    }
    hide Eligible, Serves, Left, Twins, SameContent;
  }

  // ---- What is refused ----

  /**
   A plan is refused without a policy, then for an empty selector, then at the first
   desired row, on a keyless menu, that rows could serve which are not twins; the
   refusal lists all of them.
   */
  lemma RefusedExactly(spec: MenuSpec, desired: seq<Record>, rows: seq<Record>)
    requires UniqueIds(rows)
    ensures spec.unlisted == Unset <==> MakePlan(spec, desired, rows) == Rejected(NoUnlistedPolicy)
    ensures spec.unlisted != Unset && map[] in spec.ignore <==> MakePlan(spec, desired, rows) == Rejected(EmptyIgnoreSelector)
    ensures
      var m := MakePlan(spec, desired, rows);
      m.Rejected? && m.error.AmbiguousRow? ==>
        && m.error.index < |desired| && spec.key == "" && Resolve(spec, desired, rows, m.error.index).Paired?
        && AmbiguousAt(spec, desired[m.error.index], rows, Resolve(spec, desired, rows, m.error.index).matched, m.error.ids)
  {
    EmptyMeans(spec);
    if spec.unlisted != Unset && map[] !in spec.ignore && MakePlan(spec, desired, rows).Rejected? {
      var c := Resolve(spec, desired, rows, |desired|);
      ConflictMeans(spec, desired, rows, |desired|);
    }
    hide Resolve;
  }

  lemma EmptyMeans(spec: MenuSpec)
    ensures (exists s | s in spec.ignore :: s == map[]) <==> map[] in spec.ignore
  {
  }

  /** Rows are left that could serve and are not twins; `ids` lists all that could, in device order. */
  ghost predicate AmbiguousAt(spec: MenuSpec, want: Record, rows: seq<Record>, taken: seq<string>, ids: seq<string>) {
    && (exists a, b :: a in rows && b in rows && Serves(spec, want, a) && Serves(spec, want, b)
                       && Left(taken, a) && Left(taken, b) && !Twins(a, b))
    && ids == Serving(spec, want, rows, taken)
  }

  function Serving(spec: MenuSpec, want: Record, rows: seq<Record>, taken: seq<string>): seq<string> {
    if rows == [] then []
    else (if Serves(spec, want, rows[0]) && Left(taken, rows[0]) then [rows[0][".id"]] else []) + Serving(spec, want, rows[1..], taken)
  }

  lemma {:induction false} ServingMeans(spec: MenuSpec, want: Record, rows: seq<Record>, taken: seq<string>)
    ensures Ids(Eligibles(spec, want, rows, Claimed(taken))) == Serving(spec, want, rows, taken)
  {
    hide Serves, Left, Eligible, IdOf;
    if rows != [] {
      ServingMeans(spec, want, rows[1..], taken);
      EligibleLeft(spec, want, taken, rows[0]);
      IdsCons(rows[0], Eligibles(spec, want, rows[1..], Claimed(taken)));
    }
  }

  lemma {:induction false} ConflictMeans(spec: MenuSpec, desired: seq<Record>, rows: seq<Record>, n: nat)
    requires UniqueIds(rows) && n <= |desired| && Resolve(spec, desired, rows, n).Conflict?
    ensures
      var c := Resolve(spec, desired, rows, n);
      && c.index < |desired| && spec.key == "" && Resolve(spec, desired, rows, c.index).Paired?
      && AmbiguousAt(spec, desired[c.index], rows, Resolve(spec, desired, rows, c.index).matched, c.ids)
  {
    hide UniqueIds, AmbiguousAt, Candidates, Indistinguishable, Claimed;
    if Resolve(spec, desired, rows, n - 1).Conflict? {
      ConflictMeans(spec, desired, rows, n - 1);
      ConflictStays(spec, desired, rows, n - 1, n);
      hide Resolve;
    } else {
      ConflictHere(spec, desired, rows, n - 1);
    }
  }

  lemma ConflictHere(spec: MenuSpec, desired: seq<Record>, rows: seq<Record>, n: nat)
    requires UniqueIds(rows) && n < |desired| && Resolve(spec, desired, rows, n).Paired?
    requires Resolve(spec, desired, rows, n + 1).Conflict?
    ensures
      var c, taken := Resolve(spec, desired, rows, n + 1), Resolve(spec, desired, rows, n).matched;
      c.index == n && spec.key == "" && AmbiguousAt(spec, desired[n], rows, taken, c.ids)
  {
    var taken := Resolve(spec, desired, rows, n).matched;
    ResolveStep(spec, desired, rows, n);
    ClearMeans(spec, desired[n], rows, taken);
    ServingMeans(spec, desired[n], rows, taken);
    ConflictIds(spec, desired, rows, n);
    hide UniqueIds, Resolve, Serves, Left, Twins, Eligibles, Serving, Pick;
  }

  lemma ConflictIds(spec: MenuSpec, desired: seq<Record>, rows: seq<Record>, n: nat)
    requires n < |desired| && Resolve(spec, desired, rows, n).Paired? && Resolve(spec, desired, rows, n + 1).Conflict?
    ensures spec.key == ""
    ensures Resolve(spec, desired, rows, n + 1).ids
         == Ids(Eligibles(spec, desired[n], rows, Claimed(Resolve(spec, desired, rows, n).matched)))
  {
    hide Eligibles, Indistinguishable;
  }

  // ---- The writes ----

  /** What the wanted row sets and the row does not say, the identifier aside. */
  function Differences(want: Record, row: Record): Record {
    map k | k in want && k != ".id" && (k !in row || row[k] != want[k]) :: want[k]
  }

  lemma ChangesMean(want: Record, row: Record)
    ensures Changes(want, row) == Differences(want, row)
  {
  }

  /** One desired row's write: its creation when nothing serves it; with a key, the fields that differ, if any do. */
  predicate WriteOf(spec: MenuSpec, want: Record, rows: seq<Record>, id: string, step: Step) {
    if id == "" then step == Create(want)
    else spec.key != "" && Differences(want, ByID(rows, id)) != map[] && step == Update(id, Differences(want, ByID(rows, id)))
  }

  lemma WriteMeans(spec: MenuSpec, want: Record, rows: seq<Record>, id: string, step: Step)
    ensures step in Write(spec, want, rows, id) <==> WriteOf(spec, want, rows, id, step)
    ensures |Write(spec, want, rows, id)| <= 1
  {
    ChangesMean(want, ByID(rows, id));
    hide Changes, Differences, ByID;
  }

  /** `writes` are the writes of the desired rows at the places `from`. */
  predicate WritesFrom(spec: MenuSpec, desired: seq<Record>, rows: seq<Record>, matched: seq<string>, n: nat,
                       writes: seq<Step>, from: seq<nat>)
    requires n <= |desired| == |matched|
  {
    && |from| == |writes| && (forall i, j | 0 <= i < j < |from| :: from[i] < from[j])
    && forall j | 0 <= j < |from| :: from[j] < n && WriteOf(spec, desired[from[j]], rows, matched[from[j]], writes[j])
  }

  lemma WritesFromSnoc(spec: MenuSpec, desired: seq<Record>, rows: seq<Record>, matched: seq<string>, n: nat,
                       writes: seq<Step>, from: seq<nat>, last: seq<Step>)
    requires n < |desired| == |matched| && WritesFrom(spec, desired, rows, matched, n, writes, from)
    requires |last| <= 1 && (last != [] ==> WriteOf(spec, desired[n], rows, matched[n], last[0]))
    ensures WritesFrom(spec, desired, rows, matched, n + 1, writes + last, if last == [] then from else from + [n])
  {
    hide WriteOf;
    if last == [] {
      assert writes + last == writes;
    } else {
      assert (writes + last)[|writes|] == last[0];
      assert forall j | 0 <= j < |writes| :: (writes + last)[j] == writes[j];
    }
  }

  lemma {:induction false} WritesMean(spec: MenuSpec, desired: seq<Record>, rows: seq<Record>, matched: seq<string>, n: nat)
    returns (from: seq<nat>)
    requires n <= |desired| == |matched|
    ensures WritesFrom(spec, desired, rows, matched, n, Writes(spec, desired, rows, matched, n), from)
  {
    hide WriteOf, Write;
    if n == 0 {
      from := [];
    } else {
      var before := WritesMean(spec, desired, rows, matched, n - 1);
      var last := Write(spec, desired[n - 1], rows, matched[n - 1]);
      LastWrite(spec, desired[n - 1], rows, matched[n - 1], last);
      WritesFromSnoc(spec, desired, rows, matched, n - 1, Writes(spec, desired, rows, matched, n - 1), before, last);
      from := if last == [] then before else before + [n - 1];
      hide WritesFrom;
    }
  }

  /** Every write that is due is made. */
  lemma {:induction false} WriteMade(spec: MenuSpec, desired: seq<Record>, rows: seq<Record>, matched: seq<string>, n: nat, i: nat, step: Step)
    requires i < n <= |desired| == |matched| && WriteOf(spec, desired[i], rows, matched[i], step)
    ensures step in Writes(spec, desired, rows, matched, n)
  {
    hide WriteOf, Write;
    if i < n - 1 {
      WriteMade(spec, desired, rows, matched, n - 1, i, step);
    } else {
      WriteMeans(spec, desired[i], rows, matched[i], step);
    }
  }

  lemma LastWrite(spec: MenuSpec, want: Record, rows: seq<Record>, id: string, last: seq<Step>)
    requires last == Write(spec, want, rows, id)
    ensures |last| <= 1 && (last != [] ==> WriteOf(spec, want, rows, id, last[0]))
    ensures forall step | WriteOf(spec, want, rows, id, step) :: step in last
  {
    forall step
      ensures step in last <==> WriteOf(spec, want, rows, id, step)
    {
      WriteMeans(spec, want, rows, id, step);
    }
    WriteMeans(spec, want, rows, id, Create(want));
    hide Write, WriteOf;
    if last != [] {
      assert last[0] in last;
    }
  }

  lemma {:induction false} PrunesFrom(spec: MenuSpec, rows: seq<Record>, claimed: set<string>)
    returns (gone: seq<nat>)
    ensures
      var prunes := Prunes(spec, rows, claimed);
      && |gone| == |prunes| && (forall i, j | 0 <= i < j < |gone| :: gone[i] < gone[j])
      && forall j | 0 <= j < |gone| :: gone[j] < |rows| && prunes[j] == Delete(IdOf(rows[gone[j]]), rows[gone[j]])
  {
    hide Open, IdOf;
    if rows == [] {
      gone := [];
    } else {
      var rest := PrunesFrom(spec, rows[1..], claimed);
      var later := seq(|rest|, j requires 0 <= j < |rest| => rest[j] + 1);
      gone := if Open(spec, claimed, rows[0]) then [0] + later else later;
    }
  }

  /**
   A plan is the writes of the desired rows, in their order, then the deletes in
   device order, then moves; and every write that is due is there.
   */
  lemma PlanInOrder(spec: MenuSpec, desired: seq<Record>, rows: seq<Record>, p: Plan)
    returns (from: seq<nat>, gone: seq<nat>)
    requires UniqueIds(rows) && MakePlan(spec, desired, rows) == Planned(p)
    ensures |p.matched| == |desired| && |from| + |gone| <= |p.steps|
    ensures forall i, j | 0 <= i < j < |from| :: from[i] < from[j]
    ensures forall j | 0 <= j < |from| ::
      from[j] < |desired| && WriteOf(spec, desired[from[j]], rows, p.matched[from[j]], p.steps[j])
    ensures forall i, step | 0 <= i < |desired| && WriteOf(spec, desired[i], rows, p.matched[i], step) :: step in p.steps[..|from|]
    ensures forall i, j | 0 <= i < j < |gone| :: gone[i] < gone[j]
    ensures forall j | 0 <= j < |gone| ::
      gone[j] < |rows| && p.steps[|from| + j] == Delete(IdOf(rows[gone[j]]), rows[gone[j]])
    ensures forall j | |from| + |gone| <= j < |p.steps| :: p.steps[j].Move?
  {
    hide MakePlan, UniqueIds, Greedy, Resolve, WriteOf, Open, IdOf, Reorder, Prunes, Writes;
    PlannedFacts(spec, desired, rows, p);
    from := WritesMean(spec, desired, rows, p.matched, |desired|);
    gone := [];
    if spec.unlisted == Prune {
      gone := PrunesFrom(spec, rows, Claimed(p.matched));
    }
    var writes := Writes(spec, desired, rows, p.matched, |desired|);
    var prunes := if spec.unlisted == Prune then Prunes(spec, rows, Claimed(p.matched)) else [];
    var moves := if spec.ordered then Reorder(rows, p.matched) else [];
    assert p.steps == writes + prunes + moves;
    assert p.steps[..|from|] == writes;
    forall i, step | 0 <= i < |desired| && WriteOf(spec, desired[i], rows, p.matched[i], step)
      ensures step in writes
    {
      WriteMade(spec, desired, rows, p.matched, |desired|, i, step);
    }
    ReorderShape(rows, p.matched);
    forall j | |from| + |gone| <= j < |p.steps|
      ensures p.steps[j].Move?
    {
      assert p.steps[j] == moves[j - |writes| - |prunes|];
      assert p.steps[j] in moves;
    }
  }

  // ---- The moves ----

  /** The identifiers of the rows that serve, in desired order. */
  function InDesiredOrder(matched: seq<string>): seq<string> {
    if matched == [] then []
    else if matched[0] == "" then InDesiredOrder(matched[1..])
    else [matched[0]] + InDesiredOrder(matched[1..])
  }

  /** And in device order. */
  function InDeviceOrder(rows: seq<Record>, matched: seq<string>): seq<string> {
    if rows == [] then []
    else (if ".id" in rows[0] && rows[0][".id"] != "" && rows[0][".id"] in matched then [rows[0][".id"]] else [])
         + InDeviceOrder(rows[1..], matched)
  }

  lemma {:induction false} WantedMeans(matched: seq<string>)
    ensures Wanted(matched) == InDesiredOrder(matched)
  {
    if matched != [] {
      WantedMeans(matched[1..]);
    }
  }

  lemma {:induction false} HaveMeans(rows: seq<Record>, matched: seq<string>)
    ensures Have(rows, Claimed(matched)) == InDeviceOrder(rows, matched)
  {
    if rows != [] {
      HaveMeans(rows[1..], matched);
      HaveCons(rows, Claimed(matched));
      hide Have;
    }
  }

  lemma {:induction false} PairwiseAt(want: seq<string>, i: nat)
    requires i < |want|
    ensures |Pairwise(want, i)| == i
    ensures forall j | 0 <= j < i :: Pairwise(want, i)[j] == Move([want[i - 1 - j]], want[i - j])
  {
    if i > 0 {
      PairwiseAt(want, i - 1);
    }
  }

  /**
   The moves of a plan: none where order does not matter or is right already; one
   that lists every row, where the desired rows own the menu; else each row before
   its successor, last pair first.
   */
  lemma MovedExactly(spec: MenuSpec, desired: seq<Record>, rows: seq<Record>, p: Plan)
    returns (moves: seq<Step>)
    requires UniqueIds(rows) && MakePlan(spec, desired, rows) == Planned(p)
    ensures p.steps == NonMoves(p.steps) + moves
    ensures
      var want, have := InDesiredOrder(p.matched), InDeviceOrder(rows, p.matched);
      var n := |want|;
      if !spec.ordered || n < 2 || want == have then moves == []
      else if |have| == |rows| then moves == [Move(want, "")]
      else |moves| == n - 1 && forall j | 0 <= j < n - 1 :: moves[j] == Move([want[n - 2 - j]], want[n - 1 - j])
  {
    hide MakePlan, UniqueIds, Greedy, Resolve, Mutations, Have, Wanted, Pairwise, Reorder, NonMoves, InDesiredOrder, InDeviceOrder;
    PlannedFacts(spec, desired, rows, p);
    moves := if spec.ordered then Reorder(rows, p.matched) else [];
    assert p.steps == NonMoves(p.steps) + moves;
    ReorderMeans(rows, p.matched);
  }

  lemma ReorderMeans(rows: seq<Record>, matched: seq<string>)
    ensures
      var want, have, moves := InDesiredOrder(matched), InDeviceOrder(rows, matched), Reorder(rows, matched);
      var n := |want|;
      if n < 2 || want == have then moves == []
      else if |have| == |rows| then moves == [Move(want, "")]
      else |moves| == n - 1 && forall j | 0 <= j < n - 1 :: moves[j] == Move([want[n - 2 - j]], want[n - 1 - j])
  {
    WantedMeans(matched);
    HaveMeans(rows, matched);
    hide Have, Wanted, Pairwise, InDesiredOrder, InDeviceOrder, Claimed;
    var want := Wanted(matched);
    if |want| >= 2 {
      PairwiseAt(want, |want| - 1);
    }
  }

  /** What a move does: the listed rows leave their places and stand, as listed, at the end or right before the row named. */
  lemma MovePlaces(rows: seq<Record>, order: seq<string>, before: string) returns (ahead: seq<Record>, behind: seq<Record>)
    requires before != "" ==> before in Ids(rows) && before !in order
    ensures Without(rows, Listed(order)) == ahead + behind
    ensures Place(rows, order, before) == ahead + Block(rows, order) + behind
    ensures if before == "" then behind == [] else behind != [] && IdOf(behind[0]) == before
  {
    var rest := Without(rows, Listed(order));
    var k := if before == "" then |rest| else Ahead(rest, before);
    ahead, behind := rest[..k], rest[k..];
    if before != "" {
      ByIDMember(rows, before);
      assert ByID(rows, before) in rest;
      IdsMember(rest, ByID(rows, before));
      hide Without, Ahead;
      AheadHits(rest, before);
    }
  }

  // ---- A whole apply ----

  /**
   Success, written out: each desired row has a row of its own in the final menu
   holding every field it sets, in order where order matters, and under prune every
   other addressable row is the device's own.
   */
  lemma ApplyHolds(spec: MenuSpec, desired: seq<Record>, approval: Approval, rows: seq<Record>, env: Env)
    returns (place: seq<nat>)
    requires UniqueIds(rows) && Apply(spec, desired, approval, rows, env).failure.None?
    ensures
      var after := Apply(spec, desired, approval, rows, env).rows;
      && |place| == |desired| && (forall i | 0 <= i < |desired| :: place[i] < |after|)
      && (forall i, k | 0 <= i < |desired| && k in desired[i] && k != ".id" ::
            k in after[place[i]] && after[place[i]][k] == desired[i][k])
      && (forall i, j | 0 <= i < j < |desired| :: place[i] != place[j] && (spec.ordered ==> place[i] < place[j]))
      && (spec.unlisted == Prune ==>
            forall a | 0 <= a < |after| && ".id" in after[a] && after[a][".id"] != "" :: a in place || DevicesOwn(spec, after[a]))
  {
    place := ApplySound(spec, desired, approval, rows, env);
    hide Apply;
    hide DevicesOwn, UniqueIds;
  }

  /** It is reported what was done: the steps put to the router are the reported plan's, up to the one that failed, and all of them on success. */
  lemma ReportedIsDone(spec: MenuSpec, desired: seq<Record>, approval: Approval, rows: seq<Record>, env: Env)
    ensures
      var out := Apply(spec, desired, approval, rows, env);
      && out.log <= out.plan.steps
      && (out.failure.None? ==> out.log == out.plan.steps)
      && (out.failure.Some? && out.failure.value.StepFailed? ==> out.log != [])
  {
    hide MakePlan, NonMoves, Structural;
  }

  /** The number in a failure is that of the step that failed, counted from the first step or, in the ordering half, from the first move. */
  lemma FailureNumbered(spec: MenuSpec, desired: seq<Record>, approval: Approval, rows: seq<Record>, env: Env)
    ensures
      var out := Apply(spec, desired, approval, rows, env);
      out.failure.Some? && out.failure.value.StepFailed? ==>
        var i := out.failure.value.index;
        |out.log| == i + 1 || (spec.ordered && |out.log| == |NonMoves(out.log)| + i + 1)
  {
    hide MakePlan, Run, Structural, NonMoves, ApplyOrder;
    if MakePlan(spec, desired, rows).Planned? {
      var p := MakePlan(spec, desired, rows).plan;
      var mutations := NonMoves(p.steps);
      var run := Run(mutations, rows, env, 1);
      OrderNumbered(spec, desired, mutations, p.matched, run.rows, env, 1 + |mutations|);
      StructuralOrdered(spec, p);
    }
  }

  lemma StructuralOrdered(spec: MenuSpec, p: Plan)
    ensures Structural(spec, p) ==> spec.ordered
  {
  }

  lemma OrderNumbered(spec: MenuSpec, desired: seq<Record>, mutations: seq<Step>, matched: seq<string>,
                      rows: seq<Record>, env: Env, t: nat)
    requires forall s | s in mutations :: !s.Move?
    ensures
      var out := ApplyOrder(spec, desired, mutations, matched, rows, env, t);
      out.failure.Some? && out.failure.value.StepFailed? ==> |out.log| == |NonMoves(out.log)| + out.failure.value.index + 1
  {
    hide MakePlan, Run, NonMoves;
    NonMovesAll(mutations);
    if MakePlan(spec, desired, rows).Planned? {
      var q := MakePlan(spec, desired, rows).plan;
      if NonMoves(q.steps) == [] {
        var tried := Run(q.steps, rows, env, t + 1).tried;
        NonMovesConcat(mutations, q.steps[..tried]);
        MovesPrefix(q.steps, tried);
        assert mutations + [] == mutations;
      }
    }
  }

  lemma MovesPrefix(steps: seq<Step>, n: nat)
    requires NonMoves(steps) == [] && n <= |steps|
    ensures NonMoves(steps[..n]) == []
  {
    forall s | s in steps[..n]
      ensures s.Move?
    {
      assert s in steps;
      assert s !in NonMoves(steps);
    }
    NonMovesNone(steps[..n]);
  }

  /**
   What is reported: the approved plan itself, where it makes and removes nothing or
   order does not matter; else its writes, followed by moves alone.
   */
  lemma ReportedExactly(spec: MenuSpec, desired: seq<Record>, approval: Approval, rows: seq<Record>, env: Env, p: Plan)
    requires MakePlan(spec, desired, rows) == Planned(p) && At(env, 0).Done?
    requires approval.Unchecked? || approval.accepts(p)
    ensures
      var out := Apply(spec, desired, approval, rows, env);
      if spec.ordered && exists j :: 0 <= j < |p.steps| && (p.steps[j].Create? || p.steps[j].Delete?) then
        exists moves ::
          && out.plan.steps == NonMoves(p.steps) + moves && (forall s | s in moves :: s.Move?)
          && (moves != [] ==> MakePlan(spec, desired, Run(NonMoves(p.steps), rows, env, 1).rows) == Planned(Plan(moves, out.plan.matched)))
      else
        out.plan == p && out.rows == Run(p.steps, rows, env, 1).rows && (out.failure.None? <==> Run(p.steps, rows, env, 1).ok)
  {
    StructuralMeans(spec, p);
    hide MakePlan, Structural, Run;
    if Structural(spec, p) {
      var run := Run(NonMoves(p.steps), rows, env, 1);
      if run.ok {
        OrderReports(spec, desired, NonMoves(p.steps), p.matched, run.rows, env, 1 + |NonMoves(p.steps)|);
      } else {
        assert NonMoves(p.steps) == NonMoves(p.steps) + [];
      }
    }
  }

  lemma StructuralMeans(spec: MenuSpec, p: Plan)
    ensures Structural(spec, p) <==> spec.ordered && exists j :: 0 <= j < |p.steps| && (p.steps[j].Create? || p.steps[j].Delete?)
  {
    if Structural(spec, p) {
      var s :| s in p.steps && (s.Create? || s.Delete?);
      var j :| 0 <= j < |p.steps| && p.steps[j] == s;
    }
    if spec.ordered {
      if j :| 0 <= j < |p.steps| && (p.steps[j].Create? || p.steps[j].Delete?) {
        assert p.steps[j] in p.steps;
      }
    }
  }

  lemma OrderReports(spec: MenuSpec, desired: seq<Record>, mutations: seq<Step>, matched: seq<string>,
                     rows: seq<Record>, env: Env, t: nat)
    ensures
      var out := ApplyOrder(spec, desired, mutations, matched, rows, env, t);
      exists moves ::
        && out.plan.steps == mutations + moves && (forall s | s in moves :: s.Move?)
        && (moves != [] ==> MakePlan(spec, desired, rows) == Planned(Plan(moves, out.plan.matched)))
  {
    var out := ApplyOrder(spec, desired, mutations, matched, rows, env, t);
    hide MakePlan, Run;
    assert mutations == mutations + [];
    if At(env, t).Done? && MakePlan(spec, desired, rows).Planned? {
      var q := MakePlan(spec, desired, rows).plan;
      if NonMoves(q.steps) == [] {
        forall s | s in q.steps
          ensures s.Move?
        {
          assert s !in NonMoves(q.steps);
        }
        assert out.plan.steps == mutations + q.steps;
        assert q == Plan(q.steps, out.plan.matched);
      } else {
        assert out.plan.steps == mutations + [];
      }
    } else {
      assert out.plan.steps == mutations + [];
    }
  }
}
