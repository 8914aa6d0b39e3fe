/**
 The planner as it runs: the loops of rest/menu.go:155-372 and 479-486, each
 proved to compute what `MenuPlan` says a plan is.
 */
module MenuPlanner {
  import opened Records
  import opened MenuPlan

  method FindRow(rows: seq<Record>, id: string) returns (row: Record)
    ensures row == ByID(rows, id)
  {
    for i := 0 to |rows|
      invariant ByID(rows[i..], id) == ByID(rows, id)
    {
      if IdOf(rows[i]) == id {
        return rows[i];
      }
      assert rows[i..][1..] == rows[i + 1..];
    }
    row := map[];
  }

  method IsIgnored(spec: MenuSpec, row: Record) returns (b: bool)
    ensures b == Ignored(spec, row)
    ensures b <==> DevicesOwn(spec, row)
  {
    IgnoredMeans(spec, row);
    for i := 0 to |spec.ignore|
      invariant forall j | 0 <= j < i :: !Contains(row, spec.ignore[j])
    {
      if Contains(row, spec.ignore[i]) {
        return true;
      }
    }
    b := false;
  }

  /** The loop of `changes`, over the fields in whatever order they come. */
  method FindChanges(want: Record, row: Record) returns (out: Record)
    ensures out == Changes(want, row)
  {
    out := map[];
    var left := want.Keys;
    while left != {}
      invariant left <= want.Keys
      invariant forall k :: k in out <==> k in Changes(want, row) && k !in left
      invariant forall k | k in out :: out[k] == want[k]
    {
      var k :| k in left;
      left := left - {k};
      if k != ID_FIELD && !(k in row && row[k] == want[k]) {
        out := out[k := want[k]];
      }
    }
  }

  method ListCandidates(spec: MenuSpec, want: Record, current: seq<Record>, claimed: set<string>) returns (ids: seq<string>)
    ensures ids == Candidates(spec, want, current, claimed)
  {
    ids := [];
    for n := 0 to |current|
      invariant spec.key == "" ==> ids == Ids(Eligibles(spec, want, current[..n], claimed))
      invariant spec.key != "" ==> ids == [] && Eligibles(spec, want, current[..n], claimed) == []
    {
      var row := current[n];
      var id := IdOf(row);
      EligiblesSnoc(spec, want, current, n, claimed);
      var skip := IsIgnored(spec, row);
      if id == "" || id in claimed || skip {
      } else if spec.key != "" {
        if spec.key in want && spec.key in row && row[spec.key] == want[spec.key] {
          EligiblesFirst(spec, want, current, n, claimed);
          return [id];
        }
      } else if Subset(want, row) {
        ids := ids + [id];
      }
    }
    assert current[..|current|] == current;
  }

  lemma EligiblesSnoc(spec: MenuSpec, want: Record, current: seq<Record>, n: nat, claimed: set<string>)
    requires n < |current|
    ensures
      var e := Eligibles(spec, want, current[..n], claimed);
      var row := current[n];
      && Eligibles(spec, want, current[..n + 1], claimed) == (if Eligible(spec, want, claimed, row) then e + [row] else e)
      && Ids(e + [row]) == Ids(e) + [IdOf(row)]
  {
    assert current[..n + 1] == current[..n] + [current[n]];
    EligiblesConcat(spec, want, current[..n], [current[n]], claimed);
    assert [current[n]][1..] == [];
  }

  lemma EligiblesFirst(spec: MenuSpec, want: Record, current: seq<Record>, n: nat, claimed: set<string>)
    requires n < |current| && Eligibles(spec, want, current[..n], claimed) == [] && Eligible(spec, want, claimed, current[n])
    ensures Eligibles(spec, want, current, claimed) != [] && Eligibles(spec, want, current, claimed)[0] == current[n]
  {
    assert current == current[..n] + current[n..];
    EligiblesConcat(spec, want, current[..n], current[n..], claimed);
  }

  method AreIndistinguishable(current: seq<Record>, ids: seq<string>) returns (b: bool)
    requires ids != []
    ensures b == Indistinguishable(current, ids)
  {
    var first := FindRow(current, ids[0]);
    for i := 1 to |ids|
      invariant forall j | 1 <= j < i :: SameContent(first, ByID(current, ids[j]))
    {
      var other := FindRow(current, ids[i]);
      if Content(first) != Content(other) {
        return false;
      }
    }
    b := true;
  }

  lemma NothingWanted(claimed: set<string>)
    ensures Wanted([]) == [] && Have([], claimed) == []
  {
  }

  lemma PairwiseNext(want: seq<string>, i: nat, steps: seq<Step>)
    requires 0 < i < |want|
    ensures steps + Pairwise(want, i) == steps + [Move([want[i - 1]], want[i])] + Pairwise(want, i - 1)
  {
  }

  lemma NoMoves(want: seq<string>, steps: seq<Step>)
    requires want != []
    ensures steps + Pairwise(want, 0) == steps
  {
  }

  lemma ReorderCases(current: seq<Record>, matched: seq<string>)
    ensures
      var want, have := Wanted(matched), Have(current, Claimed(matched));
      Reorder(current, matched) ==
        if |want| < 2 || want == have then []
        else if |have| == |current| then [Move(want, "")]
        else Pairwise(want, |want| - 1)
  {
  }

  method PlanMoves(current: seq<Record>, matched: seq<string>, claimed: set<string>) returns (steps: seq<Step>)
    requires claimed == Claimed(matched)
    ensures steps == Reorder(current, matched)
  {
    assert matched[..0] == [] && current[..0] == [];
    NothingWanted(claimed);
    hide Have, Wanted, IdOf, Claimed, Pairwise, Reorder;
    var want: seq<string> := [];
    for i := 0 to |matched|
      invariant want == Wanted(matched[..i])
    {
      WantedNext(matched, i);
      if matched[i] != "" {
        want := want + [matched[i]];
      }
    }
    assert matched[..|matched|] == matched;
    ReorderCases(current, matched);
    if |want| < 2 {
      return [];
    }
    var have: seq<string> := [];
    for i := 0 to |current|
      invariant have == Have(current[..i], claimed)
    {
      HaveNext(current, i, claimed);
      if IdOf(current[i]) in claimed {
        have := have + [IdOf(current[i])];
      }
    }
    assert current[..|current|] == current;
    if want == have {
      return [];
    }
    if |have| == |current| {
      return [Move(want, "")];
    }
    steps := PairMoves(want);
  }

  /** Its anchored pairs, last pair first. */
  method PairMoves(want: seq<string>) returns (steps: seq<Step>)
    requires want != []
    ensures steps == Pairwise(want, |want| - 1)
  {
    hide Pairwise;
    steps := [];
    var i := |want| - 1;
    while i > 0
      invariant 0 <= i < |want|
      invariant steps + Pairwise(want, i) == Pairwise(want, |want| - 1)
    {
      PairwiseNext(want, i, steps);
      steps := steps + [Move([want[i - 1]], want[i])];
      i := i - 1;
    }
    NoMoves(want, steps);
  }

  lemma WantedNext(matched: seq<string>, i: nat)
    requires i < |matched|
    ensures Wanted(matched[..i + 1]) == Wanted(matched[..i]) + (if matched[i] == "" then [] else [matched[i]])
  {
    assert matched[..i + 1] == matched[..i] + [matched[i]];
    WantedConcat(matched[..i], [matched[i]]);
    assert [matched[i]][1..] == [];
  }

  lemma HaveNext(current: seq<Record>, i: nat, claimed: set<string>)
    requires i < |current|
    ensures Have(current[..i + 1], claimed)
         == Have(current[..i], claimed) + (if IdOf(current[i]) in claimed then [IdOf(current[i])] else [])
  {
    assert current[..i + 1] == current[..i] + [current[i]];
    OnlyConcat(current[..i], [current[i]], claimed);
    assert [current[i]][1..] == [];
  }

  /** The matching loop of `plan`: pairs every desired row, or stops at the first ambiguity. */
  method PairRows(spec: MenuSpec, desired: seq<Record>, current: seq<Record>) returns (p: Pairing, claimed: set<string>)
    ensures p == Resolve(spec, desired, current, |desired|)
    ensures p.Paired? ==> claimed == Claimed(p.matched)
  {
    hide Candidates, Indistinguishable;
    var matched: seq<string> := [];
    claimed := {};
    for i := 0 to |desired|
      invariant Resolve(spec, desired, current, i) == Paired(matched) && claimed == Claimed(matched)
    {
      var ids := ListCandidates(spec, desired[i], current, claimed);
      if |ids| > 1 {
        var same := AreIndistinguishable(current, ids);
        if !same {
          ConflictStays(spec, desired, current, i + 1, |desired|);
          return Conflict(i, ids), claimed;
        }
      }
      if |ids| > 0 {
        CandidateNamed(spec, desired[i], current, claimed);
        claimed := claimed + {ids[0]};
        matched := matched + [ids[0]];
      } else {
        matched := matched + [""];
      }
    }
    p := Paired(matched);
  }

  /** A candidate has an identifier. */
  lemma CandidateNamed(spec: MenuSpec, want: Record, current: seq<Record>, claimed: set<string>)
    ensures var ids := Candidates(spec, want, current, claimed); ids != [] ==> ids[0] != ""
  {
    var e := Eligibles(spec, want, current, claimed);
    if e != [] {
      assert e[0] in e;
    }
  }

  /** The whole of `plan`. */
  method PlanMenu(spec: MenuSpec, desired: seq<Record>, current: seq<Record>) returns (r: PlanResult)
    ensures r == MakePlan(spec, desired, current)
  {
    hide Reorder, Writes, Prunes, Claimed;
    if spec.unlisted == Unset {
      return Rejected(NoUnlistedPolicy);
    }
    for i := 0 to |spec.ignore|
      invariant forall j | 0 <= j < i :: spec.ignore[j] != map[]
    {
      if spec.ignore[i] == map[] {
        assert spec.ignore[i] in spec.ignore;
        return Rejected(EmptyIgnoreSelector);
      }
    }

    var pairing, claimed := PairRows(spec, desired, current);
    if pairing.Conflict? {
      return Rejected(AmbiguousRow(pairing.index, pairing.ids));
    }
    var matched := pairing.matched;
    var steps := PlanWrites(spec, desired, current, matched);
    if spec.unlisted == Prune {
      var deletes := PlanDeletes(spec, current, claimed);
      steps := steps + deletes;
    }
    if spec.ordered {
      var moves := PlanMoves(current, matched, claimed);
      steps := steps + moves;
    }
    r := Planned(Plan(steps, matched));
  }

  method PlanWrites(spec: MenuSpec, desired: seq<Record>, current: seq<Record>, matched: seq<string>) returns (steps: seq<Step>)
    requires |matched| == |desired|
    ensures steps == Writes(spec, desired, current, matched, |desired|)
  {
    steps := [];
    for i := 0 to |desired|
      invariant steps == Writes(spec, desired, current, matched, i)
    {
      if matched[i] == "" {
        steps := steps + [Create(desired[i])];
      } else if spec.key != "" {
        var row := FindRow(current, matched[i]);
        var diff := FindChanges(desired[i], row);
        if diff != map[] {
          steps := steps + [Update(matched[i], diff)];
        }
      }
    }
  }

  method PlanDeletes(spec: MenuSpec, current: seq<Record>, claimed: set<string>) returns (steps: seq<Step>)
    ensures steps == Prunes(spec, current, claimed)
  {
    steps := [];
    for i := 0 to |current|
      invariant steps == Prunes(spec, current[..i], claimed)
    {
      var id := IdOf(current[i]);
      var skip := IsIgnored(spec, current[i]);
      PrunesNext(spec, current, i, claimed);
      if id != "" && id !in claimed && !skip {
        steps := steps + [Delete(id, current[i])];
      }
    }
    assert current[..|current|] == current;
  }

  lemma PrunesNext(spec: MenuSpec, current: seq<Record>, i: nat, claimed: set<string>)
    requires i < |current|
    ensures Prunes(spec, current[..i + 1], claimed)
         == Prunes(spec, current[..i], claimed)
            + (if Open(spec, claimed, current[i]) then [Delete(IdOf(current[i]), current[i])] else [])
  {
    assert current[..i + 1] == current[..i] + [current[i]];
    PrunesConcat(spec, current[..i], [current[i]], claimed);
    assert [current[i]][1..] == [];
  }
}
