/**
 When the structural phase converges (rest/menu.go:413-438): exactly when the
 plan of the mutated menu holds nothing but moves.
 */
module MenuStructure {
  import opened Records
  import opened Counting
  import opened MenuPlan
  import opened MenuMatching
  import opened MenuOrdering
  import opened MenuMutation

  /** A plan made on `current`, and the identifiers the router gave its new rows. */
  datatype Job = Job(spec: MenuSpec, desired: seq<Record>, current: seq<Record>, matched: seq<string>, news: seq<string>) {

    ghost predicate Valid() {
      && |desired| == |matched| == |news|
      && UniqueIds(current)
      && Greedy(spec, desired, current, matched)
      && FreshFor(current, matched, news)
    }

    /** The row meant for each desired row: the one it matched, or the one made for it. */
    ghost function Target(i: nat): string
      requires Valid() && i < |desired|
    {
      if matched[i] != "" then matched[i] else news[i]
    }

    ghost function Targets(n: nat): (out: seq<string>)
      requires Valid() && n <= |desired|
      ensures |out| == n
      ensures forall i | 0 <= i < n :: out[i] == Target(i)
    {
      seq(n, i requires 0 <= i < n => Target(i))
    }

    /** What that row says once the structural phase is over. */
    ghost function TargetRow(i: nat): Record
      requires Valid() && i < |desired|
    {
      if matched[i] != "" then Revise(spec, desired, matched, |desired|, ByID(current, matched[i]))
      else desired[i][ID_FIELD := news[i]]
    }

    ghost function After(): seq<Record>
      requires Valid()
    {
      Mutated(spec, desired, current, matched, news)
    }

    ghost function Kept(): seq<Record>
      requires Valid()
    {
      Without(Revised(spec, desired, matched, |desired|, current), Pruned(spec, current, Claimed(matched)))
    }

    ghost function Made(): seq<Record>
      requires Valid()
    {
      Created(desired, matched, news, |desired|)
    }

    /** Every intended row can be recognised again, and no other new row competes for it observably. */
    ghost predicate Ready()
      requires Valid()
    {
      && (forall i | 0 <= i < |desired| :: !Ignored(spec, TargetRow(i)) && Recognises(spec, desired[i], TargetRow(i)))
      && (spec.key == "" ==>
            forall i, j | 0 <= i < j < |desired| && matched[j] == "" && Subset(desired[i], desired[j]) ::
              SameContent(TargetRow(i), desired[j]))
    }
  }

  /** The plan of `rows` needs no create, update or delete. */
  ghost predicate Converged(spec: MenuSpec, desired: seq<Record>, rows: seq<Record>) {
    var p := Resolve(spec, desired, rows, |desired|);
    p.Paired? && Mutations(spec, desired, rows, p.matched) == []
  }

  // ---- What an update does to a row ----

  lemma {:induction false} ReviseUntouched(spec: MenuSpec, desired: seq<Record>, matched: seq<string>, n: nat, row: Record)
    requires n <= |desired| == |matched|
    requires spec.key == "" || IdOf(row) == "" || forall i | 0 <= i < n :: matched[i] != IdOf(row)
    ensures Revise(spec, desired, matched, n, row) == row
  {
    if n > 0 {
      ReviseUntouched(spec, desired, matched, n - 1, row);
    }
  }

  lemma {:induction false} ReviseOnce(spec: MenuSpec, desired: seq<Record>, matched: seq<string>, n: nat, i: nat, row: Record)
    requires i < n <= |desired| == |matched|
    requires spec.key != "" && matched[i] == IdOf(row) != ""
    requires forall h, k | 0 <= h < k < |matched| && matched[h] != "" :: matched[h] != matched[k]
    ensures Revise(spec, desired, matched, n, row) == row + Changes(desired[i], row)
  {
    if i < n - 1 {
      ReviseOnce(spec, desired, matched, n - 1, i, row);
    } else {
      ReviseUntouched(spec, desired, matched, n - 1, row);
    }
  }

  /** An updated row holds everything its desired row sets. */
  lemma ChangesSettle(want: Record, row: Record)
    ensures Subset(want, row + Changes(want, row))
    ensures Changes(want, row) == map[] <==> Subset(want, row)
  {
    var out := row + Changes(want, row);
    forall k | k in want && k != ID_FIELD
      ensures k in out && out[k] == want[k]
    {
      if !(k in row && row[k] == want[k]) {
        assert k in Changes(want, row);
      }
    }
    if Subset(want, row) {
      forall k | k in want
        ensures k !in Changes(want, row)
      {
      }
      assert Changes(want, row) == map[];
    } else {
      var k :| k in want && k != ID_FIELD && !(k in row && row[k] == want[k]);
      assert k in Changes(want, row);
    }
  }

  /** What an intended row matched on: its own identifier, its key, all its fields. */
  lemma TargetRowFacts(job: Job, i: nat)
    requires job.Valid() && i < |job.desired|
    ensures job.Target(i) != "" && IdOf(job.TargetRow(i)) == job.Target(i)
    ensures Subset(job.desired[i], job.TargetRow(i))
    ensures job.matched[i] != "" ==>
      var row := ByID(job.current, job.matched[i]);
      && row in job.current && IdOf(row) == job.matched[i]
      && Eligible(job.spec, job.desired[i], Claimed(job.matched[..i]), row)
      && Recognises(job.spec, job.desired[i], job.TargetRow(i))
      && (job.spec.key == "" ==> job.TargetRow(i) == row)
  {
    if job.matched[i] != "" {
      MatchesAreRows(job.spec, job.desired, job.current, job.matched, i);
      MatchedInjective(job.spec, job.desired, job.current, job.matched);
      var row := ByID(job.current, job.matched[i]);
      hide Job.Valid;
      if job.spec.key == "" {
        ReviseUntouched(job.spec, job.desired, job.matched, |job.desired|, row);
      } else {
        ReviseOnce(job.spec, job.desired, job.matched, |job.desired|, i, row);
        ChangesSettle(job.desired[i], row);
        assert job.spec.key !in Changes(job.desired[i], row);
      }
    }
  }

  /** The intended rows are distinct. */
  lemma TargetsDistinct(job: Job)
    requires job.Valid()
    ensures forall i, j | 0 <= i < j < |job.desired| :: job.Target(i) != job.Target(j)
  {
    MatchedInjective(job.spec, job.desired, job.current, job.matched);
    forall i, j | 0 <= i < j < |job.desired|
      ensures job.Target(i) != job.Target(j)
    {
      if job.matched[i] != "" {
        MatchesAreRows(job.spec, job.desired, job.current, job.matched, i);
        IdsMember(job.current, RowOf(job.current, job.matched, i));
      }
      if job.matched[j] != "" {
        MatchesAreRows(job.spec, job.desired, job.current, job.matched, j);
        IdsMember(job.current, RowOf(job.current, job.matched, j));
      }
    }
  }

  /** For a row that was there before, the two claim sets agree. */
  lemma ClaimsAgree(job: Job, i: nat, row: Record)
    requires job.Valid() && i <= |job.desired| && row in job.current
    ensures IdOf(row) in Claimed(job.matched[..i]) <==> IdOf(row) in Claimed(job.Targets(i))
  {
    IdsMember(job.current, row);
    var id := IdOf(row);
    if id in Claimed(job.matched[..i]) {
      var h :| 0 <= h < i && job.matched[..i][h] == id;
      assert job.Targets(i)[h] == id;
    }
    if id in Claimed(job.Targets(i)) {
      var h :| 0 <= h < i && job.Targets(i)[h] == id;
      assert job.matched[h] != "";
      assert job.matched[..i][h] == id;
    }
  }

  // ---- Filters over the pieces of the mutated menu ----

  lemma {:induction false} EligiblesNone(spec: MenuSpec, want: Record, rows: seq<Record>, claimed: set<string>)
    requires forall r | r in rows :: !Eligible(spec, want, claimed, r)
    ensures Eligibles(spec, want, rows, claimed) == []
  {
    if rows != [] {
      EligiblesNone(spec, want, rows[1..], claimed);
    }
  }

  /** The first eligible row is still the first when other rows are removed or rewritten. */
  lemma {:induction false} PickKept(job: Job, i: nat, rows: seq<Record>, gone: set<string>, now: set<string>)
    requires job.Valid() && i < |job.desired| && |job.matched| == |job.desired|
    requires
      var n := |job.desired|;
      forall r | r in rows ::
        Eligible(job.spec, job.desired[i], now, Revise(job.spec, job.desired, job.matched, n, r))
        == Eligible(job.spec, job.desired[i], Claimed(job.matched[..i]), r)
    requires Pick(job.spec, job.desired[i], rows, Claimed(job.matched[..i])) !in gone
    ensures
      var kept := Without(Revised(job.spec, job.desired, job.matched, |job.desired|, rows), gone);
      Pick(job.spec, job.desired[i], kept, now) == Pick(job.spec, job.desired[i], rows, Claimed(job.matched[..i]))
  {
    if rows != [] {
      hide Job.Valid, Revise, Eligible;
      var n := |job.desired|;
      var want, was := job.desired[i], Claimed(job.matched[..i]);
      var all := Revised(job.spec, job.desired, job.matched, n, rows);
      var head := all[0];
      assert rows[0] in rows && head == Revise(job.spec, job.desired, job.matched, n, rows[0]);
      assert all[1..] == Revised(job.spec, job.desired, job.matched, n, rows[1..]);
      if !Eligible(job.spec, want, was, rows[0]) {
        PickKept(job, i, rows[1..], gone, now);
        if IdOf(head) !in gone {
          assert Without(all, gone)[1..] == Without(all[1..], gone);
        }
      }
    }
  }

  lemma PickConcat(spec: MenuSpec, want: Record, a: seq<Record>, b: seq<Record>, claimed: set<string>)
    ensures
      var first := Pick(spec, want, a, claimed);
      Pick(spec, want, a + b, claimed) == if first != "" then first else Pick(spec, want, b, claimed)
  {
    EligiblesConcat(spec, want, a, b, claimed);
    var e := Eligibles(spec, want, a, claimed);
    if e != [] {
      assert e[0] in e;
    }
  }

  /** Two sets of claims take the same of the rows that were there before. */
  ghost predicate ClaimAlike(job: Job, i: nat, now: set<string>)
    requires job.Valid() && i <= |job.desired|
  {
    forall r | r in job.current :: IdOf(r) in Claimed(job.matched[..i]) <==> IdOf(r) in now
  }

  /** Claimed rows are spared by prune and, unless an update hides them, stay what they were for the pairing. */
  lemma SteadyEligible(job: Job, i: nat, row: Record, now: set<string>)
    requires job.Valid() && i < |job.desired| && row in job.current && ClaimAlike(job, i, now)
    requires job.spec.key == "" || forall h | 0 <= h < |job.desired| && job.matched[h] != "" :: !Ignored(job.spec, job.TargetRow(h))
    ensures
      Eligible(job.spec, job.desired[i], now, Revise(job.spec, job.desired, job.matched, |job.desired|, row))
      == Eligible(job.spec, job.desired[i], Claimed(job.matched[..i]), row)
  {
    if h :| 0 <= h < |job.desired| && job.matched[h] == IdOf(row) != "" && job.spec.key != "" {
      MatchesAreRows(job.spec, job.desired, job.current, job.matched, h);
      SameIdSameRow(job.current, row, RowOf(job.current, job.matched, h));
      MatchedInjective(job.spec, job.desired, job.current, job.matched);
      ReviseOnce(job.spec, job.desired, job.matched, |job.desired|, h, row);
      assert job.spec.key !in Changes(job.desired[h], row);
    } else {
      ReviseUntouched(job.spec, job.desired, job.matched, |job.desired|, row);
    }
  }

  /** A matched row is still the first choice among the surviving rows; where there was none there is none. */
  lemma PickAmongKept(job: Job, i: nat, now: set<string>)
    requires job.Valid() && i < |job.desired| && ClaimAlike(job, i, now)
    requires job.spec.key == "" || forall h | 0 <= h < |job.desired| && job.matched[h] != "" :: !Ignored(job.spec, job.TargetRow(h))
    ensures Pick(job.spec, job.desired[i], job.Kept(), now) == job.matched[i]
  {
    forall r | r in job.current
      ensures
        Eligible(job.spec, job.desired[i], now, Revise(job.spec, job.desired, job.matched, |job.desired|, r))
        == Eligible(job.spec, job.desired[i], Claimed(job.matched[..i]), r)
    {
      SteadyEligible(job, i, r, now);
    }
    var gone := Pruned(job.spec, job.current, Claimed(job.matched));
    assert job.matched[i] in job.matched;
    assert job.matched[i] !in gone;
    PickKept(job, i, job.current, gone, now);
  }

  lemma TargetsClaimAlike(job: Job, i: nat)
    requires job.Valid() && i <= |job.desired|
    ensures ClaimAlike(job, i, Claimed(job.Targets(i)))
  {
    forall r | r in job.current
      ensures IdOf(r) in Claimed(job.matched[..i]) <==> IdOf(r) in Claimed(job.Targets(i))
    {
      ClaimsAgree(job, i, r);
    }
  }

  lemma {:induction false} CreatedSplit(desired: seq<Record>, matched: seq<string>, news: seq<string>, i: nat, n: nat)
    returns (rest: seq<Record>)
    requires i < n <= |desired| == |matched| && n <= |news| && matched[i] == ""
    ensures Created(desired, matched, news, n) == Created(desired, matched, news, i) + ([desired[i][ID_FIELD := news[i]]] + rest)
    decreases n
  {
    if i == n - 1 {
      rest := [];
    } else {
      var some := CreatedSplit(desired, matched, news, i, n - 1);
      rest := some + (if matched[n - 1] == "" then [desired[n - 1][ID_FIELD := news[n - 1]]] else []);
    }
  }

  /** The row made for an unmatched desired row is its first choice among the new rows. */
  lemma PickAmongMade(job: Job, i: nat)
    requires job.Valid() && i < |job.desired| && job.matched[i] == ""
    requires !Ignored(job.spec, job.TargetRow(i)) && Recognises(job.spec, job.desired[i], job.TargetRow(i))
    ensures Pick(job.spec, job.desired[i], job.Made(), Claimed(job.Targets(i))) == job.Target(i)
  {
    var claimed, mine := Claimed(job.Targets(i)), job.TargetRow(i);
    TargetRowFacts(job, i);
    TargetsDistinct(job);
    var earlier := Created(job.desired, job.matched, job.news, i);
    forall r | r in earlier
      ensures !Eligible(job.spec, job.desired[i], claimed, r)
    {
      CreatedIds(job.desired, job.matched, job.news, i, r);
      var h :| 0 <= h < i && job.matched[h] == "" && r == job.desired[h][ID_FIELD := job.news[h]];
      assert job.Targets(i)[h] == IdOf(r);
    }
    EligiblesNone(job.spec, job.desired[i], earlier, claimed);
    var rest := CreatedSplit(job.desired, job.matched, job.news, i, |job.desired|);
    assert mine == job.desired[i][ID_FIELD := job.news[i]];
    PickConcat(job.spec, job.desired[i], earlier, [mine] + rest, claimed);
    assert forall h | 0 <= h < i :: job.Targets(i)[h] != IdOf(mine);
    assert Eligible(job.spec, job.desired[i], claimed, mine);
  }

  lemma RevisedIds(job: Job)
    requires job.Valid()
    ensures UniqueIds(Revised(job.spec, job.desired, job.matched, |job.desired|, job.current))
  {
    var out := Revised(job.spec, job.desired, job.matched, |job.desired|, job.current);
    forall i, j | 0 <= i < j < |out| && IdOf(out[i]) != ""
      ensures IdOf(out[i]) != IdOf(out[j])
    {
      assert IdOf(out[i]) == IdOf(job.current[i]) && IdOf(out[j]) == IdOf(job.current[j]);
    }
  }

  lemma {:induction false} CreatedUnique(desired: seq<Record>, current: seq<Record>, matched: seq<string>, news: seq<string>, n: nat)
    requires n <= |desired| == |matched| && n <= |news| && FreshFor(current, matched, news)
    ensures UniqueIds(Created(desired, matched, news, n))
  {
    if n > 0 {
      CreatedUnique(desired, current, matched, news, n - 1);
      if matched[n - 1] == "" {
        var earlier, row := Created(desired, matched, news, n - 1), desired[n - 1][ID_FIELD := news[n - 1]];
        forall r | r in earlier
          ensures IdOf(r) != IdOf(row)
        {
          CreatedIds(desired, matched, news, n - 1, r);
        }
        UniqueConcat(earlier, [row]);
      }
    }
  }

  /** The mutated menu is well formed. */
  lemma AfterUnique(job: Job)
    requires job.Valid()
    ensures UniqueIds(job.After())
  {
    RevisedIds(job);
    var all := Revised(job.spec, job.desired, job.matched, |job.desired|, job.current);
    WithoutKeepsUnique(all, Pruned(job.spec, job.current, Claimed(job.matched)));
    CreatedUnique(job.desired, job.current, job.matched, job.news, |job.desired|);
    forall x, y | x in job.Kept() && y in job.Made()
      ensures IdOf(x) != IdOf(y)
    {
      var k :| 0 <= k < |all| && all[k] == x;
      IdsMember(job.current, job.current[k]);
      CreatedIds(job.desired, job.matched, job.news, |job.desired|, y);
    }
    UniqueConcat(job.Kept(), job.Made());
  }

  /** Every intended row is in the mutated menu. */
  lemma TargetInAfter(job: Job, i: nat)
    requires job.Valid() && i < |job.desired|
    ensures job.TargetRow(i) in job.After() && ByID(job.After(), job.Target(i)) == job.TargetRow(i)
  {
    AfterUnique(job);
    TargetRowFacts(job, i);
    if job.matched[i] == "" {
      CreatedHas(job.desired, job.matched, job.news, |job.desired|, i);
    } else {
      var row := ByID(job.current, job.matched[i]);
      var all := Revised(job.spec, job.desired, job.matched, |job.desired|, job.current);
      var k :| 0 <= k < |job.current| && job.current[k] == row;
      assert all[k] == job.TargetRow(i);
      assert job.matched[i] in job.matched && job.matched[i] in Claimed(job.matched);
      assert job.TargetRow(i) in job.Kept();
    }
    ByIDFinds(job.After(), job.TargetRow(i));
  }

  /** What else is in it: unclaimed rows as they were, and under prune only the device's own. */
  lemma AfterOthers(job: Job, row: Record)
    requires job.Valid() && row in job.After() && IdOf(row) != ""
    requires forall i | 0 <= i < |job.desired| :: IdOf(row) != job.Target(i)
    ensures row in job.current && IdOf(row) !in Claimed(job.matched)
    ensures job.spec.unlisted == Prune ==> Ignored(job.spec, row)
  {
    forall r | r in job.Made()
      ensures exists i | 0 <= i < |job.desired| :: IdOf(r) == job.Target(i)
    {
      CreatedIds(job.desired, job.matched, job.news, |job.desired|, r);
      var i :| 0 <= i < |job.desired| && job.matched[i] == "" && r == job.desired[i][ID_FIELD := job.news[i]];
      assert IdOf(r) == job.Target(i);
    }
    assert row in job.Kept();
    var all := Revised(job.spec, job.desired, job.matched, |job.desired|, job.current);
    var k :| 0 <= k < |all| && all[k] == row;
    var before := job.current[k];
    forall i | 0 <= i < |job.desired|
      ensures job.matched[i] != IdOf(before)
    {
      assert IdOf(row) != job.Target(i);
    }
    ReviseUntouched(job.spec, job.desired, job.matched, |job.desired|, before);
    assert row == before;
  }

  // ---- Ready implies converged ----

  /** An eligible row of the mutated menu says what the intended row says. */
  lemma EligibleLikeTarget(job: Job, i: nat, row: Record)
    requires job.Valid() && job.Ready() && job.spec.key == "" && i < |job.desired|
    requires row in job.After() && Eligible(job.spec, job.desired[i], Claimed(job.Targets(i)), row)
    ensures SameContent(row, job.TargetRow(i))
  {
    TargetRowFacts(job, i);
    if j :| 0 <= j < |job.desired| && IdOf(row) == job.Target(j) {
      TargetInAfter(job, j);
      AfterUnique(job);
      TargetRowFacts(job, j);
      SameIdSameRow(job.After(), row, job.TargetRow(j));
      assert forall h | 0 <= h < i :: job.Targets(i)[h] == job.Target(h) && job.Target(h) in job.Targets(i);
      assert i <= j;
      if job.matched[j] == "" {
        assert Content(job.TargetRow(j)) == Content(job.desired[j]);
        SubsetSeesContent(job.desired[i], job.TargetRow(j), job.desired[j]);
      } else {
        KeptLikeTarget(job, i, row);
      }
    } else {
      AfterOthers(job, row);
      KeptLikeTarget(job, i, row);
    }
  }

  lemma KeptLikeTarget(job: Job, i: nat, row: Record)
    requires job.Valid() && job.spec.key == "" && i < |job.desired| && row in job.current
    requires Eligible(job.spec, job.desired[i], Claimed(job.Targets(i)), row)
    ensures SameContent(row, job.TargetRow(i))
  {
    ClaimsAgree(job, i, row);
    assert Eligible(job.spec, job.desired[i], Claimed(job.matched[..i]), row);
    PickEligible(job.spec, job.desired[i], job.current, Claimed(job.matched[..i]));
    TargetRowFacts(job, i);
  }

  /** With `Ready`, the second pairing gives every desired row its intended row. */
  lemma ReadyPairs(job: Job)
    requires job.Valid() && job.Ready()
    ensures Greedy(job.spec, job.desired, job.After(), job.Targets(|job.desired|))
  {
    var n := |job.desired|;
    forall i | 0 <= i < n
      ensures Clear(job.spec, job.desired[i], job.After(), Claimed(job.Targets(n)[..i]))
      ensures job.Targets(n)[i] == Pick(job.spec, job.desired[i], job.After(), Claimed(job.Targets(n)[..i]))
    {
      assert job.Targets(n)[..i] == job.Targets(i);
      ReadyPick(job, i);
    }
  }

  lemma ReadyPick(job: Job, i: nat)
    requires job.Valid() && job.Ready() && i < |job.desired|
    ensures Clear(job.spec, job.desired[i], job.After(), Claimed(job.Targets(i)))
    ensures Pick(job.spec, job.desired[i], job.After(), Claimed(job.Targets(i))) == job.Target(i)
  {
    TargetsClaimAlike(job, i);
    PickAmongKept(job, i, Claimed(job.Targets(i)));
    if job.matched[i] == "" {
      PickAmongMade(job, i);
    }
    PickConcat(job.spec, job.desired[i], job.Kept(), job.Made(), Claimed(job.Targets(i)));
    if job.spec.key == "" {
      forall r, s | r in job.After() && s in job.After()
                    && Eligible(job.spec, job.desired[i], Claimed(job.Targets(i)), r)
                    && Eligible(job.spec, job.desired[i], Claimed(job.Targets(i)), s)
        ensures SameContent(r, s)
      {
        EligibleLikeTarget(job, i, r);
        EligibleLikeTarget(job, i, s);
      }
    }
  }

  lemma {:induction false} NoWrites(spec: MenuSpec, desired: seq<Record>, rows: seq<Record>, matched: seq<string>, n: nat)
    requires n <= |desired| == |matched|
    requires forall i | 0 <= i < n :: matched[i] != "" && (spec.key != "" ==> Subset(desired[i], ByID(rows, matched[i])))
    ensures Writes(spec, desired, rows, matched, n) == []
  {
    hide Subset, Changes, ByID;
    if n > 0 {
      NoWrites(spec, desired, rows, matched, n - 1);
      ChangesSettle(desired[n - 1], ByID(rows, matched[n - 1]));
    }
  }

  lemma {:induction false} NoPrunes(spec: MenuSpec, rows: seq<Record>, claimed: set<string>)
    ensures Prunes(spec, rows, claimed) == [] <==> forall r | r in rows :: !Open(spec, claimed, r)
  {
    if rows != [] {
      NoPrunes(spec, rows[1..], claimed);
      if forall r | r in rows :: !Open(spec, claimed, r) {
        assert rows[0] in rows;
      } else {
        var r :| r in rows && Open(spec, claimed, r);
        assert r == rows[0] || r in rows[1..];
      }
    }
  }

  /** `Ready` is enough: the second plan holds only moves and matches every desired row as intended. */
  lemma ReadyConverges(job: Job)
    requires job.Valid() && job.Ready()
    ensures Resolve(job.spec, job.desired, job.After(), |job.desired|) == Paired(job.Targets(|job.desired|))
    ensures Converged(job.spec, job.desired, job.After())
  {
    var n := |job.desired|;
    var targets := job.Targets(n);
    AfterUnique(job);
    ReadyPairs(job);
    GreedyIsResolve(job.spec, job.desired, job.After(), targets);
    forall i | 0 <= i < n
      ensures targets[i] != "" && Subset(job.desired[i], ByID(job.After(), targets[i]))
    {
      TargetRowFacts(job, i);
      TargetInAfter(job, i);
    }
    NoWrites(job.spec, job.desired, job.After(), targets, n);
    if job.spec.unlisted == Prune {
      forall r | r in job.After()
        ensures !Open(job.spec, Claimed(targets), r)
      {
        if IdOf(r) != "" {
          if i :| 0 <= i < n && IdOf(r) == job.Target(i) {
            assert targets[i] == IdOf(r);
          } else {
            AfterOthers(job, r);
          }
        }
      }
      NoPrunes(job.spec, job.After(), Claimed(targets));
    }
  }

  // ---- Converged implies ready ----

  /** The key tells the rows of a menu apart, as a key enforced by the router does. */
  ghost predicate KeyUnique(spec: MenuSpec, rows: seq<Record>) {
    forall r, s | r in rows && s in rows && spec.key in r && spec.key in s && r[spec.key] == s[spec.key] :: r == s
  }

  /** No desired row is left unmatched by a converged pairing. */
  lemma {:induction false} WritesNonempty(spec: MenuSpec, desired: seq<Record>, rows: seq<Record>, matched: seq<string>, n: nat, i: nat)
    requires i < n <= |desired| == |matched| && matched[i] == ""
    ensures Writes(spec, desired, rows, matched, n) != []
  {
    if i < n - 1 {
      WritesNonempty(spec, desired, rows, matched, n - 1, i);
    }
  }

  /** When the converse holds: always without a key, and with one that is a real key. */
  ghost predicate Discerning(job: Job)
    requires job.Valid()
  {
    job.spec.key == "" || (job.spec.key != ID_FIELD && KeyUnique(job.spec, job.After()))
  }

  /** The desired rows that found no row at first. */
  ghost function Unmatched(job: Job): (places: set<nat>)
    requires job.Valid()
    ensures forall i :: i in places <==> 0 <= i < |job.desired| && job.matched[i] == ""
  {
    set i | 0 <= i < |job.desired| && job.matched[i] == ""
  }

  /** Without a key, a second pairing serves matched desired rows as before and the others with new rows that are not ignored. */
  ghost predicate ServedByNew(job: Job, second: seq<string>, i: nat)
    requires job.Valid() && i <= |second| == |job.desired|
  {
    forall h | 0 <= h < i :: ServedAt(job, second, h)
  }

  lemma ServedAlike(job: Job, second: seq<string>, i: nat)
    requires job.Valid() && i <= |second| == |job.desired| && ServedByNew(job, second, i)
    ensures ClaimAlike(job, i, Claimed(second[..i]))
  {
    hide Ignored, Job.TargetRow, UniqueIds, Greedy;
    forall r | r in job.current
      ensures IdOf(r) in Claimed(job.matched[..i]) <==> IdOf(r) in Claimed(second[..i])
    {
      var id := IdOf(r);
      IdsMember(job.current, r);
      if id in Claimed(job.matched[..i]) {
        var h :| 0 <= h < i && job.matched[..i][h] == id;
        assert ServedAt(job, second, h);
        assert second[..i][h] == id;
      }
      if id in Claimed(second[..i]) {
        var h :| 0 <= h < i && second[..i][h] == id;
        assert ServedAt(job, second, h);
        assert job.matched[h] != "";
        assert job.matched[..i][h] == id;
      }
    }
  }

  lemma {:induction false} AllServedByNew(job: Job, second: seq<string>, i: nat)
    requires job.Valid() && job.spec.key == "" && i <= |second| == |job.desired|
    requires Greedy(job.spec, job.desired, job.After(), second) && "" !in second
    ensures ServedByNew(job, second, i)
  {
    if i > 0 {
      AllServedByNew(job, second, i - 1);
      NextServedByNew(job, second, i - 1);
      hide *;
      ServedSnoc(job, second, i - 1);
    }
  }

  ghost predicate ServedAt(job: Job, second: seq<string>, h: nat)
    requires job.Valid() && h < |second| == |job.desired|
  {
    if job.matched[h] != "" then second[h] == job.matched[h]
    else exists j :: j in Unmatched(job) && second[h] == job.news[j] && !Ignored(job.spec, job.TargetRow(j))
  }

  lemma ServedSnoc(job: Job, second: seq<string>, i: nat)
    requires job.Valid() && i < |second| == |job.desired|
    requires ServedByNew(job, second, i) && ServedAt(job, second, i)
    ensures ServedByNew(job, second, i + 1)
  {
  }

  lemma NextServedByNew(job: Job, second: seq<string>, i: nat)
    requires job.Valid() && job.spec.key == "" && i < |second| == |job.desired|
    requires Greedy(job.spec, job.desired, job.After(), second) && "" !in second && ServedByNew(job, second, i)
    ensures ServedAt(job, second, i)
  {
    hide Ignored, Job.TargetRow, Clear, UniqueIds, FreshFor;
    var claimed := Claimed(second[..i]);
    assert second[i] == Pick(job.spec, job.desired[i], job.After(), claimed);
    assert second[i] in second;
    ServedAlike(job, second, i);
    PickAmongKept(job, i, claimed);
    hide ServedByNew, Pick, Greedy, Job.Kept, Job.Made;
    PickConcat(job.spec, job.desired[i], job.Kept(), job.Made(), claimed);
    if job.matched[i] == "" {
      MadeServes(job, i, claimed);
    }
  }

  lemma MadeServes(job: Job, i: nat, claimed: set<string>)
    requires job.Valid() && i < |job.desired| && Pick(job.spec, job.desired[i], job.Made(), claimed) != ""
    ensures
      var id := Pick(job.spec, job.desired[i], job.Made(), claimed);
      exists j :: j in Unmatched(job) && id == job.news[j] && !Ignored(job.spec, job.TargetRow(j))
  {
    var found := Eligibles(job.spec, job.desired[i], job.Made(), claimed);
    assert found[0] in found;
    CreatedIds(job.desired, job.matched, job.news, |job.desired|, found[0]);
    var j :| 0 <= j < |job.desired| && job.matched[j] == "" && found[0] == job.desired[j][ID_FIELD := job.news[j]];
    assert j in Unmatched(job);
  }

  /** A converged pairing serves every desired row, each with a row of its own. */
  lemma ConvergedServes(job: Job) returns (second: seq<string>)
    requires job.Valid() && Converged(job.spec, job.desired, job.After())
    ensures Greedy(job.spec, job.desired, job.After(), second) && |second| == |job.desired| && "" !in second
    ensures forall i, j | 0 <= i < j < |second| :: second[i] != second[j]
  {
    hide Greedy, Resolve, Job.After, UniqueIds;
    second := Resolve(job.spec, job.desired, job.After(), |job.desired|).matched;
    AfterUnique(job);
    ResolveIsGreedy(job.spec, job.desired, job.After(), |job.desired|);
    forall i | 0 <= i < |second|
      ensures second[i] != ""
    {
      if second[i] == "" {
        WritesNonempty(job.spec, job.desired, job.After(), second, |job.desired|, i);
      }
    }
    MatchedInjective(job.spec, job.desired, job.After(), second);
  }

  /** The places of new rows that are not ignored. */
  ghost function Fit(job: Job): (places: set<nat>)
    requires job.Valid()
    ensures places <= Unmatched(job)
  {
    set j | j in Unmatched(job) && !Ignored(job.spec, job.TargetRow(j))
  }

  lemma FitServe(job: Job, second: seq<string>, i: nat)
    requires job.Valid() && |second| == |job.desired| && ServedByNew(job, second, |second|) && i in Unmatched(job)
    ensures exists j :: j in Fit(job) && job.news[j] == second[i]
  {
    assert ServedAt(job, second, i);
  }

  lemma AllFit(job: Job, second: seq<string>)
    requires job.Valid() && |second| == |job.desired| && ServedByNew(job, second, |second|)
    requires forall i, j | 0 <= i < j < |second| :: second[i] != second[j]
    ensures Fit(job) == Unmatched(job)
  {
    hide *;
    NewsSize(job);
    var served, serving := set i | i in Unmatched(job) :: second[i], set j | j in Fit(job) :: job.news[j];
    forall id | id in served
      ensures id in serving
    {
      var i :| i in Unmatched(job) && second[i] == id;
      FitServe(job, second, i);
    }
    AllTakers(Unmatched(job), second, Fit(job), job.news);
  }

  /** Were a new row ignored, too few would be left to serve: a converged menu has none. */
  lemma NewNotIgnored(job: Job, k: nat)
    requires job.Valid() && job.spec.key == "" && k < |job.desired| && job.matched[k] == ""
    requires Converged(job.spec, job.desired, job.After())
    ensures !Ignored(job.spec, job.TargetRow(k))
  {
    var second := ConvergedServes(job);
    AllServedByNew(job, second, |job.desired|);
    AllFit(job, second);
    assert k in Unmatched(job);
    hide *;
    FitFacts(job, k);
  }

  lemma FitFacts(job: Job, k: nat)
    requires job.Valid() && k in Fit(job)
    ensures !Ignored(job.spec, job.TargetRow(k))
  {
  }

  lemma NewsSize(job: Job)
    requires job.Valid()
    ensures |job.news| == |job.matched| == |job.desired|
  {
  }

  /** If some row is chosen for `i` among its rivals, the intended row is fit to be chosen. */
  lemma ChosenFit(job: Job, i: nat, row: Record)
    requires job.Valid() && Discerning(job) && i < |job.desired| && Converged(job.spec, job.desired, job.After())
    requires row in job.After() && Eligible(job.spec, job.desired[i], Claimed(job.Targets(i)), row)
    ensures !Ignored(job.spec, job.TargetRow(i)) && Recognises(job.spec, job.desired[i], job.TargetRow(i))
    ensures job.spec.key != "" ==> row == job.TargetRow(i)
  {
    TargetRowFacts(job, i);
    TargetInAfter(job, i);
    if job.spec.key != "" {
      var mine := job.TargetRow(i);
      assert job.spec.key in mine && mine[job.spec.key] == job.desired[i][job.spec.key];
      assert row == mine;
    } else if job.matched[i] == "" {
      NewNotIgnored(job, i);
    }
  }

  /** A converged pairing follows the intended rows, step by step. */
  lemma {:induction false} ConvergedFollows(job: Job, i: nat)
    requires job.Valid() && Discerning(job) && i <= |job.desired|
    requires Converged(job.spec, job.desired, job.After())
    ensures Resolve(job.spec, job.desired, job.After(), |job.desired|).matched[..i] == job.Targets(i)
    ensures forall h | 0 <= h < i ::
      !Ignored(job.spec, job.TargetRow(h)) && Recognises(job.spec, job.desired[h], job.TargetRow(h))
  {
    hide Resolve, Mutations, Discerning, Ignored, Recognises, Mutated, Job.TargetRow, Job.Valid;
    if i > 0 {
      ConvergedFollows(job, i - 1);
      ConvergedStep(job, i - 1);
      var matched := Resolve(job.spec, job.desired, job.After(), |job.desired|).matched;
      assert matched[..i] == matched[..i - 1] + [matched[i - 1]];
      assert job.Targets(i) == job.Targets(i - 1) + [job.Target(i - 1)];
    }
  }

  lemma ConvergedStep(job: Job, i: nat)
    requires job.Valid() && Discerning(job) && i < |job.desired|
    requires Converged(job.spec, job.desired, job.After())
    requires Resolve(job.spec, job.desired, job.After(), |job.desired|).matched[..i] == job.Targets(i)
    ensures Resolve(job.spec, job.desired, job.After(), |job.desired|).matched[i] == job.Target(i)
    ensures !Ignored(job.spec, job.TargetRow(i)) && Recognises(job.spec, job.desired[i], job.TargetRow(i))
    ensures Clear(job.spec, job.desired[i], job.After(), Claimed(job.Targets(i)))
  {
    var matched := Resolve(job.spec, job.desired, job.After(), |job.desired|).matched;
    var claimed := Claimed(job.Targets(i));
    AfterUnique(job);
    ResolveIsGreedy(job.spec, job.desired, job.After(), |job.desired|);
    assert matched[i] == Pick(job.spec, job.desired[i], job.After(), claimed);
    if matched[i] == "" {
      WritesNonempty(job.spec, job.desired, job.After(), matched, |job.desired|, i);
    }
    PickEligible(job.spec, job.desired[i], job.After(), claimed);
    ChosenFit(job, i, ByID(job.After(), matched[i]));
    TargetRowFacts(job, i);
    if job.spec.key == "" {
      TargetsClaimAlike(job, i);
      PickAmongKept(job, i, claimed);
      if job.matched[i] == "" {
        PickAmongMade(job, i);
      }
      PickConcat(job.spec, job.desired[i], job.Kept(), job.Made(), claimed);
    }
  }

  /** `Ready` is also necessary. */
  lemma ConvergedReady(job: Job)
    requires job.Valid() && Discerning(job)
    requires Converged(job.spec, job.desired, job.After())
    ensures job.Ready()
  {
    ConvergedFollows(job, |job.desired|);
    if job.spec.key == "" {
      forall i, j | 0 <= i < j < |job.desired| && job.matched[j] == "" && Subset(job.desired[i], job.desired[j])
        ensures SameContent(job.TargetRow(i), job.desired[j])
      {
        ConvergedPair(job, i, j);
      }
    }
  }

  lemma ConvergedPair(job: Job, i: nat, j: nat)
    requires job.Valid() && Discerning(job) && job.spec.key == "" && i < j < |job.desired|
    requires Converged(job.spec, job.desired, job.After())
    requires job.matched[j] == "" && Subset(job.desired[i], job.desired[j])
    ensures SameContent(job.TargetRow(i), job.desired[j])
  {
    hide Resolve, Mutations, Discerning, Ignored, Mutated, Converged, Eligibles;
    ConvergedFollows(job, |job.desired|);
    ConvergedFollows(job, i);
    ConvergedStep(job, i);
    var claimed := Claimed(job.Targets(i));
    TargetsDistinct(job);
    TargetRowFacts(job, i);
    TargetRowFacts(job, j);
    TargetInAfter(job, i);
    TargetInAfter(job, j);
    assert forall h | 0 <= h < i :: job.Targets(i)[h] == job.Target(h) != job.Target(i) && job.Target(h) != job.Target(j);
    assert SameContent(job.desired[j], job.TargetRow(j));
    SubsetSeesContent(job.desired[i], job.desired[j], job.TargetRow(j));
    hide Subset, Content, Job.TargetRow, Job.Valid;
    assert Eligible(job.spec, job.desired[i], claimed, job.TargetRow(i));
    assert Eligible(job.spec, job.desired[i], claimed, job.TargetRow(j));
    assert SameContent(job.TargetRow(i), job.TargetRow(j));
  }

  /**
   The structural phase converges exactly when `Ready` holds: the re-plan is not
   ambiguous, matches every desired row to its intended row and holds only moves.
   */
  lemma StructuralPhaseExact(job: Job)
    requires job.Valid() && Discerning(job)
    ensures Converged(job.spec, job.desired, job.After()) <==> job.Ready()
  {
    if job.Ready() {
      ReadyConverges(job);
    }
    if Converged(job.spec, job.desired, job.After()) {
      ConvergedReady(job);
    }
  }
}
