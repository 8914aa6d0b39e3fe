/**
 What the pairing of a keyless ordered menu becomes once its moves are done, told
 from the rows before them, and so exactly when the next plan is empty
 (rest/menu.go:172-189, 337-372).
 */
module MenuRetaking {
  import opened Records
  import opened Counting
  import opened MenuPlan
  import opened MenuMatching
  import opened MenuDevice
  import opened MenuOrdering
  import opened MenuStructure
  import opened MenuApply
  import opened MenuSoundness
  import opened MenuConvergence

  /** The unmanaged rows ahead of the row of the last desired one, which the moves leave ahead of the managed ones. */
  function Above(rows: seq<Record>, matched: seq<string>): seq<Record>
    requires matched != []
  {
    Without(rows[..Ahead(rows, matched[|matched| - 1])], Listed(matched))
  }

  /** The rows a second pairing can take, in the order it will meet them. */
  function InReach(rows: seq<Record>, matched: seq<string>): seq<Record>
    requires matched != []
  {
    Above(rows, matched) + Block(rows, matched)
  }

  /** The first row that is open and says just this; the empty text when none does. */
  function FirstSaying(spec: MenuSpec, list: seq<Record>, content: Record, taken: set<string>): string {
    if list == [] then ""
    else if Open(spec, taken, list[0]) && Content(list[0]) == content then IdOf(list[0])
    else FirstSaying(spec, list[1..], content, taken)
  }

  /** The rows the first `n` desired ones take after the moves: each the first one left that says what its row says. */
  function Retaken(spec: MenuSpec, rows: seq<Record>, matched: seq<string>, n: nat): (ids: seq<string>)
    requires matched != [] && n <= |matched|
    ensures |ids| == n
  {
    if n == 0 then []
    else
      var taken := Retaken(spec, rows, matched, n - 1);
      taken + [FirstSaying(spec, InReach(rows, matched), Content(ByID(rows, matched[n - 1])), Claimed(taken))]
  }

  /** Those rows come in the order they are wanted in. */
  predicate ComeInOrder(spec: MenuSpec, rows: seq<Record>, matched: seq<string>)
    requires matched != []
  {
    var next := Retaken(spec, rows, matched, |matched|);
    Have(InReach(rows, matched), Claimed(next)) == next
  }

  // ---- One desired row ----

  /** When the eligible rows are those saying `content`, the pairing takes the first of them. */
  lemma {:induction false} PickSays(spec: MenuSpec, want: Record, list: seq<Record>, content: Record, taken: set<string>)
    requires forall r | r in list :: Eligible(spec, want, taken, r) <==> Open(spec, taken, r) && Content(r) == content
    ensures Pick(spec, want, list, taken) == FirstSaying(spec, list, content, taken)
  {
    hide Eligible, Open, Content;
    if list != [] {
      assert list[0] in list;
      if !Eligible(spec, want, taken, list[0]) {
        PickSays(spec, want, list[1..], content, taken);
      }
    }
  }

  lemma {:induction false} FirstSayingFinds(spec: MenuSpec, list: seq<Record>, content: Record, taken: set<string>, row: Record)
    requires row in list && Open(spec, taken, row) && Content(row) == content
    ensures FirstSaying(spec, list, content, taken) != ""
  {
    if list[0] != row {
      FirstSayingFinds(spec, list[1..], content, taken, row);
    }
  }

  /** The places of the desired rows whose rows say `content`. */
  ghost function PlacesOf(rows: seq<Record>, matched: seq<string>, content: Record): set<nat> {
    set i | 0 <= i < |matched| && Content(ByID(rows, matched[i])) == content
  }

  /** However the earlier desired rows are served again, a managed row saying the right thing is left. */
  lemma BlockHasOne(rows: seq<Record>, matched: seq<string>, after: seq<Record>, next: seq<string>)
    returns (j: nat)
    requires UniqueIds(rows) && UniqueIds(after) && SameRows(after, rows) && Manageable(rows, matched)
    requires |next| < |matched| && SameMatches(rows, matched[..|next|], after, next)
    ensures j < |matched| && matched[j] !in Claimed(next)
    ensures Content(ByID(rows, matched[j])) == Content(ByID(rows, matched[|next|]))
  {
    var n := |next|;
    var content := Content(ByID(rows, matched[n]));
    var things := PlacesOf(rows, matched, content);
    var takers := set h | h in things && h < n;
    forall i, h | i in things && 0 <= h < n && next[h] == matched[i]
      ensures h in takers
    {
      assert matched[i] in matched && matched[h] in matched && matched[..n][h] == matched[h];
      SameByID(rows, after, matched[i]);
    }
    assert n in things && takers <= things - {n};
    Within(takers, things - {n});
    j := SomeLeft(things, matched, takers, next);
  }

  lemma SameByID(a: seq<Record>, b: seq<Record>, id: string)
    requires UniqueIds(b) && SameRows(b, a) && id != "" && id in Ids(a)
    ensures ByID(b, id) == ByID(a, id)
  {
    ByIDMember(a, id);
    assert ByID(a, id) in multiset(b);
    ByIDFinds(b, ByID(a, id));
  }

  // ---- All of them ----

  /** The arrangement is what is in reach, and the unmanaged rows below. */
  lemma ArrangedReach(rows: seq<Record>, matched: seq<string>) returns (below: seq<Record>)
    requires matched != [] && matched[|matched| - 1] in Ids(rows)
    ensures Arranged(rows, matched) == InReach(rows, matched) + below
  {
    hide Without, Block, Ahead;
    AheadHits(rows, matched[|matched| - 1]);
    below := Without(rows[Ahead(rows, matched[|matched| - 1]) + 1..], Listed(matched));
  }

  /** The second pairing, row by row: the one `Retaken` tells. */
  lemma {:induction false} RetakenPairs(spec: MenuSpec, desired: seq<Record>, rows: seq<Record>, matched: seq<string>, n: nat)
    requires Complete(spec, desired, rows, matched) && matched != [] && matched[|matched| - 1] in Ids(rows)
    requires n <= |matched|
    ensures Resolve(spec, desired, Arranged(rows, matched), n) == Paired(Retaken(spec, rows, matched, n))
    ensures "" !in Retaken(spec, rows, matched, n)
  {
    hide Complete, Retaken, Arranged, UniqueIds;
    if n == 0 {
      RetakenNone(spec, rows, matched);
    } else {
      RetakenPairs(spec, desired, rows, matched, n - 1);
      RetakenStep(spec, desired, rows, matched, n - 1);
    }
  }

  lemma RetakenStep(spec: MenuSpec, desired: seq<Record>, rows: seq<Record>, matched: seq<string>, n: nat)
    requires Complete(spec, desired, rows, matched) && matched != [] && matched[|matched| - 1] in Ids(rows)
    requires n < |matched|
    requires Resolve(spec, desired, Arranged(rows, matched), n) == Paired(Retaken(spec, rows, matched, n))
    requires "" !in Retaken(spec, rows, matched, n)
    ensures Resolve(spec, desired, Arranged(rows, matched), n + 1) == Paired(Retaken(spec, rows, matched, n + 1))
    ensures "" !in Retaken(spec, rows, matched, n + 1)
  {
    var after, taken := Arranged(rows, matched), Retaken(spec, rows, matched, n);
    var content, reach := Content(ByID(rows, matched[n])), InReach(rows, matched);
    ArrangedSame(rows, matched);
    var below := ArrangedReach(rows, matched);
    hide InReach, Arranged, Retaken, FirstSaying, UniqueIds;
    SayingServes(spec, desired, rows, matched, after, taken);
    ReachHasOne(spec, desired, rows, matched, after, taken);
    PickSays(spec, desired[n], reach, content, Claimed(taken));
    PickConcat(spec, desired[n], reach, below, Claimed(taken));
    ResolveStep(spec, desired, after, n);
    RetakenNext(spec, rows, matched, n);
  }

  lemma RetakenNone(spec: MenuSpec, rows: seq<Record>, matched: seq<string>)
    requires matched != []
    ensures Retaken(spec, rows, matched, 0) == []
  {
  }

  lemma RetakenNext(spec: MenuSpec, rows: seq<Record>, matched: seq<string>, n: nat)
    requires matched != [] && n < |matched|
    ensures
      var taken := Retaken(spec, rows, matched, n);
      Retaken(spec, rows, matched, n + 1)
      == taken + [FirstSaying(spec, InReach(rows, matched), Content(ByID(rows, matched[n])), Claimed(taken))]
  {
  }

  /** What serves desired row `n` next time is what says what its row says, and is open. */
  lemma SayingServes(spec: MenuSpec, desired: seq<Record>, rows: seq<Record>, matched: seq<string>, after: seq<Record>, taken: seq<string>)
    requires Complete(spec, desired, rows, matched) && UniqueIds(after) && SameRows(after, rows)
    requires |taken| < |matched| && Resolve(spec, desired, after, |taken|) == Paired(taken)
    ensures
      var content := Content(ByID(rows, matched[|taken|]));
      forall r | r in after ::
        Eligible(spec, desired[|taken|], Claimed(taken), r) <==> Open(spec, Claimed(taken), r) && Content(r) == content
    ensures Clear(spec, desired[|taken|], after, Claimed(taken))
    ensures SameMatches(rows, matched[..|taken|], after, taken)
  {
    SecondPick(spec, desired, rows, matched, after, taken);
    assert spec.key == "";
    hide Complete, UniqueIds, SameRows, Resolve, Eligible, Open, Clear, Content, ByID;
    var want, content := desired[|taken|], Content(ByID(rows, matched[|taken|]));
    var found :| found in after && Eligible(spec, want, Claimed(taken), found) && Content(found) == content;
    forall r | r in after
      ensures Eligible(spec, want, Claimed(taken), r) <==> Open(spec, Claimed(taken), r) && Content(r) == content
    {
      ServesAlike(spec, want, after, Claimed(taken), found, r);
    }
  }

  lemma ServesAlike(spec: MenuSpec, want: Record, after: seq<Record>, claimed: set<string>, found: Record, row: Record)
    requires spec.key == "" && Clear(spec, want, after, claimed)
    requires found in after && row in after && Eligible(spec, want, claimed, found)
    ensures Eligible(spec, want, claimed, row) <==> Open(spec, claimed, row) && Content(row) == Content(found)
  {
    if Content(row) == Content(found) {
      SubsetSeesContent(want, row, found);
    }
  }

  /** Over the rearranged rows the next desired row finds a row again, saying the same. */
  lemma SecondPick(spec: MenuSpec, desired: seq<Record>, rows: seq<Record>, matched: seq<string>, after: seq<Record>, taken: seq<string>)
    requires Complete(spec, desired, rows, matched) && UniqueIds(after) && SameRows(after, rows)
    requires |taken| < |matched| && Resolve(spec, desired, after, |taken|) == Paired(taken)
    ensures Clear(spec, desired[|taken|], after, Claimed(taken))
    ensures SameMatches(rows, matched[..|taken|], after, taken)
    ensures exists r :: r in after && Eligible(spec, desired[|taken|], Claimed(taken), r)
                        && Content(r) == Content(ByID(rows, matched[|taken|]))
  {
    var n := |taken|;
    PrefixPairs(spec, desired, rows, matched, n);
    PrefixPairs(spec, desired, rows, matched, n + 1);
    assert matched[n] in matched && matched[n] != "";
    hide Complete, UniqueIds, Resolve, OpenContents, Eligible, Clear, Pick;
    ListingOrderIrrelevant(spec, desired, rows, after, n);
    ListingOrderIrrelevant(spec, desired, rows, after, n + 1);
    ResolveStep(spec, desired, after, n);
    PickEligible(spec, desired[n], after, Claimed(taken));
    var id := Pick(spec, desired[n], after, Claimed(taken));
    SameMatchesLast(rows, matched[..n + 1], after, taken + [id]);
  }

  lemma SameMatchesLast(a: seq<Record>, ma: seq<string>, b: seq<Record>, mb: seq<string>)
    requires SameMatches(a, ma, b, mb) && ma != [] && ma[|ma| - 1] != ""
    ensures mb[|mb| - 1] != "" && Content(ByID(b, mb[|mb| - 1])) == Content(ByID(a, ma[|ma| - 1]))
  {
  }

  lemma PrefixPairs(spec: MenuSpec, desired: seq<Record>, rows: seq<Record>, matched: seq<string>, n: nat)
    requires Complete(spec, desired, rows, matched) && n <= |matched|
    ensures Resolve(spec, desired, rows, n) == Paired(matched[..n])
  {
    hide UniqueIds, Manageable;
    GreedyIsResolve(spec, desired, rows, matched);
    ResolvePrefix(spec, desired, rows, n, |matched|);
  }

  /** And among what is in reach there is such a row. */
  lemma ReachHasOne(spec: MenuSpec, desired: seq<Record>, rows: seq<Record>, matched: seq<string>, after: seq<Record>, taken: seq<string>)
    requires Complete(spec, desired, rows, matched) && matched != [] && UniqueIds(after) && SameRows(after, rows)
    requires |taken| < |matched| && SameMatches(rows, matched[..|taken|], after, taken)
    ensures FirstSaying(spec, InReach(rows, matched), Content(ByID(rows, matched[|taken|])), Claimed(taken)) != ""
  {
    var j := BlockHasOne(rows, matched, after, taken);
    assert matched[j] in matched;
    MatchesAreRows(spec, desired, rows, matched, j);
    var row := ByID(rows, matched[j]);
    assert Block(rows, matched)[j] == row;
    assert row in InReach(rows, matched);
    FirstSayingFinds(spec, InReach(rows, matched), Content(ByID(rows, matched[|taken|])), Claimed(taken), row);
  }

  // ---- The next plan ----

  lemma {:induction false} FirstSayingIn(spec: MenuSpec, list: seq<Record>, content: Record, taken: set<string>)
    ensures var id := FirstSaying(spec, list, content, taken); id != "" ==> id in Ids(list)
  {
    if list != [] {
      FirstSayingIn(spec, list[1..], content, taken);
      var id := FirstSaying(spec, list, content, taken);
      if id != "" && id in Ids(list[1..]) {
        var k :| 0 <= k < |list| - 1 && Ids(list[1..])[k] == id;
        assert Ids(list)[k + 1] == id;
      } else if id != "" {
        assert Ids(list)[0] == id;
      }
    }
  }

  lemma {:induction false} RetakenInReach(spec: MenuSpec, rows: seq<Record>, matched: seq<string>, n: nat)
    requires matched != [] && n <= |matched|
    ensures forall id | id in Retaken(spec, rows, matched, n) && id != "" :: id in Ids(InReach(rows, matched))
  {
    if n > 0 {
      RetakenInReach(spec, rows, matched, n - 1);
      var taken := Retaken(spec, rows, matched, n - 1);
      FirstSayingIn(spec, InReach(rows, matched), Content(ByID(rows, matched[n - 1])), Claimed(taken));
    }
  }

  /** What is out of reach stays out of it. */
  lemma HaveReach(reach: seq<Record>, below: seq<Record>, ids: set<string>)
    requires UniqueIds(reach + below) && "" !in ids && forall id | id in ids :: id in Ids(reach)
    ensures Have(reach + below, ids) == Have(reach, ids)
  {
    UniqueParts(reach, below);
    forall r | r in below
      ensures IdOf(r) !in ids
    {
      if IdOf(r) in ids {
        ByIDMember(reach, IdOf(r));
      }
    }
    OnlyConcat(reach, below, ids);
    OnlyNothing(below, ids);
    assert Only(reach, ids) + [] == Only(reach, ids);
  }

  lemma NothingOpen(spec: MenuSpec, desired: seq<Record>, rows: seq<Record>, matched: seq<string>, after: seq<Record>, next: seq<string>)
    requires Complete(spec, desired, rows, matched) && UniqueIds(after) && SameRows(after, rows)
    requires Resolve(spec, desired, after, |matched|) == Paired(next)
    requires forall r | r in rows :: !Open(spec, Claimed(matched), r)
    ensures forall r | r in after :: !Open(spec, Claimed(next), r)
  {
    PrefixPairs(spec, desired, rows, matched, |matched|);
    assert matched[..|matched|] == matched;
    ListingOrderIrrelevant(spec, desired, rows, after, |matched|);
    forall r | r in after
      ensures !Open(spec, Claimed(next), r)
    {
      OpenContentsMember(spec, after, Claimed(next), Content(r));
      OpenContentsMember(spec, rows, Claimed(matched), Content(r));
    }
  }

  /** A complete pairing on which nothing is to be pruned is planned as moves alone. */
  lemma MovesAlone(spec: MenuSpec, desired: seq<Record>, after: seq<Record>, next: seq<string>)
    requires spec.key == "" && spec.ordered && spec.unlisted != Unset && !(exists s | s in spec.ignore :: s == map[])
    requires |next| == |desired| && "" !in next && Resolve(spec, desired, after, |desired|) == Paired(next)
    requires spec.unlisted == Prune ==> forall r | r in after :: !Open(spec, Claimed(next), r)
    ensures MakePlan(spec, desired, after) == Planned(Plan(Reorder(after, next), next))
  {
    hide Resolve, Reorder;
    assert forall i | 0 <= i < |next| :: next[i] in next;
    NoWrites(spec, desired, after, next, |desired|);
    if spec.unlisted == Prune {
      NoPrunes(spec, after, Claimed(next));
    }
    assert Mutations(spec, desired, after, next) == [];
    assert [] + Reorder(after, next) == Reorder(after, next);
  }

  /** Nothing is to be moved exactly when the managed rows stand in order. */
  lemma ReorderEmptyExactly(rows: seq<Record>, ids: seq<string>)
    requires UniqueIds(rows) && Manageable(rows, ids)
    ensures Reorder(rows, ids) == [] <==> Have(rows, Claimed(ids)) == ids
  {
    WantedAll(ids);
    WantedListed(ids);
    if Reorder(rows, ids) == [] {
      NothingToReorder(rows, ids);
    }
  }

  /**
   The plan of the menu after the moves. It moves rows at most, it pairs every
   desired row with the one `Retaken` tells, and it is empty if and only if those
   rows come in order.
   */
  lemma FreshPlanExact(spec: MenuSpec, desired: seq<Record>, rows: seq<Record>, q: Plan, env: Env, t: nat)
    requires MovesOnly(spec, desired, rows, q) && q.steps != [] && Run(q.steps, rows, env, t).ok
    ensures q.matched != []
    ensures
      var after, next := Run(q.steps, rows, env, t).rows, Retaken(spec, rows, q.matched, |q.matched|);
      && MakePlan(spec, desired, after) == Planned(Plan(Reorder(after, next), next))
      && (Reorder(after, next) == [] <==> ComeInOrder(spec, rows, q.matched))
  {
    var m := q.matched;
    MovesOnlyFacts(spec, desired, rows, q);
    OrderingPhase(rows, m, env, t);
    var after, next := Arranged(rows, m), Retaken(spec, rows, m, |m|);
    ArrangedSame(rows, m);
    RetakenPairs(spec, desired, rows, m, |m|);
    FreshMoves(spec, desired, rows, m, after, next);
    FreshOrder(spec, desired, rows, m);
    hide *;
  }

  lemma FreshMoves(spec: MenuSpec, desired: seq<Record>, rows: seq<Record>, m: seq<string>, after: seq<Record>, next: seq<string>)
    requires Complete(spec, desired, rows, m) && Conforms(spec, desired, rows, m) && spec.ordered
    requires spec.unlisted != Unset && !(exists s | s in spec.ignore :: s == map[])
    requires UniqueIds(after) && SameRows(after, rows)
    requires |next| == |m| && "" !in next && Resolve(spec, desired, after, |m|) == Paired(next)
    ensures MakePlan(spec, desired, after) == Planned(Plan(Reorder(after, next), next))
  {
    hide Resolve, Reorder, UniqueIds, SameRows, Ignored, Greedy;
    if spec.unlisted == Prune {
      NothingOpen(spec, desired, rows, m, after, next);
    }
    MovesAlone(spec, desired, after, next);
  }

  lemma FreshOrder(spec: MenuSpec, desired: seq<Record>, rows: seq<Record>, m: seq<string>)
    requires Complete(spec, desired, rows, m) && m != [] && m[|m| - 1] in Ids(rows)
    ensures
      var after, next := Arranged(rows, m), Retaken(spec, rows, m, |m|);
      Reorder(after, next) == [] <==> ComeInOrder(spec, rows, m)
  {
    var after, next := Arranged(rows, m), Retaken(spec, rows, m, |m|);
    ArrangedSame(rows, m);
    RetakenPairs(spec, desired, rows, m, |m|);
    var below := ArrangedReach(rows, m);
    RetakenInReach(spec, rows, m, |m|);
    PairedManageable(spec, desired, after, next);
    hide Arranged, InReach, Retaken, UniqueIds, Reorder, Complete, Resolve, Have;
    ReorderEmptyExactly(after, next);
    HaveReach(InReach(rows, m), below, Claimed(next));
  }

  lemma PairedManageable(spec: MenuSpec, desired: seq<Record>, rows: seq<Record>, matched: seq<string>)
    requires UniqueIds(rows) && |matched| <= |desired| && "" !in matched
    requires Resolve(spec, desired, rows, |matched|) == Paired(matched)
    ensures Manageable(rows, matched)
  {
    hide UniqueIds, Resolve, Clear, Eligible;
    ResolveIsGreedy(spec, desired, rows, |matched|);
    MatchedInjective(spec, desired, rows, matched);
    forall id | id in matched
      ensures id != "" && id in Ids(rows)
    {
      var i :| 0 <= i < |matched| && matched[i] == id;
      MatchesAreRows(spec, desired, rows, matched, i);
      IdsMember(rows, RowOf(rows, matched, i));
    }
  }

  /**
   After a successful apply of a keyless ordered menu a fresh plan moves rows at
   most, and it is empty if and only if nothing had to be moved or the rows that
   will serve come in order.
   */
  lemma ApplyEmptyExactly(spec: MenuSpec, desired: seq<Record>, approval: Approval, rows: seq<Record>, env: Env)
    requires UniqueIds(rows) && spec.key == "" && spec.ordered
    requires Apply(spec, desired, approval, rows, env).failure.None?
    ensures MakePlan(spec, desired, BeforeMoves(spec, desired, rows, env)).Planned?
    ensures MakePlan(spec, desired, Apply(spec, desired, approval, rows, env).rows).Planned?
    ensures
      var before := BeforeMoves(spec, desired, rows, env);
      var q := MakePlan(spec, desired, before).plan;
      q.steps != [] ==> q.matched != []
    ensures
      var out, before := Apply(spec, desired, approval, rows, env), BeforeMoves(spec, desired, rows, env);
      var q, next := MakePlan(spec, desired, before).plan, MakePlan(spec, desired, out.rows).plan;
      && (forall s | s in next.steps :: s.Move?)
      && (next.steps == [] <==> (q.steps == [] || ComeInOrder(spec, before, q.matched)))
  {
    var q, t := EndsWithMoves(spec, desired, approval, rows, env);
    var before := BeforeMoves(spec, desired, rows, env);
    hide Apply, BeforeMoves, Run, ComeInOrder, Retaken, Reorder, UniqueIds;
    if q.steps == [] {
      RunNothing(before, env, t);
    } else {
      FreshPlanExact(spec, desired, before, q, env, t);
      var after, next := Run(q.steps, before, env, t).rows, Retaken(spec, before, q.matched, |q.matched|);
      ReorderShape(after, next);
    }
    hide *;
  }
}
