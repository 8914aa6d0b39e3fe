/**
 The greedy pairing of desired rows with device rows (rest/menu.go:172-189):
 what it guarantees, and that on a keyless menu it does not depend on the order
 in which the device lists its rows.
 */
module MenuMatching {
  import opened Counting
  import opened Records
  import opened MenuPlan

  /** The pairing said outright: every choice is clear, and every choice is the first eligible row. */
  ghost predicate Greedy(spec: MenuSpec, desired: seq<Record>, current: seq<Record>, matched: seq<string>) {
    |matched| <= |desired| &&
    forall i | 0 <= i < |matched| ::
      && Clear(spec, desired[i], current, Claimed(matched[..i]))
      && matched[i] == Pick(spec, desired[i], current, Claimed(matched[..i]))
  }

  lemma {:induction false} ResolveIsGreedy(spec: MenuSpec, desired: seq<Record>, current: seq<Record>, n: nat)
    requires UniqueIds(current) && n <= |desired|
    requires Resolve(spec, desired, current, n).Paired?
    ensures Greedy(spec, desired, current, Resolve(spec, desired, current, n).matched)
  {
    hide UniqueIds, Clear, Pick, Greedy;
    if n == 0 {
      GreedyNone(spec, desired, current);
    } else {
      ResolvePrefix(spec, desired, current, n - 1, n);
      ResolveIsGreedy(spec, desired, current, n - 1);
      ResolveStep(spec, desired, current, n - 1);
      var before := Resolve(spec, desired, current, n - 1).matched;
      hide Resolve;
      GreedySnoc(spec, desired, current, before, Pick(spec, desired[n - 1], current, Claimed(before)));
    }
  }

  lemma GreedyNone(spec: MenuSpec, desired: seq<Record>, current: seq<Record>)
    ensures Greedy(spec, desired, current, [])
  {
  }

  /** A greedy pairing stays one when the next clear choice is made. */
  lemma GreedySnoc(spec: MenuSpec, desired: seq<Record>, current: seq<Record>, before: seq<string>, id: string)
    requires Greedy(spec, desired, current, before) && |before| < |desired|
    requires Clear(spec, desired[|before|], current, Claimed(before))
    requires id == Pick(spec, desired[|before|], current, Claimed(before))
    ensures Greedy(spec, desired, current, before + [id])
  {
    hide Clear, Pick;
    var after := before + [id];
    forall i | 0 <= i < |after|
      ensures Clear(spec, desired[i], current, Claimed(after[..i])) && after[i] == Pick(spec, desired[i], current, Claimed(after[..i]))
    {
      assert after[..i] == before[..i];
      assert before[..|before|] == before;
    }
  }

  lemma {:induction false} GreedyIsResolve(spec: MenuSpec, desired: seq<Record>, current: seq<Record>, matched: seq<string>)
    requires UniqueIds(current) && Greedy(spec, desired, current, matched)
    ensures Resolve(spec, desired, current, |matched|) == Paired(matched)
  {
    if matched != [] {
      var n := |matched| - 1;
      var before := matched[..n];
      forall i | 0 <= i < n
        ensures before[..i] == matched[..i]
      {
      }
      GreedyIsResolve(spec, desired, current, before);
      ResolveStep(spec, desired, current, n);
      assert matched == before + [matched[n]];
    }
  }

  /** The device row desired row `i` resolved to. */
  function RowOf(current: seq<Record>, matched: seq<string>, i: nat): Record
    requires i < |matched|
  {
    ByID(current, matched[i])
  }

  /** Every match is an addressable row of the reading, not ignored, recognised by its desired row. */
  lemma MatchesAreRows(spec: MenuSpec, desired: seq<Record>, current: seq<Record>, matched: seq<string>, i: nat)
    requires UniqueIds(current) && Greedy(spec, desired, current, matched)
    requires i < |matched| && matched[i] != ""
    ensures RowOf(current, matched, i) in current
    ensures IdOf(RowOf(current, matched, i)) == matched[i]
    ensures Eligible(spec, desired[i], Claimed(matched[..i]), RowOf(current, matched, i))
  {
    PickEligible(spec, desired[i], current, Claimed(matched[..i]));
  }

  /** No device row is claimed twice. */
  lemma MatchedInjective(spec: MenuSpec, desired: seq<Record>, current: seq<Record>, matched: seq<string>)
    requires UniqueIds(current) && Greedy(spec, desired, current, matched)
    ensures forall i, j | 0 <= i < j < |matched| && matched[i] != "" :: matched[i] != matched[j]
  {
    forall i, j | 0 <= i < j < |matched| && matched[i] != ""
      ensures matched[i] != matched[j]
    {
      assert matched[..j][i] == matched[i];
      assert matched[i] in Claimed(matched[..j]);
      if matched[j] != "" {
        MatchesAreRows(spec, desired, current, matched, j);
      }
    }
  }

  // ---- Independence of the listing order ----

  /** What the rows still open to a claim say, with multiplicity. */
  ghost function OpenContents(spec: MenuSpec, current: seq<Record>, claimed: set<string>): multiset<Record> {
    if current == [] then multiset{}
    else (if Open(spec, claimed, current[0]) then multiset{Content(current[0])} else multiset{})
         + OpenContents(spec, current[1..], claimed)
  }

  lemma {:induction false} OpenContentsConcat(spec: MenuSpec, a: seq<Record>, b: seq<Record>, claimed: set<string>)
    ensures OpenContents(spec, a + b, claimed) == OpenContents(spec, a, claimed) + OpenContents(spec, b, claimed)
  {
    if a == [] {
      assert a + b == b;
    } else {
      assert (a + b)[1..] == a[1..] + b;
      OpenContentsConcat(spec, a[1..], b, claimed);
    }
  }

  lemma {:induction false} OpenContentsPermuted(spec: MenuSpec, a: seq<Record>, b: seq<Record>, claimed: set<string>)
    requires multiset(a) == multiset(b)
    ensures OpenContents(spec, a, claimed) == OpenContents(spec, b, claimed)
  {
    if a == [] {
      assert |multiset(b)| == |multiset(a)| == 0;
    } else {
      var x, rest := a[0], a[1..];
      assert a == [x] + rest;
      var left, right := PullOut(a, b);
      OpenContentsPermuted(spec, rest, left + right, claimed);
      OpenContentsConcat(spec, left, right, claimed);
      OpenContentsConcat(spec, left, [x] + right, claimed);
      OpenContentsConcat(spec, [x], right, claimed);
      OpenContentsConcat(spec, [x], rest, claimed);
    }
  }

  lemma {:induction false} OpenContentsMember(spec: MenuSpec, current: seq<Record>, claimed: set<string>, c: Record)
    ensures c in OpenContents(spec, current, claimed) <==>
      exists r :: r in current && Open(spec, claimed, r) && Content(r) == c
  {
    if current != [] {
      OpenContentsMember(spec, current[1..], claimed, c);
      assert current == [current[0]] + current[1..];
      if r :| r in current[1..] && Open(spec, claimed, r) && Content(r) == c {
        assert r in current;
      }
    }
  }

  lemma {:induction false} OpenContentsUnclaimed(spec: MenuSpec, current: seq<Record>, claimed: set<string>, id: string)
    requires forall r | r in current :: IdOf(r) != id
    ensures OpenContents(spec, current, claimed + {id}) == OpenContents(spec, current, claimed)
  {
    if current != [] {
      OpenContentsUnclaimed(spec, current[1..], claimed, id);
    }
  }

  /** Claiming a row removes its content, once, from what is open. */
  lemma {:induction false} OpenContentsClaim(spec: MenuSpec, current: seq<Record>, claimed: set<string>, row: Record)
    requires UniqueIds(current) && row in current && Open(spec, claimed, row)
    ensures OpenContents(spec, current, claimed)
         == OpenContents(spec, current, claimed + {IdOf(row)}) + multiset{Content(row)}
  {
    var rest := current[1..];
    assert current == [current[0]] + rest;
    UniqueParts([current[0]], rest);
    if current[0] == row {
      forall r | r in rest
        ensures IdOf(r) != IdOf(row)
      {
        assert current[0] in [current[0]];
      }
      OpenContentsUnclaimed(spec, rest, claimed, IdOf(row));
    } else {
      assert row in rest;
      assert current[0] in [current[0]];
      OpenContentsClaim(spec, rest, claimed, row);
    }
  }

  lemma {:induction false} PermutedUnique(a: seq<Record>, b: seq<Record>)
    requires UniqueIds(a) && multiset(a) == multiset(b)
    ensures UniqueIds(b)
  {
    if a == [] {
      assert |multiset(b)| == |multiset(a)| == 0;
    } else {
      var x, rest := a[0], a[1..];
      assert a == [x] + rest;
      UniqueParts([x], rest);
      assert x in [x];
      var left, right := PullOut(a, b);
      PermutedUnique(rest, left + right);
      UniqueParts(left, right);
      forall r | r in left || r in right
        ensures IdOf(x) != "" ==> IdOf(x) != IdOf(r)
      {
        assert r in left + right;
        assert r in multiset(left + right);
      }
      UniqueConcat([x], right);
      UniqueConcat(left, [x] + right);
    }
  }

  /** Only one of the open contents satisfies `want`. */
  ghost predicate Decided(want: Record, open: multiset<Record>) {
    forall c, d | c in open && d in open && Subset(want, c) && Subset(want, d) :: c == d
  }

  lemma EligibleIsOpen(spec: MenuSpec, want: Record, current: seq<Record>, claimed: set<string>, r: Record)
    requires spec.key == "" && r in current && Eligible(spec, want, claimed, r)
    ensures Content(r) in OpenContents(spec, current, claimed) && Subset(want, Content(r))
  {
    OpenContentsMember(spec, current, claimed, Content(r));
    SubsetSeesContent(want, r, Content(r));
  }

  lemma OpenIsEligible(spec: MenuSpec, want: Record, current: seq<Record>, claimed: set<string>, c: Record)
    returns (r: Record)
    requires spec.key == "" && c in OpenContents(spec, current, claimed) && Subset(want, c)
    ensures r in current && Eligible(spec, want, claimed, r) && Content(r) == c
  {
    OpenContentsMember(spec, current, claimed, c);
    r :| r in current && Open(spec, claimed, r) && Content(r) == c;
    assert ID_FIELD !in c;
    assert Content(c) == c;
    SubsetSeesContent(want, r, c);
  }

  /** On a keyless menu, whether a choice is clear is a fact about the open contents alone. */
  lemma ClearSeesContents(spec: MenuSpec, want: Record, current: seq<Record>, claimed: set<string>)
    requires spec.key == ""
    ensures Clear(spec, want, current, claimed) <==> Decided(want, OpenContents(spec, current, claimed))
  {
    var open := OpenContents(spec, current, claimed);
    if Clear(spec, want, current, claimed) {
      forall c, d | c in open && d in open && Subset(want, c) && Subset(want, d)
        ensures c == d
      {
        var r := OpenIsEligible(spec, want, current, claimed, c);
        var s := OpenIsEligible(spec, want, current, claimed, d);
        assert SameContent(r, s);
      }
    }
    if Decided(want, open) {
      forall r, s | r in current && s in current && Eligible(spec, want, claimed, r) && Eligible(spec, want, claimed, s)
        ensures SameContent(r, s)
      {
        EligibleIsOpen(spec, want, current, claimed, r);
        EligibleIsOpen(spec, want, current, claimed, s);
      }
    }
  }

  /** So is whether a row is chosen; and what a chosen row says is one of them. */
  lemma PickSeesContents(spec: MenuSpec, want: Record, current: seq<Record>, claimed: set<string>)
    requires spec.key == "" && UniqueIds(current)
    ensures
      var id, open := Pick(spec, want, current, claimed), OpenContents(spec, current, claimed);
      && (id == "" <==> forall c | c in open :: !Subset(want, c))
      && (id != "" ==> Content(ByID(current, id)) in open && Subset(want, Content(ByID(current, id))))
  {
    PickEligible(spec, want, current, claimed);
    var id, open := Pick(spec, want, current, claimed), OpenContents(spec, current, claimed);
    if id != "" {
      EligibleIsOpen(spec, want, current, claimed, ByID(current, id));
    } else {
      forall c | c in open
        ensures !Subset(want, c)
      {
        if Subset(want, c) {
          var r := OpenIsEligible(spec, want, current, claimed, c);
        }
      }
    }
  }

  /** Two readings agree on the first `n` desired rows up to identifiers. */
  ghost predicate SameMatches(a: seq<Record>, ma: seq<string>, b: seq<Record>, mb: seq<string>) {
    |ma| == |mb| &&
    forall i | 0 <= i < |ma| ::
      && (ma[i] == "" <==> mb[i] == "")
      && (ma[i] != "" ==> SameContent(RowOf(a, ma, i), RowOf(b, mb, i)))
  }

  ghost predicate SamePairing(a: seq<Record>, pa: Pairing, b: seq<Record>, pb: Pairing) {
    match (pa, pb)
    case (Paired(ma), Paired(mb)) => SameMatches(a, ma, b, mb)
    case (Conflict(i, _), Conflict(j, _)) => i == j
    case _ => false
  }

  lemma ClaimedSnoc(matched: seq<string>, id: string)
    ensures Claimed(matched + [id]) == Claimed(matched) + (if id == "" then {} else {id})
  {
  }

  /**
   Permuting the rows of a keyless menu changes neither whether nor where the
   pairing is ambiguous, nor what the row each desired row resolves to says.
   */
  lemma {:induction false} ListingOrderIrrelevant(spec: MenuSpec, desired: seq<Record>, a: seq<Record>, b: seq<Record>, n: nat)
    requires spec.key == "" && UniqueIds(a) && multiset(a) == multiset(b) && n <= |desired|
    ensures
      var pa, pb := Resolve(spec, desired, a, n), Resolve(spec, desired, b, n);
      && SamePairing(a, pa, b, pb)
      && (pa.Paired? ==> OpenContents(spec, a, Claimed(pa.matched)) == OpenContents(spec, b, Claimed(pb.matched)))
  {
    PermutedUnique(a, b);
    hide UniqueIds, OpenContents;
    if n == 0 {
      OpenContentsPermuted(spec, a, b, {});
      assert Claimed([]) == {};
    } else {
      ListingOrderIrrelevant(spec, desired, a, b, n - 1);
      if Resolve(spec, desired, a, n - 1).Paired? {
        ListingOrderStep(spec, desired, a, b, n - 1);
      }
    }
  }

  lemma OpenAfterPick(spec: MenuSpec, want: Record, current: seq<Record>, matched: seq<string>)
    requires UniqueIds(current)
    ensures
      var open, id := OpenContents(spec, current, Claimed(matched)), Pick(spec, want, current, Claimed(matched));
      OpenContents(spec, current, Claimed(matched + [id]))
      == if id == "" then open else open - multiset{Content(ByID(current, id))}
  {
    var claimed := Claimed(matched);
    var id := Pick(spec, want, current, claimed);
    ClaimedSnoc(matched, id);
    if id == "" {
      assert claimed + {} == claimed;
    } else {
      PickEligible(spec, want, current, claimed);
      OpenContentsClaim(spec, current, claimed, ByID(current, id));
    }
  }

  lemma SameMatchesSnoc(a: seq<Record>, ma: seq<string>, b: seq<Record>, mb: seq<string>, x: string, y: string)
    requires SameMatches(a, ma, b, mb)
    requires x == "" <==> y == ""
    requires x != "" ==> SameContent(ByID(a, x), ByID(b, y))
    ensures SameMatches(a, ma + [x], b, mb + [y])
  {
  }

  lemma ListingOrderStep(spec: MenuSpec, desired: seq<Record>, a: seq<Record>, b: seq<Record>, n: nat)
    requires spec.key == "" && UniqueIds(a) && UniqueIds(b) && n < |desired|
    requires
      var pa, pb := Resolve(spec, desired, a, n), Resolve(spec, desired, b, n);
      && pa.Paired? && pb.Paired? && SameMatches(a, pa.matched, b, pb.matched)
      && OpenContents(spec, a, Claimed(pa.matched)) == OpenContents(spec, b, Claimed(pb.matched))
    ensures
      var pa, pb := Resolve(spec, desired, a, n + 1), Resolve(spec, desired, b, n + 1);
      && SamePairing(a, pa, b, pb)
      && (pa.Paired? ==> OpenContents(spec, a, Claimed(pa.matched)) == OpenContents(spec, b, Claimed(pb.matched)))
  {
    var ma, mb := Resolve(spec, desired, a, n).matched, Resolve(spec, desired, b, n).matched;
    var want := desired[n];
    ResolveStep(spec, desired, a, n);
    ResolveStep(spec, desired, b, n);
    ClearSeesContents(spec, want, a, Claimed(ma));
    ClearSeesContents(spec, want, b, Claimed(mb));
    if Decided(want, OpenContents(spec, a, Claimed(ma))) {
      PickSeesContents(spec, want, a, Claimed(ma));
      PickSeesContents(spec, want, b, Claimed(mb));
      OpenAfterPick(spec, want, a, ma);
      OpenAfterPick(spec, want, b, mb);
      var x, y := Pick(spec, want, a, Claimed(ma)), Pick(spec, want, b, Claimed(mb));
      assert x == "" <==> y == "";
      SameMatchesSnoc(a, ma, b, mb, x, y);
    }
  }

  /** The same for whole plans: same refusal at the same place, or the same contents matched. */
  lemma PlanPermutationInvariant(spec: MenuSpec, desired: seq<Record>, a: seq<Record>, b: seq<Record>)
    requires spec.key == "" && UniqueIds(a) && multiset(a) == multiset(b)
    ensures
      match (MakePlan(spec, desired, a), MakePlan(spec, desired, b))
      case (Planned(p), Planned(q)) => SameMatches(a, p.matched, b, q.matched)
      case (Rejected(AmbiguousRow(i, _)), Rejected(AmbiguousRow(j, _))) => i == j
      case (Rejected(e), Rejected(f)) => e == f
      case _ => false
  {
    ListingOrderIrrelevant(spec, desired, a, b, |desired|);
  }
}
