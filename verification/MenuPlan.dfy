/**
 What a plan is: the menu reconciler of rest/menu.go as a function of the
 specification, the desired rows and one reading of the device.
 */
module MenuPlan {
  import opened Records

  /** What to do with a row nobody asked for. `Unset` is every other text. */
  datatype Unlisted = Tolerate | Prune | Unset

  datatype MenuSpec = MenuSpec(ordered: bool, unlisted: Unlisted, key: string, ignore: seq<Record>)

  datatype Step =
    | Create(row: Record)
    | Update(id: string, row: Record)
    | Delete(id: string, row: Record)
    | Move(order: seq<string>, before: string)

  /**
   `matched` has one entry per desired row: the identifier of the device row it
   resolved to, or the empty text where the source's map has no entry.
   */
  datatype Plan = Plan(steps: seq<Step>, matched: seq<string>)

  datatype PlanError =
    | NoUnlistedPolicy
    | EmptyIgnoreSelector
    | AmbiguousRow(index: nat, ids: seq<string>)

  datatype PlanResult = Planned(plan: Plan) | Rejected(error: PlanError)

  predicate Ignored(spec: MenuSpec, row: Record) {
    exists s | s in spec.ignore :: Contains(row, s)
  }

  /** The row has all the selector's fields, with its values. */
  predicate Selects(selector: Record, row: Record) {
    forall k | k in selector :: k in row && row[k] == selector[k]
  }

  /** A row that some selector selects is the device's own. */
  predicate DevicesOwn(spec: MenuSpec, row: Record) {
    exists i | 0 <= i < |spec.ignore| :: Selects(spec.ignore[i], row)
  }

  lemma IgnoredMeans(spec: MenuSpec, row: Record)
    ensures Ignored(spec, row) <==> DevicesOwn(spec, row)
  {
    if Ignored(spec, row) {
      var s :| s in spec.ignore && Contains(row, s);
      var i :| 0 <= i < |spec.ignore| && spec.ignore[i] == s;
      assert Selects(spec.ignore[i], row);
    }
    if DevicesOwn(spec, row) {
      var i :| 0 <= i < |spec.ignore| && Selects(spec.ignore[i], row);
      assert spec.ignore[i] in spec.ignore && Contains(row, spec.ignore[i]);
    }
  }

  /** How a desired row recognises a device row: by the key, or by all it sets. */
  predicate Recognises(spec: MenuSpec, want: Record, row: Record) {
    if spec.key != "" then
      spec.key in want && spec.key in row && row[spec.key] == want[spec.key]
    else
      Subset(want, row)
  }

  /** A row that may still be claimed: addressable, unclaimed and not the device's own. */
  predicate Open(spec: MenuSpec, claimed: set<string>, row: Record) {
    IdOf(row) != "" && IdOf(row) !in claimed && !Ignored(spec, row)
  }

  predicate Eligible(spec: MenuSpec, want: Record, claimed: set<string>, row: Record) {
    Open(spec, claimed, row) && Recognises(spec, want, row)
  }

  function Eligibles(spec: MenuSpec, want: Record, current: seq<Record>, claimed: set<string>): (out: seq<Record>)
    ensures forall r {:trigger r in out} :: r in out <==> r in current && Eligible(spec, want, claimed, r)
  {
    if current == [] then []
    else if Eligible(spec, want, claimed, current[0]) then
      [current[0]] + Eligibles(spec, want, current[1..], claimed)
    else
      Eligibles(spec, want, current[1..], claimed)
  }

  /** The device rows a desired row could be; with a key the first hit is the only one. */
  function Candidates(spec: MenuSpec, want: Record, current: seq<Record>, claimed: set<string>): seq<string> {
    var e := Eligibles(spec, want, current, claimed);
    if spec.key != "" && e != [] then [IdOf(e[0])] else Ids(e)
  }

  /** The candidate rows differ in nothing but their identifier. */
  predicate Indistinguishable(current: seq<Record>, ids: seq<string>)
    requires ids != []
  {
    forall i | 1 <= i < |ids| :: SameContent(ByID(current, ids[0]), ByID(current, ids[i]))
  }

  function Claimed(matched: seq<string>): set<string> {
    set id | id in matched && id != ""
  }

  datatype Pairing = Paired(matched: seq<string>) | Conflict(index: nat, ids: seq<string>)

  /** Pairs the first `n` desired rows off, greedily and in order. */
  function Resolve(spec: MenuSpec, desired: seq<Record>, current: seq<Record>, n: nat): (p: Pairing)
    requires n <= |desired|
    ensures p.Paired? ==> |p.matched| == n
    ensures p.Conflict? ==> p.index < n && |p.ids| > 1
  {
    if n == 0 then Paired([])
    else
      var prev := Resolve(spec, desired, current, n - 1);
      if prev.Conflict? then prev
      else
        var ids := Candidates(spec, desired[n - 1], current, Claimed(prev.matched));
        if |ids| > 1 && !Indistinguishable(current, ids) then Conflict(n - 1, ids)
        else Paired(prev.matched + [if ids == [] then "" else ids[0]])
  }

  /** The fields of `want` the device disagrees with. */
  function Changes(want: Record, row: Record): Record {
    map k | k in want && k != ID_FIELD && !(k in row && row[k] == want[k]) :: want[k]
  }

  /** The write desired row `i` needs: none, a create, or an update. */
  function Write(spec: MenuSpec, want: Record, current: seq<Record>, id: string): seq<Step> {
    if id == "" then [Create(want)]
    else if spec.key == "" then []
    else
      var diff := Changes(want, ByID(current, id));
      if diff == map[] then [] else [Update(id, diff)]
  }

  function Writes(spec: MenuSpec, desired: seq<Record>, current: seq<Record>, matched: seq<string>, n: nat): seq<Step>
    requires n <= |desired| == |matched|
  {
    if n == 0 then []
    else Writes(spec, desired, current, matched, n - 1) + Write(spec, desired[n - 1], current, matched[n - 1])
  }

  function Prunes(spec: MenuSpec, current: seq<Record>, claimed: set<string>): seq<Step> {
    if current == [] then []
    else (if Open(spec, claimed, current[0]) then [Delete(IdOf(current[0]), current[0])] else [])
         + Prunes(spec, current[1..], claimed)
  }

  /** Creates and updates in desired order, then the deletes. */
  function Mutations(spec: MenuSpec, desired: seq<Record>, current: seq<Record>, matched: seq<string>): seq<Step>
    requires |desired| == |matched|
  {
    Writes(spec, desired, current, matched, |desired|)
    + (if spec.unlisted == Prune then Prunes(spec, current, Claimed(matched)) else [])
  }

  /** The managed rows in the order the specification wants them. */
  function Wanted(matched: seq<string>): (out: seq<string>)
    ensures forall id {:trigger id in out} :: id in out <==> id in matched && id != ""
  {
    if matched == [] then []
    else (if matched[0] == "" then [] else [matched[0]]) + Wanted(matched[1..])
  }

  /** The same rows in the order the device holds them. */
  function Have(current: seq<Record>, claimed: set<string>): seq<string> {
    Ids(Only(current, claimed))
  }

  /** Each row is placed before its successor, last pair first; `i` pairs are left. */
  function Pairwise(want: seq<string>, i: nat): seq<Step>
    requires i < |want|
  {
    if i == 0 then [] else [Move([want[i - 1]], want[i])] + Pairwise(want, i - 1)
  }

  function Reorder(current: seq<Record>, matched: seq<string>): seq<Step> {
    var want := Wanted(matched);
    var have := Have(current, Claimed(matched));
    if |want| < 2 || want == have then []
    else if |have| == |current| then [Move(want, "")]
    else Pairwise(want, |want| - 1)
  }

  function PlanSteps(spec: MenuSpec, desired: seq<Record>, current: seq<Record>, matched: seq<string>): seq<Step>
    requires |desired| == |matched|
  {
    Mutations(spec, desired, current, matched) + (if spec.ordered then Reorder(current, matched) else [])
  }

  function MakePlan(spec: MenuSpec, desired: seq<Record>, current: seq<Record>): PlanResult {
    if spec.unlisted == Unset then Rejected(NoUnlistedPolicy)
    else if exists s | s in spec.ignore :: s == map[] then Rejected(EmptyIgnoreSelector)
    else
      match Resolve(spec, desired, current, |desired|)
      case Conflict(index, ids) => Rejected(AmbiguousRow(index, ids))
      case Paired(matched) => Planned(Plan(PlanSteps(spec, desired, current, matched), matched))
  }

  // ---- What one step of the pairing means, free of the order of the reading ----

  /** The identifier the greedy pairing gives `want` next. */
  function Pick(spec: MenuSpec, want: Record, current: seq<Record>, claimed: set<string>): string {
    var e := Eligibles(spec, want, current, claimed);
    if e == [] then "" else IdOf(e[0])
  }

  /** The choice cannot be observed: every eligible row says the same. */
  ghost predicate Clear(spec: MenuSpec, want: Record, current: seq<Record>, claimed: set<string>) {
    spec.key != "" ||
    forall r, s | r in current && s in current && Eligible(spec, want, claimed, r) && Eligible(spec, want, claimed, s) ::
      SameContent(r, s)
  }

  /** `Resolve` goes on exactly when the choice is clear, and then takes `Pick`. */
  lemma ResolveStep(spec: MenuSpec, desired: seq<Record>, current: seq<Record>, n: nat)
    requires UniqueIds(current) && n < |desired|
    requires Resolve(spec, desired, current, n).Paired?
    ensures
      var matched := Resolve(spec, desired, current, n).matched;
      var next := Resolve(spec, desired, current, n + 1);
      && (next.Paired? <==> Clear(spec, desired[n], current, Claimed(matched)))
      && (next.Conflict? ==> next.index == n)
      && (next.Paired? ==> next.matched == matched + [Pick(spec, desired[n], current, Claimed(matched))])
  {
    var claimed := Claimed(Resolve(spec, desired, current, n).matched);
    var want := desired[n];
    CandidatesClear(spec, want, current, claimed);
    CandidatesPick(spec, want, current, claimed);
    hide Candidates, Clear, Pick, Indistinguishable, UniqueIds;
  }

  lemma CandidatesPick(spec: MenuSpec, want: Record, current: seq<Record>, claimed: set<string>)
    ensures
      var ids := Candidates(spec, want, current, claimed);
      Pick(spec, want, current, claimed) == if ids == [] then "" else ids[0]
  {
    hide Eligible;
  }

  /** The loop's test for a clear choice, on the identifiers it has listed. */
  lemma CandidatesClear(spec: MenuSpec, want: Record, current: seq<Record>, claimed: set<string>)
    requires UniqueIds(current)
    ensures
      var ids := Candidates(spec, want, current, claimed);
      Clear(spec, want, current, claimed) <==> (|ids| <= 1 || Indistinguishable(current, ids))
  {
    if spec.key == "" {
      EligiblesNamed(spec, want, current, claimed);
      EligiblesClear(spec, want, current, claimed);
      hide *;
      ListAlike(current, Eligibles(spec, want, current, claimed));
      CandidatesKeyless(spec, want, current, claimed);
    }
  }

  lemma CandidatesKeyless(spec: MenuSpec, want: Record, current: seq<Record>, claimed: set<string>)
    requires spec.key == ""
    ensures Candidates(spec, want, current, claimed) == Ids(Eligibles(spec, want, current, claimed))
  {
  }

  /** All rows of a list say the same. */
  predicate Alike(list: seq<Record>) {
    forall i | 1 <= i < |list| :: SameContent(list[0], list[i])
  }

  lemma ListAlike(current: seq<Record>, list: seq<Record>)
    requires forall i | 0 <= i < |list| :: ByID(current, Ids(list)[i]) == list[i]
    ensures |list| <= 1 ==> Alike(list)
    ensures list != [] ==> (Indistinguishable(current, Ids(list)) <==> Alike(list))
  {
    hide ByID, SameContent;
    if list != [] {
      assert ByID(current, Ids(list)[0]) == list[0];
      assert forall i | 1 <= i < |list| :: ByID(current, Ids(list)[i]) == list[i];
    }
  }

  lemma EligiblesClear(spec: MenuSpec, want: Record, current: seq<Record>, claimed: set<string>)
    requires spec.key == ""
    ensures Clear(spec, want, current, claimed) <==> Alike(Eligibles(spec, want, current, claimed))
  {
    hide Eligible, Content;
    var e := Eligibles(spec, want, current, claimed);
    if Clear(spec, want, current, claimed) {
      assert forall i | 0 <= i < |e| :: e[i] in e;
    }
    if Alike(e) {
      forall r | r in current && Eligible(spec, want, claimed, r)
        ensures e != [] && SameContent(e[0], r)
      {
        assert r in e;
        var i :| 0 <= i < |e| && e[i] == r;
      }
    }
  }

  lemma EligiblesNamed(spec: MenuSpec, want: Record, current: seq<Record>, claimed: set<string>)
    requires UniqueIds(current)
    ensures
      var e := Eligibles(spec, want, current, claimed);
      forall i | 0 <= i < |e| :: ByID(current, Ids(e)[i]) == e[i]
  {
    hide UniqueIds;
    var e := Eligibles(spec, want, current, claimed);
    forall i | 0 <= i < |e|
      ensures ByID(current, Ids(e)[i]) == e[i]
    {
      assert e[i] in e;
      ByIDFinds(current, e[i]);
    }
  }

  /** A shorter pairing is a prefix of a longer one. */
  lemma {:induction false} ResolvePrefix(spec: MenuSpec, desired: seq<Record>, current: seq<Record>, m: nat, n: nat)
    requires m <= n <= |desired|
    requires Resolve(spec, desired, current, n).Paired?
    ensures Resolve(spec, desired, current, m).Paired?
    ensures Resolve(spec, desired, current, m).matched == Resolve(spec, desired, current, n).matched[..m]
    decreases n
  {
    hide Candidates, Indistinguishable, Claimed;
    if m < n {
      ResolvePrefix(spec, desired, current, m, n - 1);
    }
  }

  /** An ambiguity, once met, is the verdict for every longer prefix. */
  lemma {:induction false} ConflictStays(spec: MenuSpec, desired: seq<Record>, current: seq<Record>, m: nat, n: nat)
    requires m <= n <= |desired|
    requires Resolve(spec, desired, current, m).Conflict?
    ensures Resolve(spec, desired, current, n) == Resolve(spec, desired, current, m)
    decreases n
  {
    hide Candidates, Indistinguishable, Claimed;
    if m < n {
      ConflictStays(spec, desired, current, m, n - 1);
    }
  }

  /** A chosen row is a row of the reading, eligible at the time. */
  lemma PickEligible(spec: MenuSpec, want: Record, current: seq<Record>, claimed: set<string>)
    requires UniqueIds(current)
    ensures var id := Pick(spec, want, current, claimed);
      id != "" ==> ByID(current, id) in current && Eligible(spec, want, claimed, ByID(current, id)) && IdOf(ByID(current, id)) == id
    ensures Pick(spec, want, current, claimed) == "" <==> forall r | r in current :: !Eligible(spec, want, claimed, r)
  {
    var e := Eligibles(spec, want, current, claimed);
    if e != [] {
      assert e[0] in e;
      ByIDFinds(current, e[0]);
    } else {
      forall r | r in current
        ensures !Eligible(spec, want, claimed, r)
      {
        assert r !in e;
      }
    }
  }

  // ---- The filters distribute over concatenation ----

  lemma {:induction false} EligiblesConcat(spec: MenuSpec, want: Record, a: seq<Record>, b: seq<Record>, claimed: set<string>)
    ensures Eligibles(spec, want, a + b, claimed) == Eligibles(spec, want, a, claimed) + Eligibles(spec, want, b, claimed)
  {
    if a == [] {
      assert a + b == b;
    } else {
      assert (a + b)[1..] == a[1..] + b;
      EligiblesConcat(spec, want, a[1..], b, claimed);
    }
  }

  lemma {:induction false} WantedConcat(a: seq<string>, b: seq<string>)
    ensures Wanted(a + b) == Wanted(a) + Wanted(b)
  {
    if a == [] {
      assert a + b == b;
    } else {
      assert (a + b)[1..] == a[1..] + b;
      WantedConcat(a[1..], b);
    }
  }

  lemma {:induction false} PrunesConcat(spec: MenuSpec, a: seq<Record>, b: seq<Record>, claimed: set<string>)
    ensures Prunes(spec, a + b, claimed) == Prunes(spec, a, claimed) + Prunes(spec, b, claimed)
  {
    if a == [] {
      assert a + b == b;
    } else {
      assert (a + b)[1..] == a[1..] + b;
      PrunesConcat(spec, a[1..], b, claimed);
    }
  }
}
