/**
 Menus on which a surplus twin takes the place of a managed row
 (rest/menu.go:268-290, 337-372): one on which every apply succeeds and none
 converges, and one on which the takeover leaves nothing to do.
 */
module MenuTwins {
  import opened Prelude
  import opened Records
  import opened MenuPlan
  import opened MenuMatching
  import opened MenuDevice
  import opened MenuOrdering
  import opened MenuApply
  import opened MenuSoundness
  import opened MenuConvergence
  import opened MenuRetaking

  const KEEP_THE_REST := MenuSpec(true, Tolerate, "", [])

  function Named(name: string): Record {
    map["name" := name]
  }

  function Row(id: string, name: string): Record {
    map[ID_FIELD := id, "name" := name]
  }

  const B_THEN_A_THEN_D := [Named("B"), Named("A"), Named("D")]

  /** Two rows saying A around a B, ahead of a D: only one A is wanted, after the B. */
  function Surplus(x: string, y: string): seq<Record> {
    [Row(x, "A"), Row("r3", "B"), Row(y, "A"), Row("r4", "D")]
  }

  /** Rows that say a name and nothing else. */
  predicate NamedRows(rows: seq<Record>) {
    forall r | r in rows :: IdOf(r) != "" && "name" in r && Content(r) == Named(r["name"])
  }

  lemma RowNamed(id: string, name: string)
    requires id != ""
    ensures IdOf(Row(id, name)) == id && Content(Row(id, name)) == Named(name) && NamedRows([Row(id, name)])
  {
    assert ID_FIELD != "name";
    assert Row(id, name)["name"] == name;
    assert Content(Row(id, name)) == Named(name);
  }

  lemma NamedInjective(a: string, b: string)
    ensures Named(a) == Named(b) <==> a == b
  {
    assert Named(a)["name"] == a && Named(b)["name"] == b;
  }

  /** Which of such rows a desired name still finds. */
  lemma NamedEligible(rows: seq<Record>, name: string, claimed: set<string>, row: Record)
    requires NamedRows(rows) && row in rows
    ensures Eligible(KEEP_THE_REST, Named(name), claimed, row) <==> IdOf(row) !in claimed && Content(row) == Named(name)
  {
    assert "name" in Named(name) && row["name"] == Content(row)["name"];
    NamedInjective(row["name"], name);
  }

  lemma NamedClear(rows: seq<Record>, name: string, claimed: set<string>)
    requires NamedRows(rows)
    ensures Clear(KEEP_THE_REST, Named(name), rows, claimed)
  {
    forall r, s | r in rows && s in rows
                  && Eligible(KEEP_THE_REST, Named(name), claimed, r) && Eligible(KEEP_THE_REST, Named(name), claimed, s)
      ensures SameContent(r, s)
    {
      NamedEligible(rows, name, claimed, r);
      NamedEligible(rows, name, claimed, s);
    }
  }

  lemma NamedPick(rows: seq<Record>, name: string, claimed: set<string>, above: seq<Record>, row: Record, below: seq<Record>)
    requires NamedRows(rows) && rows == above + ([row] + below)
    requires IdOf(row) !in claimed && Content(row) == Named(name)
    requires forall r | r in above :: IdOf(r) in claimed || Content(r) != Named(name)
    ensures Clear(KEEP_THE_REST, Named(name), rows, claimed)
    ensures Pick(KEEP_THE_REST, Named(name), rows, claimed) == IdOf(row)
  {
    NamedClear(rows, name, claimed);
    forall r | r in above
      ensures !Eligible(KEEP_THE_REST, Named(name), claimed, r)
    {
      assert r in rows;
      NamedEligible(rows, name, claimed, r);
    }
    assert row in [row] + below;
    assert row in rows;
    NamedEligible(rows, name, claimed, row);
    PickFirst(KEEP_THE_REST, Named(name), above, row, below, claimed);
  }

  predicate Spare(x: string, y: string) {
    x != "" && y != "" && x != y && x !in {"r3", "r4"} && y !in {"r3", "r4"}
  }

  lemma SurplusFacts(x: string, y: string)
    requires Spare(x, y)
    ensures IdOf(Row(x, "A")) == x && IdOf(Row("r3", "B")) == "r3" && IdOf(Row(y, "A")) == y && IdOf(Row("r4", "D")) == "r4"
    ensures NamedRows(Surplus(x, y))
    ensures Content(Row(x, "A")) == Content(Row(y, "A")) == Named("A")
    ensures Content(Row("r3", "B")) == Named("B") && Content(Row("r4", "D")) == Named("D")
    ensures Named("A") != Named("B") && Named("A") != Named("D") && Named("B") != Named("D")
  {
    RowNamed(x, "A");
    RowNamed("r3", "B");
    RowNamed(y, "A");
    RowNamed("r4", "D");
    NamedInjective("A", "B");
    NamedInjective("A", "D");
    NamedInjective("B", "D");
  }

  lemma SurplusUnique(x: string, y: string)
    requires Spare(x, y)
    ensures UniqueIds(Surplus(x, y)) && Manageable(Surplus(x, y), ["r3", x, "r4"])
  {
    hide Row, Named, NamedRows, Content, IdOf;
    var rows := Surplus(x, y);
    SurplusFacts(x, y);
    assert IdOf(rows[0]) == x && IdOf(rows[1]) == "r3" && IdOf(rows[2]) == y && IdOf(rows[3]) == "r4";
    assert Ids(rows)[0] == x && Ids(rows)[1] == "r3" && Ids(rows)[3] == "r4";
  }

  /** The surplus menu pairs B with its row, A with the first of its rows, D with its row. */
  lemma SurplusPairs(x: string, y: string)
    requires Spare(x, y)
    ensures Greedy(KEEP_THE_REST, B_THEN_A_THEN_D, Surplus(x, y), ["r3", x, "r4"])
  {
    hide Row, Named, NamedRows, Clear, Pick, Content, IdOf;
    var rows, m := Surplus(x, y), ["r3", x, "r4"];
    var a, b, c, d := Row(x, "A"), Row("r3", "B"), Row(y, "A"), Row("r4", "D");
    SurplusFacts(x, y);
    NamedPick(rows, "B", Claimed(m[..0]), [a], b, [c, d]);
    NamedPick(rows, "A", Claimed(m[..1]), [], a, [b, c, d]);
    NamedPick(rows, "D", Claimed(m[..2]), [a, b, c], d, []);
  }

  /** Arranging the surplus menu swaps the two rows saying A. */
  lemma SurplusArranged(x: string, y: string)
    requires Spare(x, y)
    ensures "r4" in Ids(Surplus(x, y)) && Arranged(Surplus(x, y), ["r3", x, "r4"]) == Surplus(y, x)
  {
    hide UniqueIds, Row, Named, NamedRows, Content, IdOf, ByID;
    var rows, want := Surplus(x, y), ["r3", x, "r4"];
    var a, b, c, d := Row(x, "A"), Row("r3", "B"), Row(y, "A"), Row("r4", "D");
    SurplusUnique(x, y);
    SurplusFacts(x, y);
    assert a in rows && b in rows && d in rows by { assert rows[0] == a && rows[1] == b && rows[3] == d; }
    IdsMember(rows, d);
    AheadIs(rows, 3);
    ByIDFinds(rows, a);
    ByIDFinds(rows, b);
    ByIDFinds(rows, d);
    assert Block(rows, want) == [b, a, d];
    SurplusRest(x, y, a, b, c);
    assert rows[..3] == [a, b] + [c] && rows[4..] == [];
  }

  lemma SurplusRest(x: string, y: string, a: Record, b: Record, c: Record)
    requires Spare(x, y) && IdOf(a) == x && IdOf(b) == "r3" && IdOf(c) == y
    ensures Without([a, b] + [c], Listed(["r3", x, "r4"])) == [c]
  {
    var managed := Listed(["r3", x, "r4"]);
    assert managed == {"r3", x, "r4"};
    WithoutConcat([a, b], [c], managed);
    WithoutEverything([a, b], managed);
    WithoutNothing([c], managed);
  }

  /** The surplus menu is out of order as its plan sees it. */
  lemma SurplusPlan(x: string, y: string)
    requires Spare(x, y)
    ensures
      var p := Plan(Pairwise(["r3", x, "r4"], 2), ["r3", x, "r4"]);
      && MakePlan(KEEP_THE_REST, B_THEN_A_THEN_D, Surplus(x, y)) == Planned(p)
      && Reorder(Surplus(x, y), ["r3", x, "r4"]) == p.steps
      && NonMoves(p.steps) == [] && p.steps != []
  {
    var rows, want := Surplus(x, y), ["r3", x, "r4"];
    SurplusUnique(x, y);
    SurplusPairs(x, y);
    SurplusHave(x, y);
    assert want[0] != "" && want[1] != "" && want[2] != "";
    hide Surplus, Row, Named, UniqueIds, Greedy, Manageable, Spare, Have, MakePlan, Pairwise, Reorder, Listed, Claimed, Wanted, NonMoves;
    CompletePlan(B_THEN_A_THEN_D, rows, want);
    SurplusSize(x, y);
    OutOfOrder(rows, want);
    PairwiseShape(want, 2);
    NonMovesNone(Pairwise(want, 2));
    PairwiseNonempty(want, 2);
  }

  lemma OutOfOrder(rows: seq<Record>, want: seq<string>)
    requires |want| >= 2 && forall id | id in want :: id != ""
    requires Have(rows, Listed(want)) != want && |Have(rows, Listed(want))| != |rows|
    ensures Reorder(rows, want) == Pairwise(want, |want| - 1)
  {
    hide Wanted, Listed, Claimed, Have, Pairwise;
    WantedAll(want);
    WantedListed(want);
  }

  lemma SurplusSize(x: string, y: string)
    ensures |Surplus(x, y)| == 4
  {
  }

  /** Under tolerate, a keyless ordered menu paired off completely is planned as moves alone. */
  lemma CompletePlan(desired: seq<Record>, rows: seq<Record>, matched: seq<string>)
    requires UniqueIds(rows) && |matched| == |desired| && Greedy(KEEP_THE_REST, desired, rows, matched)
    requires "" !in matched
    ensures MakePlan(KEEP_THE_REST, desired, rows) == Planned(Plan(Reorder(rows, matched), matched))
  {
    hide Reorder, UniqueIds, Greedy, Resolve;
    GreedyIsResolve(KEEP_THE_REST, desired, rows, matched);
    MovesAlone(KEEP_THE_REST, desired, rows, matched);
  }

  lemma SurplusHave(x: string, y: string)
    requires Spare(x, y)
    ensures Have(Surplus(x, y), Listed(["r3", x, "r4"])) == [x, "r3", "r4"]
  {
    hide Row, Named, NamedRows, Content, IdOf, Only;
    var managed := Listed(["r3", x, "r4"]);
    var a, b, c, d := Row(x, "A"), Row("r3", "B"), Row(y, "A"), Row("r4", "D");
    assert managed == {"r3", x, "r4"};
    SurplusFacts(x, y);
    OnlyConcat([a, b] + [c], [d], managed);
    OnlyConcat([a, b], [c], managed);
    OnlyEverything([a, b], managed);
    OnlyNothing([c], managed);
    OnlyEverything([d], managed);
    assert Surplus(x, y) == [a, b] + [c] + [d];
    assert Only(Surplus(x, y), managed) == [a, b, d];
    assert Ids([a, b, d]) == [x, "r3", "r4"];
  }

  /** A router that does all it is asked. */
  const WILLING: Env := [Done(""), Done(""), Done("")]

  /** One apply on the surplus menu succeeds, moves rows, and only swaps the twins. */
  lemma SurplusFlips(x: string, y: string)
    requires Spare(x, y)
    ensures
      var out := Apply(KEEP_THE_REST, B_THEN_A_THEN_D, Unchecked, Surplus(x, y), WILLING);
      out.failure.None? && out.log != [] && out.rows == Surplus(y, x)
  {
    var rows, want := Surplus(x, y), ["r3", x, "r4"];
    var p := Plan(Pairwise(want, 2), want);
    SurplusPlan(x, y);
    SurplusRun(x, y);
    PairwiseShape(want, 2);
    hide Surplus, MakePlan, Run, Pairwise, Reorder;
    assert !Structural(KEEP_THE_REST, p);
    FirstIsMember(p.steps);
  }

  lemma SurplusRun(x: string, y: string)
    requires Spare(x, y)
    ensures
      var run := Run(Pairwise(["r3", x, "r4"], 2), Surplus(x, y), WILLING, 1);
      run.ok && run.rows == Surplus(y, x)
  {
    var rows, want := Surplus(x, y), ["r3", x, "r4"];
    SurplusUnique(x, y);
    SurplusArranged(x, y);
    hide Surplus, Row, UniqueIds, Manageable, Run, Arranged, Pairwise, Spare, Ids;
    assert want[2] == "r4";
    WillingRun(rows, want, WILLING, 1);
  }

  lemma SpareBoth(x: string, y: string)
    requires Spare(x, y)
    ensures Spare(y, x)
  {
  }

  function Rounds(n: nat, rows: seq<Record>): seq<Record> {
    if n == 0 then rows
    else Apply(KEEP_THE_REST, B_THEN_A_THEN_D, Unchecked, Rounds(n - 1, rows), WILLING).rows
  }

  /**
   Under tolerate the hypothesis cannot be dropped: with one twin too many, apply
   succeeds every time and never converges; the twins change places forever.
   */
  lemma {:induction false} NeverSettles(n: nat, x: string, y: string)
    requires Spare(x, y)
    ensures Rounds(n, Surplus(x, y)) == if n % 2 == 0 then Surplus(x, y) else Surplus(y, x)
    ensures
      var p := MakePlan(KEEP_THE_REST, B_THEN_A_THEN_D, Rounds(n, Surplus(x, y)));
      p.Planned? && p.plan.steps != []
    ensures
      var out := Apply(KEEP_THE_REST, B_THEN_A_THEN_D, Unchecked, Rounds(n, Surplus(x, y)), WILLING);
      out.failure.None? && out.log != []
  {
    hide Surplus, MakePlan, Apply, Pairwise, Spare, NonMoves, Reorder;
    SpareBoth(x, y);
    SurplusFlips(x, y);
    SurplusFlips(y, x);
    SurplusPlan(x, y);
    SurplusPlan(y, x);
    if n > 0 {
      NeverSettles(n - 1, x, y);
    }
  }

  // ---- A takeover that leaves nothing to do ----

  const A_THEN_X_THEN_D := [Named("A"), Named("X"), Named("D")]

  /** Two rows saying A, a D and an X: one A is wanted, then the X, then the D. */
  function Doubled(a: string, twin: string, d: string, x: string): seq<Record> {
    [Row(a, "A"), Row(twin, "A"), Row(d, "D"), Row(x, "X")]
  }

  predicate Apart(a: string, twin: string, d: string, x: string) {
    "" !in {a, twin, d, x} && a !in {twin, d, x} && twin !in {d, x} && d != x
  }

  lemma DoubledFacts(a: string, twin: string, d: string, x: string)
    requires Apart(a, twin, d, x)
    ensures IdOf(Row(a, "A")) == a && IdOf(Row(twin, "A")) == twin && IdOf(Row(d, "D")) == d && IdOf(Row(x, "X")) == x
    ensures NamedRows(Doubled(a, twin, d, x)) && UniqueIds(Doubled(a, twin, d, x))
    ensures Content(Row(a, "A")) == Content(Row(twin, "A")) == Named("A")
    ensures Content(Row(d, "D")) == Named("D") && Content(Row(x, "X")) == Named("X")
    ensures Named("A") != Named("D") && Named("A") != Named("X") && Named("D") != Named("X")
  {
    RowNamed(a, "A");
    RowNamed(twin, "A");
    RowNamed(d, "D");
    RowNamed(x, "X");
    NamedInjective("A", "D");
    NamedInjective("A", "X");
    NamedInjective("D", "X");
  }

  lemma DoubledManageable(a: string, twin: string, d: string, x: string)
    requires Apart(a, twin, d, x)
    ensures Manageable(Doubled(a, twin, d, x), [a, x, d])
    ensures Ahead(Doubled(a, twin, d, x), d) == 2
    ensures Block(Doubled(a, twin, d, x), [a, x, d]) == [Row(a, "A"), Row(x, "X"), Row(d, "D")]
  {
    hide Row, Named, NamedRows, Content, IdOf, UniqueIds, ByID;
    var rows := Doubled(a, twin, d, x);
    DoubledFacts(a, twin, d, x);
    assert Ids(rows)[0] == a && Ids(rows)[2] == d && Ids(rows)[3] == x;
    AheadIs(rows, 2);
    assert rows[0] in rows && rows[2] in rows && rows[3] in rows;
    ByIDFinds(rows, rows[0]);
    ByIDFinds(rows, rows[2]);
    ByIDFinds(rows, rows[3]);
  }

  lemma DoubledPairs(a: string, twin: string, d: string, x: string)
    requires Apart(a, twin, d, x)
    ensures Greedy(KEEP_THE_REST, A_THEN_X_THEN_D, Doubled(a, twin, d, x), [a, x, d])
  {
    hide Row, Named, NamedRows, Clear, Pick, Content, IdOf;
    var rows, m := Doubled(a, twin, d, x), [a, x, d];
    var ra, rt, rd, rx := Row(a, "A"), Row(twin, "A"), Row(d, "D"), Row(x, "X");
    DoubledFacts(a, twin, d, x);
    NamedPick(rows, "A", Claimed(m[..0]), [], ra, [rt, rd, rx]);
    NamedPick(rows, "X", Claimed(m[..1]), [ra, rt, rd], rx, []);
    NamedPick(rows, "D", Claimed(m[..2]), [ra, rt], rd, [rx]);
  }

  lemma DoubledHave(a: string, twin: string, d: string, x: string)
    requires Apart(a, twin, d, x)
    ensures Have(Doubled(a, twin, d, x), Listed([a, x, d])) == [a, d, x]
  {
    hide Row, Named, NamedRows, Content, IdOf, Only;
    var managed := Listed([a, x, d]);
    var ra, rt, rd, rx := Row(a, "A"), Row(twin, "A"), Row(d, "D"), Row(x, "X");
    DoubledFacts(a, twin, d, x);
    assert managed == {a, x, d};
    OnlyConcat([ra], [rt] + [rd, rx], managed);
    OnlyConcat([rt], [rd, rx], managed);
    OnlyEverything([ra], managed);
    OnlyNothing([rt], managed);
    OnlyEverything([rd, rx], managed);
    assert Doubled(a, twin, d, x) == [ra] + ([rt] + [rd, rx]);
    assert Only(Doubled(a, twin, d, x), managed) == [ra, rd, rx];
    assert Ids([ra, rd, rx]) == [a, d, x];
  }

  /** The plan moves rows, and the twin stands ahead of the row of the last desired one. */
  lemma DoubledPlan(a: string, twin: string, d: string, x: string)
    requires Apart(a, twin, d, x)
    ensures
      var p := Plan(Pairwise([a, x, d], 2), [a, x, d]);
      && MakePlan(KEEP_THE_REST, A_THEN_X_THEN_D, Doubled(a, twin, d, x)) == Planned(p)
      && NonMoves(p.steps) == [] && p.steps != []
  {
    var rows, want := Doubled(a, twin, d, x), [a, x, d];
    DoubledFacts(a, twin, d, x);
    DoubledPairs(a, twin, d, x);
    DoubledHave(a, twin, d, x);
    assert |rows| == 4 && want[1] == x && [a, d, x][1] == d;
    hide Doubled, Row, Named, UniqueIds, Greedy, Have, MakePlan, Pairwise, Reorder, Listed, Claimed, Wanted, NonMoves;
    CompletePlan(A_THEN_X_THEN_D, rows, want);
    OutOfOrder(rows, want);
    PairwiseShape(want, 2);
    NonMovesNone(Pairwise(want, 2));
    PairwiseNonempty(want, 2);
  }

  lemma DoubledReach(a: string, twin: string, d: string, x: string)
    requires Apart(a, twin, d, x)
    ensures InReach(Doubled(a, twin, d, x), [a, x, d]) == [Row(twin, "A"), Row(a, "A"), Row(x, "X"), Row(d, "D")]
  {
    hide Row, Named, NamedRows, Content, IdOf, UniqueIds, Block, Ahead;
    var rows, managed := Doubled(a, twin, d, x), Listed([a, x, d]);
    var ra, rt := Row(a, "A"), Row(twin, "A");
    DoubledFacts(a, twin, d, x);
    DoubledManageable(a, twin, d, x);
    assert managed == {a, x, d};
    assert rows[..2] == [ra] + [rt];
    WithoutConcat([ra], [rt], managed);
    WithoutEverything([ra], managed);
    WithoutNothing([rt], managed);
  }

  /** The row `FirstSaying` finds, once found. */
  lemma FirstSayingAt(spec: MenuSpec, above: seq<Record>, row: Record, below: seq<Record>, content: Record, taken: set<string>)
    requires Open(spec, taken, row) && Content(row) == content
    requires forall r | r in above :: IdOf(r) in taken || Content(r) != content
    ensures FirstSaying(spec, above + ([row] + below), content, taken) == IdOf(row)
  {
    hide Content;
    if above != [] {
      assert (above + ([row] + below))[1..] == above[1..] + ([row] + below);
      assert above[0] in above;
      FirstSayingAt(spec, above[1..], row, below, content, taken);
    }
  }

  /** After the moves the twin serves A, and the other two serve as before: in order. */
  lemma DoubledInOrder(a: string, twin: string, d: string, x: string)
    requires Apart(a, twin, d, x)
    ensures
      var rows, m := Doubled(a, twin, d, x), [a, x, d];
      Retaken(KEEP_THE_REST, rows, m, 3) == [twin, x, d] && ComeInOrder(KEEP_THE_REST, rows, m)
  {
    var rows, m := Doubled(a, twin, d, x), [a, x, d];
    var ra, rt, rd, rx := Row(a, "A"), Row(twin, "A"), Row(d, "D"), Row(x, "X");
    hide Row, Named, NamedRows, Content, IdOf, UniqueIds, InReach, Doubled, FirstSaying, Retaken, Have, ByID, Block;
    DoubledFacts(a, twin, d, x);
    DoubledManageable(a, twin, d, x);
    DoubledReach(a, twin, d, x);
    var reach := [rt, ra, rx, rd];
    assert ByID(rows, a) == Block(rows, m)[0] == ra && ByID(rows, x) == Block(rows, m)[1] == rx && ByID(rows, d) == Block(rows, m)[2] == rd;
    RetakenNone(KEEP_THE_REST, rows, m);
    FirstSayingAt(KEEP_THE_REST, [], rt, [ra, rx, rd], Named("A"), Claimed([]));
    FirstSayingAt(KEEP_THE_REST, [rt, ra], rx, [rd], Named("X"), Claimed([twin]));
    FirstSayingAt(KEEP_THE_REST, [rt, ra, rx], rd, [], Named("D"), Claimed([twin, x]));
    assert [] + ([rt] + [ra, rx, rd]) == reach;
    assert [rt, ra] + ([rx] + [rd]) == reach;
    assert [rt, ra, rx] + ([rd] + []) == reach;
    RetakenNext(KEEP_THE_REST, rows, m, 0);
    assert Retaken(KEEP_THE_REST, rows, m, 1) == [twin];
    RetakenNext(KEEP_THE_REST, rows, m, 1);
    assert Retaken(KEEP_THE_REST, rows, m, 2) == [twin, x];
    RetakenNext(KEEP_THE_REST, rows, m, 2);
    assert Retaken(KEEP_THE_REST, rows, m, 3) == [twin, x, d];
    DoubledReachHave(a, twin, d, x);
  }

  lemma DoubledReachHave(a: string, twin: string, d: string, x: string)
    requires Apart(a, twin, d, x)
    ensures Have([Row(twin, "A"), Row(a, "A"), Row(x, "X"), Row(d, "D")], Claimed([twin, x, d])) == [twin, x, d]
  {
    hide Row, Named, NamedRows, Content, IdOf, UniqueIds, Only;
    var ra, rt, rd, rx := Row(a, "A"), Row(twin, "A"), Row(d, "D"), Row(x, "X");
    var managed := Claimed([twin, x, d]);
    DoubledFacts(a, twin, d, x);
    assert managed == {twin, x, d};
    OnlyConcat([rt], [ra] + [rx, rd], managed);
    OnlyConcat([ra], [rx, rd], managed);
    OnlyEverything([rt], managed);
    OnlyNothing([ra], managed);
    OnlyEverything([rx, rd], managed);
    assert [rt, ra, rx, rd] == [rt] + ([ra] + [rx, rd]);
    assert Only([rt, ra, rx, rd], managed) == [rt, rx, rd];
    assert Ids([rt, rx, rd]) == [twin, x, d];
  }

  lemma DoubledTwinAhead(a: string, twin: string, d: string, x: string)
    requires Apart(a, twin, d, x)
    ensures TwinAhead(KEEP_THE_REST, Doubled(a, twin, d, x), [a, x, d])
  {
    hide Row, Named, NamedRows, Content, IdOf, UniqueIds, Block, ByID, Ahead;
    var rows, m := Doubled(a, twin, d, x), [a, x, d];
    DoubledFacts(a, twin, d, x);
    DoubledManageable(a, twin, d, x);
    assert ByID(rows, m[0]) == Block(rows, m)[0];
    assert Row(twin, "A") == rows[..2][1] && Row(twin, "A") in rows;
    assert Twin(KEEP_THE_REST, rows, m, Row(twin, "A"));
  }

  lemma DoubledMoves(a: string, twin: string, d: string, x: string)
    requires Apart(a, twin, d, x)
    ensures
      var run := Run(Pairwise([a, x, d], 2), Doubled(a, twin, d, x), WILLING, 1);
      run.ok && MakePlan(KEEP_THE_REST, A_THEN_X_THEN_D, run.rows) == Planned(Plan([], [twin, x, d]))
  {
    hide *;
    var rows, want := Doubled(a, twin, d, x), [a, x, d];
    DoubledWilling(a, twin, d, x);
    DoubledMovesOnly(a, twin, d, x);
    DoubledInOrder(a, twin, d, x);
    FreshPlanExact(KEEP_THE_REST, A_THEN_X_THEN_D, rows, Plan(Pairwise(want, 2), want), WILLING, 1);
  }

  lemma DoubledWilling(a: string, twin: string, d: string, x: string)
    requires Apart(a, twin, d, x)
    ensures Run(Pairwise([a, x, d], 2), Doubled(a, twin, d, x), WILLING, 1).ok
  {
    var rows, want := Doubled(a, twin, d, x), [a, x, d];
    DoubledFacts(a, twin, d, x);
    DoubledManageable(a, twin, d, x);
    hide Doubled, Row, UniqueIds, Run, Arranged, Pairwise;
    assert want[2] == d && d in want;
    hide Manageable, Ids;
    WillingRun(rows, want, WILLING, 1);
  }

  lemma DoubledMovesOnly(a: string, twin: string, d: string, x: string)
    requires Apart(a, twin, d, x)
    ensures
      var p := Plan(Pairwise([a, x, d], 2), [a, x, d]);
      && MovesOnly(KEEP_THE_REST, A_THEN_X_THEN_D, Doubled(a, twin, d, x), p)
      && MakePlan(KEEP_THE_REST, A_THEN_X_THEN_D, Doubled(a, twin, d, x)) == Planned(p) && p.steps != []
  {
    hide Doubled, MakePlan, Pairwise, UniqueIds, NonMoves;
    DoubledFacts(a, twin, d, x);
    DoubledPlan(a, twin, d, x);
  }

  /**
   A twin ahead need not cost convergence: one apply moves the rows, the twin takes
   over, and the next plan is empty all the same, though not with the pairing the
   apply reported.
   */
  lemma TakeoverSettles(a: string, twin: string, d: string, x: string)
    requires Apart(a, twin, d, x)
    ensures TwinAhead(KEEP_THE_REST, Doubled(a, twin, d, x), [a, x, d])
    ensures
      var out := Apply(KEEP_THE_REST, A_THEN_X_THEN_D, Unchecked, Doubled(a, twin, d, x), WILLING);
      && out.failure.None? && out.log != [] && out.plan.matched == [a, x, d]
      && MakePlan(KEEP_THE_REST, A_THEN_X_THEN_D, out.rows) == Planned(Plan([], [twin, x, d]))
  {
    hide Doubled, MakePlan, Run, Pairwise, Reorder, TwinAhead, Apart;
    DoubledTwinAhead(a, twin, d, x);
    DoubledMovesOnly(a, twin, d, x);
    DoubledMoves(a, twin, d, x);
    PairwiseShape([a, x, d], 2);
    FirstIsMember(Pairwise([a, x, d], 2));
    assert !Structural(KEEP_THE_REST, Plan(Pairwise([a, x, d], 2), [a, x, d]));
  }
}
