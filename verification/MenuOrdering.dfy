/**
 The ordering phase (rest/menu.go:321-372): where the moves of a plan leave
 every row, managed or not.
 */
module MenuOrdering {
  import opened Prelude
  import opened Records
  import opened MenuPlan
  import opened MenuDevice

  /** The same rows, in whatever order. */
  ghost predicate SameRows(a: seq<Record>, b: seq<Record>) {
    multiset(a) == multiset(b)
  }

  /** The identifiers a move may list: distinct rows of the menu. */
  predicate Manageable(rows: seq<Record>, want: seq<string>) {
    && (forall i, j | 0 <= i < j < |want| :: want[i] != want[j])
    && (forall id | id in want :: id != "" && id in Ids(rows))
  }

  /**
   The rows wanted from place `i` on stand side by side, in order, with `left`
   ahead of them and `right` behind; without the managed rows these are `above`
   and `below`.
   */
  predicate Laid(want: seq<string>, i: nat, left: seq<Record>, block: seq<Record>, right: seq<Record>,
                 above: seq<Record>, below: seq<Record>)
    requires i <= |want|
  {
    && Ids(block) == want[i..]
    && Without(left, Listed(want)) == above
    && Without(right, Listed(want)) == below
  }

  /** The same of a menu, cut where the row wanted at place `i` stands. */
  predicate Settled(rows: seq<Record>, want: seq<string>, i: nat, above: seq<Record>, below: seq<Record>)
    requires i < |want|
  {
    var k := Ahead(rows, want[i]);
    var end := k + |want| - i;
    end <= |rows| && Laid(want, i, rows[..k], rows[k..end], rows[end..], above, below)
  }

  lemma Cut<T>(rows: seq<T>, k: nat, end: nat)
    requires k <= end <= |rows|
    ensures rows == rows[..k] + rows[k..end] + rows[end..]
  {
  }

  lemma Uncut<T>(left: seq<T>, block: seq<T>, right: seq<T>)
    ensures var rows := left + block + right;
      rows[..|left|] == left && rows[|left|..|left| + |block|] == block && rows[|left| + |block|..] == right
  {
  }

  lemma {:induction false} WithoutTwice(rows: seq<Record>, a: set<string>, b: set<string>)
    ensures Without(Without(rows, a), b) == Without(rows, a + b)
  {
    if rows != [] {
      WithoutTwice(rows[1..], a, b);
      if IdOf(rows[0]) !in a {
        assert Without(rows, a)[1..] == Without(rows[1..], a);
      }
    }
  }

  lemma {:induction false} WithoutOne(rows: seq<Record>, row: Record)
    requires UniqueIds(rows) && row in rows && IdOf(row) != ""
    ensures multiset(Without(rows, {IdOf(row)})) + multiset{row} == multiset(rows)
  {
    var rest := rows[1..];
    assert rows == [rows[0]] + rest;
    UniqueParts([rows[0]], rest);
    assert rows[0] in [rows[0]];
    if rows[0] == row {
      WithoutNothing(rest, {IdOf(row)});
    } else {
      WithoutOne(rest, row);
    }
  }

  /** Taking one row out of a menu cut in three, when the row is not in the middle part. */
  lemma WithoutAround(left: seq<Record>, block: seq<Record>, right: seq<Record>, w: string)
    requires forall r | r in block :: IdOf(r) != w
    ensures Without(left + block + right, {w}) == Without(left, {w}) + block + Without(right, {w})
  {
    WithoutNothing(block, {w});
    WithoutConcat(left + block, right, {w});
    WithoutConcat(left, block, {w});
  }

  /** The rows ahead of the first row of the middle part are those of the left part. */
  lemma AheadOfBlock(left: seq<Record>, block: seq<Record>, right: seq<Record>)
    requires block != [] && UniqueIds(left + block + right) && IdOf(block[0]) != ""
    ensures Ahead(left + block + right, IdOf(block[0])) == |left|
  {
    var rows := left + block + right;
    assert rows == left + [block[0]] + (block[1..] + right);
    forall y | y in left
      ensures IdOf(y) != IdOf(block[0])
    {
      var j :| 0 <= j < |left| && left[j] == y;
      assert rows[j] == y && rows[|left|] == block[0];
    }
    AheadFinds(rows, left, block[0], block[1..] + right);
  }

  /** Where one anchored move puts its row: right in front of the middle part. */
  lemma PlaceAtBlock(left: seq<Record>, block: seq<Record>, right: seq<Record>, x: Record)
    requires var rows := left + block + right;
      UniqueIds(rows) && x in rows && IdOf(x) != ""
    requires block != [] && IdOf(block[0]) != "" && forall r | r in block :: IdOf(r) != IdOf(x)
    ensures Place(left + block + right, [IdOf(x)], IdOf(block[0]))
         == Without(left, {IdOf(x)}) + ([x] + block) + Without(right, {IdOf(x)})
  {
    var rows, w := left + block + right, IdOf(x);
    var l, r := Without(left, {w}), Without(right, {w});
    WithoutAround(left, block, right, w);
    WithoutKeepsUnique(rows, {w});
    AheadOfBlock(l, block, r);
    ByIDFinds(rows, x);
    PlaceOne(rows, w, IdOf(block[0]), l + block + r, |l|, x);
    Insert(l, block, r, x);
  }

  lemma PlaceOne(rows: seq<Record>, w: string, before: string, rest: seq<Record>, k: nat, x: Record)
    requires before != "" && Without(rows, {w}) == rest && Ahead(rest, before) == k && ByID(rows, w) == x
    ensures Place(rows, [w], before) == rest[..k] + [x] + rest[k..]
  {
    assert Listed([w]) == {w};
    assert Block(rows, [w]) == [x];
  }

  lemma Insert<T>(l: seq<T>, block: seq<T>, r: seq<T>, x: T)
    ensures var rest := l + block + r;
      rest[..|l|] + [x] + rest[|l|..] == l + ([x] + block) + r
  {
    var rest := l + block + r;
    assert rest[..|l|] == l && rest[|l|..] == block + r;
  }

  /** The rows of the middle part are the wanted ones from `i` on. */
  lemma BlockIds(rows: seq<Record>, want: seq<string>, i: nat, block: seq<Record>)
    requires i < |want| && Manageable(rows, want) && Ids(block) == want[i..]
    ensures block != [] && IdOf(block[0]) == want[i] != ""
    ensures forall h | 0 <= h < i :: forall r | r in block :: IdOf(r) != want[h]
  {
    assert |Ids(block)| == |want[i..]| > 0;
    assert want[i] in want;
    forall h, r | 0 <= h < i && r in block
      ensures IdOf(r) != want[h]
    {
      var j :| 0 <= j < |block| && block[j] == r;
      assert IdOf(r) == Ids(block)[j] == want[i + j];
    }
    assert IdOf(block[0]) == Ids(block)[0] == want[i];
  }

  /** One anchored move settles one more row and leaves the unmanaged rows as they were. */
  lemma SettleStep(rows: seq<Record>, want: seq<string>, i: nat, above: seq<Record>, below: seq<Record>)
    requires 0 < i < |want| && Ordering(rows, rows, want, i, above, below)
    ensures Movable(rows, [want[i - 1]], want[i])
    ensures Ordering(Place(rows, [want[i - 1]], want[i]), rows, want, i - 1, above, below)
  {
    hide UniqueIds, SameRows, Place, Ahead;
    var k := Ahead(rows, want[i]);
    var end := k + |want| - i;
    var left, block, right := rows[..k], rows[k..end], rows[end..];
    Cut(rows, k, end);
    BlockIds(rows, want, i, block);
    assert want[i - 1] in want && want[i] in want;
    ByIDMember(rows, want[i - 1]);
    var x := ByID(rows, want[i - 1]);
    PlaceAtBlock(left, block, right, x);
    PlaceKeepsUnique(rows, [want[i - 1]], want[i]);
    SameRowsAfterOne(rows, x, left, block, right);
    ManageableSame(rows, Place(rows, [want[i - 1]], want[i]), want);
    SettledShift(want, i, left, block, right, x);
  }

  lemma SettledShift(want: seq<string>, i: nat, left: seq<Record>, block: seq<Record>, right: seq<Record>, x: Record)
    requires 0 < i < |want| && Ids(block) == want[i..] && IdOf(x) == want[i - 1] != ""
    requires UniqueIds(Without(left, {IdOf(x)}) + ([x] + block) + Without(right, {IdOf(x)}))
    ensures Settled(Without(left, {IdOf(x)}) + ([x] + block) + Without(right, {IdOf(x)}), want, i - 1,
                    Without(left, Listed(want)), Without(right, Listed(want)))
  {
    hide Without, Listed, UniqueIds, Settled;
    var l, r := Without(left, {IdOf(x)}), Without(right, {IdOf(x)});
    WithoutManaged(left, want, want[i - 1]);
    WithoutManaged(right, want, want[i - 1]);
    IdsCons(x, block);
    assert [want[i - 1]] + want[i..] == want[i - 1..];
    assert ([x] + block)[0] == x;
    SettledAt(l, [x] + block, r, want, i - 1, Without(left, Listed(want)), Without(right, Listed(want)));
  }

  /** A menu laid out around its middle part is settled where that part begins. */
  lemma SettledAt(left: seq<Record>, block: seq<Record>, right: seq<Record>, want: seq<string>, i: nat,
                  above: seq<Record>, below: seq<Record>)
    requires i < |want| && Laid(want, i, left, block, right, above, below)
    requires UniqueIds(left + block + right) && block != [] && IdOf(block[0]) == want[i] != ""
    ensures Settled(left + block + right, want, i, above, below)
  {
    AheadOfBlock(left, block, right);
    assert |block| == |Ids(block)| == |want| - i;
    hide Laid, UniqueIds;
    Uncut(left, block, right);
  }

  lemma IdsCons(x: Record, block: seq<Record>)
    ensures Ids([x] + block) == [IdOf(x)] + Ids(block)
  {
  }

  lemma WithoutManaged(rows: seq<Record>, want: seq<string>, w: string)
    requires w in want
    ensures Without(Without(rows, {w}), Listed(want)) == Without(rows, Listed(want))
  {
    assert {w} + Listed(want) == Listed(want);
    WithoutTwice(rows, {w}, Listed(want));
  }

  lemma ManageableSame(a: seq<Record>, b: seq<Record>, want: seq<string>)
    requires SameRows(b, a) && Manageable(a, want)
    ensures Manageable(b, want)
  {
    forall id | id in want
      ensures id in Ids(b)
    {
      ByIDMember(a, id);
      assert ByID(a, id) in multiset(b);
      IdsMember(b, ByID(a, id));
    }
  }

  lemma IdsMember(rows: seq<Record>, row: Record)
    requires row in rows
    ensures IdOf(row) in Ids(rows)
  {
    var i :| 0 <= i < |rows| && rows[i] == row;
    assert Ids(rows)[i] == IdOf(row);
  }

  lemma SameRowsAfterOne(rows: seq<Record>, x: Record, left: seq<Record>, block: seq<Record>, right: seq<Record>)
    requires UniqueIds(rows) && rows == left + block + right && x in rows && IdOf(x) != ""
    requires forall r | r in block :: IdOf(r) != IdOf(x)
    ensures SameRows(Without(left, {IdOf(x)}) + ([x] + block) + Without(right, {IdOf(x)}), rows)
  {
    WithoutAround(left, block, right, IdOf(x));
    WithoutOne(rows, x);
  }

  /** What holds of the menu once the wanted tail from `i` on is settled. */
  ghost predicate Ordering(rows: seq<Record>, start: seq<Record>, want: seq<string>, i: nat,
                           above: seq<Record>, below: seq<Record>)
    requires i < |want|
  {
    && SameRows(rows, start) && UniqueIds(rows) && Manageable(rows, want)
    && Settled(rows, want, i, above, below)
  }

  /**
   Every run of the anchored moves, to the end or to a failure: once all but `j`
   are done, the wanted rows from place `j` on stand together in order and no
   unmanaged row has changed sides. The failed one may or may not have been done.
   */
  lemma {:induction false} PairwiseSettles(rows: seq<Record>, want: seq<string>, i: nat,
                                           above: seq<Record>, below: seq<Record>, env: Env, t: nat)
    returns (j: nat)
    requires i < |want| && Ordering(rows, rows, want, i, above, below)
    ensures
      var run := Run(Pairwise(want, i), rows, env, t);
      && j <= i && Ordering(run.rows, rows, want, j, above, below)
      && (if run.ok then j == 0 else i - run.tried <= j <= i - run.tried + 1)
    decreases i
  {
    hide Ordering, Place;
    j := i;
    if i > 0 {
      SettleStep(rows, want, i, above, below);
      var after := Place(rows, [want[i - 1]], want[i]);
      RunCons(Pairwise(want, i), Pairwise(want, i - 1), rows, env, t);
      MoveExec(rows, [want[i - 1]], want[i], At(env, t));
      if At(env, t).Done? {
        OrderingRefl(after, rows, want, i - 1, above, below);
        j := PairwiseSettles(after, want, i - 1, above, below, env, t + 1);
        var more := Run(Pairwise(want, i - 1), after, env, t + 1);
        OrderingTransitive(more.rows, after, rows, want, j, i - 1, above, below);
        assert Run(Pairwise(want, i), rows, env, t) == Trail(more.rows, more.tried + 1, more.ok);
      } else if At(env, t).Lost? {
        j := i - 1;
      }
    }
  }

  /** The router never has a reason of its own to refuse these moves. */
  lemma {:induction false} PairwiseSucceeds(rows: seq<Record>, want: seq<string>, i: nat,
                                            above: seq<Record>, below: seq<Record>, env: Env, t: nat)
    requires i < |want| && Ordering(rows, rows, want, i, above, below)
    requires forall u | t <= u < t + i :: At(env, u).Done?
    ensures Run(Pairwise(want, i), rows, env, t).ok
    decreases i
  {
    if i > 0 {
      SettleStep(rows, want, i, above, below);
      var after := Place(rows, [want[i - 1]], want[i]);
      RunCons(Pairwise(want, i), Pairwise(want, i - 1), rows, env, t);
      MoveExec(rows, [want[i - 1]], want[i], At(env, t));
      OrderingRefl(after, rows, want, i - 1, above, below);
      PairwiseSucceeds(after, want, i - 1, above, below, env, t + 1);
    }
  }

  lemma MoveExec(rows: seq<Record>, order: seq<string>, before: string, reply: Reply)
    requires Movable(rows, order, before)
    ensures Exec(Move(order, before), rows, reply)
         == Trail(if reply.Refused? then rows else Place(rows, order, before), 1, reply.Done?)
  {
  }

  lemma OrderingRefl(rows: seq<Record>, start: seq<Record>, want: seq<string>, i: nat,
                     above: seq<Record>, below: seq<Record>)
    requires i < |want| && Ordering(rows, start, want, i, above, below)
    ensures Ordering(rows, rows, want, i, above, below)
  {
  }

  lemma OrderingTransitive(a: seq<Record>, b: seq<Record>, c: seq<Record>, want: seq<string>, i: nat, j: nat,
                           above: seq<Record>, below: seq<Record>)
    requires i < |want| && j < |want|
    requires Ordering(a, b, want, i, above, below) && Ordering(b, c, want, j, above, below)
    ensures Ordering(a, c, want, i, above, below)
  {
  }


  // ---- Any move ----

  lemma BlockSnoc(rows: seq<Record>, order: seq<string>, w: string)
    ensures Block(rows, order + [w]) == Block(rows, order) + [ByID(rows, w)]
  {
    hide ByID;
  }

  lemma {:induction false} BlockRest(rows: seq<Record>, order: seq<string>)
    requires UniqueIds(rows) && Manageable(rows, order)
    ensures multiset(Without(rows, Listed(order))) + multiset(Block(rows, order)) == multiset(rows)
  {
    hide UniqueIds, Without, Manageable, Block, ByID;
    if order == [] {
      WithoutNothing(rows, Listed(order));
    } else {
      var n := |order| - 1;
      var init, w := order[..n], order[n];
      assert order == init + [w];
      ManageableSnoc(rows, init, w);
      BlockRest(rows, init);
      ByIDMember(rows, w);
      var x, rest := ByID(rows, w), Without(rows, Listed(init));
      WithoutKeepsUnique(rows, Listed(init));
      assert x in rest;
      WithoutOne(rest, x);
      WithoutTwice(rows, Listed(init), {w});
      assert Listed(init) + {w} == Listed(order);
      BlockSnoc(rows, init, w);
    }
  }

  lemma ManageableSnoc(rows: seq<Record>, init: seq<string>, w: string)
    requires Manageable(rows, init + [w])
    ensures Manageable(rows, init) && w !in init && w != "" && w in Ids(rows)
  {
    var order := init + [w];
    assert forall i | 0 <= i < |init| :: init[i] == order[i] && order[i] != order[|init|];
    assert order[|init|] == w && w in order;
    assert forall id | id in init :: id in order;
  }

  /** A move permutes the menu. */
  lemma PlacePermutes(rows: seq<Record>, order: seq<string>, before: string)
    requires UniqueIds(rows) && Manageable(rows, order)
    ensures SameRows(Place(rows, order, before), rows)
  {
    hide UniqueIds, Manageable, Without, Block, Ahead, ByID, Listed;
    BlockRest(rows, order);
    var rest := Without(rows, Listed(order));
    var k := if before == "" then |rest| else Ahead(rest, before);
    InsertedSame(rest, k, Block(rows, order));
  }

  lemma InsertedSame(rest: seq<Record>, k: nat, block: seq<Record>)
    requires k <= |rest|
    ensures multiset(rest[..k] + block + rest[k..]) == multiset(rest) + multiset(block)
  {
    assert rest == rest[..k] + rest[k..];
  }

  lemma BlockListed(rows: seq<Record>, order: seq<string>)
    requires Manageable(rows, order)
    ensures forall r | r in Block(rows, order) :: IdOf(r) in Listed(order)
  {
    forall r | r in Block(rows, order)
      ensures IdOf(r) in Listed(order)
    {
      var i :| 0 <= i < |order| && Block(rows, order)[i] == r;
      assert order[i] in order;
      ByIDMember(rows, order[i]);
    }
  }

  lemma WithoutThree(a: seq<Record>, b: seq<Record>, c: seq<Record>, ids: set<string>)
    ensures Without(a + b + c, ids) == Without(a, ids) + Without(b, ids) + Without(c, ids)
  {
    WithoutConcat(a + b, c, ids);
    WithoutConcat(a, b, ids);
  }

  /** A move of managed rows leaves the others exactly as they were, in the same order. */
  lemma PlaceKeepsOthers(rows: seq<Record>, order: seq<string>, before: string, managed: set<string>)
    requires Manageable(rows, order) && Listed(order) <= managed
    ensures Without(Place(rows, order, before), managed) == Without(rows, managed)
  {
    BlockListed(rows, order);
    hide Manageable, Without, Block, Ahead;
    var rest := Without(rows, Listed(order));
    var k := if before == "" then |rest| else Ahead(rest, before);
    WithoutInserted(rest, k, Block(rows, order), managed);
    WithoutTwice(rows, Listed(order), managed);
    assert Listed(order) + managed == managed;
  }

  lemma WithoutInserted(rest: seq<Record>, k: nat, block: seq<Record>, managed: set<string>)
    requires k <= |rest| && forall r | r in block :: IdOf(r) in managed
    ensures Without(rest[..k] + block + rest[k..], managed) == Without(rest, managed)
  {
    hide Without;
    WithoutEverything(block, managed);
    WithoutThree(rest[..k], block, rest[k..], managed);
    WithoutConcat(rest[..k], rest[k..], managed);
    assert rest == rest[..k] + rest[k..];
  }

  // ---- The whole phase ----

  /** The wanted rows as one block at the place of the last of them, the others around it. */
  function Arranged(rows: seq<Record>, want: seq<string>): seq<Record>
    requires want != [] && want[|want| - 1] in Ids(rows)
  {
    var k := Ahead(rows, want[|want| - 1]);
    AheadHits(rows, want[|want| - 1]);
    Without(rows[..k], Listed(want)) + Block(rows, want) + Without(rows[k + 1..], Listed(want))
  }

  lemma {:induction false} AheadHits(rows: seq<Record>, id: string)
    requires id in Ids(rows)
    ensures Ahead(rows, id) < |rows| && IdOf(rows[Ahead(rows, id)]) == id
    ensures forall i | 0 <= i < Ahead(rows, id) :: IdOf(rows[i]) != id
  {
    if IdOf(rows[0]) != id {
      var i :| 0 <= i < |rows| && Ids(rows)[i] == id;
      assert Ids(rows[1..])[i - 1] == id;
      AheadHits(rows[1..], id);
    }
  }

  /** Before any move the last wanted row is trivially settled. */
  lemma LastSettled(rows: seq<Record>, want: seq<string>)
    requires want != [] && UniqueIds(rows) && Manageable(rows, want)
    ensures want[|want| - 1] in Ids(rows) && Ahead(rows, want[|want| - 1]) < |rows|
    ensures
      var k := Ahead(rows, want[|want| - 1]);
      Ordering(rows, rows, want, |want| - 1, Without(rows[..k], Listed(want)), Without(rows[k + 1..], Listed(want)))
  {
    hide UniqueIds, Without, Ahead, Listed, SameRows, Settled;
    var n := |want| - 1;
    assert want[n] in want;
    AheadHits(rows, want[n]);
    SameSelf(rows);
    LastLaid(rows, want);
    hide Manageable;
  }

  lemma SameSelf(rows: seq<Record>)
    ensures SameRows(rows, rows)
  {
  }

  lemma LastLaid(rows: seq<Record>, want: seq<string>)
    requires want != [] && want[|want| - 1] in Ids(rows)
    ensures
      var k := Ahead(rows, want[|want| - 1]);
      && k < |rows|
      && Settled(rows, want, |want| - 1, Without(rows[..k], Listed(want)), Without(rows[k + 1..], Listed(want)))
  {
    hide *;
    AheadHits(rows, want[|want| - 1]);
    var k := Ahead(rows, want[|want| - 1]);
    OneLaid(rows[..k], rows[k], rows[k + 1..], want);
    LaidSettled(rows, want, k, Without(rows[..k], Listed(want)), Without(rows[k + 1..], Listed(want)));
  }

  lemma LaidSettled(rows: seq<Record>, want: seq<string>, k: nat, above: seq<Record>, below: seq<Record>)
    requires want != [] && k == Ahead(rows, want[|want| - 1]) < |rows|
    requires Laid(want, |want| - 1, rows[..k], [rows[k]], rows[k + 1..], above, below)
    ensures Settled(rows, want, |want| - 1, above, below)
  {
    hide Laid, Ahead;
    assert rows[k..k + 1] == [rows[k]];
  }

  lemma OneLaid(left: seq<Record>, row: Record, right: seq<Record>, want: seq<string>)
    requires want != [] && IdOf(row) == want[|want| - 1]
    ensures Laid(want, |want| - 1, left, [row], right, Without(left, Listed(want)), Without(right, Listed(want)))
  {
    hide Without, Listed;
    assert Ids([row]) == [IdOf(row)];
    assert want[|want| - 1..] == [want[|want| - 1]];
  }

  /** Once every wanted row is settled the menu is the arrangement. */
  lemma SettledArranged(rows: seq<Record>, start: seq<Record>, want: seq<string>)
    requires want != [] && UniqueIds(start) && Manageable(start, want)
    requires want[|want| - 1] in Ids(start) && Ahead(start, want[|want| - 1]) < |start|
    requires
      var k := Ahead(start, want[|want| - 1]);
      Ordering(rows, start, want, 0, Without(start[..k], Listed(want)), Without(start[k + 1..], Listed(want)))
    ensures rows == Arranged(start, want)
  {
    hide Without, Ahead, UniqueIds;
    var k := Ahead(rows, want[0]);
    var end := k + |want|;
    var left, block, right := rows[..k], rows[k..end], rows[end..];
    Cut(rows, k, end);
    assert want[0..] == want;
    BlockUnmanaged(want, left, block, right);
    WithoutNothing(left, Listed(want));
    WithoutNothing(right, Listed(want));
    BlockIsBlock(rows, start, want, block);
  }

  lemma BlockIsBlock(rows: seq<Record>, start: seq<Record>, want: seq<string>, block: seq<Record>)
    requires UniqueIds(start) && SameRows(rows, start) && Manageable(start, want)
    requires Ids(block) == want && forall r | r in block :: r in rows
    ensures block == Block(start, want)
  {
    assert |block| == |Ids(block)|;
    forall i | 0 <= i < |want|
      ensures block[i] == Block(start, want)[i]
    {
      assert IdOf(block[i]) == Ids(block)[i] == want[i];
      assert want[i] in want;
      assert block[i] in block;
      assert block[i] in multiset(rows);
      assert block[i] in start;
      ByIDFinds(start, block[i]);
    }
  }

  lemma BlockUnmanaged(want: seq<string>, left: seq<Record>, block: seq<Record>, right: seq<Record>)
    requires Ids(block) == want && forall id | id in want :: id != ""
    requires UniqueIds(left + block + right)
    ensures forall r | r in left || r in right :: IdOf(r) !in Listed(want)
  {
    UniqueParts(left + block, right);
    UniqueParts(left, block);
    forall r | r in left || r in right
      ensures IdOf(r) !in Listed(want)
    {
      forall i | 0 <= i < |want|
        ensures IdOf(r) != want[i]
      {
        assert IdOf(block[i]) == Ids(block)[i] == want[i] && want[i] in want;
        assert block[i] in block && block[i] in left + block;
      }
    }
  }

  lemma IdsOfBlock(rows: seq<Record>, order: seq<string>)
    requires Manageable(rows, order)
    ensures Ids(Block(rows, order)) == order
  {
    forall i | 0 <= i < |order|
      ensures Ids(Block(rows, order))[i] == order[i]
    {
      assert order[i] in order;
      ByIDMember(rows, order[i]);
    }
  }

  /** In the arrangement the managed rows come in the wanted order, and so nothing is left to move. */
  lemma ArrangedHave(rows: seq<Record>, want: seq<string>)
    requires want != [] && UniqueIds(rows) && Manageable(rows, want) && want[|want| - 1] in Ids(rows)
    ensures Have(Arranged(rows, want), Listed(want)) == want
  {
    hide Only, Without, Ahead, UniqueIds, Manageable, Block, Ids, Listed;
    var k := Ahead(rows, want[|want| - 1]);
    AheadHits(rows, want[|want| - 1]);
    BlockListed(rows, want);
    IdsOfBlock(rows, want);
    OnlyMiddle(Without(rows[..k], Listed(want)), Block(rows, want), Without(rows[k + 1..], Listed(want)), Listed(want));
  }

  lemma OnlyMiddle(above: seq<Record>, block: seq<Record>, below: seq<Record>, managed: set<string>)
    requires (forall r | r in above || r in below :: IdOf(r) !in managed) && forall r | r in block :: IdOf(r) in managed
    ensures Only(above + block + below, managed) == block
  {
    hide Only;
    OnlyConcat(above + block, below, managed);
    OnlyConcat(above, block, managed);
    OnlyNothing(above, managed);
    OnlyNothing(below, managed);
    OnlyEverything(block, managed);
    assert [] + block + [] == block;
  }

  lemma {:induction false} OnlyAll(rows: seq<Record>, ids: set<string>)
    ensures |Only(rows, ids)| <= |rows|
    ensures |Only(rows, ids)| == |rows| ==> forall r | r in rows :: IdOf(r) in ids
  {
    if rows != [] {
      OnlyAll(rows[1..], ids);
    }
  }

  /** With every row managed, one block move to the end is the arrangement. */
  lemma OneMoveArranges(rows: seq<Record>, want: seq<string>)
    requires want != [] && want[|want| - 1] in Ids(rows) && |Only(rows, Listed(want))| == |rows|
    ensures Place(rows, want, "") == Arranged(rows, want)
  {
    OnlyAll(rows, Listed(want));
    var k := Ahead(rows, want[|want| - 1]);
    AheadHits(rows, want[|want| - 1]);
    WithoutEverything(rows, Listed(want));
    WithoutEverything(rows[..k], Listed(want));
    WithoutEverything(rows[k + 1..], Listed(want));
  }

  lemma WantedListed(matched: seq<string>)
    ensures Listed(Wanted(matched)) == Claimed(matched)
  {
  }

  /**
   The ordering phase. However it ends, it has only permuted the menu and left
   the unmanaged rows in their order; when it succeeds the menu is the
   arrangement, or was in order already.
   */
  lemma OrderingPhase(rows: seq<Record>, matched: seq<string>, env: Env, t: nat)
    requires UniqueIds(rows) && Manageable(rows, Wanted(matched))
    ensures
      var run := Run(Reorder(rows, matched), rows, env, t);
      && SameRows(run.rows, rows) && UniqueIds(run.rows)
      && Without(run.rows, Claimed(matched)) == Without(rows, Claimed(matched))
    ensures Reorder(rows, matched) != [] ==> Wanted(matched) != [] && Wanted(matched)[|Wanted(matched)| - 1] in Ids(rows)
    ensures
      var run := Run(Reorder(rows, matched), rows, env, t);
      run.ok ==> run.rows == if Reorder(rows, matched) == [] then rows else Arranged(rows, Wanted(matched))
  {
    hide UniqueIds, Wanted, Without, Place, Ids, Only, Have, SameRows, Run, Pairwise, Manageable, Arranged, Claimed, Listed;
    var want := Wanted(matched);
    WantedListed(matched);
    SameSelf(rows);
    RunNothing(rows, env, t);
    if Reorder(rows, matched) != [] {
      if |Have(rows, Claimed(matched))| == |rows| {
        BlockPhase(rows, want, env, t);
      } else {
        PairwisePhase(rows, want, env, t);
      }
    }
  }

  lemma BlockPhase(rows: seq<Record>, want: seq<string>, env: Env, t: nat)
    requires want != [] && UniqueIds(rows) && Manageable(rows, want) && |Have(rows, Listed(want))| == |rows|
    ensures want[|want| - 1] in Ids(rows)
    ensures
      var run := Run([Move(want, "")], rows, env, t);
      && SameRows(run.rows, rows) && UniqueIds(run.rows)
      && Without(run.rows, Listed(want)) == Without(rows, Listed(want))
      && (run.ok ==> run.rows == Arranged(rows, want))
  {
    hide UniqueIds, Without, Place, Ahead, Only, Arranged;
    assert want[|want| - 1] in want;
    RunSingle(Move(want, ""), rows, env, t);
    MoveExec(rows, want, "", At(env, t));
    OneMoveArranges(rows, want);
    PlacePermutes(rows, want, "");
    PlaceKeepsUnique(rows, want, "");
    PlaceKeepsOthers(rows, want, "", Listed(want));
  }

  lemma PairwisePhase(rows: seq<Record>, want: seq<string>, env: Env, t: nat)
    requires want != [] && UniqueIds(rows) && Manageable(rows, want)
    ensures want[|want| - 1] in Ids(rows)
    ensures
      var run := Run(Pairwise(want, |want| - 1), rows, env, t);
      && SameRows(run.rows, rows) && UniqueIds(run.rows)
      && Without(run.rows, Listed(want)) == Without(rows, Listed(want))
      && (run.ok ==> run.rows == Arranged(rows, want))
  {
    hide UniqueIds, Manageable, SameRows, Settled, Laid, Place, Run, Pairwise, Without, Ahead, Listed, Arranged;
    LastSettled(rows, want);
    var k := Ahead(rows, want[|want| - 1]);
    var above, below := Without(rows[..k], Listed(want)), Without(rows[k + 1..], Listed(want));
    var run := Run(Pairwise(want, |want| - 1), rows, env, t);
    var j := PairwiseSettles(rows, want, |want| - 1, above, below, env, t);
    OrderingOthers(run.rows, rows, want, j, above, below);
    OrderingOthers(rows, rows, want, |want| - 1, above, below);
    if run.ok {
      SettledArranged(run.rows, rows, want);
    }
  }

  lemma OrderingOthers(rows: seq<Record>, start: seq<Record>, want: seq<string>, i: nat,
                       above: seq<Record>, below: seq<Record>)
    requires i < |want| && Ordering(rows, start, want, i, above, below)
    ensures Without(rows, Listed(want)) == above + below
  {
    hide UniqueIds, SameRows, Manageable, Without, Ahead, Listed;
    var k := Ahead(rows, want[i]);
    var end := k + |want| - i;
    Cut(rows, k, end);
    TailListed(want, i, rows[k..end]);
    WithoutEverything(rows[k..end], Listed(want));
    WithoutThree(rows[..k], rows[k..end], rows[end..], Listed(want));
    assert above + [] + below == above + below;
  }

  lemma TailListed(want: seq<string>, i: nat, block: seq<Record>)
    requires i <= |want| && Ids(block) == want[i..]
    ensures forall r | r in block :: IdOf(r) in Listed(want)
  {
    forall r | r in block
      ensures IdOf(r) in Listed(want)
    {
      var j :| 0 <= j < |block| && block[j] == r;
      assert IdOf(r) == Ids(block)[j] == want[i + j];
    }
  }
}
