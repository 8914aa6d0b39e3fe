/**
 The router as one menu sees it, and a run of steps against it. A write can be
 refused, performed, or performed with the answer lost on the way back; the
 identifier of a created row is the router's own choice (rest/menu.go:457-477).
 */
module MenuDevice {
  import opened Prelude
  import opened Records
  import opened MenuPlan

  /** The answers the router gives, exchange by exchange; past the end it answers no more. */
  type Env = seq<Reply>

  function At(env: Env, t: nat): Reply {
    if t < |env| then env[t] else Refused
  }

  function Patch(rows: seq<Record>, id: string, diff: Record): (out: seq<Record>)
    ensures |out| == |rows|
    ensures forall i | 0 <= i < |rows| :: out[i] == if IdOf(rows[i]) == id then rows[i] + diff else rows[i]
  {
    seq(|rows|, i requires 0 <= i < |rows| => if IdOf(rows[i]) == id then rows[i] + diff else rows[i])
  }

  function Block(rows: seq<Record>, order: seq<string>): (out: seq<Record>)
    ensures |out| == |order|
    ensures forall i | 0 <= i < |order| :: out[i] == ByID(rows, order[i])
  {
    seq(|order|, i requires 0 <= i < |order| => ByID(rows, order[i]))
  }

  /** The rows ahead of the one carrying the identifier; all of them when none does. */
  function Ahead(rows: seq<Record>, id: string): nat
    ensures Ahead(rows, id) <= |rows|
  {
    if rows == [] || IdOf(rows[0]) == id then 0 else 1 + Ahead(rows[1..], id)
  }

  function Listed(order: seq<string>): set<string> {
    set id | id in order
  }

  /** The listed rows leave their places and return as a block, in listed order. */
  function Place(rows: seq<Record>, order: seq<string>, before: string): seq<Record> {
    var rest := Without(rows, Listed(order));
    var k := if before == "" then |rest| else Ahead(rest, before);
    rest[..k] + Block(rows, order) + rest[k..]
  }

  /** The router knows every row a move names. */
  predicate Movable(rows: seq<Record>, order: seq<string>, before: string) {
    && (forall id | id in order :: id != "" && id in Ids(rows))
    && (before != "" ==> before in Ids(rows) && before !in order)
  }

  /** What the router does for a step, or `None` when it cannot. */
  function Effect(step: Step, rows: seq<Record>, id: string): Option<seq<Record>> {
    match step
    case Create(row) =>
      if id != "" && id !in Ids(rows) then Some(rows + [row[ID_FIELD := id]]) else None
    case Update(target, diff) =>
      if target != "" && target in Ids(rows) then Some(Patch(rows, target, diff)) else None
    case Delete(target, _) =>
      if target != "" && target in Ids(rows) then Some(Without(rows, {target})) else None
    case Move(order, before) =>
      if Movable(rows, order, before) then Some(Place(rows, order, before)) else None
  }

  datatype Trail = Trail(rows: seq<Record>, tried: nat, ok: bool)

  /** One exchange: the menu afterwards, and whether the client saw success. */
  function Exec(step: Step, rows: seq<Record>, reply: Reply): Trail {
    if reply.Refused? then Trail(rows, 1, false)
    else
      match Effect(step, rows, reply.id)
      case None => Trail(rows, 1, false)
      case Some(after) => Trail(after, 1, reply.Done?)
  }

  /** Steps in order until the first failure; `t` numbers the exchanges. */
  function Run(steps: seq<Step>, rows: seq<Record>, env: Env, t: nat): (r: Trail)
    ensures r.tried <= |steps|
    ensures if r.ok then r.tried == |steps| else r.tried > 0
  {
    if steps == [] then Trail(rows, 0, true)
    else
      var one := Exec(steps[0], rows, At(env, t));
      if !one.ok then one
      else
        var rest := Run(steps[1..], one.rows, env, t + 1);
        Trail(rest.rows, rest.tried + 1, rest.ok)
  }

  /** A run of two lists is a run of the first and then, if it succeeds, of the second. */
  lemma {:induction false} RunConcat(a: seq<Step>, b: seq<Step>, rows: seq<Record>, env: Env, t: nat)
    ensures
      var first := Run(a, rows, env, t);
      Run(a + b, rows, env, t) ==
        if !first.ok then first
        else var second := Run(b, first.rows, env, t + |a|);
             Trail(second.rows, |a| + second.tried, second.ok)
  {
    if a == [] {
      assert a + b == b;
    } else {
      assert (a + b)[0] == a[0] && (a + b)[1..] == a[1..] + b;
      var one := Exec(a[0], rows, At(env, t));
      if one.ok {
        RunConcat(a[1..], b, one.rows, env, t + 1);
      }
    }
  }

  /** The first step of a run, and the rest of it. */
  lemma RunCons(steps: seq<Step>, rest: seq<Step>, rows: seq<Record>, env: Env, t: nat)
    requires steps != [] && steps[1..] == rest
    ensures
      var one := Exec(steps[0], rows, At(env, t));
      Run(steps, rows, env, t) ==
        if !one.ok then one
        else var more := Run(rest, one.rows, env, t + 1);
             Trail(more.rows, more.tried + 1, more.ok)
  {
  }

  lemma RunNothing(rows: seq<Record>, env: Env, t: nat)
    ensures Run([], rows, env, t) == Trail(rows, 0, true)
  {
  }

  lemma RunSingle(step: Step, rows: seq<Record>, env: Env, t: nat)
    ensures Run([step], rows, env, t) == Exec(step, rows, At(env, t))
  {
    var one := Exec(step, rows, At(env, t));
    assert [step][1..] == [];
    assert Run([step][1..], one.rows, env, t + 1) == Trail(one.rows, 0, true);
  }

  // ---- Every exchange keeps the menu well formed ----

  lemma {:induction false} AheadFinds(rows: seq<Record>, left: seq<Record>, row: Record, right: seq<Record>)
    requires rows == left + [row] + right
    requires forall r | r in left :: IdOf(r) != IdOf(row)
    ensures Ahead(rows, IdOf(row)) == |left|
  {
    if left == [] {
      assert rows[0] == row;
    } else {
      assert rows[0] == left[0] && left[0] in left;
      assert rows[1..] == left[1..] + [row] + right;
      AheadFinds(rows[1..], left[1..], row, right);
    }
  }

  lemma PlaceKeepsUnique(rows: seq<Record>, order: seq<string>, before: string)
    requires UniqueIds(rows) && Movable(rows, order, before)
    requires forall i, j | 0 <= i < j < |order| :: order[i] != order[j]
    ensures UniqueIds(Place(rows, order, before))
  {
    var rest := Without(rows, Listed(order));
    var k := if before == "" then |rest| else Ahead(rest, before);
    var block := Block(rows, order);
    WithoutKeepsUnique(rows, Listed(order));
    forall i | 0 <= i < |order|
      ensures IdOf(block[i]) == order[i]
    {
      assert order[i] in order;
      ByIDMember(rows, order[i]);
    }
    assert rest == rest[..k] + rest[k..];
    UniqueParts(rest[..k], rest[k..]);
    forall x, y | x in block && y in rest
      ensures IdOf(x) != IdOf(y)
    {
      var i :| 0 <= i < |order| && block[i] == x;
      assert IdOf(x) == order[i];
      assert order[i] in Listed(order);
    }
    UniqueConcat(rest[..k], block);
    UniqueConcat(rest[..k] + block, rest[k..]);
  }

  /** The shape of every step a plan holds: distinct rows in a move, no identifier in an update. */
  predicate WellFormedStep(step: Step) {
    match step
    case Update(_, diff) => ID_FIELD !in diff
    case Move(order, _) => forall i, j | 0 <= i < j < |order| :: order[i] != order[j]
    case _ => true
  }

  lemma EffectKeepsUnique(step: Step, rows: seq<Record>, id: string)
    requires UniqueIds(rows) && WellFormedStep(step)
    ensures Effect(step, rows, id).Some? ==> UniqueIds(Effect(step, rows, id).value)
  {
    match step
    case Create(row) =>
      if id != "" && id !in Ids(rows) {
        var created := row[ID_FIELD := id];
        forall x | x in rows
          ensures IdOf(x) != IdOf(created)
        {
          var i :| 0 <= i < |rows| && rows[i] == x;
          assert Ids(rows)[i] == IdOf(x);
        }
        UniqueConcat(rows, [created]);
      }
    case Update(target, diff) =>
      var out := Patch(rows, target, diff);
      assert forall i | 0 <= i < |rows| :: IdOf(out[i]) == IdOf(rows[i]);
    case Delete(target, _) =>
      WithoutKeepsUnique(rows, {target});
    case Move(order, before) =>
      if Movable(rows, order, before) {
        PlaceKeepsUnique(rows, order, before);
      }
  }

  lemma {:induction false} RunKeepsUnique(steps: seq<Step>, rows: seq<Record>, env: Env, t: nat)
    requires UniqueIds(rows) && forall s | s in steps :: WellFormedStep(s)
    ensures UniqueIds(Run(steps, rows, env, t).rows)
  {
    if steps != [] {
      if !At(env, t).Refused? {
        EffectKeepsUnique(steps[0], rows, At(env, t).id);
      }
      var one := Exec(steps[0], rows, At(env, t));
      if one.ok {
        RunKeepsUnique(steps[1..], one.rows, env, t + 1);
      }
    }
  }
}
