/**
 What the identity wrappers share (config/comment_identity.go:184-238): the
 lookup of a menu row by the field that stands for its identity, and the
 upstream callbacks by their contract, which is to act on the row whose
 identifier the resource carries.
 */
module Identity {
  import opened Prelude
  import opened Records

  /** A menu by row identifier; out of band, rows come back under new identifiers. */
  type Menu = map<string, Record>

  const DEFAULT_FIELD := "default"

  function Field(row: Record, field: string): string {
    if field in row then row[field] else ""
  }

  /** A resource: what it is known by, and the fields it asks for or last read. */
  datatype Resource = Resource(id: string, fields: Record)

  datatype Verdict = Success | Failure

  datatype Outcome = Outcome(menu: Menu, d: Resource, verdict: Verdict)

  /** The rows whose field carries the value. */
  function Holders(menu: Menu, field: string, value: string): set<string> {
    set id | id in menu && Field(menu[id], field) == value
  }

  datatype Found = Nobody | One(id: string) | Unresolved

  /** resolveByField: exactly one row, none, or an error; `readable` is whether the lookup itself works. */
  ghost function Lookup(menu: Menu, field: string, value: string, readable: bool): (f: Found)
    ensures f.One? ==> readable && f.id in menu && Holders(menu, field, value) == {f.id}
    ensures f.Nobody? ==> readable && Holders(menu, field, value) == {}
    ensures f.Unresolved? ==> !readable || |Holders(menu, field, value)| > 1
  {
    var h := Holders(menu, field, value);
    if !readable then Unresolved
    else if h == {} then Nobody
    else if |h| == 1 then
      var id :| id in h;
      Singleton(h, id);
      One(id)
    else
      assert |h| > 1;
      Unresolved
  }

  lemma Singleton<T>(s: set<T>, x: T)
    requires |s| == 1 && x in s
    ensures s == {x}
  {
    assert |s - {x}| == 0;
  }

  method ResolveByField(menu: Menu, field: string, value: string, readable: bool) returns (f: Found)
    ensures f == Lookup(menu, field, value, readable)
  {
    if !readable {
      return Unresolved;
    }
    var items: set<string> := {};
    var left := menu.Keys;
    while left != {}
      invariant left <= menu.Keys
      invariant items == set id | id in menu && id !in left && Field(menu[id], field) == value
    {
      var id :| id in left;
      left := left - {id};
      if Field(menu[id], field) == value {
        items := items + {id};
      }
    }
    assert items == Holders(menu, field, value);
    if items == {} {
      return Nobody;
    }
    if |items| == 1 {
      var id :| id in items;
      Singleton(items, id);
      return One(id);
    }
    f := Unresolved;
  }

  // ---- The upstream callbacks ----

  /** What a resource sends: the flag of the router-owned row is not its to set. */
  function Sent(d: Resource): Record {
    d.fields - {DEFAULT_FIELD}
  }

  function UpstreamCreate(menu: Menu, d: Resource, reply: Reply): Outcome {
    if reply.Refused? || reply.id == "" || reply.id in menu then Outcome(menu, d, Failure)
    else if reply.Lost? then Outcome(menu[reply.id := Sent(d)], d, Failure)
    else Outcome(menu[reply.id := Sent(d)], d.(id := reply.id), Success)
  }

  function UpstreamUpdate(menu: Menu, d: Resource, reply: Reply): Outcome {
    if reply.Refused? || d.id !in menu then Outcome(menu, d, Failure)
    else Outcome(menu[d.id := menu[d.id] + Sent(d)], d, if reply.Done? then Success else Failure)
  }

  /** A read that finds no row clears the resource. */
  function UpstreamRead(menu: Menu, d: Resource, reply: Reply): Outcome {
    if !reply.Done? then Outcome(menu, d, Failure)
    else if d.id !in menu then Outcome(menu, d.(id := ""), Success)
    else Outcome(menu, d.(fields := menu[d.id]), Success)
  }

  function UpstreamDelete(menu: Menu, d: Resource, reply: Reply): Outcome {
    if reply.Refused? || d.id !in menu then Outcome(menu, d, Failure)
    else if reply.Lost? then Outcome(menu - {d.id}, d, Failure)
    else Outcome(menu - {d.id}, d.(id := ""), Success)
  }

  /** The one row carrying the value now also says all that `fields` says, the flag of the router-owned row aside; no other row changes. */
  ghost predicate WrittenInto(menu: Menu, field: string, value: string, fields: Record, after: Menu) {
    exists x :: x in menu && Holders(menu, field, value) == {x} && after == menu[x := menu[x] + (fields - {"default"})]
  }

  // ---- The identity field ----

  /** No two rows carry the same value in the field, rows without one aside. */
  ghost predicate Distinct(menu: Menu, field: string) {
    forall x, y | x in menu && y in menu && x != y && Field(menu[x], field) != "" ::
      Field(menu[x], field) != Field(menu[y], field)
  }

  lemma DistinctHolders(menu: Menu, field: string, value: string)
    requires Distinct(menu, field) && value != ""
    ensures |Holders(menu, field, value)| <= 1
  {
    var h := Holders(menu, field, value);
    if x :| x in h {
      forall y | y in h
        ensures y == x
      {
      }
      assert h == {x};
    }
  }

  /** Adding a row with a value nobody carries, or giving it to a row, keeps values distinct. */
  lemma DistinctPut(menu: Menu, field: string, id: string, row: Record)
    requires Distinct(menu, field)
    requires Field(row, field) == "" || Holders(menu, field, Field(row, field)) <= {id}
    ensures Distinct(menu[id := row], field)
  {
    forall z | z in menu && z != id && Field(row, field) != ""
      ensures Field(menu[z], field) != Field(row, field)
    {
      assert z !in Holders(menu, field, Field(row, field));
    }
  }

  lemma DistinctRemove(menu: Menu, field: string, id: string)
    requires Distinct(menu, field)
    ensures Distinct(menu - {id}, field)
  {
  }

  /** The one holder of a value after it was put there. */
  lemma HoldersPut(menu: Menu, field: string, id: string, row: Record, value: string)
    requires Field(row, field) == value && Holders(menu, field, value) <= {id}
    ensures Holders(menu[id := row], field, value) == {id}
  {
    forall x | x in menu && x != id
      ensures Field(menu[x], field) != value
    {
      assert x !in Holders(menu, field, value);
    }
  }

  /** Out of band: a row is removed and made again as it was, under another identifier. */
  function Recreate(menu: Menu, from: string, to: string): Menu {
    if from in menu && to !in menu && to != "" then (menu - {from})[to := menu[from]] else menu
  }

  lemma RecreateDistinct(menu: Menu, field: string, from: string, to: string)
    requires Distinct(menu, field)
    ensures Distinct(Recreate(menu, from, to), field)
  {
    if from in menu && to !in menu && to != "" {
      DistinctRemove(menu, field, from);
      var rest := menu - {from};
      assert Field(menu[from], field) != "" ==> Holders(rest, field, Field(menu[from], field)) == {};
      DistinctPut(rest, field, to, menu[from]);
    }
  }
}
