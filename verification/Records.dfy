/**
 Rows as RouterOS returns them: a map from field name to text, the row's
 identifier being one of the fields (rest/record.go).
 */
module Records {

  type Record = map<string, string>

  const ID_FIELD := ".id"

  /** The row's identifier, or the empty text when the row has none. */
  function IdOf(r: Record): string {
    if ID_FIELD in r then r[ID_FIELD] else ""
  }

  /** What a row says apart from its identifier. */
  function Content(r: Record): Record {
    r - {ID_FIELD}
  }

  /** Every field `want` sets, the identifier aside, holds that value in `row`. */
  predicate Subset(want: Record, row: Record) {
    forall k | k in want && k != ID_FIELD :: k in row && row[k] == want[k]
  }

  predicate SameContent(a: Record, b: Record) {
    Content(a) == Content(b)
  }

  /** Every field of `part`, the identifier included, holds that value in `row`. */
  predicate Contains(row: Record, part: Record) {
    forall k | k in part :: k in row && row[k] == part[k]
  }

  /** `Subset` sees a row only through its content. */
  lemma SubsetSeesContent(want: Record, a: Record, b: Record)
    requires SameContent(a, b)
    ensures Subset(want, a) == Subset(want, b)
  {
    forall k | k != ID_FIELD
      ensures k in a <==> k in b
      ensures k in a ==> a[k] == b[k]
    {
      assert k in Content(a) <==> k in a;
      assert k in Content(b) <==> k in b;
      if k in a { assert Content(a)[k] == a[k] && Content(b)[k] == b[k]; }
    }
  }

  /** The first row carrying the identifier; the empty record when none does. */
  function ByID(rows: seq<Record>, id: string): Record {
    if rows == [] then map[]
    else if IdOf(rows[0]) == id then rows[0]
    else ByID(rows[1..], id)
  }

  function Ids(rows: seq<Record>): (ids: seq<string>)
    ensures |ids| == |rows|
    ensures forall i | 0 <= i < |rows| :: ids[i] == IdOf(rows[i])
  {
    seq(|rows|, i requires 0 <= i < |rows| => IdOf(rows[i]))
  }

  /** No identifier names two rows. Rows without one are not addressable and are let be. */
  predicate UniqueIds(rows: seq<Record>) {
    forall i, j | 0 <= i < j < |rows| && IdOf(rows[i]) != "" :: IdOf(rows[i]) != IdOf(rows[j])
  }

  lemma {:induction false} ByIDFinds(rows: seq<Record>, row: Record)
    requires UniqueIds(rows) && row in rows && IdOf(row) != ""
    ensures ByID(rows, IdOf(row)) == row
  {
    if rows[0] == row {
    } else {
      var i :| 0 <= i < |rows| && rows[i] == row;
      assert row == rows[1..][i - 1];
      ByIDFinds(rows[1..], row);
    }
  }

  lemma {:induction false} ByIDMember(rows: seq<Record>, id: string)
    requires id in Ids(rows)
    ensures ByID(rows, id) in rows && IdOf(ByID(rows, id)) == id
  {
    if IdOf(rows[0]) != id {
      var i :| 0 <= i < |rows| && Ids(rows)[i] == id;
      assert Ids(rows[1..])[i - 1] == id;
      ByIDMember(rows[1..], id);
    }
  }

  /** The rows whose identifier is listed in `ids`, in place order. */
  function Only(rows: seq<Record>, ids: set<string>): (out: seq<Record>)
    ensures forall r {:trigger r in out} :: r in out <==> r in rows && IdOf(r) in ids
  {
    if rows == [] then []
    else if IdOf(rows[0]) in ids then [rows[0]] + Only(rows[1..], ids)
    else Only(rows[1..], ids)
  }

  /** The rows whose identifier is not in `ids`, in place order. */
  function Without(rows: seq<Record>, ids: set<string>): (out: seq<Record>)
    ensures forall r {:trigger r in out} :: r in out <==> r in rows && IdOf(r) !in ids
  {
    if rows == [] then []
    else if IdOf(rows[0]) in ids then Without(rows[1..], ids)
    else [rows[0]] + Without(rows[1..], ids)
  }

  lemma {:induction false} OnlyConcat(a: seq<Record>, b: seq<Record>, ids: set<string>)
    ensures Only(a + b, ids) == Only(a, ids) + Only(b, ids)
  {
    if a == [] {
      assert a + b == b;
    } else {
      assert (a + b)[1..] == a[1..] + b;
      OnlyConcat(a[1..], b, ids);
    }
  }

  lemma {:induction false} WithoutConcat(a: seq<Record>, b: seq<Record>, ids: set<string>)
    ensures Without(a + b, ids) == Without(a, ids) + Without(b, ids)
  {
    if a == [] {
      assert a + b == b;
    } else {
      assert (a + b)[1..] == a[1..] + b;
      WithoutConcat(a[1..], b, ids);
    }
  }

  lemma {:induction false} WithoutNothing(rows: seq<Record>, ids: set<string>)
    requires forall r | r in rows :: IdOf(r) !in ids
    ensures Without(rows, ids) == rows
  {
    if rows != [] {
      WithoutNothing(rows[1..], ids);
    }
  }

  lemma {:induction false} WithoutEverything(rows: seq<Record>, ids: set<string>)
    requires forall r | r in rows :: IdOf(r) in ids
    ensures Without(rows, ids) == []
  {
    if rows != [] {
      WithoutEverything(rows[1..], ids);
    }
  }

  lemma {:induction false} OnlyNothing(rows: seq<Record>, ids: set<string>)
    requires forall r | r in rows :: IdOf(r) !in ids
    ensures Only(rows, ids) == []
  {
    if rows != [] {
      OnlyNothing(rows[1..], ids);
    }
  }

  lemma {:induction false} OnlyEverything(rows: seq<Record>, ids: set<string>)
    requires forall r | r in rows :: IdOf(r) in ids
    ensures Only(rows, ids) == rows
  {
    if rows != [] {
      OnlyEverything(rows[1..], ids);
    }
  }

  /** Removing rows outside `keep` does not disturb the rows in `keep`. */
  lemma {:induction false} OnlyWithout(rows: seq<Record>, keep: set<string>, gone: set<string>)
    requires keep !! gone
    ensures Only(Without(rows, gone), keep) == Only(rows, keep)
  {
    if rows != [] {
      OnlyWithout(rows[1..], keep, gone);
      if IdOf(rows[0]) !in gone {
        assert Without(rows, gone)[1..] == Without(rows[1..], gone);
      }
    }
  }

  lemma {:induction false} WithoutKeepsUnique(rows: seq<Record>, ids: set<string>)
    requires UniqueIds(rows)
    ensures UniqueIds(Without(rows, ids))
  {
    if rows != [] {
      var rest := rows[1..];
      assert UniqueIds(rest);
      WithoutKeepsUnique(rest, ids);
      forall r | r in Without(rest, ids) && IdOf(rows[0]) != ""
        ensures IdOf(r) != IdOf(rows[0])
      {
        var i :| 0 <= i < |rest| && rest[i] == r;
        assert r == rows[i + 1];
      }
    }
  }

  lemma UniqueConcat(a: seq<Record>, b: seq<Record>)
    requires UniqueIds(a) && UniqueIds(b)
    requires forall x, y | x in a && y in b && IdOf(x) != "" :: IdOf(x) != IdOf(y)
    ensures UniqueIds(a + b)
  {
  }

  lemma UniqueParts(a: seq<Record>, b: seq<Record>)
    requires UniqueIds(a + b)
    ensures UniqueIds(a) && UniqueIds(b)
    ensures forall x, y | x in a && y in b && IdOf(x) != "" :: IdOf(x) != IdOf(y)
  {
    forall i, j | 0 <= i < j < |a| && IdOf(a[i]) != ""
      ensures IdOf(a[i]) != IdOf(a[j])
    {
      assert (a + b)[i] == a[i] && (a + b)[j] == a[j];
    }
    forall i, j | 0 <= i < j < |b| && IdOf(b[i]) != ""
      ensures IdOf(b[i]) != IdOf(b[j])
    {
      assert (a + b)[|a| + i] == b[i] && (a + b)[|a| + j] == b[j];
    }
    forall x, y | x in a && y in b && IdOf(x) != ""
      ensures IdOf(x) != IdOf(y)
    {
      var i :| 0 <= i < |a| && a[i] == x;
      var j :| 0 <= j < |b| && b[j] == y;
      assert (a + b)[i] == x && (a + b)[|a| + j] == y;
    }
  }

  /** Two rows of one menu with the same identifier are the same row. */
  lemma SameIdSameRow(rows: seq<Record>, x: Record, y: Record)
    requires UniqueIds(rows) && x in rows && y in rows
    requires IdOf(x) == IdOf(y) != ""
    ensures x == y
  {
    var i :| 0 <= i < |rows| && rows[i] == x;
    var j :| 0 <= j < |rows| && rows[j] == y;
    assert i == j;
  }
}
