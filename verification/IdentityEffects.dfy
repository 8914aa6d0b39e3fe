/**
 What each wrapped callback of the identity layer comes to, in rows and fields:
 exactly when it succeeds, the menu it leaves and the resource it leaves
 (config/comment_identity.go:97-182, config/interface_identity.go:63-170).
 */
module IdentityEffects {
  import opened Prelude
  import opened Records
  import opened Identity
  import Comments = CommentIdentity
  import Interfaces = InterfaceIdentity

  /** What a row or resource says in a field, and the empty text when it says nothing. */
  function Says(row: Record, field: string): string {
    if field in row then row[field] else ""
  }

  ghost function Carrying(menu: Menu, field: string, value: string): set<string> {
    set x | x in menu && Says(menu[x], field) == value
  }

  lemma CarryingHolders(menu: Menu, field: string, value: string)
    ensures Carrying(menu, field, value) == Holders(menu, field, value)
  {
  }

  /** What a lookup finds, told from the rows. */
  lemma LookupExactly(menu: Menu, field: string, value: string, readable: bool)
    ensures
      var rows := Carrying(menu, field, value);
      Lookup(menu, field, value, readable) ==
        if !readable || |rows| > 1 then Unresolved
        else if rows == {} then Nobody
        else One(The(rows))
  {
    CarryingHolders(menu, field, value);
    var rows := Carrying(menu, field, value);
    if |rows| == 1 {
      TheOnly(rows);
    }
  }

  /** The one element of a set of one. */
  ghost function The(s: set<string>): string {
    if x :| x in s then x else ""
  }

  lemma TheOnly(s: set<string>)
    requires |s| == 1
    ensures s == {The(s)}
  {
    Singleton(s, The(s));
  }

  // ---- The comment ----

  /** A create adds the row as asked, without the router's own flag, when the comment is there and nobody carries it. */
  lemma CommentCreate(menu: Menu, d: Resource, readable: bool, reply: Reply)
    ensures
      var comment, o := Says(d.fields, "comment"), Comments.Create(menu, d, readable, reply);
      var goes := comment != "" && readable && Carrying(menu, "comment", comment) == {};
      var made := goes && !reply.Refused? && reply.id != "" && reply.id !in menu;
      && (o.verdict == Success <==> made && reply.Done?)
      && o.menu == (if made then menu[reply.id := d.fields - {"default"}] else menu)
      && (o.verdict == Success ==> o.d == Resource(comment, d.fields))
      && (o.verdict == Failure ==> o.d == d)
  {
    LookupExactly(menu, "comment", Says(d.fields, "comment"), readable);
  }

  /** A read writes nothing; it takes over what the one row says, or clears the resource when there is none. */
  lemma CommentRead(menu: Menu, d: Resource, readable: bool, reply: Reply)
    requires "" !in menu
    ensures
      var rows, o := Carrying(menu, "comment", d.id), Comments.Read(menu, d, readable, reply);
      && o.menu == menu
      && (o.verdict == Success <==> readable && |rows| <= 1 && (rows == {} || reply.Done?))
      && (o.verdict == Success ==> o.d == if rows == {} then d.(id := "") else Resource(d.id, menu[The(rows)]))
  {
    LookupExactly(menu, "comment", d.id, readable);
    var rows := Carrying(menu, "comment", d.id);
    if |rows| == 1 {
      TheOnly(rows);
      assert The(rows) in rows;
    }
  }

  /** An update writes all the resource asks for, the router's own flag aside, into the one row carrying the old comment. */
  lemma CommentUpdate(menu: Menu, d: Resource, readable: bool, again: bool, reply: Reply)
    ensures
      var rows, comment := Carrying(menu, "comment", d.id), Says(d.fields, "comment");
      var o := Comments.Update(menu, d, readable, again, reply);
      var goes := comment != "" && readable && |rows| == 1 && (comment == d.id || (again && Carrying(menu, "comment", comment) == {}));
      && (o.verdict == Success <==> goes && reply.Done?)
      && (goes && !reply.Refused? ==> The(rows) in menu && o.menu == menu[The(rows) := menu[The(rows)] + (d.fields - {"default"})])
      && (!goes || reply.Refused? ==> o.menu == menu)
      && (o.verdict == Success ==> o.d == Resource(comment, d.fields))
      && (o.verdict == Failure ==> o.d == if goes then d.(id := The(rows)) else d)
  {
    LookupExactly(menu, "comment", d.id, readable);
    LookupExactly(menu, "comment", Says(d.fields, "comment"), again);
    var rows := Carrying(menu, "comment", d.id);
    if |rows| == 1 {
      TheOnly(rows);
      assert The(rows) in rows;
    }
  }

  /** A delete removes the one row carrying the comment, if any, and clears the resource. */
  lemma CommentDelete(menu: Menu, d: Resource, readable: bool, reply: Reply)
    ensures
      var rows, o := Carrying(menu, "comment", d.id), Comments.Delete(menu, d, readable, reply);
      && (o.verdict == Success <==> readable && |rows| <= 1 && (rows == {} || reply.Done?))
      && o.menu == (if readable && |rows| <= 1 && !reply.Refused? then menu - rows else menu)
      && (o.verdict == Success ==> o.d == d.(id := ""))
      && (o.verdict == Failure ==> o.d == if readable && |rows| == 1 then d.(id := The(rows)) else d)
  {
    LookupExactly(menu, "comment", d.id, readable);
    var rows := Carrying(menu, "comment", d.id);
    if |rows| == 1 {
      TheOnly(rows);
      assert The(rows) in rows;
    } else if |rows| == 0 {
      assert menu - rows == menu;
    }
  }

  // ---- The interface, and the rows the router owns ----

  /** A create adds a row on a free interface, writes into the router's own row on a taken one, and refuses any other. */
  lemma InterfaceCreate(menu: Menu, d: Resource, readable: bool, reply: Reply)
    ensures
      var iface, o := Says(d.fields, "interface"), Interfaces.Create(menu, d, readable, reply);
      var rows := Carrying(menu, "interface", iface);
      var adds := iface != "" && readable && rows == {} && !reply.Refused? && reply.id != "" && reply.id !in menu;
      var adopts := iface != "" && readable && |rows| == 1 && The(rows) in menu && Says(menu[The(rows)], "default") == "true";
      && (o.verdict == Success <==> (adds || adopts) && reply.Done?)
      && (adds ==> o.menu == menu[reply.id := d.fields - {"default"}])
      && (adopts && !reply.Refused? ==> o.menu == menu[The(rows) := menu[The(rows)] + (d.fields - {"default"})])
      && (!adds && (!adopts || reply.Refused?) ==> o.menu == menu)
      && (o.verdict == Success ==> o.d == Resource(iface, d.fields))
      && (o.verdict == Failure ==> o.d == if adopts then d.(id := The(rows)) else d)
  {
    var rows := Carrying(menu, "interface", Says(d.fields, "interface"));
    LookupExactly(menu, "interface", Says(d.fields, "interface"), readable);
    if |rows| == 1 {
      TheOnly(rows);
      assert The(rows) in rows;
    }
  }

  lemma InterfaceRead(menu: Menu, d: Resource, readable: bool, reply: Reply)
    requires "" !in menu
    ensures
      var rows, o := Carrying(menu, "interface", d.id), Interfaces.Read(menu, d, readable, reply);
      && o.menu == menu
      && (o.verdict == Success <==> readable && |rows| <= 1 && (rows == {} || reply.Done?))
      && (o.verdict == Success ==> o.d == if rows == {} then d.(id := "") else Resource(d.id, menu[The(rows)]))
  {
    LookupExactly(menu, "interface", d.id, readable);
    var rows := Carrying(menu, "interface", d.id);
    if |rows| == 1 {
      TheOnly(rows);
      assert The(rows) in rows;
    }
  }

  lemma InterfaceUpdate(menu: Menu, d: Resource, readable: bool, again: bool, reply: Reply)
    ensures
      var rows, iface := Carrying(menu, "interface", d.id), Says(d.fields, "interface");
      var o := Interfaces.Update(menu, d, readable, again, reply);
      var goes := iface != "" && readable && |rows| == 1 && (iface == d.id || (again && Carrying(menu, "interface", iface) == {}));
      && (o.verdict == Success <==> goes && reply.Done?)
      && (goes && !reply.Refused? ==> The(rows) in menu && o.menu == menu[The(rows) := menu[The(rows)] + (d.fields - {"default"})])
      && (!goes || reply.Refused? ==> o.menu == menu)
      && (o.verdict == Success ==> o.d == Resource(iface, d.fields))
      && (o.verdict == Failure ==> o.d == if goes then d.(id := The(rows)) else d)
  {
    LookupExactly(menu, "interface", d.id, readable);
    LookupExactly(menu, "interface", Says(d.fields, "interface"), again);
    var rows := Carrying(menu, "interface", d.id);
    if |rows| == 1 {
      TheOnly(rows);
      assert The(rows) in rows;
    }
  }

  /** A delete removes the one row on the interface, unless the router owns it: then the resource alone is forgotten. */
  lemma InterfaceDelete(menu: Menu, d: Resource, readable: bool, reply: Reply)
    ensures
      var rows, o := Carrying(menu, "interface", d.id), Interfaces.Delete(menu, d, readable, reply);
      var owned := |rows| == 1 && The(rows) in menu && Says(menu[The(rows)], "default") == "true";
      && (o.verdict == Success <==> readable && |rows| <= 1 && (rows == {} || owned || reply.Done?))
      && o.menu == (if readable && |rows| <= 1 && !owned && !reply.Refused? then menu - rows else menu)
      && (o.verdict == Success ==> o.d == d.(id := ""))
      && (o.verdict == Failure ==> o.d == if readable && |rows| == 1 then d.(id := The(rows)) else d)
  {
    LookupExactly(menu, "interface", d.id, readable);
    var rows := Carrying(menu, "interface", d.id);
    if |rows| == 1 {
      TheOnly(rows);
      assert The(rows) in rows;
    } else if |rows| == 0 {
      assert menu - rows == menu;
    }
  }
}
