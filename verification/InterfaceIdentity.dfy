/**
 The interface as the identity of a row, in a menu with a row the router owns
 and will not remove (config/interface_identity.go:60-170).
 */
module InterfaceIdentity {
  import opened Prelude
  import opened Records
  import opened Identity

  const INTERFACE := "interface"
  const ROUTER_TRUE := "true"

  function InterfaceOf(d: Resource): string {
    Field(d.fields, INTERFACE)
  }

  predicate IsDefault(row: Record) {
    Field(row, DEFAULT_FIELD) == ROUTER_TRUE
  }

  /** interfaceIdentityCreate: add on a free interface, adopt the default row in place, refuse any other. */
  ghost function Create(menu: Menu, d: Resource, readable: bool, reply: Reply): Outcome {
    var iface := InterfaceOf(d);
    var found := Lookup(menu, INTERFACE, iface, readable);
    if iface == "" || found.Unresolved? || (found.One? && !IsDefault(menu[found.id])) then Outcome(menu, d, Failure)
    else
      var up := if found.Nobody? then UpstreamCreate(menu, d, reply)
                else UpstreamUpdate(menu, d.(id := found.id), reply);
      if up.verdict == Success then up.(d := up.d.(id := iface)) else up
  }

  /** interfaceIdentityRead */
  ghost function Read(menu: Menu, d: Resource, readable: bool, reply: Reply): Outcome {
    match Lookup(menu, INTERFACE, d.id, readable)
    case Unresolved => Outcome(menu, d, Failure)
    case Nobody => Outcome(menu, d.(id := ""), Success)
    case One(id) =>
      var up := UpstreamRead(menu, d.(id := id), reply);
      if up.verdict == Success && up.d.id != "" then up.(d := up.d.(id := InterfaceOf(up.d))) else up
  }

  /** interfaceIdentityUpdate */
  ghost function Update(menu: Menu, d: Resource, readable: bool, readableAgain: bool, reply: Reply): Outcome {
    var iface := InterfaceOf(d);
    var found := Lookup(menu, INTERFACE, d.id, readable);
    if iface == "" || !found.One? then Outcome(menu, d, Failure)
    else if iface != d.id && !Lookup(menu, INTERFACE, iface, readableAgain).Nobody? then Outcome(menu, d, Failure)
    else
      var up := UpstreamUpdate(menu, d.(id := found.id), reply);
      if up.verdict == Success then up.(d := up.d.(id := iface)) else up
  }

  /** interfaceIdentityDelete: the default row is released, not removed. */
  ghost function Delete(menu: Menu, d: Resource, readable: bool, reply: Reply): Outcome {
    match Lookup(menu, INTERFACE, d.id, readable)
    case Unresolved => Outcome(menu, d, Failure)
    case Nobody => Outcome(menu, d.(id := ""), Success)
    case One(id) =>
      if IsDefault(menu[id]) then Outcome(menu, d.(id := ""), Success)
      else UpstreamDelete(menu, d.(id := id), reply)
  }

  // ---- As they run ----

  class Session {
    var menu: Menu
    var d: Resource

    constructor (menu: Menu, d: Resource)
      ensures this.menu == menu && this.d == d
    {
      this.menu, this.d := menu, d;
    }

    method Act(up: Outcome) returns (v: Verdict)
      modifies this
      ensures menu == up.menu && d == up.d && v == up.verdict
    {
      menu, d, v := up.menu, up.d, up.verdict;
    }

    method CreateRow(readable: bool, reply: Reply) returns (v: Verdict)
      modifies this
      ensures Outcome(menu, d, v) == Create(old(menu), old(d), readable, reply)
      ensures old(Distinct(menu, INTERFACE)) ==> Distinct(menu, INTERFACE) && Defaults(menu) == old(Defaults(menu))
      ensures v == Success ==> d.id == InterfaceOf(d) != "" && |Holders(menu, INTERFACE, d.id)| == 1
    {
      hide Distinct, Defaults, Holders, Sent, WrittenInto;
      if Distinct(menu, INTERFACE) {
        EventKeeps(menu, Creating(d, readable, reply));
      }
      if Create(menu, d, readable, reply).verdict == Success {
        CreateAdoptsOrAdds(menu, d, readable, reply);
      }
      var iface := InterfaceOf(d);
      if iface == "" {
        return Failure;
      }
      var item := ResolveByField(menu, INTERFACE, iface, readable);
      if item.Unresolved? {
        return Failure;
      }
      if item.Nobody? {
        v := Act(UpstreamCreate(menu, d, reply));
      } else if IsDefault(menu[item.id]) {
        d := d.(id := item.id);
        v := Act(UpstreamUpdate(menu, d, reply));
      } else {
        return Failure;
      }
      if v == Success {
        d := d.(id := iface);
      }
    }

    method ReadRow(readable: bool, reply: Reply) returns (v: Verdict)
      modifies this
      ensures Outcome(menu, d, v) == Read(old(menu), old(d), readable, reply)
      ensures menu == old(menu)
    {
      var item := ResolveByField(menu, INTERFACE, d.id, readable);
      if item.Unresolved? {
        return Failure;
      }
      if item.Nobody? {
        d := d.(id := "");
        return Success;
      }
      d := d.(id := item.id);
      v := Act(UpstreamRead(menu, d, reply));
      if v == Success && d.id != "" {
        d := d.(id := InterfaceOf(d));
      }
    }

    method UpdateRow(readable: bool, readableAgain: bool, reply: Reply) returns (v: Verdict)
      modifies this
      ensures Outcome(menu, d, v) == Update(old(menu), old(d), readable, readableAgain, reply)
      ensures v == Success ==> WrittenInto(old(menu), INTERFACE, old(d.id), old(d.fields), menu)
      ensures old(Distinct(menu, INTERFACE)) ==> Distinct(menu, INTERFACE) && Defaults(menu) == old(Defaults(menu))
      ensures v == Success ==> d.id == InterfaceOf(d) != "" && |Holders(menu, INTERFACE, d.id)| == 1
    {
      hide Distinct, Defaults, Holders, Sent, WrittenInto;
      if Distinct(menu, INTERFACE) {
        EventKeeps(menu, Updating(d, readable, readableAgain, reply));
      }
      if Update(menu, d, readable, readableAgain, reply).verdict == Success {
        UpdateIdentifies(menu, d, readable, readableAgain, reply);
      }
      var iface := InterfaceOf(d);
      if iface == "" {
        return Failure;
      }
      var item := ResolveByField(menu, INTERFACE, d.id, readable);
      if !item.One? {
        return Failure;
      }
      if iface != d.id {
        var taken := ResolveByField(menu, INTERFACE, iface, readableAgain);
        if !taken.Nobody? {
          return Failure;
        }
      }
      d := d.(id := item.id);
      v := Act(UpstreamUpdate(menu, d, reply));
      if v == Success {
        d := d.(id := iface);
      }
    }

    method DeleteRow(readable: bool, reply: Reply) returns (v: Verdict)
      modifies this
      ensures Outcome(menu, d, v) == Delete(old(menu), old(d), readable, reply)
      ensures old(Distinct(menu, INTERFACE)) ==> Distinct(menu, INTERFACE) && Defaults(menu) == old(Defaults(menu))
      ensures v == Success ==>
        d.id == "" && menu == old(menu) - (old(Holders(menu, INTERFACE, d.id)) - old(Defaults(menu)))
    {
      hide Distinct, Defaults, Holders, Sent, WrittenInto;
      if Distinct(menu, INTERFACE) {
        EventKeeps(menu, Deleting(d, readable, reply));
      }
      if Delete(menu, d, readable, reply).verdict == Success {
        DeleteReleasesOrRemoves(menu, d, readable, reply);
      }
      var item := ResolveByField(menu, INTERFACE, d.id, readable);
      if item.Unresolved? {
        return Failure;
      }
      if item.Nobody? || IsDefault(menu[item.id]) {
        d := d.(id := "");
        return Success;
      }
      d := d.(id := item.id);
      v := Act(UpstreamDelete(menu, d, reply));
    }
  }

  // ---- Every run ----

  /** Callbacks, and what a person can do at the router: the default row is refused removal there too. */
  datatype Event =
    | Creating(d: Resource, readable: bool, reply: Reply)
    | Reading(d: Resource, readable: bool, reply: Reply)
    | Updating(d: Resource, readable: bool, readableAgain: bool, reply: Reply)
    | Deleting(d: Resource, readable: bool, reply: Reply)
    | Recreated(from: string, to: string)
    | Vanished(id: string)
    | Renamed(id: string, iface: string)

  ghost function After(menu: Menu, e: Event): Menu {
    match e
    case Creating(d, readable, reply) => Create(menu, d, readable, reply).menu
    case Reading(d, readable, reply) => Read(menu, d, readable, reply).menu
    case Updating(d, readable, again, reply) => Update(menu, d, readable, again, reply).menu
    case Deleting(d, readable, reply) => Delete(menu, d, readable, reply).menu
    case Recreated(from, to) =>
      if from in menu && IsDefault(menu[from]) then menu else Recreate(menu, from, to)
    case Vanished(id) => if id in menu && IsDefault(menu[id]) then menu else menu - {id}
    case Renamed(id, iface) =>
      if id in menu && iface != "" && Holders(menu, INTERFACE, iface) == {} then menu[id := menu[id][INTERFACE := iface]] else menu
  }

  ghost function AfterAll(menu: Menu, events: seq<Event>): Menu
    decreases |events|
  {
    if events == [] then menu else AfterAll(After(menu, events[0]), events[1..])
  }

  /** The rows the router owns. */
  ghost function Defaults(menu: Menu): set<string> {
    set id | id in menu && IsDefault(menu[id])
  }

  /** Putting a row that is default exactly when the old one was changes no ownership. */
  lemma DefaultsPut(menu: Menu, id: string, row: Record)
    requires IsDefault(row) <==> id in menu && IsDefault(menu[id])
    ensures Defaults(menu[id := row]) == Defaults(menu)
  {
  }

  lemma SentPlain(d: Resource)
    ensures !IsDefault(Sent(d)) && Field(Sent(d), INTERFACE) == InterfaceOf(d)
    ensures forall row: Record :: IsDefault(row + Sent(d)) <==> IsDefault(row)
    ensures forall row: Record :: InterfaceOf(d) != "" ==> Field(row + Sent(d), INTERFACE) == InterfaceOf(d)
  {
  }

  /** One event keeps one row per interface, and the router's own rows exactly. */
  lemma EventKeeps(menu: Menu, e: Event)
    requires Distinct(menu, INTERFACE)
    ensures Distinct(After(menu, e), INTERFACE) && Defaults(After(menu, e)) == Defaults(menu)
  {
    match e
    case Creating(d, readable, reply) => CreateKeeps(menu, d, readable, reply);
    case Reading(d, readable, reply) =>
    case Updating(d, readable, again, reply) => UpdateKeeps(menu, d, readable, again, reply);
    case Deleting(d, readable, reply) =>
      if After(menu, e) != menu {
        DistinctRemove(menu, INTERFACE, Lookup(menu, INTERFACE, d.id, readable).id);
      }
    case Recreated(from, to) =>
      RecreateDistinct(menu, INTERFACE, from, to);
    case Vanished(id) =>
      DistinctRemove(menu, INTERFACE, id);
    case Renamed(id, iface) =>
      if After(menu, e) != menu {
        DistinctPut(menu, INTERFACE, id, menu[id][INTERFACE := iface]);
        DefaultsPut(menu, id, menu[id][INTERFACE := iface]);
      }
  }

  lemma CreateKeeps(menu: Menu, d: Resource, readable: bool, reply: Reply)
    requires Distinct(menu, INTERFACE)
    ensures
      var after := Create(menu, d, readable, reply).menu;
      Distinct(after, INTERFACE) && Defaults(after) == Defaults(menu)
  {
    if Create(menu, d, readable, reply).menu != menu {
      SentPlain(d);
      var found := Lookup(menu, INTERFACE, InterfaceOf(d), readable);
      if found.Nobody? {
        DistinctPut(menu, INTERFACE, reply.id, Sent(d));
        DefaultsPut(menu, reply.id, Sent(d));
      } else {
        DistinctPut(menu, INTERFACE, found.id, menu[found.id] + Sent(d));
        DefaultsPut(menu, found.id, menu[found.id] + Sent(d));
      }
    }
  }

  lemma UpdateKeeps(menu: Menu, d: Resource, readable: bool, again: bool, reply: Reply)
    requires Distinct(menu, INTERFACE)
    ensures
      var after := Update(menu, d, readable, again, reply).menu;
      Distinct(after, INTERFACE) && Defaults(after) == Defaults(menu)
  {
    if Update(menu, d, readable, again, reply).menu != menu {
      SentPlain(d);
      var id := Lookup(menu, INTERFACE, d.id, readable).id;
      DistinctPut(menu, INTERFACE, id, menu[id] + Sent(d));
      DefaultsPut(menu, id, menu[id] + Sent(d));
    }
  }

  /**
   Over all runs: one row per interface, and the router's own rows neither lost
   nor added to, however often they were adopted, renamed or released.
   */
  lemma {:induction false} RunKeeps(menu: Menu, events: seq<Event>)
    requires Distinct(menu, INTERFACE)
    ensures Distinct(AfterAll(menu, events), INTERFACE) && Defaults(AfterAll(menu, events)) == Defaults(menu)
    decreases |events|
  {
    if events != [] {
      EventKeeps(menu, events[0]);
      RunKeeps(After(menu, events[0]), events[1..]);
    }
  }

  // ---- Single operations ----

  /**
   A create succeeds only on a free interface, where it adds one row, or on the
   default row's, which it updates in place; either way the interface is then the
   identity of exactly one row.
   */
  lemma CreateAdoptsOrAdds(menu: Menu, d: Resource, readable: bool, reply: Reply)
    requires Create(menu, d, readable, reply).verdict == Success
    ensures
      var o, iface := Create(menu, d, readable, reply), InterfaceOf(d);
      && o.d.id == iface != "" && |Holders(o.menu, INTERFACE, iface)| == 1
      && (Holders(menu, INTERFACE, iface) == {} ==> o.menu == menu[reply.id := d.fields - {"default"}] && reply.id !in menu)
      && (Holders(menu, INTERFACE, iface) != {} ==>
            WrittenInto(menu, INTERFACE, iface, d.fields, o.menu) && Holders(menu, INTERFACE, iface) <= Defaults(menu))
  {
    SentPlain(d);
    var iface := InterfaceOf(d);
    var found := Lookup(menu, INTERFACE, iface, readable);
    if found.Nobody? {
      HoldersPut(menu, INTERFACE, reply.id, Sent(d), iface);
    } else {
      HoldersPut(menu, INTERFACE, found.id, menu[found.id] + Sent(d), iface);
      assert Create(menu, d, readable, reply).menu == menu[found.id := menu[found.id] + (d.fields - {"default"})];
    }
  }

  /** An update that succeeds, a rename included, leaves the interface as the identity of one row; no other row changes. */
  lemma UpdateIdentifies(menu: Menu, d: Resource, readable: bool, again: bool, reply: Reply)
    requires Update(menu, d, readable, again, reply).verdict == Success
    ensures
      var o, iface := Update(menu, d, readable, again, reply), InterfaceOf(d);
      && o.d.id == iface == InterfaceOf(o.d) != "" && |Holders(o.menu, INTERFACE, iface)| == 1
      && WrittenInto(menu, INTERFACE, d.id, d.fields, o.menu) && o.d.fields == d.fields
      && (forall x | x in menu && Field(menu[x], INTERFACE) != d.id :: x in o.menu && o.menu[x] == menu[x])
  {
    SentPlain(d);
    var id := Lookup(menu, INTERFACE, d.id, readable).id;
    assert Update(menu, d, readable, again, reply).menu == menu[id := menu[id] + (d.fields - {"default"})];
    assert id in Holders(menu, INTERFACE, d.id);
    HoldersPut(menu, INTERFACE, id, menu[id] + Sent(d), InterfaceOf(d));
  }

  /** Deleting the resource on a default row forgets the resource and touches nothing; any other row goes. */
  lemma DeleteReleasesOrRemoves(menu: Menu, d: Resource, readable: bool, reply: Reply)
    requires Delete(menu, d, readable, reply).verdict == Success
    ensures
      var o := Delete(menu, d, readable, reply);
      && o.d.id == ""
      && o.menu == menu - (Holders(menu, INTERFACE, d.id) - Defaults(menu))
  {
    var found := Lookup(menu, INTERFACE, d.id, readable);
    if found.One? && IsDefault(menu[found.id]) {
      assert Holders(menu, INTERFACE, d.id) - Defaults(menu) == {};
    } else if found.One? {
      assert Holders(menu, INTERFACE, d.id) - Defaults(menu) == {found.id};
    }
  }
}
