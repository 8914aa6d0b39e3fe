/**
 The comment as the identity of a row (config/comment_identity.go:97-182): the
 wrapped create, read, update and delete, and every run of them mixed with rows
 being removed or recreated behind the provider's back. Callbacks do not
 interleave: one mutex serialises them (config/provider.go:43-54).
 */
module CommentIdentity {
  import opened Prelude
  import opened Identity

  const COMMENT := "comment"

  function CommentOf(d: Resource): string {
    Field(d.fields, COMMENT)
  }

  /** commentIdentityCreate */
  ghost function Create(menu: Menu, d: Resource, readable: bool, reply: Reply): Outcome {
    var comment := CommentOf(d);
    if comment == "" then Outcome(menu, d, Failure)
    else if !Lookup(menu, COMMENT, comment, readable).Nobody? then Outcome(menu, d, Failure)
    else
      var up := UpstreamCreate(menu, d, reply);
      if up.verdict == Success then up.(d := up.d.(id := comment)) else up
  }

  /** commentIdentityRead */
  ghost function Read(menu: Menu, d: Resource, readable: bool, reply: Reply): Outcome {
    match Lookup(menu, COMMENT, d.id, readable)
    case Unresolved => Outcome(menu, d, Failure)
    case Nobody => Outcome(menu, d.(id := ""), Success)
    case One(id) =>
      var up := UpstreamRead(menu, d.(id := id), reply);
      if up.verdict == Success && up.d.id != "" then up.(d := up.d.(id := CommentOf(up.d))) else up
  }

  /** commentIdentityUpdate; `readableAgain` is whether the lookup of a new comment works. */
  ghost function Update(menu: Menu, d: Resource, readable: bool, readableAgain: bool, reply: Reply): Outcome {
    var comment := CommentOf(d);
    var found := Lookup(menu, COMMENT, d.id, readable);
    if comment == "" || !found.One? then Outcome(menu, d, Failure)
    else if comment != d.id && !Lookup(menu, COMMENT, comment, readableAgain).Nobody? then Outcome(menu, d, Failure)
    else
      var up := UpstreamUpdate(menu, d.(id := found.id), reply);
      if up.verdict == Success then up.(d := up.d.(id := comment)) else up
  }

  /** commentIdentityDelete */
  ghost function Delete(menu: Menu, d: Resource, readable: bool, reply: Reply): Outcome {
    match Lookup(menu, COMMENT, d.id, readable)
    case Unresolved => Outcome(menu, d, Failure)
    case Nobody => Outcome(menu, d.(id := ""), Success)
    case One(id) => UpstreamDelete(menu, d.(id := id), reply)
  }

  // ---- As they run: the menu and the resource change in place ----

  class Session {
    var menu: Menu
    var d: Resource

    constructor (menu: Menu, d: Resource)
      ensures this.menu == menu && this.d == d
    {
      this.menu, this.d := menu, d;
    }

    method Act(up: Outcome) returns (v: Verdict)
      modifies this
      ensures menu == up.menu && d == up.d && v == up.verdict
    {
      menu, d, v := up.menu, up.d, up.verdict;
    }

    method CreateRow(readable: bool, reply: Reply) returns (v: Verdict)
      modifies this
      ensures Outcome(menu, d, v) == Create(old(menu), old(d), readable, reply)
      ensures v == Success ==> reply.id !in old(menu) && menu == old(menu)[reply.id := old(d.fields) - {"default"}]
      ensures old(Distinct(menu, COMMENT)) ==> Distinct(menu, COMMENT)
      ensures v == Success ==> Identified(Outcome(menu, d, v))
    {
      hide Distinct, Identified, Holders, Sent, Field, WrittenInto;
      if Distinct(menu, COMMENT) {
        EventDistinct(menu, Creating(d, readable, reply));
      }
      if Create(menu, d, readable, reply).verdict == Success {
        CreateIdentifies(menu, d, readable, reply);
      }
      var comment := CommentOf(d);
      if comment == "" {
        return Failure;
      }
      var item := ResolveByField(menu, COMMENT, comment, readable);
      if !item.Nobody? {
        return Failure;
      }
      v := Act(UpstreamCreate(menu, d, reply));
      if v == Success {
        d := d.(id := comment);
      }
    }

    method ReadRow(readable: bool, reply: Reply) returns (v: Verdict)
      modifies this
      ensures Outcome(menu, d, v) == Read(old(menu), old(d), readable, reply)
      ensures menu == old(menu)
      ensures v == Success && old(d.id) != "" && "" !in menu ==>
        if Holders(menu, COMMENT, old(d.id)) == {} then d.id == "" else Identified(Outcome(menu, d, v)) && d.id == old(d.id)
    {
      if Read(menu, d, readable, reply).verdict == Success && d.id != "" && "" !in menu {
        ReadIdentifies(menu, d, readable, reply);
      }
      var item := ResolveByField(menu, COMMENT, d.id, readable);
      if item.Unresolved? {
        return Failure;
      }
      if item.Nobody? {
        d := d.(id := "");
        return Success;
      }
      d := d.(id := item.id);
      v := Act(UpstreamRead(menu, d, reply));
      if v == Success && d.id != "" {
        d := d.(id := CommentOf(d));
      }
    }

    method UpdateRow(readable: bool, readableAgain: bool, reply: Reply) returns (v: Verdict)
      modifies this
      ensures Outcome(menu, d, v) == Update(old(menu), old(d), readable, readableAgain, reply)
      ensures v == Success ==> WrittenInto(old(menu), COMMENT, old(d.id), old(d.fields), menu)
      ensures old(Distinct(menu, COMMENT)) ==> Distinct(menu, COMMENT)
      ensures v == Success ==> Identified(Outcome(menu, d, v))
    {
      hide Distinct, Identified, Holders, Sent, Field, WrittenInto;
      if Distinct(menu, COMMENT) {
        EventDistinct(menu, Updating(d, readable, readableAgain, reply));
      }
      if Update(menu, d, readable, readableAgain, reply).verdict == Success {
        UpdateIdentifies(menu, d, readable, readableAgain, reply);
      }
      var comment := CommentOf(d);
      if comment == "" {
        return Failure;
      }
      var item := ResolveByField(menu, COMMENT, d.id, readable);
      if !item.One? {
        return Failure;
      }
      if comment != d.id {
        var taken := ResolveByField(menu, COMMENT, comment, readableAgain);
        if !taken.Nobody? {
          return Failure;
        }
      }
      d := d.(id := item.id);
      v := Act(UpstreamUpdate(menu, d, reply));
      if v == Success {
        d := d.(id := comment);
      }
    }

    method DeleteRow(readable: bool, reply: Reply) returns (v: Verdict)
      modifies this
      ensures Outcome(menu, d, v) == Delete(old(menu), old(d), readable, reply)
      ensures old(Distinct(menu, COMMENT)) ==> Distinct(menu, COMMENT)
      ensures v == Success ==> d.id == "" && Holders(menu, COMMENT, old(d.id)) == {}
    {
      hide Distinct, Identified, Holders, Sent, Field, WrittenInto;
      if Distinct(menu, COMMENT) {
        EventDistinct(menu, Deleting(d, readable, reply));
      }
      if Delete(menu, d, readable, reply).verdict == Success {
        DeleteForgets(menu, d, readable, reply);
      }
      var item := ResolveByField(menu, COMMENT, d.id, readable);
      if item.Unresolved? {
        return Failure;
      }
      if item.Nobody? {
        d := d.(id := "");
        return Success;
      }
      d := d.(id := item.id);
      v := Act(UpstreamDelete(menu, d, reply));
    }
  }

  // ---- Every run ----

  /** One thing that happens to a menu: a callback of any resource, or somebody at the router. */
  datatype Event =
    | Creating(d: Resource, readable: bool, reply: Reply)
    | Reading(d: Resource, readable: bool, reply: Reply)
    | Updating(d: Resource, readable: bool, readableAgain: bool, reply: Reply)
    | Deleting(d: Resource, readable: bool, reply: Reply)
    | Recreated(from: string, to: string)
    | Vanished(id: string)

  ghost function After(menu: Menu, e: Event): Menu {
    match e
    case Creating(d, readable, reply) => Create(menu, d, readable, reply).menu
    case Reading(d, readable, reply) => Read(menu, d, readable, reply).menu
    case Updating(d, readable, again, reply) => Update(menu, d, readable, again, reply).menu
    case Deleting(d, readable, reply) => Delete(menu, d, readable, reply).menu
    case Recreated(from, to) => Recreate(menu, from, to)
    case Vanished(id) => menu - {id}
  }

  ghost function AfterAll(menu: Menu, events: seq<Event>): Menu
    decreases |events|
  {
    if events == [] then menu else AfterAll(After(menu, events[0]), events[1..])
  }

  /** One event keeps the comments distinct. */
  lemma EventDistinct(menu: Menu, e: Event)
    requires Distinct(menu, COMMENT)
    ensures Distinct(After(menu, e), COMMENT)
  {
    match e
    case Creating(d, readable, reply) =>
      if After(menu, e) != menu {
        assert Field(Sent(d), COMMENT) == CommentOf(d);
        DistinctPut(menu, COMMENT, reply.id, Sent(d));
      }
    case Reading(d, readable, reply) =>
    case Updating(d, readable, again, reply) =>
      if After(menu, e) != menu {
        var id := Lookup(menu, COMMENT, d.id, readable).id;
        assert Field(menu[id] + Sent(d), COMMENT) == CommentOf(d);
        DistinctPut(menu, COMMENT, id, menu[id] + Sent(d));
      }
    case Deleting(d, readable, reply) =>
      if After(menu, e) != menu {
        DistinctRemove(menu, COMMENT, Lookup(menu, COMMENT, d.id, readable).id);
      }
    case Recreated(from, to) =>
      RecreateDistinct(menu, COMMENT, from, to);
    case Vanished(id) =>
      DistinctRemove(menu, COMMENT, id);
  }

  /** Uniqueness over all runs: no run of callbacks and out-of-band events gives a comment to two rows. */
  lemma {:induction false} RunDistinct(menu: Menu, events: seq<Event>)
    requires Distinct(menu, COMMENT)
    ensures Distinct(AfterAll(menu, events), COMMENT)
    decreases |events|
  {
    if events != [] {
      EventDistinct(menu, events[0]);
      RunDistinct(After(menu, events[0]), events[1..]);
    }
  }

  /** The resource is known by its comment, and one row carries it. */
  ghost predicate Identified(o: Outcome) {
    o.d.id != "" && o.d.id == CommentOf(o.d) && |Holders(o.menu, COMMENT, o.d.id)| == 1
  }

  /** A create that succeeds leaves the comment as the identity of the one row carrying it. */
  lemma CreateIdentifies(menu: Menu, d: Resource, readable: bool, reply: Reply)
    requires Create(menu, d, readable, reply).verdict == Success
    ensures Identified(Create(menu, d, readable, reply))
    ensures Create(menu, d, readable, reply).d.fields == d.fields
    ensures reply.id !in menu && Create(menu, d, readable, reply).menu == menu[reply.id := d.fields - {"default"}]
  {
    assert Field(Sent(d), COMMENT) == CommentOf(d);
    HoldersPut(menu, COMMENT, reply.id, Sent(d), CommentOf(d));
  }

  /** So does an update, whether or not it renames: all the resource asks for is in the one row that carried the old comment. */
  lemma UpdateIdentifies(menu: Menu, d: Resource, readable: bool, readableAgain: bool, reply: Reply)
    requires Update(menu, d, readable, readableAgain, reply).verdict == Success
    ensures Identified(Update(menu, d, readable, readableAgain, reply))
    ensures WrittenInto(menu, COMMENT, d.id, d.fields, Update(menu, d, readable, readableAgain, reply).menu)
    ensures Update(menu, d, readable, readableAgain, reply).d.fields == d.fields
    ensures
      var after := Update(menu, d, readable, readableAgain, reply).menu;
      forall x | x in menu && Field(menu[x], COMMENT) != d.id :: x in after && after[x] == menu[x]
  {
    var id := Lookup(menu, COMMENT, d.id, readable).id;
    assert Update(menu, d, readable, readableAgain, reply).menu == menu[id := menu[id] + (d.fields - {"default"})];
    assert Field(menu[id] + Sent(d), COMMENT) == CommentOf(d);
    HoldersPut(menu, COMMENT, id, menu[id] + Sent(d), CommentOf(d));
    forall x | x in menu && Field(menu[x], COMMENT) != d.id
      ensures x != id
    {
      assert id in Holders(menu, COMMENT, d.id);
    }
  }

  /** A read that succeeds writes nothing and either finds the row under its comment or clears the resource. */
  lemma ReadIdentifies(menu: Menu, d: Resource, readable: bool, reply: Reply)
    requires Read(menu, d, readable, reply).verdict == Success && d.id != "" && "" !in menu
    ensures
      var o := Read(menu, d, readable, reply);
      && o.menu == menu
      && (Identified(o) <==> Holders(menu, COMMENT, d.id) != {})
      && (Identified(o) ==> o.d.id == d.id && exists x :: Holders(menu, COMMENT, d.id) == {x} && x in menu && o.d.fields == menu[x])
      && (!Identified(o) ==> o.d.id == "")
  {
    var f := Lookup(menu, COMMENT, d.id, readable);
    if f.One? {
      assert f.id in Holders(menu, COMMENT, d.id);
    }
  }

  /** A delete that succeeds clears the resource and leaves no row carrying the comment; no other row goes. */
  lemma DeleteForgets(menu: Menu, d: Resource, readable: bool, reply: Reply)
    requires Delete(menu, d, readable, reply).verdict == Success
    ensures
      var o := Delete(menu, d, readable, reply);
      o.d.id == "" && Holders(o.menu, COMMENT, d.id) == {} && o.menu == menu - Holders(menu, COMMENT, d.id)
  {
    var found := Lookup(menu, COMMENT, d.id, readable);
    if found.One? {
      assert Holders(menu, COMMENT, d.id) == {found.id};
      assert forall x | x in menu - {found.id} :: Field(menu[x], COMMENT) != d.id by {
        assert forall x | x in menu && Field(menu[x], COMMENT) == d.id :: x in Holders(menu, COMMENT, d.id);
      }
    }
  }

  /** From distinct comments no run ever leads to an ambiguous one: a lookup that can be made finds one row or none. */
  lemma NeverAmbiguous(menu: Menu, events: seq<Event>, comment: string)
    requires Distinct(menu, COMMENT) && comment != ""
    ensures !Lookup(AfterAll(menu, events), COMMENT, comment, true).Unresolved?
  {
    RunDistinct(menu, events);
    DistinctHolders(AfterAll(menu, events), COMMENT, comment);
  }

  /**
   Ambiguity is refused before any write: whatever a callback looks up, the comment
   the resource is known by or the one it now asks for, it fails and changes
   nothing when several rows carry it.
   */
  lemma AmbiguityRefused(menu: Menu, d: Resource, readable: bool, again: bool, reply: Reply)
    ensures |Holders(menu, COMMENT, d.id)| > 1 ==>
      && Read(menu, d, readable, reply) == Outcome(menu, d, Failure)
      && Update(menu, d, readable, again, reply) == Outcome(menu, d, Failure)
      && Delete(menu, d, readable, reply) == Outcome(menu, d, Failure)
    ensures |Holders(menu, COMMENT, CommentOf(d))| > 1 ==>
      && Create(menu, d, readable, reply) == Outcome(menu, d, Failure)
      && Update(menu, d, readable, again, reply) == Outcome(menu, d, Failure)
  {
  }

  /** A resource finds its row again after the row came back under another identifier. */
  lemma SurvivesChurn(menu: Menu, d: Resource, from: string, to: string, reply: Reply)
    requires d.id != "" && Holders(menu, COMMENT, d.id) == {from} && to !in menu && to != "" && reply.Done?
    ensures
      var o := Read(Recreate(menu, from, to), d, true, reply);
      o.verdict == Success && o.d == Resource(d.id, menu[from])
  {
    assert from in Holders(menu, COMMENT, d.id);
    var after := Recreate(menu, from, to);
    var rest := menu - {from};
    assert forall x | x in rest :: x !in Holders(menu, COMMENT, d.id);
    assert Holders(rest, COMMENT, d.id) == {};
    HoldersPut(rest, COMMENT, to, menu[from], d.id);
  }
}
