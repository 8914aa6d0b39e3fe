/**
 The comment-addressed sequencer (config/move_sequence.go): entries are resolved
 to the rows' current identifiers before the upstream call and translated back
 after it.
 */
module MoveSequence {

  datatype Item = Item(comment: string, id: string)

  datatype SequenceError =
    | TooShort
    | ReadFailed
    | ListedTwice(entry: string)
    | NoItem(entry: string)
    | SharedComment(entry: string, count: nat)

  datatype Resolution = Resolved(ids: seq<string>, back: map<string, string>) | Failed(error: SequenceError)

  /** The identifiers of the rows carrying a comment, in device order; an empty comment names none. */
  function Matches(items: seq<Item>, comment: string): seq<string> {
    if items == [] || comment == "" then []
    else (if items[0].comment == comment then [items[0].id] else []) + Matches(items[1..], comment)
  }

  /** An entry that is a literal identifier. */
  predicate IsRaw(entry: string) {
    entry != "" && entry[0] == '*'
  }

  /** The identifier an entry that resolves resolves to. */
  function IdFor(items: seq<Item>, entry: string): string {
    if IsRaw(entry) || Matches(items, entry) == [] then entry else Matches(items, entry)[0]
  }

  /** An entry the sequence can do without: its comment matches nothing. */
  predicate Gone(items: seq<Item>, entry: string) {
    !IsRaw(entry) && Matches(items, entry) == []
  }

  /** What one entry adds, or why it cannot. */
  function Advance(items: seq<Item>, entries: seq<string>, lenient: bool, n: nat, prev: Resolution): Resolution
    requires n < |entries|
  {
    var e := entries[n];
    if prev.Failed? then prev
    else if e in entries[..n] then Failed(ListedTwice(e))
    else if Gone(items, e) then (if lenient then prev else Failed(NoItem(e)))
    else if !IsRaw(e) && |Matches(items, e)| > 1 then Failed(SharedComment(e, |Matches(items, e)|))
    else Resolved(prev.ids + [IdFor(items, e)], prev.back[IdFor(items, e) := e])
  }

  /** The first `n` entries resolved. */
  function Resolve(items: seq<Item>, entries: seq<string>, lenient: bool, n: nat): Resolution
    requires n <= |entries|
  {
    if n == 0 then Resolved([], map[]) else Advance(items, entries, lenient, n - 1, Resolve(items, entries, lenient, n - 1))
  }

  /** The lookups of a whole menu by comment, as the loop gathers them. */
  ghost predicate Gathered(items: seq<Item>, byComment: map<string, seq<string>>) {
    && "" !in byComment
    && forall c :: Matches(items, c) == if c in byComment then byComment[c] else []
  }

  lemma {:induction false} MatchesConcat(a: seq<Item>, b: seq<Item>, comment: string)
    ensures Matches(a + b, comment) == Matches(a, comment) + Matches(b, comment)
  {
    if a == [] {
      assert a + b == b;
    } else {
      assert (a + b)[1..] == a[1..] + b;
      MatchesConcat(a[1..], b, comment);
    }
  }

  lemma MatchesNone()
    ensures forall c :: Matches([], c) == []
  {
  }

  lemma MatchesOne(item: Item, comment: string)
    ensures Matches([item], comment) == if comment != "" && item.comment == comment then [item.id] else []
  {
    assert [item][1..] == [];
  }

  method GatherComments(items: seq<Item>) returns (byComment: map<string, seq<string>>)
    ensures Gathered(items, byComment)
  {
    hide Matches;
    byComment := map[];
    MatchesNone();
    assert items[..0] == [];
    for i := 0 to |items|
      invariant Gathered(items[..i], byComment)
    {
      ghost var before := byComment;
      var c := items[i].comment;
      if c != "" {
        byComment := byComment[c := (if c in byComment then byComment[c] else []) + [items[i].id]];
      }
      forall d
        ensures Matches(items[..i + 1], d) == if d in byComment then byComment[d] else []
      {
        assert items[..i + 1] == items[..i] + [items[i]];
        MatchesConcat(items[..i], [items[i]], d);
        MatchesOne(items[i], d);
        assert Matches(items[..i], d) == if d in before then before[d] else [];
      }
    }
    assert items[..|items|] == items;
  }

  /** resolveSequence; `readable` is whether the one menu read succeeds. */
  method ResolveSequence(readable: bool, items: seq<Item>, entries: seq<string>, lenient: bool) returns (r: Resolution)
    ensures r == if readable then Resolve(items, entries, lenient, |entries|) else Failed(ReadFailed)
  {
    if !readable {
      return Failed(ReadFailed);
    }
    hide Resolve, Matches, IsRaw;
    var byComment := GatherComments(items);
    ResolveNone(items, entries, lenient);
    var ids: seq<string> := [];
    var back: map<string, string> := map[];
    var seen: set<string> := {};
    for n := 0 to |entries|
      invariant Resolve(items, entries, lenient, n) == Resolved(ids, back)
      invariant seen == SeenBy(entries, n)
    {
      ResolveNext(items, entries, lenient, n);
      SeenNext(entries, n);
      var e := entries[n];
      if e in seen {
        FailsAt(items, entries, lenient, n);
        return Failed(ListedTwice(e));
      }
      seen := seen + {e};
      var id := e;
      var skip := false;
      if !IsRaw(e) {
        var matches := if e in byComment then byComment[e] else [];
        assert matches == Matches(items, e);
        if |matches| == 1 {
          id := matches[0];
        } else if |matches| == 0 {
          if !lenient {
            FailsAt(items, entries, lenient, n);
            return Failed(NoItem(e));
          }
          skip := true;
        } else {
          FailsAt(items, entries, lenient, n);
          return Failed(SharedComment(e, |matches|));
        }
      }
      if !skip {
        ids, back := ids + [id], back[id := e];
      }
    }
    r := Resolved(ids, back);
  }

  function SeenBy(entries: seq<string>, n: nat): set<string>
    requires n <= |entries|
  {
    set e | e in entries[..n]
  }

  lemma SeenNext(entries: seq<string>, n: nat)
    requires n < |entries|
    ensures SeenBy(entries, n + 1) == SeenBy(entries, n) + {entries[n]}
  {
    assert entries[..n + 1] == entries[..n] + [entries[n]];
  }

  lemma ResolveNone(items: seq<Item>, entries: seq<string>, lenient: bool)
    ensures Resolve(items, entries, lenient, 0) == Resolved([], map[])
  {
  }

  lemma ResolveNext(items: seq<Item>, entries: seq<string>, lenient: bool, n: nat)
    requires n < |entries|
    ensures
      var prev := Resolve(items, entries, lenient, n);
      Resolve(items, entries, lenient, n + 1) == Advance(items, entries, lenient, n, prev)
  {
    hide Advance;
  }

  /** The first entry that fails decides. */
  lemma FailsAt(items: seq<Item>, entries: seq<string>, lenient: bool, n: nat)
    requires n < |entries| && Resolve(items, entries, lenient, n + 1).Failed?
    ensures Resolve(items, entries, lenient, |entries|) == Resolve(items, entries, lenient, n + 1)
  {
    FailureStays(items, entries, lenient, n + 1, |entries|);
  }

  lemma {:induction false} FailureStays(items: seq<Item>, entries: seq<string>, lenient: bool, m: nat, n: nat)
    requires m <= n <= |entries| && Resolve(items, entries, lenient, m).Failed?
    ensures Resolve(items, entries, lenient, n) == Resolve(items, entries, lenient, m)
    decreases n
  {
    if m < n {
      FailureStays(items, entries, lenient, m, n - 1);
    }
  }

  // ---- When a sequence resolves, and to what ----

  predicate NoRepeats(entries: seq<string>) {
    forall i, j | 0 <= i < j < |entries| :: entries[i] != entries[j]
  }

  /** The entries that still name a row, in their order. */
  function Present(items: seq<Item>, entries: seq<string>): seq<string> {
    if entries == [] then []
    else
      var n := |entries| - 1;
      Present(items, entries[..n]) + (if Gone(items, entries[n]) then [] else [entries[n]])
  }

  function IdsFor(items: seq<Item>, entries: seq<string>): (ids: seq<string>)
    ensures |ids| == |entries|
    ensures forall i | 0 <= i < |entries| :: ids[i] == IdFor(items, entries[i])
  {
    seq(|entries|, i requires 0 <= i < |entries| => IdFor(items, entries[i]))
  }

  predicate Resolvable(items: seq<Item>, entry: string, lenient: bool) {
    IsRaw(entry) || |Matches(items, entry)| == 1 || (lenient && |Matches(items, entry)| == 0)
  }

  lemma NoRepeatsSnoc(before: seq<string>, e: string)
    ensures NoRepeats(before + [e]) <==> NoRepeats(before) && e !in before
  {
    var all := before + [e];
    assert forall i | 0 <= i < |before| :: all[i] == before[i];
    assert all[|before|] == e;
  }

  lemma PresentSnoc(items: seq<Item>, before: seq<string>, e: string)
    ensures
      var present := Present(items, before + [e]);
      && present == Present(items, before) + (if Gone(items, e) then [] else [e])
      && IdsFor(items, present) == IdsFor(items, Present(items, before)) + (if Gone(items, e) then [] else [IdFor(items, e)])
  {
    hide Matches, IdFor;
    assert (before + [e])[..|before|] == before;
  }

  /**
   A sequence resolves exactly when no entry is listed twice and every comment
   names one row, or, leniently, none; the identifiers are those of the entries
   still present, in order, and nothing else is dropped.
   */
  lemma {:induction false} ResolvesExactly(items: seq<Item>, entries: seq<string>, lenient: bool, n: nat)
    requires n <= |entries|
    ensures Resolve(items, entries, lenient, n).Resolved? <==>
      NoRepeats(entries[..n]) && forall i | 0 <= i < n :: Resolvable(items, entries[i], lenient)
    ensures
      var r := Resolve(items, entries, lenient, n);
      r.Resolved? ==> r.ids == IdsFor(items, Present(items, entries[..n]))
  {
    hide Matches;
    if n > 0 {
      ResolvesExactly(items, entries, lenient, n - 1);
      var before, e := entries[..n - 1], entries[n - 1];
      assert entries[..n] == before + [e];
      NoRepeatsSnoc(before, e);
      PresentSnoc(items, before, e);
      ResolveNext(items, entries, lenient, n - 1);
      hide Resolve, NoRepeats, Present, IdsFor;
    }
  }

  lemma {:induction false} StrictPresent(items: seq<Item>, entries: seq<string>)
    requires forall e | e in entries :: !Gone(items, e)
    ensures Present(items, entries) == entries
  {
    if entries != [] {
      var n := |entries| - 1;
      assert entries[n] in entries;
      StrictPresent(items, entries[..n]);
      assert entries == entries[..n] + [entries[n]];
    }
  }

  // ---- Translating back ----

  /** restoreSequence: an identifier the sequence did not produce is left as it is. */
  function Restore(ids: seq<string>, back: map<string, string>): (out: seq<string>)
    ensures |out| == |ids|
    ensures forall i | 0 <= i < |ids| :: out[i] == if ids[i] in back then back[ids[i]] else ids[i]
  {
    seq(|ids|, i requires 0 <= i < |ids| => if ids[i] in back then back[ids[i]] else ids[i])
  }

  predicate UniqueItems(items: seq<Item>) {
    forall i, j | 0 <= i < j < |items| :: items[i].id != items[j].id
  }

  /** A literal identifier listed beside the comment of the very row it names. */
  predicate Aliased(items: seq<Item>, entries: seq<string>) {
    exists i, j | 0 <= i < |entries| && 0 <= j < |entries| ::
      IsRaw(entries[i]) && !IsRaw(entries[j]) && IdFor(items, entries[j]) == entries[i]
  }

  lemma {:induction false} MatchesFrom(items: seq<Item>, comment: string, id: string) returns (k: nat)
    requires id in Matches(items, comment)
    ensures k < |items| && items[k] == Item(comment, id)
  {
    if items[0].comment == comment && items[0].id == id {
      k := 0;
    } else {
      k := MatchesFrom(items[1..], comment, id);
      k := k + 1;
    }
  }

  /** Two comments never resolve to one row. */
  lemma CommentsApart(items: seq<Item>, a: string, b: string)
    requires UniqueItems(items) && a != b
    requires !IsRaw(a) && !IsRaw(b) && !Gone(items, a) && !Gone(items, b)
    ensures IdFor(items, a) != IdFor(items, b)
  {
    var k := MatchesFrom(items, a, IdFor(items, a));
    var l := MatchesFrom(items, b, IdFor(items, b));
    assert items[k].id == IdFor(items, a) && items[l].id == IdFor(items, b) && k != l;
  }

  /** The resolved identifiers are distinct exactly when no entry aliases another. */
  lemma DistinctExactly(items: seq<Item>, entries: seq<string>)
    requires UniqueItems(items) && NoRepeats(entries) && forall e | e in entries :: !Gone(items, e)
    ensures NoRepeats(IdsFor(items, entries)) <==> !Aliased(items, entries)
  {
    var ids := IdsFor(items, entries);
    if !Aliased(items, entries) {
      forall i, j | 0 <= i < j < |entries|
        ensures ids[i] != ids[j]
      {
        var a, b := entries[i], entries[j];
        assert a in entries && b in entries && a != b;
        if !IsRaw(a) && !IsRaw(b) {
          CommentsApart(items, a, b);
        }
      }
    } else {
      var i, j :| 0 <= i < |entries| && 0 <= j < |entries| &&
        IsRaw(entries[i]) && !IsRaw(entries[j]) && IdFor(items, entries[j]) == entries[i];
      assert ids[i] == ids[j] && i != j;
      assert !NoRepeats(ids) by {
        if i < j { assert ids[i] == ids[j]; } else { assert ids[j] == ids[i]; }
      }
    }
  }

  /** Each identifier leads back to an entry it came from; to the only one, when identifiers are distinct. */
  lemma {:induction false} BackLeads(items: seq<Item>, entries: seq<string>, lenient: bool, n: nat)
    requires n <= |entries| && Resolve(items, entries, lenient, n).Resolved?
    ensures
      var r := Resolve(items, entries, lenient, n);
      var present := Present(items, entries[..n]);
      && |r.ids| == |present|
      && (forall i | 0 <= i < |present| :: r.ids[i] in r.back)
      && (NoRepeats(r.ids) ==> forall i | 0 <= i < |present| :: r.back[r.ids[i]] == present[i])
  {
    if n > 0 {
      BackLeads(items, entries, lenient, n - 1);
      var before, e := entries[..n - 1], entries[n - 1];
      assert entries[..n][..n - 1] == before;
      var r, s := Resolve(items, entries, lenient, n - 1), Resolve(items, entries, lenient, n);
      if !Gone(items, e) {
        assert s.ids == r.ids + [IdFor(items, e)];
        var last := |r.ids|;
        assert s.ids[last] == IdFor(items, e);
        assert forall i | 0 <= i < last :: s.ids[i] == r.ids[i];
        if NoRepeats(s.ids) {
          assert NoRepeats(r.ids) by {
            forall i, j | 0 <= i < j < last
              ensures r.ids[i] != r.ids[j]
            {
              assert s.ids[i] != s.ids[j];
            }
          }
          assert forall i | 0 <= i < last :: s.ids[i] != s.ids[last];
        }
      }
    }
  }

  function Pick<T>(s: seq<T>, at: seq<nat>): (out: seq<T>)
    requires forall i | 0 <= i < |at| :: at[i] < |s|
    ensures |out| == |at|
    ensures forall i | 0 <= i < |at| :: out[i] == s[at[i]]
  {
    seq(|at|, i requires 0 <= i < |at| => s[at[i]])
  }

  /**
   Round trip: with no aliasing, restoring any rearrangement or part of the
   resolved identifiers gives the same rearrangement or part of the entries still
   present; with aliasing, restoring does not even give the entries back.
   */
  lemma RestoreExactly(items: seq<Item>, entries: seq<string>, lenient: bool, at: seq<nat>)
    requires UniqueItems(items)
    requires Resolve(items, entries, lenient, |entries|).Resolved?
    requires forall i | 0 <= i < |at| :: at[i] < |Present(items, entries)|
    ensures
      var r := Resolve(items, entries, lenient, |entries|);
      var present := Present(items, entries);
      && |r.ids| == |present|
      && (!Aliased(items, present) ==> Restore(Pick(r.ids, at), r.back) == Pick(present, at))
      && (Restore(r.ids, r.back) == present <==> !Aliased(items, present))
  {
    var r := Resolve(items, entries, lenient, |entries|);
    var present := Present(items, entries);
    assert entries[..|entries|] == entries;
    ResolvesExactly(items, entries, lenient, |entries|);
    BackLeads(items, entries, lenient, |entries|);
    PresentFacts(items, entries);
    DistinctExactly(items, present);
    if Aliased(items, present) {
      var i, j :| 0 <= i < j < |r.ids| && r.ids[i] == r.ids[j];
      assert present[i] != present[j];
      assert Restore(r.ids, r.back)[i] == Restore(r.ids, r.back)[j];
    } else {
      forall i | 0 <= i < |at|
        ensures Restore(Pick(r.ids, at), r.back)[i] == Pick(present, at)[i]
      {
      }
    }
  }

  lemma {:induction false} PresentFacts(items: seq<Item>, entries: seq<string>)
    requires NoRepeats(entries)
    ensures NoRepeats(Present(items, entries))
    ensures forall e :: e in Present(items, entries) <==> e in entries && !Gone(items, e)
  {
    if entries != [] {
      var n := |entries| - 1;
      var before, e := entries[..n], entries[n];
      assert entries == before + [e];
      assert forall i | 0 <= i < n :: before[i] == entries[i];
      PresentFacts(items, before);
      assert e !in before;
    }
  }

  // ---- The wrapped operations ----

  /** What the upstream call leaves: its verdict, the state's sequence, and whether the resource is still there. */
  datatype Upstream = Upstream(failed: bool, sequence: seq<string>, present: bool)

  datatype Verdict = Fine | Refused(error: SequenceError) | UpstreamFailed

  /** commentSequenceWrite: the upstream call sees identifiers, and what it leaves is translated back. */
  function Writing(readable: bool, items: seq<Item>, entries: seq<string>, upstream: seq<string> -> Upstream): (seq<string>, Verdict) {
    var r := if |entries| < 2 then Failed(TooShort)
             else if !readable then Failed(ReadFailed)
             else Resolve(items, entries, false, |entries|);
    match r
    case Failed(e) => (entries, Refused(e))
    case Resolved(ids, back) =>
      (Restore(upstream(ids).sequence, back), if upstream(ids).failed then UpstreamFailed else Fine)
  }

  /** commentSequenceRead: lenient, and not translated back when the upstream read fails or finds nothing. */
  function Reading(readable: bool, items: seq<Item>, entries: seq<string>, upstream: seq<string> -> Upstream): (seq<string>, Verdict) {
    match if readable then Resolve(items, entries, true, |entries|) else Failed(ReadFailed)
    case Failed(e) => (entries, Refused(e))
    case Resolved(ids, back) =>
      var result := upstream(ids);
      (if result.failed || !result.present then result.sequence else Restore(result.sequence, back),
       if result.failed then UpstreamFailed else Fine)
  }

  /** The state of one routeros_move_items resource. */
  class Sequencer {
    var sequence: seq<string>

    constructor (sequence: seq<string>)
      ensures this.sequence == sequence
    {
      this.sequence := sequence;
    }

    method RestoreSequence(back: map<string, string>)
      modifies this
      ensures sequence == Restore(old(sequence), back)
    {
      var out: seq<string> := [];
      for i := 0 to |sequence|
        invariant sequence == old(sequence)
        invariant out == Restore(sequence[..i], back)
      {
        out := out + [if sequence[i] in back then back[sequence[i]] else sequence[i]];
      }
      assert sequence[..|sequence|] == sequence;
      sequence := out;
    }

    method Write(readable: bool, items: seq<Item>, upstream: seq<string> -> Upstream) returns (v: Verdict)
      modifies this
      ensures (sequence, v) == Writing(readable, items, old(sequence), upstream)
    {
      if |sequence| < 2 {
        return Refused(TooShort);
      }
      var r := ResolveSequence(readable, items, sequence, false);
      if r.Failed? {
        return Refused(r.error);
      }
      sequence := r.ids;
      var result := upstream(sequence);
      sequence := result.sequence;
      RestoreSequence(r.back);
      v := if result.failed then UpstreamFailed else Fine;
    }

    method Read(readable: bool, items: seq<Item>, upstream: seq<string> -> Upstream) returns (v: Verdict)
      modifies this
      ensures (sequence, v) == Reading(readable, items, old(sequence), upstream)
    {
      var r := ResolveSequence(readable, items, sequence, true);
      if r.Failed? {
        return Refused(r.error);
      }
      var result := upstream(r.ids);
      sequence := result.sequence;
      if result.failed {
        return UpstreamFailed;
      }
      if result.present {
        RestoreSequence(r.back);
      }
      v := Fine;
    }
  }

  // ---- What a write leaves the caller with ----

  /** A strict resolution drops nothing. */
  lemma StrictKeepsAll(items: seq<Item>, entries: seq<string>)
    requires Resolve(items, entries, false, |entries|).Resolved?
    ensures Present(items, entries) == entries
  {
    ResolvesExactly(items, entries, false, |entries|);
    assert entries[..|entries|] == entries;
    forall e | e in entries
      ensures !Gone(items, e)
    {
      var i :| 0 <= i < |entries| && entries[i] == e;
      assert Resolvable(items, entries[i], false);
    }
    StrictPresent(items, entries);
  }

  /**
   A write whose upstream call leaves the sequence it was given leaves the
   caller's entries exactly as they were if and only if it was refused, or none
   of them aliases another.
   */
  lemma WriteKeepsEntries(readable: bool, items: seq<Item>, entries: seq<string>, upstream: seq<string> -> Upstream)
    requires UniqueItems(items) && forall ids :: upstream(ids).sequence == ids
    ensures
      var (after, v) := Writing(readable, items, entries, upstream);
      after == entries <==> v.Refused? || !Aliased(items, entries)
  {
    if |entries| >= 2 && readable && Resolve(items, entries, false, |entries|).Resolved? {
      StrictKeepsAll(items, entries);
      RestoreExactly(items, entries, false, []);
    }
  }

  lemma RepeatsRefused(readable: bool, items: seq<Item>, entries: seq<string>, upstream: seq<string> -> Upstream)
    requires !NoRepeats(entries)
    ensures var (after, v) := Writing(readable, items, entries, upstream); after == entries && v.Refused?
    ensures var (after, v) := Reading(readable, items, entries, upstream); after == entries && v.Refused?
  {
    ResolvesExactly(items, entries, false, |entries|);
    ResolvesExactly(items, entries, true, |entries|);
    assert entries[..|entries|] == entries;
  }

  /**
   When one does, the write succeeds and leaves an entry twice; from then on every
   write and every read is refused, whatever has become of the rows.
   */
  lemma AliasedIsStuck(items: seq<Item>, entries: seq<string>, upstream: seq<string> -> Upstream,
                       readable: bool, later: seq<Item>, next: seq<string> -> Upstream)
    requires Aliased(items, entries) && forall ids :: upstream(ids).sequence == ids
    requires Resolve(items, entries, false, |entries|).Resolved?
    ensures
      var after := Writing(true, items, entries, upstream).0;
      && !NoRepeats(after)
      && Writing(readable, later, after, next).0 == after && Writing(readable, later, after, next).1.Refused?
      && Reading(readable, later, after, next).0 == after && Reading(readable, later, after, next).1.Refused?
  {
    var after := Writing(true, items, entries, upstream).0;
    WriteRepeats(items, entries, upstream);
    hide *;
    RepeatsRefused(readable, later, after, next);
  }

  lemma WriteRepeats(items: seq<Item>, entries: seq<string>, upstream: seq<string> -> Upstream)
    requires Aliased(items, entries) && forall ids :: upstream(ids).sequence == ids
    requires Resolve(items, entries, false, |entries|).Resolved?
    ensures !NoRepeats(Writing(true, items, entries, upstream).0)
  {
    hide Aliased, Resolve;
    var r := Resolve(items, entries, false, |entries|);
    StrictKeepsAll(items, entries);
    ResolvesExactly(items, entries, false, |entries|);
    assert entries[..|entries|] == entries;
    AliasedRepeats(items, entries);
    var i, j :| 0 <= i < j < |entries| && r.ids[i] == r.ids[j];
    assert Restore(r.ids, r.back)[i] == Restore(r.ids, r.back)[j];
  }

  lemma AliasedRepeats(items: seq<Item>, entries: seq<string>)
    requires Aliased(items, entries)
    ensures exists i, j :: 0 <= i < j < |entries| && IdsFor(items, entries)[i] == IdsFor(items, entries)[j]
  {
    var i, j :| 0 <= i < |entries| && 0 <= j < |entries| &&
      IsRaw(entries[i]) && !IsRaw(entries[j]) && IdFor(items, entries[j]) == entries[i];
    var ids := IdsFor(items, entries);
    assert ids[i] == ids[j];
    if i < j { assert ids[i] == ids[j]; } else { assert ids[j] == ids[i]; }
  }

  /** A row listed by its identifier and again by its comment is such a sequence, and it is accepted. */
  lemma AliasAccepted(upstream: seq<string> -> Upstream)
    requires forall ids :: upstream(ids).sequence == ids && !upstream(ids).failed
    ensures
      var items, entries := [Item("web", "*5")], ["*5", "web"];
      && UniqueItems(items) && Aliased(items, entries)
      && Writing(true, items, entries, upstream) == (["web", "web"], Fine)
  {
    var items, entries := [Item("web", "*5")], ["*5", "web"];
    assert Matches(items, "web") == ["*5"] by { assert items[1..] == []; }
    assert IsRaw(entries[0]) && !IsRaw(entries[1]);
    assert "web"[0] == 'w' && IdFor(items, "web") == "*5";
    assert Resolve(items, entries, false, 0) == Resolved([], map[]);
    assert Resolve(items, entries, false, 1) == Resolved(["*5"], map["*5" := "*5"]);
    assert entries[..1] == ["*5"];
    assert Resolve(items, entries, false, 2) == Resolved(["*5", "*5"], map["*5" := "web"]);
    assert Restore(["*5", "*5"], map["*5" := "web"]) == ["web", "web"];
  }

  // ---- Reads and writes that go through ----

  /** The places of the rows carrying a comment; an empty comment has none. */
  ghost function Carriers(items: seq<Item>, comment: string): set<nat> {
    set k | 0 <= k < |items| && comment != "" && items[k].comment == comment
  }

  lemma {:induction false} MatchesCount(items: seq<Item>, comment: string)
    ensures |Matches(items, comment)| == |Carriers(items, comment)|
    ensures forall k | k in Carriers(items, comment) :: items[k].id in Matches(items, comment)
  {
    if items == [] || comment == "" {
      assert Carriers(items, comment) == {};
    } else {
      var n := |items| - 1;
      var front, last := items[..n], items[n];
      assert items == front + [last];
      MatchesCount(front, comment);
      MatchesConcat(front, [last], comment);
      MatchesOne(last, comment);
      hide Matches;
      CarriersSnoc(front, last, comment);
    }
  }

  lemma CarriersSnoc(front: seq<Item>, last: Item, comment: string)
    requires comment != ""
    ensures Carriers(front + [last], comment) == Carriers(front, comment) + (if last.comment == comment then {|front|} else {})
    ensures |front| !in Carriers(front, comment)
  {
    var items := front + [last];
    assert forall k | 0 <= k < |front| :: front[k] == items[k];
    assert items[|front|] == last;
  }

  /** What an entry stands for: itself when it starts with an asterisk, else the one row that carries it. */
  ghost predicate StandsFor(items: seq<Item>, entry: string, id: string) {
    if entry != "" && entry[0] == '*' then id == entry
    else exists k :: Carriers(items, entry) == {k} && 0 <= k < |items| && items[k].id == id
  }

  /** An entry that stands for nothing: a comment no row carries. */
  ghost predicate Vacant(items: seq<Item>, entry: string) {
    !(entry != "" && entry[0] == '*') && Carriers(items, entry) == {}
  }

  lemma GoneIsVacant(items: seq<Item>, entry: string)
    ensures Gone(items, entry) <==> Vacant(items, entry)
  {
    MatchesCount(items, entry);
  }

  /** The entries still present are those that stand for something, in their order. */
  lemma PresentExactly(items: seq<Item>, entries: seq<string>, e: string)
    ensures Present(items, []) == []
    ensures Present(items, entries + [e]) == Present(items, entries) + (if Vacant(items, e) then [] else [e])
  {
    PresentSnoc(items, entries, e);
    GoneIsVacant(items, e);
  }

  lemma StandsForId(items: seq<Item>, e: string, lenient: bool)
    requires Resolvable(items, e, lenient) && !Gone(items, e)
    ensures StandsFor(items, e, IdFor(items, e))
  {
    if !IsRaw(e) {
      MatchesCount(items, e);
      var places := Carriers(items, e);
      assert |places| == 1;
      var k :| k in places;
      OneOnly(places, k);
    }
  }

  lemma OneOnly(places: set<nat>, k: nat)
    requires |places| == 1 && k in places
    ensures places == {k}
  {
    assert |places - {k}| == 0;
  }

  /** The identifiers handed upstream are those of the rows the entries still present stand for. */
  lemma ResolvedStandFor(items: seq<Item>, entries: seq<string>, lenient: bool)
    requires Resolve(items, entries, lenient, |entries|).Resolved?
    ensures
      var ids, present := Resolve(items, entries, lenient, |entries|).ids, Present(items, entries);
      |ids| == |present| && forall i | 0 <= i < |ids| :: StandsFor(items, present[i], ids[i])
  {
    hide StandsFor;
    ResolvesExactly(items, entries, lenient, |entries|);
    assert entries[..|entries|] == entries;
    PresentFacts(items, entries);
    hide Resolve, Resolvable, NoRepeats, Gone;
    var present := Present(items, entries);
    forall i | 0 <= i < |present|
      ensures StandsFor(items, present[i], IdsFor(items, present)[i])
    {
      assert present[i] in present;
      var j :| 0 <= j < |entries| && entries[j] == present[i];
      StandsForId(items, present[i], lenient);
    }
  }

  /** The first entry that cannot be resolved decides, and says why. */
  lemma RefusedExactly(items: seq<Item>, entries: seq<string>, lenient: bool, n: nat)
    requires n < |entries| && Resolve(items, entries, lenient, n).Resolved?
    ensures
      var e, r := entries[n], Resolve(items, entries, lenient, |entries|);
      var raw, count := e != "" && e[0] == '*', |Carriers(items, e)|;
      if e in entries[..n] then r == Failed(ListedTwice(e))
      else if !raw && count == 0 && !lenient then r == Failed(NoItem(e))
      else if !raw && count > 1 then r == Failed(SharedComment(e, count))
      else Resolve(items, entries, lenient, n + 1).Resolved?
  {
    ResolveNext(items, entries, lenient, n);
    MatchesCount(items, entries[n]);
    hide Resolve, Matches;
    if Resolve(items, entries, lenient, n + 1).Failed? {
      FailsAt(items, entries, lenient, n);
    }
  }

  /** Translated back one by one: an identifier that was handed out becomes its entry, any other stays. */
  ghost predicate TranslatedBack(ids: seq<string>, present: seq<string>, given: seq<string>, after: seq<string>) {
    && |after| == |given| && |ids| == |present|
    && forall i | 0 <= i < |given| ::
         && (forall j | 0 <= j < |ids| && given[i] == ids[j] :: after[i] == present[j])
         && (given[i] !in ids ==> after[i] == given[i])
  }

  lemma {:induction false} BackKeys(items: seq<Item>, entries: seq<string>, lenient: bool, n: nat)
    requires n <= |entries| && Resolve(items, entries, lenient, n).Resolved?
    ensures var r := Resolve(items, entries, lenient, n); forall id :: id in r.back <==> id in r.ids
  {
    hide Matches;
    if n > 0 {
      BackKeys(items, entries, lenient, n - 1);
    }
  }

  lemma RestoreTranslates(items: seq<Item>, entries: seq<string>, lenient: bool, given: seq<string>)
    requires UniqueItems(items) && Resolve(items, entries, lenient, |entries|).Resolved?
    requires !Aliased(items, Present(items, entries))
    ensures
      var r := Resolve(items, entries, lenient, |entries|);
      TranslatedBack(r.ids, Present(items, entries), given, Restore(given, r.back))
  {
    var r, present := Resolve(items, entries, lenient, |entries|), Present(items, entries);
    RestoreExactly(items, entries, lenient, []);
    BackKeys(items, entries, lenient, |entries|);
    ResolvesExactly(items, entries, lenient, |entries|);
    assert entries[..|entries|] == entries;
    PresentFacts(items, entries);
    hide Resolve, Aliased, Present, Gone, NoRepeats, UniqueItems, Resolvable, IdsFor;
    BackTranslates(r.ids, r.back, present, given);
  }

  lemma BackTranslates(ids: seq<string>, back: map<string, string>, present: seq<string>, given: seq<string>)
    requires |ids| == |present| && Restore(ids, back) == present && forall id :: id in back <==> id in ids
    ensures TranslatedBack(ids, present, given, Restore(given, back))
  {
    forall j | 0 <= j < |ids|
      ensures ids[j] in back && back[ids[j]] == present[j]
    {
      assert ids[j] in ids && Restore(ids, back)[j] == present[j];
    }
  }

  /**
   A read that is not refused hands upstream the identifiers of the entries still
   present and reports failure exactly when upstream does. What upstream leaves is
   translated back one by one, unless it failed or found nothing: then it stands.
   */
  lemma ReadExactly(items: seq<Item>, entries: seq<string>, upstream: seq<string> -> Upstream)
    requires UniqueItems(items) && Resolve(items, entries, true, |entries|).Resolved?
    ensures
      var r, present := Resolve(items, entries, true, |entries|), Present(items, entries);
      var result, (after, v) := upstream(r.ids), Reading(true, items, entries, upstream);
      && (v == if result.failed then UpstreamFailed else Fine)
      && (result.failed || !result.present ==> after == result.sequence)
      && (!result.failed && result.present && !Aliased(items, present) ==>
            TranslatedBack(r.ids, present, result.sequence, after))
  {
    var r := Resolve(items, entries, true, |entries|);
    if !Aliased(items, Present(items, entries)) {
      RestoreTranslates(items, entries, true, upstream(r.ids).sequence);
    }
    hide Resolve, TranslatedBack, Aliased, Present;
  }

  /** A write that is not refused hands upstream the identifiers of all entries and translates back whether or not it failed. */
  lemma WriteExactly(items: seq<Item>, entries: seq<string>, upstream: seq<string> -> Upstream)
    requires UniqueItems(items) && |entries| >= 2 && Resolve(items, entries, false, |entries|).Resolved?
    ensures
      var r := Resolve(items, entries, false, |entries|);
      var result, (after, v) := upstream(r.ids), Writing(true, items, entries, upstream);
      && (v == if result.failed then UpstreamFailed else Fine)
      && (!Aliased(items, entries) ==> TranslatedBack(r.ids, entries, result.sequence, after))
  {
    var r := Resolve(items, entries, false, |entries|);
    StrictKeepsAll(items, entries);
    if !Aliased(items, entries) {
      RestoreTranslates(items, entries, false, upstream(r.ids).sequence);
    }
    hide Resolve, TranslatedBack, Aliased, Present;
  }

  /** Upstream is not called, and the state stays, when the list is too short, the menu cannot be read or an entry cannot be resolved. */
  lemma RefusedUntouched(readable: bool, items: seq<Item>, entries: seq<string>, upstream: seq<string> -> Upstream)
    ensures |entries| < 2 ==> Writing(readable, items, entries, upstream) == (entries, Refused(TooShort))
    ensures |entries| >= 2 && !readable ==> Writing(readable, items, entries, upstream) == (entries, Refused(ReadFailed))
    ensures !readable ==> Reading(readable, items, entries, upstream) == (entries, Refused(ReadFailed))
    ensures
      var strict := Resolve(items, entries, false, |entries|);
      |entries| >= 2 && readable && strict.Failed? ==>
        Writing(readable, items, entries, upstream) == (entries, Refused(strict.error))
    ensures
      var loose := Resolve(items, entries, true, |entries|);
      readable && loose.Failed? ==> Reading(readable, items, entries, upstream) == (entries, Refused(loose.error))
  {
    hide Resolve;
  }

  /** So a part or rearrangement of the identifiers comes back as that part or rearrangement of the entries. */
  lemma SelectionBack(ids: seq<string>, present: seq<string>, at: seq<nat>, after: seq<string>)
    requires |ids| == |present| && forall i | 0 <= i < |at| :: at[i] < |ids|
    requires TranslatedBack(ids, present, Pick(ids, at), after)
    ensures after == Pick(present, at)
  {
    forall i | 0 <= i < |at|
      ensures after[i] == Pick(present, at)[i]
    {
      assert Pick(ids, at)[i] == ids[at[i]];
    }
  }
}
