/** The pigeonhole principle, and permutations taken apart one element at a time. */
module Counting {

  /** A list has at most as many different elements at some places as there are places; as many, if they differ. */
  lemma {:induction false} ImageSize(places: set<nat>, list: seq<string>)
    requires forall j | j in places :: j < |list|
    ensures |set j | j in places :: list[j]| <= |places|
    ensures (forall i, j | i in places && j in places && i != j :: list[i] != list[j]) ==>
      |set j | j in places :: list[j]| == |places|
  {
    var image := set j | j in places :: list[j];
    if places == {} {
      assert image == {};
    } else {
      var j :| j in places;
      var rest := places - {j};
      ImageSize(rest, list);
      var smaller := set i | i in rest :: list[i];
      assert image == smaller + {list[j]};
    }
  }

  /** Fewer takers than different things leave one untaken. */
  lemma SomeLeft(things: set<nat>, a: seq<string>, takers: set<nat>, b: seq<string>) returns (j: nat)
    requires (forall j | j in things :: j < |a|) && forall h | h in takers :: h < |b|
    requires forall i, j | i in things && j in things && i != j :: a[i] != a[j]
    requires |takers| < |things|
    ensures j in things && forall h | h in takers :: b[h] != a[j]
  {
    ImageSize(things, a);
    ImageSize(takers, b);
    var given, taken := set j | j in things :: a[j], set h | h in takers :: b[h];
    if given <= taken {
      Within(given, taken);
    }
    var x :| x in given && x !in taken;
    j :| j in things && a[j] == x;
  }

  lemma Within<T>(a: set<T>, b: set<T>)
    requires a <= b
    ensures |a| <= |b|
  {
    assert b == a + (b - a);
  }

  /** If each of some different things is taken from one of some places of theirs, all of those are needed. */
  lemma AllTakers(things: set<nat>, a: seq<string>, takers: set<nat>, b: seq<string>)
    requires (forall j | j in things :: j < |a|) && forall h | h in takers :: h < |b|
    requires forall i, j | i in things && j in things && i != j :: a[i] != a[j]
    requires takers <= things && (set i | i in things :: a[i]) <= set h | h in takers :: b[h]
    ensures takers == things
  {
    ImageSize(things, a);
    ImageSize(takers, b);
    Within(set i | i in things :: a[i], set h | h in takers :: b[h]);
    assert things == takers + (things - takers);
  }

  /** The first element of a sequence, found in a permutation of it. */
  lemma PullOut<T>(a: seq<T>, b: seq<T>) returns (left: seq<T>, right: seq<T>)
    requires a != [] && multiset(a) == multiset(b)
    ensures b == left + ([a[0]] + right)
    ensures multiset(left + right) == multiset(a[1..])
  {
    HeadOff(a);
    left, right := Split(b, a[0]);
    TakenOut(left, a[0], right);
  }

  lemma HeadOff<T>(a: seq<T>)
    requires a != []
    ensures a[0] in multiset(a) && multiset(a[1..]) == multiset(a) - multiset{a[0]}
  {
    assert a == [a[0]] + a[1..];
  }

  lemma Split<T>(b: seq<T>, x: T) returns (left: seq<T>, right: seq<T>)
    requires x in multiset(b)
    ensures b == left + ([x] + right)
  {
    var k :| 0 <= k < |b| && b[k] == x;
    left, right := b[..k], b[k + 1..];
  }

  lemma TakenOut<T>(left: seq<T>, x: T, right: seq<T>)
    ensures multiset(left + right) == multiset(left + ([x] + right)) - multiset{x}
  {
    assert multiset(left + ([x] + right)) == multiset(left) + (multiset{x} + multiset(right));
    assert multiset(left + right) == multiset(left) + multiset(right);
  }
}
