/** The (group, index) pairs that a projection of the topology covers. */
module PeerSlots {
  import opened Sequences
  import opened Orders
  import opened Topology

  /** The parts of the first `n` elements, concatenated. */
  function FlatMap<T, U>(part: T -> seq<U>, s: seq<T>, n: nat): (r: seq<U>)
    requires n <= |s|
  {
    if n == 0 then [] else FlatMap(part, s, n - 1) + part(s[n - 1])
  }

  lemma {:induction false} FlatMapFirst<T, U>(part: T -> seq<U>, x: T, s: seq<T>, n: nat)
    requires n <= |s|
    ensures FlatMap(part, [x] + s, n + 1) == part(x) + FlatMap(part, s, n)
  {
    var longer := [x] + s;
    if n > 0 {
      FlatMapFirst(part, x, s, n - 1);
      assert longer[n] == s[n - 1];
      AppendAssociative(part(x), FlatMap(part, s, n - 1), part(s[n - 1]));
    } else {
      assert FlatMap(part, longer, 1) == [] + part(x) == part(x) == part(x) + [];
    }
  }

  lemma FlatMapSplit<T, U>(part: T -> seq<U>, x: T, s: seq<T>)
    ensures multiset(FlatMap(part, [x] + s, |s| + 1)) == multiset(part(x)) + multiset(FlatMap(part, s, |s|))
  {
    FlatMapFirst(part, x, s, |s|);
  }

  lemma {:induction false} InsertKeepsParts<T, U>(part: T -> seq<U>, key: T -> Key, x: T, s: seq<T>)
    ensures |Insert(key, x, s)| == |s| + 1
    ensures multiset(FlatMap(part, Insert(key, x, s), |s| + 1)) == multiset(part(x)) + multiset(FlatMap(part, s, |s|))
  {
    if s == [] || LexLe(key(x), key(s[0])) {
      assert [x] + s == Insert(key, x, s);
      FlatMapSplit(part, x, s);
    } else {
      var rest := Insert(key, x, s[1..]);
      assert Insert(key, x, s) == [s[0]] + rest && s == [s[0]] + s[1..];
      InsertKeepsParts(part, key, x, s[1..]);
      FlatMapSplit(part, s[0], rest);
      FlatMapSplit(part, s[0], s[1..]);
    }
  }

  lemma InsertSortedParts<T, U>(part: T -> seq<U>, key: T -> Key, x: T, tail: seq<T>, rest: seq<T>)
    requires |tail| == |rest| && multiset(FlatMap(part, tail, |rest|)) == multiset(FlatMap(part, rest, |rest|))
    ensures |Insert(key, x, tail)| == |rest| + 1
    ensures multiset(FlatMap(part, Insert(key, x, tail), |rest| + 1)) == multiset(FlatMap(part, [x] + rest, |rest| + 1))
  {
    InsertKeepsParts(part, key, x, tail);
    FlatMapSplit(part, x, rest);
  }

  /** Sorting a list permutes the concatenation of its elements' parts. */
  lemma {:induction false} SortKeepsParts<T, U>(part: T -> seq<U>, key: T -> Key, s: seq<T>)
    ensures multiset(FlatMap(part, SortBy(key, s), |s|)) == multiset(FlatMap(part, s, |s|))
  {
    if s != [] {
      var x, rest := s[0], s[1..];
      assert s == [x] + rest;
      SortKeepsParts(part, key, rest);
      InsertSortedParts(part, key, x, SortBy(key, rest), rest);
      assert SortBy(key, s) == Insert(key, x, SortBy(key, rest));
    }
  }

  lemma {:induction false} FlatMapPrefix<T, U>(part: T -> seq<U>, a: seq<T>, b: seq<T>, n: nat)
    requires n <= |a|
    ensures FlatMap(part, a + b, n) == FlatMap(part, a, n)
  {
    if n > 0 { FlatMapPrefix(part, a, b, n - 1); }
  }

  lemma FlatMapLast<T, U>(part: T -> seq<U>, s: seq<T>, x: T)
    ensures FlatMap(part, s + [x], |s| + 1) == FlatMap(part, s, |s|) + part(x)
  {
    FlatMapPrefix(part, s, [x], |s|);
  }

  lemma {:induction false} FlatMapFrom<T, U>(part: T -> seq<U>, s: seq<T>, n: nat, y: U) returns (i: nat)
    requires n <= |s| && y in FlatMap(part, s, n)
    ensures i < n && y in part(s[i])
  {
    if y in FlatMap(part, s, n - 1) { i := FlatMapFrom(part, s, n - 1, y); } else { i := n - 1; }
  }

  lemma {:induction false} FlatMapHolds<T, U>(part: T -> seq<U>, s: seq<T>, n: nat, i: nat, y: U)
    requires i < n <= |s| && y in part(s[i])
    ensures y in FlatMap(part, s, n)
  {
    if i < n - 1 { FlatMapHolds(part, s, n - 1, i, y); }
  }

  lemma {:induction false} FlatMapEmpty<T, U>(part: T -> seq<U>, s: seq<T>, n: nat)
    requires n <= |s|
    ensures FlatMap(part, s, n) == [] <==> forall i :: 0 <= i < n ==> part(s[i]) == []
  {
    if n > 0 { FlatMapEmpty(part, s, n - 1); }
  }

  /** The peering `index` of `group`. */
  datatype Slot = Slot(group: Group, index: nat)

  function LocalAt(p: Slot): (r: int) { if p.index < |Locals(p.group)| then Locals(p.group)[p.index] else 0 }

  function PeerAt(p: Slot): (r: int) { if p.index < |Peers(p.group)| then Peers(p.group)[p.index] else 0 }

  /** The first `n` peerings of one group. */
  function GroupSlots(g: Group, n: nat): (r: seq<Slot>)
    ensures |r| == n
  {
    if n == 0 then [] else GroupSlots(g, n - 1) + [Slot(g, n - 1)]
  }

  lemma {:induction false} GroupSlotAt(g: Group, n: nat, i: nat)
    requires i < n
    ensures GroupSlots(g, n)[i] == Slot(g, i)
  {
    if i < n - 1 { GroupSlotAt(g, n - 1, i); }
  }

  lemma {:induction false} GroupSlotFrom(g: Group, n: nat, p: Slot)
    requires p in GroupSlots(g, n)
    ensures p.group == g && p.index < n
  {
    if p in GroupSlots(g, n - 1) { GroupSlotFrom(g, n - 1, p); }
  }

  function Slots(g: Group): (r: seq<Slot>) { GroupSlots(g, |Locals(g)|) }
}
