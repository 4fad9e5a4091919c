/** Selecting one end of every other transceiver's loopback circuits. */
module SnakeCircuits {
  import opened Sequences
  import opened Orders
  import opened PortNames

  datatype Interface = Interface(name: string, neighbor: string, details: string)

  type NameKey = string -> Key

  predicate Cabled(i: Interface) { i.neighbor != [] }

  function CircuitOf(i: Interface): (c: set<string>) { {i.name, i.neighbor} }

  /** `by_name`: the last interface of a name wins. */
  function NamedTo(ifs: seq<Interface>, name: string, n: nat): (r: Option<Interface>)
    requires n <= |ifs|
  {
    if n == 0 then None else if ifs[n - 1].name == name then Some(ifs[n - 1]) else NamedTo(ifs, name, n - 1)
  }

  function LowerName(key: NameKey, i: Interface): (r: string) {
    if LexLe(key(i.name), key(i.neighbor)) then i.name else i.neighbor
  }

  /** The A-end of the circuit that `i` reports, or `i` itself when that end is not listed. */
  function Representative(key: NameKey, ifs: seq<Interface>, i: Interface): (r: Interface) {
    var named := NamedTo(ifs, LowerName(key, i), |ifs|);
    if named.Some? then named.value else i
  }

  /** The circuits reported by the first `n` interfaces. */
  function SeenTo(ifs: seq<Interface>, n: nat): (r: set<set<string>>)
    requires n <= |ifs|
  {
    if n == 0 then {} else SeenTo(ifs, n - 1) + if Cabled(ifs[n - 1]) then {CircuitOf(ifs[n - 1])} else {}
  }

  /** The interfaces that report a circuit for the first time. */
  function FirstsTo(ifs: seq<Interface>, n: nat): (r: seq<Interface>)
    requires n <= |ifs|
  {
    if n == 0 then []
    else
      FirstsTo(ifs, n - 1) +
      if Cabled(ifs[n - 1]) && CircuitOf(ifs[n - 1]) !in SeenTo(ifs, n - 1) then [ifs[n - 1]] else []
  }

  /** The representatives of the circuits that the first `n` interfaces report. */
  function CircuitsTo(key: NameKey, ifs: seq<Interface>, n: nat): (r: seq<Interface>)
    requires n <= |ifs|
  {
    if n == 0 then []
    else
      CircuitsTo(key, ifs, n - 1) +
      if Cabled(ifs[n - 1]) && CircuitOf(ifs[n - 1]) !in SeenTo(ifs, n - 1) then [Representative(key, ifs, ifs[n - 1])]
      else []
  }

  function Circuits(key: NameKey, ifs: seq<Interface>): (r: seq<Interface>) { CircuitsTo(key, ifs, |ifs|) }

  lemma {:induction false} CircuitsAreRepresentatives(key: NameKey, ifs: seq<Interface>, n: nat)
    requires n <= |ifs|
    ensures |CircuitsTo(key, ifs, n)| == |FirstsTo(ifs, n)|
    ensures forall j :: 0 <= j < |FirstsTo(ifs, n)| ==>
              CircuitsTo(key, ifs, n)[j] == Representative(key, ifs, FirstsTo(ifs, n)[j])
  {
    if n > 0 { CircuitsAreRepresentatives(key, ifs, n - 1); }
  }

  /** One first reporter, hence one representative, per distinct circuit. */
  lemma {:induction false} FirstsCoverCircuits(ifs: seq<Interface>, n: nat)
    requires n <= |ifs|
    ensures forall c :: c in SeenTo(ifs, n) <==>
              exists j :: 0 <= j < |FirstsTo(ifs, n)| && CircuitOf(FirstsTo(ifs, n)[j]) == c
    ensures forall i, j :: 0 <= i < j < |FirstsTo(ifs, n)| ==>
              CircuitOf(FirstsTo(ifs, n)[i]) != CircuitOf(FirstsTo(ifs, n)[j])
    ensures forall i :: i in FirstsTo(ifs, n) ==> i in ifs && Cabled(i)
  {
    if n > 0 {
      FirstsCoverCircuits(ifs, n - 1);
      var before, i := FirstsTo(ifs, n - 1), ifs[n - 1];
      if Cabled(i) && CircuitOf(i) !in SeenTo(ifs, n - 1) {
        var after := before + [i];
        assert FirstsTo(ifs, n) == after;
        forall c ensures c in SeenTo(ifs, n) <==> exists j :: 0 <= j < |after| && CircuitOf(after[j]) == c {
          if c == CircuitOf(i) { assert CircuitOf(after[|before|]) == c; }
          if c in SeenTo(ifs, n - 1) {
            var j :| 0 <= j < |before| && CircuitOf(before[j]) == c;
            assert CircuitOf(after[j]) == c;
          }
        }
      } else {
        assert FirstsTo(ifs, n) == before && SeenTo(ifs, n) == SeenTo(ifs, n - 1);
      }
    }
  }

  method BuildCircuits(key: NameKey, ifs: seq<Interface>) returns (circuits: seq<Interface>)
    ensures circuits == Circuits(key, ifs)
  {
    var seen: set<set<string>>;
    seen, circuits := {}, [];
    for n := 0 to |ifs|
      invariant seen == SeenTo(ifs, n)
      invariant circuits == CircuitsTo(key, ifs, n)
    {
      var i := ifs[n];
      if i.neighbor == [] { continue; }
      var circuit := CircuitOf(i);
      if circuit in seen { continue; }
      seen := seen + {circuit};
      circuits := circuits + [Representative(key, ifs, i)];
    }
  }

  // ---------- grouping by transceiver ----------

  function ByName(key: NameKey): (f: Interface -> Key) { (i: Interface) => key(i.name) }

  function Transceiver(key: NameKey): (f: Interface -> Key) { (i: Interface) => DropLast(key(i.name)) }

  /** The distinct keys of the first `n` elements, in order of first use. */
  function KeysTo(t: Interface -> Key, s: seq<Interface>, n: nat): (r: seq<Key>)
    requires n <= |s|
  {
    if n == 0 then []
    else
      var before := KeysTo(t, s, n - 1);
      if t(s[n - 1]) in before then before else before + [t(s[n - 1])]
  }

  function Self(): (f: Key -> Key) { (k: Key) => k }

  function OrderedKeys(t: Interface -> Key, s: seq<Interface>): (r: seq<Key>) { SortBy(Self(), KeysTo(t, s, |s|)) }

  /** The groups at positions `i`, `i + 2`, ... flattened. */
  function PickFrom(t: Interface -> Key, s: seq<Interface>, keys: seq<Key>, i: nat): (r: seq<Interface>)
    decreases |keys| - i
  {
    if i >= |keys| then [] else Class(t, keys[i], s) + PickFrom(t, s, keys, i + 2)
  }

  /** The groups from position `i` on, flattened. */
  ghost function AllFrom(t: Interface -> Key, s: seq<Interface>, keys: seq<Key>, i: nat): (r: seq<Interface>)
    decreases |keys| - i
  {
    if i >= |keys| then [] else Class(t, keys[i], s) + AllFrom(t, s, keys, i + 1)
  }

  datatype Parity = Even | Odd | Unknown(text: string)

  function SelectedFrom(t: Interface -> Key, s: seq<Interface>, parity: Parity): (r: seq<Interface>) {
    PickFrom(t, s, OrderedKeys(t, s), if parity == Even then 0 else 1)
  }

  function Selected(key: NameKey, ifs: seq<Interface>, parity: Parity): (r: seq<Interface>) {
    SelectedFrom(Transceiver(key), SortBy(ByName(key), Circuits(key, ifs)), parity)
  }

  ghost predicate GroupAt(t: Interface -> Key, s: seq<Interface>, n: nat, groups: map<Key, seq<Interface>>, k: Key)
    requires n <= |s|
  {
    (k in groups <==> k in KeysTo(t, s, n)) && (k in groups ==> groups[k] == Class(t, k, s[..n]))
  }

  ghost predicate GroupsTo(t: Interface -> Key, s: seq<Interface>, n: nat, groups: map<Key, seq<Interface>>)
    requires n <= |s|
  {
    forall k :: GroupAt(t, s, n, groups, k)
  }

  /** `groups.setdefault(k, []).append(x)`. */
  function Put(groups: map<Key, seq<Interface>>, k: Key, x: Interface): (r: map<Key, seq<Interface>>) {
    groups[k := (if k in groups then groups[k] else []) + [x]]
  }

  method GroupByTransceiver(t: Interface -> Key, s: seq<Interface>)
    returns (order: seq<Key>, groups: map<Key, seq<Interface>>)
    ensures order == KeysTo(t, s, |s|)
    ensures GroupsTo(t, s, |s|, groups)
  {
    order, groups := [], map[];
    for n := 0 to |s|
      invariant order == KeysTo(t, s, n)
      invariant GroupsTo(t, s, n, groups)
    {
      var k := t(s[n]);
      GroupStep(t, s, n, groups);
      assert GroupAt(t, s, n, groups, k);
      if k !in groups { order := order + [k]; }
      groups := Put(groups, k, s[n]);
    }
  }

  lemma ClassStep(t: Interface -> Key, s: seq<Interface>, n: nat, k: Key)
    requires n < |s|
    ensures Class(t, k, s[..n + 1]) == Class(t, k, s[..n]) + if t(s[n]) == k then [s[n]] else []
  {
    assert s[..n + 1] == s[..n] + [s[n]];
    ClassAppend(t, k, s[..n], s[n]);
  }

  lemma {:induction false} ClassEmpty(t: Interface -> Key, s: seq<Interface>, n: nat, k: Key)
    requires n <= |s| && k !in KeysTo(t, s, n)
    ensures Class(t, k, s[..n]) == []
  {
    if n > 0 {
      ClassEmpty(t, s, n - 1, k);
      ClassStep(t, s, n - 1, k);
    }
  }

  lemma GroupStep(t: Interface -> Key, s: seq<Interface>, n: nat, groups: map<Key, seq<Interface>>)
    requires n < |s| && GroupsTo(t, s, n, groups)
    ensures GroupsTo(t, s, n + 1, Put(groups, t(s[n]), s[n]))
  {
    var next, after := n + 1, Put(groups, t(s[n]), s[n]);
    forall k ensures GroupAt(t, s, next, after, k) {
      assert GroupAt(t, s, n, groups, k);
      ClassStep(t, s, n, k);
      if k !in groups { ClassEmpty(t, s, n, k); }
    }
  }

  method PickGroups(t: Interface -> Key, s: seq<Interface>, keys: seq<Key>, groups: map<Key, seq<Interface>>,
                    start: nat)
    returns (selected: seq<Interface>)
    requires forall i :: 0 <= i < |keys| ==> keys[i] in groups && groups[keys[i]] == Class(t, keys[i], s)
    ensures selected == PickFrom(t, s, keys, start)
  {
    selected := [];
    var i := start;
    while i < |keys|
      invariant selected + PickFrom(t, s, keys, i) == PickFrom(t, s, keys, start)
      decreases |keys| - i
    {
      selected := selected + groups[keys[i]];
      i := i + 2;
    }
  }

  /** `select_snake_circuit_a_ends` for any ordering key; None is the rejected parity. */
  method SelectAEnds(key: NameKey, ifs: seq<Interface>, parity: Parity) returns (r: Option<seq<Interface>>)
    ensures r.None? <==> parity.Unknown?
    ensures r.Some? ==> r.value == Selected(key, ifs, parity)
  {
    if parity.Unknown? { return None; }
    var built := BuildCircuits(key, ifs);
    var s, t := SortBy(ByName(key), built), Transceiver(key);
    var order, groups := GroupByTransceiver(t, s);
    var keys := SortBy(Self(), order);
    PermutationMembers(keys, order);
    assert s[..|s|] == s;
    forall i | 0 <= i < |keys| ensures keys[i] in groups && groups[keys[i]] == Class(t, keys[i], s) {
      assert GroupAt(t, s, |s|, groups, keys[i]);
    }
    var selected := PickGroups(t, s, keys, groups, if parity == Even then 0 else 1);
    r := Some(selected);
  }

  // ---------- even and odd together ----------

  lemma {:induction false} KeysDistinct(t: Interface -> Key, s: seq<Interface>, n: nat)
    requires n <= |s|
    ensures Distinct(KeysTo(t, s, n))
    ensures forall i :: 0 <= i < n ==> t(s[i]) in KeysTo(t, s, n)
  {
    if n > 0 { KeysDistinct(t, s, n - 1); }
  }

  lemma Rebalance(a: seq<Interface>, b: seq<Interface>, c: seq<Interface>, all: seq<Interface>)
    requires multiset(c) + multiset(b) == multiset(all)
    ensures multiset(a + b) + multiset(c) == multiset(a + all)
  {
  }

  lemma {:induction false} EvenOddSplit(t: Interface -> Key, s: seq<Interface>, keys: seq<Key>, i: nat)
    ensures multiset(PickFrom(t, s, keys, i)) + multiset(PickFrom(t, s, keys, i + 1)) ==
            multiset(AllFrom(t, s, keys, i))
    decreases |keys| - i
  {
    if i < |keys| {
      EvenOddSplit(t, s, keys, i + 1);
      Rebalance(Class(t, keys[i], s), PickFrom(t, s, keys, i + 2), PickFrom(t, s, keys, i + 1),
                AllFrom(t, s, keys, i + 1));
    }
  }

  lemma {:induction false} AllFromCount(t: Interface -> Key, s: seq<Interface>, keys: seq<Key>, i: nat, x: Interface)
    requires Distinct(keys) && i <= |keys|
    ensures multiset(AllFrom(t, s, keys, i))[x] == if t(x) in keys[i..] then multiset(s)[x] else 0
    decreases |keys| - i
  {
    if i < |keys| {
      AllFromCount(t, s, keys, i + 1, x);
      ClassMultiset(t, keys[i], s, x);
      assert keys[i..] == [keys[i]] + keys[i + 1..];
    }
  }

  lemma AllFromIsWhole(t: Interface -> Key, s: seq<Interface>)
    ensures multiset(AllFrom(t, s, OrderedKeys(t, s), 0)) == multiset(s)
  {
    var keys := OrderedKeys(t, s);
    KeysDistinct(t, s, |s|);
    PermutationDistinct(KeysTo(t, s, |s|), keys);
    PermutationMembers(KeysTo(t, s, |s|), keys);
    assert keys[0..] == keys;
    forall x ensures multiset(AllFrom(t, s, keys, 0))[x] == multiset(s)[x] {
      AllFromCount(t, s, keys, 0, x);
      if x in s { assert t(x) in keys; }
    }
  }

  lemma {:induction false} PickFromMembers(t: Interface -> Key, s: seq<Interface>, keys: seq<Key>, i: nat, x: Interface)
    returns (j: nat)
    requires x in PickFrom(t, s, keys, i)
    ensures i <= j < |keys| && (j - i) % 2 == 0 && keys[j] == t(x)
    decreases |keys| - i
  {
    if x in Class(t, keys[i], s) { j := i; } else { j := PickFromMembers(t, s, keys, i + 2, x); }
  }

  lemma ParitiesApart(t: Interface -> Key, s: seq<Interface>, keys: seq<Key>, x: Interface, y: Interface)
    requires Distinct(keys) && x in PickFrom(t, s, keys, 0) && y in PickFrom(t, s, keys, 1)
    ensures t(x) != t(y)
  {
    var i := PickFromMembers(t, s, keys, 0, x);
    var j := PickFromMembers(t, s, keys, 1, y);
    assert i != j;
  }

  lemma HalvesOfSorted(t: Interface -> Key, s: seq<Interface>)
    ensures multiset(SelectedFrom(t, s, Even)) + multiset(SelectedFrom(t, s, Odd)) == multiset(s)
  {
    EvenOddSplit(t, s, OrderedKeys(t, s), 0);
    AllFromIsWhole(t, s);
  }

  lemma HalvesApart(t: Interface -> Key, s: seq<Interface>)
    ensures forall x, y :: x in SelectedFrom(t, s, Even) && y in SelectedFrom(t, s, Odd) ==> t(x) != t(y)
  {
    var keys := OrderedKeys(t, s);
    KeysDistinct(t, s, |s|);
    PermutationDistinct(KeysTo(t, s, |s|), keys);
    forall x, y | x in SelectedFrom(t, s, Even) && y in SelectedFrom(t, s, Odd) ensures t(x) != t(y) {
      ParitiesApart(t, s, keys, x, y);
    }
  }

  /** Together the two selections are the representatives of the circuits, and no transceiver has an
      A-end in both. */
  lemma SelectionsPartition(key: NameKey, ifs: seq<Interface>)
    ensures multiset(Selected(key, ifs, Even)) + multiset(Selected(key, ifs, Odd)) == multiset(Circuits(key, ifs))
    ensures forall x, y :: x in Selected(key, ifs, Even) && y in Selected(key, ifs, Odd) ==>
              Transceiver(key)(x) != Transceiver(key)(y)
  {
    HalvesOfSorted(Transceiver(key), SortBy(ByName(key), Circuits(key, ifs)));
    HalvesApart(Transceiver(key), SortBy(ByName(key), Circuits(key, ifs)));
  }

  /** There is one representative per distinct circuit: the j-th stands for the j-th circuit reported. */
  lemma OneRepresentativeEach(key: NameKey, ifs: seq<Interface>)
    ensures |Circuits(key, ifs)| == |FirstsTo(ifs, |ifs|)| == |SeenTo(ifs, |ifs|)|
    ensures forall j :: 0 <= j < |FirstsTo(ifs, |ifs|)| ==>
              Circuits(key, ifs)[j] == Representative(key, ifs, FirstsTo(ifs, |ifs|)[j])
  {
    CircuitsAreRepresentatives(key, ifs, |ifs|);
    OneFirstEach(ifs, |ifs|);
  }

  lemma {:induction false} OneFirstEach(ifs: seq<Interface>, n: nat)
    requires n <= |ifs|
    ensures |FirstsTo(ifs, n)| == |SeenTo(ifs, n)|
  {
    if n > 0 {
      OneFirstEach(ifs, n - 1);
      SeenGrows(ifs, n - 1);
    }
  }

  lemma SeenGrows(ifs: seq<Interface>, n: nat)
    requires n < |ifs|
    ensures |SeenTo(ifs, n + 1)| ==
            |SeenTo(ifs, n)| + if Cabled(ifs[n]) && CircuitOf(ifs[n]) !in SeenTo(ifs, n) then 1 else 0
  {
    var seen, c := SeenTo(ifs, n), CircuitOf(ifs[n]);
    if Cabled(ifs[n]) && c !in seen {
      assert SeenTo(ifs, n + 1) == seen + {c};
    } else {
      assert SeenTo(ifs, n + 1) == seen;
    }
  }

  // ---------- order of the result ----------

  /** No A-end's key clashes with another's. */
  ghost predicate NoClash(key: NameKey, s: seq<Interface>) {
    forall x, y :: x in s && y in s ==> !Clashes(key(x.name), key(y.name))
  }

  ghost predicate KeysAscend(keys: seq<Key>) {
    forall i, j :: 0 <= i < j < |keys| ==> LexLe(keys[i], keys[j]) && keys[i] != keys[j]
  }

  lemma OrderedKeysAscend(t: Interface -> Key, s: seq<Interface>)
    ensures KeysAscend(OrderedKeys(t, s))
  {
    KeysDistinct(t, s, |s|);
    SortBySorts(Self(), KeysTo(t, s, |s|));
    PermutationDistinct(KeysTo(t, s, |s|), OrderedKeys(t, s));
  }

  lemma GroupsAscend(key: NameKey, s: seq<Interface>, keys: seq<Key>, i: nat, x: Interface, y: Interface)
    requires KeysAscend(keys) && i < |keys| && !Clashes(key(x.name), key(y.name))
    requires x in Class(Transceiver(key), keys[i], s) && y in PickFrom(Transceiver(key), s, keys, i + 2)
    ensures LexLe(key(x.name), key(y.name))
  {
    var j := PickFromMembers(Transceiver(key), s, keys, i + 2, y);
    ClassMembers(Transceiver(key), keys[i], s);
    LexByDropLast(key(x.name), key(y.name));
  }

  lemma {:induction false} PickSorted(key: NameKey, s: seq<Interface>, keys: seq<Key>, i: nat)
    requires KeysAscend(keys) && SortedBy(ByName(key), s) && NoClash(key, PickFrom(Transceiver(key), s, keys, i))
    ensures SortedBy(ByName(key), PickFrom(Transceiver(key), s, keys, i))
    decreases |keys| - i
  {
    if i < |keys| {
      var group, rest := Class(Transceiver(key), keys[i], s), PickFrom(Transceiver(key), s, keys, i + 2);
      PickSorted(key, s, keys, i + 2);
      ClassSorted(Transceiver(key), ByName(key), keys[i], s);
      forall x, y | x in group && y in rest ensures LexLe(ByName(key)(x), ByName(key)(y)) {
        assert x in group + rest && y in group + rest;
        GroupsAscend(key, s, keys, i, x, y);
      }
      SortedConcat(ByName(key), group, rest);
    }
  }

  /** Selected circuits come in the order of their transceivers. */
  lemma {:induction false} PickOrder(t: Interface -> Key, s: seq<Interface>, keys: seq<Key>, i: nat, x: Interface,
                                     y: Interface)
    requires KeysAscend(keys) && x in PickFrom(t, s, keys, i) && y in PickFrom(t, s, keys, i)
    requires t(x) != t(y) && LexLe(t(x), t(y))
    ensures Before(PickFrom(t, s, keys, i), x, y)
    decreases |keys| - i
  {
    var group, rest := Class(t, keys[i], s), PickFrom(t, s, keys, i + 2);
    ClassMembers(t, keys[i], s);
    if x in group {
      BeforeAcross(group, rest, x, y);
    } else {
      var j := PickFromMembers(t, s, keys, i + 2, x);
      if y in group { LexAntisymmetric(t(x), t(y)); }
      PickOrder(t, s, keys, i + 2, x, y);
      BeforeBehind(group, rest, x, y);
    }
  }

  lemma BeforeAcross(a: seq<Interface>, b: seq<Interface>, x: Interface, y: Interface)
    requires x in a && y in b
    ensures Before(a + b, x, y)
  {
    var i :| 0 <= i < |a| && a[i] == x;
    var j :| 0 <= j < |b| && b[j] == y;
    assert (a + b)[i] == x && (a + b)[|a| + j] == y;
  }

  lemma BeforeBehind(a: seq<Interface>, b: seq<Interface>, x: Interface, y: Interface)
    requires Before(b, x, y)
    ensures Before(a + b, x, y)
  {
    var i, j :| 0 <= i < j < |b| && b[i] == x && b[j] == y;
    assert (a + b)[|a| + i] == x && (a + b)[|a| + j] == y;
  }

  /** The flattened selection is in circuit order exactly when no two of its A-ends clash: names with equally many
      components never do. */
  lemma SelectionInCircuitOrder(key: NameKey, ifs: seq<Interface>, parity: Parity)
    ensures SortedBy(ByName(key), Selected(key, ifs, parity)) <==> NoClash(key, Selected(key, ifs, parity))
  {
    var s, t := SortBy(ByName(key), Circuits(key, ifs)), Transceiver(key);
    var keys, start, picked := OrderedKeys(t, s), if parity == Even then 0 else 1, Selected(key, ifs, parity);
    SortBySorts(ByName(key), Circuits(key, ifs));
    OrderedKeysAscend(t, s);
    if NoClash(key, picked) { PickSorted(key, s, keys, start); }
    if x, y :| x in picked && y in picked && Clashes(key(x.name), key(y.name)) {
      ClashOrder(key(x.name), key(y.name));
      PickOrder(t, s, keys, start, x, y);
      var i, j :| 0 <= i < j < |picked| && picked[i] == x && picked[j] == y;
      assert !LexLe(ByName(key)(picked[i]), ByName(key)(picked[j]));
    }
  }

  // ---------- which transceivers are selected ----------

  /** The transceivers of the circuits that sort before `k`. */
  ghost function Below(key: NameKey, circuits: seq<Interface>, k: Key): (r: set<Key>) {
    set c | c in circuits && LexLe(DropLast(key(c.name)), k) && DropLast(key(c.name)) != k :: DropLast(key(c.name))
  }

  lemma {:induction false} PickHolds(t: Interface -> Key, s: seq<Interface>, keys: seq<Key>, i: nat, j: nat,
                                     x: Interface)
    requires i <= j < |keys| && (j - i) % 2 == 0 && keys[j] == t(x) && x in s
    ensures x in PickFrom(t, s, keys, i)
    decreases |keys| - i
  {
    if i < j { PickHolds(t, s, keys, i + 2, j, x); }
  }

  lemma PickIff(t: Interface -> Key, s: seq<Interface>, keys: seq<Key>, i: nat, j: nat, x: Interface)
    requires Distinct(keys) && i <= 1 && j < |keys| && keys[j] == t(x)
    ensures x in PickFrom(t, s, keys, i) <==> x in s && j % 2 == i
  {
    if x in PickFrom(t, s, keys, i) {
      var m := PickFromMembers(t, s, keys, i, x);
      PickFromWithin(t, s, keys, i, x);
    }
    if x in s && j % 2 == i { PickHolds(t, s, keys, i, j, x); }
  }

  lemma {:induction false} PickFromWithin(t: Interface -> Key, s: seq<Interface>, keys: seq<Key>, i: nat, x: Interface)
    requires x in PickFrom(t, s, keys, i)
    ensures x in s
    decreases |keys| - i
  {
    if x !in Class(t, keys[i], s) { PickFromWithin(t, s, keys, i + 2, x); }
  }

  /** The position of a key among ascending keys is the number of keys below it. */
  lemma KeyPosition(keys: seq<Key>, j: nat, below: set<Key>)
    requires KeysAscend(keys) && j < |keys|
    requires forall k :: k in below <==> k in keys && LexLe(k, keys[j]) && k != keys[j]
    ensures |below| == j
  {
    forall k ensures k in below <==> k in Elements(keys[..j]) {
      if k in keys {
        var i :| 0 <= i < |keys| && keys[i] == k;
        if i < j { assert keys[..j][i] == k; }
        if i > j && LexLe(k, keys[j]) { LexAntisymmetric(k, keys[j]); }
        if k in keys[..j] {
          var m :| 0 <= m < j && keys[..j][m] == k;
        }
      }
    }
    assert below == Elements(keys[..j]);
    DistinctLength(keys[..j]);
  }

  lemma OrderedKeysMembers(t: Interface -> Key, s: seq<Interface>, k: Key)
    ensures k in OrderedKeys(t, s) <==> exists x :: x in s && t(x) == k
  {
    KeysDistinct(t, s, |s|);
    PermutationMembers(OrderedKeys(t, s), KeysTo(t, s, |s|));
    if k in KeysTo(t, s, |s|) { KeysFrom(t, s, |s|, k); }
    if x :| x in s && t(x) == k {
      var i :| 0 <= i < |s| && s[i] == x;
    }
  }

  /** A circuit is in the even selection exactly when an even number of transceivers sort before its own, and in the
      odd one otherwise. */
  lemma SelectedByRank(key: NameKey, ifs: seq<Interface>, x: Interface)
    ensures var below := Below(key, Circuits(key, ifs), DropLast(key(x.name)));
            (x in Selected(key, ifs, Even) <==> x in Circuits(key, ifs) && |below| % 2 == 0) &&
            (x in Selected(key, ifs, Odd) <==> x in Circuits(key, ifs) && |below| % 2 == 1)
  {
    var circuits, t := Circuits(key, ifs), Transceiver(key);
    var s := SortBy(ByName(key), circuits);
    PermutationMembers(s, circuits);
    if x in circuits {
      RankedSelection(key, circuits, s, OrderedKeys(t, s), x);
    } else {
      if x in Selected(key, ifs, Even) { PickFromWithin(t, s, OrderedKeys(t, s), 0, x); }
      if x in Selected(key, ifs, Odd) { PickFromWithin(t, s, OrderedKeys(t, s), 1, x); }
    }
  }

  lemma RankedSelection(key: NameKey, circuits: seq<Interface>, s: seq<Interface>, keys: seq<Key>, x: Interface)
    requires keys == OrderedKeys(Transceiver(key), s) && (forall c :: c in s <==> c in circuits) && x in s
    ensures var rank := |Below(key, circuits, DropLast(key(x.name)))|;
            (x in PickFrom(Transceiver(key), s, keys, 0) <==> rank % 2 == 0) &&
            (x in PickFrom(Transceiver(key), s, keys, 1) <==> rank % 2 == 1)
  {
    var t := Transceiver(key);
    OrderedKeysAscend(t, s);
    forall k ensures k in keys <==> exists c :: c in s && t(c) == k { OrderedKeysMembers(t, s, k); }
    assert t(x) in keys;
    var j :| 0 <= j < |keys| && keys[j] == t(x);
    KeyPosition(keys, j, Below(key, circuits, t(x)));
    PickIff(t, s, keys, 0, j, x);
    PickIff(t, s, keys, 1, j, x);
  }

  // ---------- names of different depth ----------

  /** Neither end of `y` is named like `x`. */
  predicate Clear(x: Interface, y: Interface) { x.name != y.name && x.name != y.neighbor }

  /** Each of the three reports its own circuit and is its lower end. */
  predicate Apart(key: NameKey, a: Interface, b: Interface, c: Interface) {
    LowerEnd(key, a) && LowerEnd(key, b) && LowerEnd(key, c) &&
    Clear(a, b) && Clear(b, a) && Clear(a, c) && Clear(c, a) && Clear(b, c) && Clear(c, b)
  }

  lemma OwnRepresentatives(key: NameKey, a: Interface, b: Interface, c: Interface)
    requires Apart(key, a, b, c)
    ensures var ifs := [a, b, c];
            Representative(key, ifs, a) == a && Representative(key, ifs, b) == b && Representative(key, ifs, c) == c
  {
    var ifs := [a, b, c];
    assert NamedTo(ifs, c.name, 3) == Some(c);
    assert NamedTo(ifs, b.name, 2) == Some(b) == NamedTo(ifs, b.name, 3);
    assert NamedTo(ifs, a.name, 1) == Some(a) == NamedTo(ifs, a.name, 2) == NamedTo(ifs, a.name, 3);
  }

  lemma ThreeCircuits(key: NameKey, a: Interface, b: Interface, c: Interface)
    requires Apart(key, a, b, c)
    ensures Circuits(key, [a, b, c]) == [a, b, c]
  {
    var ifs := [a, b, c];
    OwnRepresentatives(key, a, b, c);
    assert b.name !in CircuitOf(a) && c.name !in CircuitOf(a) && c.name !in CircuitOf(b);
    assert CircuitOf(b) != CircuitOf(a) && CircuitOf(c) != CircuitOf(a) && CircuitOf(c) != CircuitOf(b);
    assert SeenTo(ifs, 0) == {} && SeenTo(ifs, 1) == SeenTo(ifs, 0) + {CircuitOf(a)};
    assert SeenTo(ifs, 2) == SeenTo(ifs, 1) + {CircuitOf(b)};
    assert CircuitsTo(key, ifs, 1) == [a] && CircuitsTo(key, ifs, 2) == [a, b];
  }

  lemma {:induction false} KeysFrom(t: Interface -> Key, s: seq<Interface>, n: nat, k: Key)
    requires n <= |s| && k in KeysTo(t, s, n)
    ensures exists x :: x in s && t(x) == k
  {
    if k in KeysTo(t, s, n - 1) {
      KeysFrom(t, s, n - 1, k);
    } else {
      assert s[n - 1] in s && t(s[n - 1]) == k;
    }
  }

  /** The ascending list of keys is determined by which keys occur. */
  lemma OrderedKeysAre(t: Interface -> Key, s: seq<Interface>, keys: seq<Key>)
    requires KeysAscend(keys) && (forall x :: x in s ==> t(x) in keys)
    requires forall k :: k in keys ==> exists x :: x in s && t(x) == k
    ensures OrderedKeys(t, s) == keys
  {
    var ks := KeysTo(t, s, |s|);
    KeysDistinct(t, s, |s|);
    forall k ensures k in ks <==> k in keys {
      if k in ks { KeysFrom(t, s, |s|, k); }
      if k in keys {
        var x :| x in s && t(x) == k;
        var i :| 0 <= i < |s| && s[i] == x;
      }
    }
    assert Distinct(keys);
    SameElementsPermutation(ks, keys);
    SortBySorts(Self(), ks);
    SortedUnique(Self(), keys, OrderedKeys(t, s));
  }

  /** Selecting from the first of three transceivers takes its circuits and the third one's. */
  lemma PicksFirstAndThird(t: Interface -> Key, s: seq<Interface>, keys: seq<Key>, x: Interface, y: Interface)
    requires |keys| == 3 && x in s && y in s && t(x) == keys[0] && t(y) == keys[2]
    ensures x in PickFrom(t, s, keys, 0) && y in PickFrom(t, s, keys, 0)
  {
    ClassMembers(t, keys[0], s);
    ClassMembers(t, keys[2], s);
    assert PickFrom(t, s, keys, 2) == Class(t, keys[2], s) + PickFrom(t, s, keys, 4);
    assert PickFrom(t, s, keys, 0) == Class(t, keys[0], s) + PickFrom(t, s, keys, 2);
  }

  lemma ThreeKeys(t: Interface -> Key, s: seq<Interface>, a: Interface, b: Interface, c: Interface)
    requires forall x :: x in s <==> x == a || x == b || x == c
    requires KeysAscend([t(a), t(b), t(c)])
    ensures OrderedKeys(t, s) == [t(a), t(b), t(c)]
  {
    var keys := [t(a), t(b), t(c)];
    assert keys[0] == t(a) && keys[1] == t(b) && keys[2] == t(c);
    OrderedKeysAre(t, s, keys);
  }

  /** Three circuits on ascending transceivers: the even selection holds the first and the third. */
  lemma EvenOfThree(key: NameKey, a: Interface, b: Interface, c: Interface)
    requires Apart(key, a, b, c)
    requires KeysAscend([Transceiver(key)(a), Transceiver(key)(b), Transceiver(key)(c)])
    ensures a in Selected(key, [a, b, c], Even) && c in Selected(key, [a, b, c], Even)
  {
    var s := SortBy(ByName(key), [a, b, c]);
    PermutationMembers(s, [a, b, c]);
    ThreeKeys(Transceiver(key), s, a, b, c);
    PicksFirstAndThird(Transceiver(key), s, OrderedKeys(Transceiver(key), s), a, c);
    ThreeCircuits(key, a, b, c);
  }

  /** A-ends with keys (1, 5), (1, 1, 9) and (1, 2, 3): the even selection is (1, 5), (1, 2, 3), not in order. */
  lemma MixedDepthsOutOfOrder(key: NameKey, a: Interface, b: Interface, c: Interface)
    requires key(a.name) == [1, 5] && key(b.name) == [1, 1, 9] && key(c.name) == [1, 2, 3] && Apart(key, a, b, c)
    ensures !SortedBy(ByName(key), Selected(key, [a, b, c], Even))
  {
    MixedKeysAscend();
    MixedTransceivers(key, a, b, c);
    EvenOfThree(key, a, b, c);
    assert Clashes(key(a.name), key(c.name)) by { assert Clashes([1, 5], [1, 2, 3]); }
    SelectionInCircuitOrder(key, [a, b, c], Even);
  }

  lemma MixedTransceivers(key: NameKey, a: Interface, b: Interface, c: Interface)
    requires key(a.name) == [1, 5] && key(b.name) == [1, 1, 9] && key(c.name) == [1, 2, 3]
    ensures Transceiver(key)(a) == [1] && Transceiver(key)(b) == [1, 1] && Transceiver(key)(c) == [1, 2]
  {
    assert [1, 5][..1] == [1] && [1, 1, 9][..2] == [1, 1] && [1, 2, 3][..2] == [1, 2];
  }

  lemma MixedKeysAscend()
    ensures KeysAscend([[1], [1, 1], [1, 2]])
  {
    var keys: seq<Key> := [[1], [1, 1], [1, 2]];
    assert keys[0][1..] == [] && keys[1][1..] == [1] && keys[2][1..] == [2];
  }

  /** Such A-ends are eth1/5, eth1/1/9 and eth1/2/3. */
  lemma PortsOutOfOrder(details: string)
    ensures var a := Interface(PortPair(1, 5), PortName(9, 1, 1), details);
            var b := Interface(PortName(1, 1, 9), PortName(9, 1, 2), details);
            var c := Interface(PortName(1, 2, 3), PortName(9, 1, 3), details);
            !SortedBy(ByName(PortKey), Selected(PortKey, [a, b, c], Even))
  {
    var a := Interface(PortPair(1, 5), PortName(9, 1, 1), details);
    var b := Interface(PortName(1, 1, 9), PortName(9, 1, 2), details);
    var c := Interface(PortName(1, 2, 3), PortName(9, 1, 3), details);
    PortPairReads(1, 5);
    PortKeyReads(9, 1, 1);
    PortKeyReads(1, 1, 9);
    PortKeyReads(9, 1, 2);
    PortKeyReads(1, 2, 3);
    PortKeyReads(9, 1, 3);
    NamesDiffer(a.name, b.name, c.name);
    assert FromOneToNine(PortKey, a) && FromOneToNine(PortKey, b) && FromOneToNine(PortKey, c);
    MixedDepthsOutOfOrder(PortKey, a, b, c);
  }

  lemma NamesDiffer(x: string, y: string, z: string)
    requires PortKey(x) == [1, 5] && PortKey(y) == [1, 1, 9] && PortKey(z) == [1, 2, 3]
    ensures x != y && x != z && y != z
  {
    assert |PortKey(x)| == 2 && |PortKey(y)| == 3 && |PortKey(z)| == 3;
    assert PortKey(y)[1] == 1 && PortKey(z)[1] == 2;
  }

  /** Cabled from unit 1 to unit 9. */
  predicate FromOneToNine(key: NameKey, x: Interface) {
    Cabled(x) && key(x.name) != [] && key(x.name)[0] == 1 && key(x.neighbor) != [] && key(x.neighbor)[0] == 9
  }

  /** Every second key from `i` on. */
  ghost predicate PicksKey(keys: seq<Key>, i: nat, k: Key)
    decreases |keys| - i
  {
    i < |keys| && (keys[i] == k || PicksKey(keys, i + 2, k))
  }

  lemma {:induction false} PickKeepsTies(t: Interface -> Key, rank: Interface -> Key, s: seq<Interface>,
                                         keys: seq<Key>, i: nat, k: Key, tk: Key)
    requires Distinct(keys) && forall x :: x in s && rank(x) == k ==> t(x) == tk
    ensures Class(rank, k, PickFrom(t, s, keys, i)) == if PicksKey(keys, i, tk) then Class(rank, k, s) else []
    decreases |keys| - i
  {
    if i < |keys| {
      PickKeepsTies(t, rank, s, keys, i + 2, k, tk);
      ClassWithin(t, rank, s, k, tk, keys[i]);
      ClassConcat(rank, k, Class(t, keys[i], s), PickFrom(t, s, keys, i + 2));
      if keys[i] == tk { PickedOnce(keys, i, i + 2); }
    }
  }

  lemma {:induction false} PickedOnce(keys: seq<Key>, i: nat, from: nat)
    requires Distinct(keys) && i < |keys| && i < from
    ensures !PicksKey(keys, from, keys[i])
    decreases |keys| - from
  {
    if from < |keys| { PickedOnce(keys, i, from + 2); }
  }

  /** Sorting and selecting never reorder circuits whose A-ends have the same sort key: one selection holds all
      of them, in the order in which they were first reported. */
  lemma TiesKeepReportOrder(key: NameKey, ifs: seq<Interface>, k: Key, parity: Parity)
    ensures var picked := Class(ByName(key), k, Selected(key, ifs, parity));
            picked == Class(ByName(key), k, Circuits(key, ifs)) || picked == []
  {
    var s, t := SortBy(ByName(key), Circuits(key, ifs)), Transceiver(key);
    KeysDistinct(t, s, |s|);
    PermutationDistinct(KeysTo(t, s, |s|), OrderedKeys(t, s));
    PickKeepsTies(t, ByName(key), s, OrderedKeys(t, s), if parity == Even then 0 else 1, k, DropLast(k));
    SortByStable(ByName(key), k, Circuits(key, ifs));
  }

  // ---------- symmetric cabling ----------

  predicate LowerEnd(key: NameKey, i: Interface) { Cabled(i) && LexLe(key(i.name), key(i.neighbor)) }

  ghost predicate Mutual(ifs: seq<Interface>, i: Interface) {
    exists b :: b in ifs && b.name == i.neighbor && b.neighbor == i.name
  }

  /** Named interfaces, both ends of every circuit listed, and sort keys that tell names apart. */
  ghost predicate Symmetric(key: NameKey, ifs: seq<Interface>) {
    (forall a :: a in ifs ==> a.name != []) &&
    (forall a, b :: a in ifs && b in ifs && a.name == b.name ==> a == b) &&
    (forall a, b :: a in ifs && b in ifs && key(a.name) == key(b.name) ==> a.name == b.name) &&
    forall a :: a in ifs && Cabled(a) ==> Mutual(ifs, a)
  }

  lemma {:induction false} NamedFinds(ifs: seq<Interface>, i: nat, n: nat)
    requires i < n <= |ifs|
    ensures var r := NamedTo(ifs, ifs[i].name, n); r.Some? && r.value in ifs && r.value.name == ifs[i].name
  {
    if ifs[n - 1].name != ifs[i].name { NamedFinds(ifs, i, n - 1); }
  }

  lemma NamedIs(key: NameKey, ifs: seq<Interface>, b: Interface)
    requires Symmetric(key, ifs) && b in ifs
    ensures NamedTo(ifs, b.name, |ifs|) == Some(b)
  {
    var i :| 0 <= i < |ifs| && ifs[i] == b;
    NamedFinds(ifs, i, |ifs|);
  }

  /** Under symmetric cabling each representative is the lower end of its circuit. */
  lemma RepresentativeIsLower(key: NameKey, ifs: seq<Interface>, i: Interface)
    requires Symmetric(key, ifs) && i in ifs && Cabled(i)
    ensures var r := Representative(key, ifs, i); r in ifs && LowerEnd(key, r) && CircuitOf(r) == CircuitOf(i)
  {
    assert Mutual(ifs, i);
    var b :| b in ifs && b.name == i.neighbor && b.neighbor == i.name;
    LexTotal(key(i.name), key(i.neighbor));
    if LexLe(key(i.name), key(i.neighbor)) { NamedIs(key, ifs, i); } else { NamedIs(key, ifs, b); }
  }

  lemma LowerEndUnique(key: NameKey, ifs: seq<Interface>, l: Interface, m: Interface)
    requires Symmetric(key, ifs) && l in ifs && m in ifs && LowerEnd(key, l) && LowerEnd(key, m)
    requires CircuitOf(l) == CircuitOf(m)
    ensures l == m
  {
    assert m.name in CircuitOf(l) && l.name in CircuitOf(m);
    if l.name != m.name {
      assert l.neighbor == m.name && m.neighbor == l.name;
      LexAntisymmetric(key(l.name), key(m.name));
    }
  }

  lemma {:induction false} SeenMembers(ifs: seq<Interface>, i: nat, n: nat)
    requires i < n <= |ifs| && Cabled(ifs[i])
    ensures CircuitOf(ifs[i]) in SeenTo(ifs, n)
  {
    if i < n - 1 { SeenMembers(ifs, i, n - 1); }
  }

  lemma CircuitsAreLower(key: NameKey, ifs: seq<Interface>, x: Interface)
    requires Symmetric(key, ifs) && x in Circuits(key, ifs)
    ensures x in ifs && LowerEnd(key, x)
  {
    OneRepresentativeEach(key, ifs);
    FirstsCoverCircuits(ifs, |ifs|);
    var j :| 0 <= j < |Circuits(key, ifs)| && Circuits(key, ifs)[j] == x;
    RepresentativeIsLower(key, ifs, FirstsTo(ifs, |ifs|)[j]);
  }

  lemma LowerAreCircuits(key: NameKey, ifs: seq<Interface>, x: Interface)
    requires Symmetric(key, ifs) && x in ifs && LowerEnd(key, x)
    ensures x in Circuits(key, ifs)
  {
    var j := FindFirst(ifs, x);
    var first := FirstsTo(ifs, |ifs|)[j];
    OneRepresentativeEach(key, ifs);
    RepresentativeIsLower(key, ifs, first);
    LowerEndUnique(key, ifs, x, Representative(key, ifs, first));
    assert Circuits(key, ifs)[j] == x;
  }

  lemma FindFirst(ifs: seq<Interface>, x: Interface) returns (j: nat)
    requires x in ifs && Cabled(x)
    ensures j < |FirstsTo(ifs, |ifs|)| && CircuitOf(FirstsTo(ifs, |ifs|)[j]) == CircuitOf(x)
    ensures FirstsTo(ifs, |ifs|)[j] in ifs && Cabled(FirstsTo(ifs, |ifs|)[j])
  {
    var i :| 0 <= i < |ifs| && ifs[i] == x;
    SeenMembers(ifs, i, |ifs|);
    FirstsCoverCircuits(ifs, |ifs|);
    j :| 0 <= j < |FirstsTo(ifs, |ifs|)| && CircuitOf(FirstsTo(ifs, |ifs|)[j]) == CircuitOf(x);
  }

  lemma CircuitsDistinct(key: NameKey, ifs: seq<Interface>)
    requires Symmetric(key, ifs)
    ensures Distinct(Circuits(key, ifs))
  {
    var firsts := FirstsTo(ifs, |ifs|);
    OneRepresentativeEach(key, ifs);
    FirstsCoverCircuits(ifs, |ifs|);
    forall i, j | 0 <= i < j < |firsts| ensures Circuits(key, ifs)[i] != Circuits(key, ifs)[j] {
      RepresentativeIsLower(key, ifs, firsts[i]);
      RepresentativeIsLower(key, ifs, firsts[j]);
      assert CircuitOf(firsts[i]) != CircuitOf(firsts[j]);
    }
  }

  /** The representatives are exactly the lower ends, each once. */
  lemma CircuitsListLowerEnds(key: NameKey, ifs: seq<Interface>)
    requires Symmetric(key, ifs)
    ensures Distinct(Circuits(key, ifs))
    ensures forall x :: x in Circuits(key, ifs) <==> x in ifs && LowerEnd(key, x)
  {
    CircuitsDistinct(key, ifs);
    forall x ensures x in Circuits(key, ifs) <==> x in ifs && LowerEnd(key, x) {
      if x in Circuits(key, ifs) { CircuitsAreLower(key, ifs, x); }
      if x in ifs && LowerEnd(key, x) { LowerAreCircuits(key, ifs, x); }
    }
  }

  lemma SymmetricByMembers(key: NameKey, a: seq<Interface>, b: seq<Interface>)
    requires Symmetric(key, a) && forall x :: x in a <==> x in b
    ensures Symmetric(key, b)
  {
    forall i | i in b && Cabled(i) ensures Mutual(b, i) {
      assert Mutual(a, i);
    }
  }

  /** The selection depends on which interfaces are listed, not on their order. */
  lemma OrderIrrelevant(key: NameKey, a: seq<Interface>, b: seq<Interface>, parity: Parity)
    requires Symmetric(key, a) && forall x :: x in a <==> x in b
    ensures Selected(key, a, parity) == Selected(key, b, parity)
  {
    SymmetricByMembers(key, a, b);
    CircuitsListLowerEnds(key, a);
    CircuitsListLowerEnds(key, b);
    SameElementsPermutation(Circuits(key, a), Circuits(key, b));
    SortedCircuitsEqual(key, a, b);
  }

  lemma SortedCircuitsEqual(key: NameKey, a: seq<Interface>, b: seq<Interface>)
    requires Symmetric(key, a) && multiset(Circuits(key, a)) == multiset(Circuits(key, b))
    requires forall x :: x in Circuits(key, a) ==> x in a
    ensures SortBy(ByName(key), Circuits(key, a)) == SortBy(ByName(key), Circuits(key, b))
  {
    var s, f := SortBy(ByName(key), Circuits(key, a)), ByName(key);
    SortBySorts(f, Circuits(key, a));
    SortBySorts(f, Circuits(key, b));
    PermutationMembers(s, Circuits(key, a));
    forall x, y | x in s && y in s && f(x) == f(y) ensures x == y {
      assert x in a && y in a && key(x.name) == key(y.name);
    }
    SortedUnique(f, s, SortBy(f, Circuits(key, b)));
  }

  /** The selection as it is called, with keys read off the interface names. */
  method SelectSnakeCircuitAEnds(ifs: seq<Interface>, parity: Parity) returns (r: Option<seq<Interface>>)
    ensures r.None? <==> parity.Unknown?
    ensures r.Some? ==> r.value == Selected(PortKey, ifs, parity)
  {
    r := SelectAEnds(PortKey, ifs, parity);
  }
}
