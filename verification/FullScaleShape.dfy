/** The shape check of the full-scale EBB topology: which role/AFI combinations it must hold and how a
    partitioned family has to cover its peer range. */
module FullScaleShape {
  import opened Sequences
  import opened Orders
  import Topology

  datatype Role = Uplink | DcP1 | DcP2 | DcP3 | DcP4 | MpP1 | MpP2 | MpP3 | MpP4 | Bgpmon | OtherRole(name: string)

  datatype RoleAfi = RoleAfi(role: Role, afi: Topology.Afi)

  const BGPMON: RoleAfi := RoleAfi(Bgpmon, Topology.V6)
  const EBGP_PEERS := 140
  const IBGP_PEERS := 62
  const BGPMON_PEERS := 2

  const REQUIRED: seq<RoleAfi> := [
    RoleAfi(Uplink, Topology.V4), RoleAfi(Uplink, Topology.V6), RoleAfi(DcP1, Topology.V4), RoleAfi(DcP1, Topology.V6),
    RoleAfi(DcP2, Topology.V4), RoleAfi(DcP2, Topology.V6), RoleAfi(DcP3, Topology.V4), RoleAfi(DcP3, Topology.V6),
    RoleAfi(DcP4, Topology.V4), RoleAfi(DcP4, Topology.V6), RoleAfi(MpP1, Topology.V4), RoleAfi(MpP1, Topology.V6),
    RoleAfi(MpP2, Topology.V4), RoleAfi(MpP2, Topology.V6), RoleAfi(MpP3, Topology.V4), RoleAfi(MpP3, Topology.V6),
    RoleAfi(MpP4, Topology.V4), RoleAfi(MpP4, Topology.V6)]

  /** The peers a supported role/AFI combination must have. */
  function Expected(k: RoleAfi): (r: Option<nat>) {
    match k.role
    case OtherRole(_) => None
    case Bgpmon => if k.afi == Topology.V6 then Some(BGPMON_PEERS) else None
    case Uplink => Some(EBGP_PEERS)
    case _ => Some(IBGP_PEERS)
  }

  datatype Partition = Partition(family: string, ordinal: int, start: int, total: int)

  datatype Leaf = Leaf(name: string, key: RoleAfi, peers: nat, partition: Option<Partition>)

  function Ordinal(l: Leaf): (r: int) { if l.partition.Some? then l.partition.value.ordinal else 0 }
  function Start(l: Leaf): (r: int) { if l.partition.Some? then l.partition.value.start else 0 }
  function End(l: Leaf): (r: int) { Start(l) + l.peers }
  function Total(l: Leaf): (r: int) { if l.partition.Some? then l.partition.value.total else 0 }

  // ---------- one partition family ----------

  function OrdinalKey(l: Leaf): (k: Key) { [Ordinal(l)] }

  function PeersTo(ls: seq<Leaf>, n: nat): (r: nat)
    requires n <= |ls|
  {
    if n == 0 then 0 else PeersTo(ls, n - 1) + ls[n - 1].peers
  }

  /** What the loop over the sorted leaves checks at position `i`. */
  predicate InPlace(ls: seq<Leaf>, i: nat, expected: nat)
    requires i < |ls|
  {
    Ordinal(ls[i]) == i && Start(ls[i]) == PeersTo(ls, i) && Total(ls[i]) == expected
  }

  ghost predicate Consecutive(ls: seq<Leaf>, expected: nat) {
    (forall i :: 0 <= i < |ls| ==> InPlace(ls, i, expected)) && PeersTo(ls, |ls|) == expected
  }

  ghost predicate Covered(ls: seq<Leaf>, x: int) { exists l :: l in ls && Start(l) <= x < End(l) }

  /** The leaves' index intervals tile [0, expected) in ordinal order: no gap, no overlap, ordinals 0..k-1. */
  ghost predicate Tiles(ls: seq<Leaf>, expected: nat) {
    Distinct(ls) &&
    (forall a, b :: a in ls && b in ls && Ordinal(a) == Ordinal(b) ==> a == b) &&
    (forall a :: a in ls ==> 0 <= Ordinal(a) < |ls| && 0 <= Start(a) && End(a) <= expected && Total(a) == expected) &&
    (forall a, b :: a in ls && b in ls && Ordinal(a) < Ordinal(b) ==> End(a) <= Start(b)) &&
    forall x :: 0 <= x < expected ==> Covered(ls, x)
  }

  lemma {:induction false} PeersMonotone(ls: seq<Leaf>, m: nat, n: nat)
    requires m <= n <= |ls|
    ensures PeersTo(ls, m) <= PeersTo(ls, n)
  {
    if m < n { PeersMonotone(ls, m, n - 1); }
  }

  lemma {:induction false} FindCover(ls: seq<Leaf>, x: int, n: nat) returns (i: nat)
    requires n <= |ls| && 0 <= x < PeersTo(ls, n)
    ensures i < n && PeersTo(ls, i) <= x < PeersTo(ls, i + 1)
  {
    if x < PeersTo(ls, n - 1) { i := FindCover(ls, x, n - 1); } else { i := n - 1; }
  }

  lemma ConsecutivePair(ls: seq<Leaf>, expected: nat, a: Leaf, b: Leaf)
    requires Consecutive(ls, expected) && a in ls && b in ls
    ensures Ordinal(a) == Ordinal(b) ==> a == b
    ensures Ordinal(a) < Ordinal(b) ==> End(a) <= Start(b)
  {
    var i :| 0 <= i < |ls| && ls[i] == a;
    var j :| 0 <= j < |ls| && ls[j] == b;
    assert InPlace(ls, i, expected) && InPlace(ls, j, expected);
    if i < j { PeersMonotone(ls, i + 1, j); }
  }

  lemma ConsecutiveBounds(ls: seq<Leaf>, expected: nat, a: Leaf)
    requires Consecutive(ls, expected) && a in ls
    ensures 0 <= Ordinal(a) < |ls| && 0 <= Start(a) && End(a) <= expected && Total(a) == expected
  {
    var i :| 0 <= i < |ls| && ls[i] == a;
    assert InPlace(ls, i, expected);
    PeersMonotone(ls, i + 1, |ls|);
  }

  lemma ConsecutiveTiles(ls: seq<Leaf>, expected: nat)
    requires Consecutive(ls, expected)
    ensures Tiles(ls, expected)
  {
    forall i, j | 0 <= i < j < |ls| ensures ls[i] != ls[j] {
      assert InPlace(ls, i, expected) && InPlace(ls, j, expected);
    }
    forall a, b | a in ls && b in ls
      ensures (Ordinal(a) == Ordinal(b) ==> a == b) && (Ordinal(a) < Ordinal(b) ==> End(a) <= Start(b))
    {
      ConsecutivePair(ls, expected, a, b);
    }
    forall a | a in ls ensures 0 <= Ordinal(a) < |ls| && 0 <= Start(a) && End(a) <= expected && Total(a) == expected {
      ConsecutiveBounds(ls, expected, a);
    }
    forall x | 0 <= x < expected ensures Covered(ls, x) {
      var i := FindCover(ls, x, |ls|);
      assert InPlace(ls, i, expected) && ls[i] in ls;
    }
  }

  // ---------- tiling forces the checked layout ----------

  ghost predicate StrictOrdinals(ls: seq<Leaf>) { forall i, j :: 0 <= i < j < |ls| ==> Ordinal(ls[i]) < Ordinal(ls[j]) }

  lemma {:induction false} OrdinalAtLeast(ls: seq<Leaf>, i: nat)
    requires StrictOrdinals(ls) && i < |ls| && 0 <= Ordinal(ls[0])
    ensures i <= Ordinal(ls[i])
  {
    if i > 0 { OrdinalAtLeast(ls, i - 1); }
  }

  lemma {:induction false} OrdinalAtMost(ls: seq<Leaf>, i: nat)
    requires StrictOrdinals(ls) && i < |ls| && Ordinal(ls[|ls| - 1]) < |ls|
    ensures Ordinal(ls[i]) <= i
    decreases |ls| - i
  {
    if i < |ls| - 1 { OrdinalAtMost(ls, i + 1); }
  }

  lemma SortedOrdinals(ls: seq<Leaf>, expected: nat)
    requires Tiles(ls, expected) && SortedBy(OrdinalKey, ls)
    ensures StrictOrdinals(ls)
  {
    forall i, j | 0 <= i < j < |ls| ensures Ordinal(ls[i]) < Ordinal(ls[j]) {
      assert LexLe(OrdinalKey(ls[i]), OrdinalKey(ls[j]));
      assert ls[i] in ls && ls[j] in ls && ls[i] != ls[j];
    }
  }

  /** Positions are ordinals. */
  ghost predicate Placed(ls: seq<Leaf>) { forall i :: 0 <= i < |ls| ==> Ordinal(ls[i]) == i }

  lemma TilesPlaced(ls: seq<Leaf>, expected: nat)
    requires Tiles(ls, expected) && SortedBy(OrdinalKey, ls)
    ensures Placed(ls)
  {
    SortedOrdinals(ls, expected);
    forall i | 0 <= i < |ls| ensures Ordinal(ls[i]) == i {
      assert ls[0] in ls && ls[|ls| - 1] in ls;
      OrdinalAtLeast(ls, i);
      OrdinalAtMost(ls, i);
    }
  }

  lemma {:induction false} StartIsPrefix(ls: seq<Leaf>, expected: nat, i: nat)
    requires Tiles(ls, expected) && Placed(ls) && i < |ls|
    ensures Start(ls[i]) == PeersTo(ls, i)
  {
    assert ls[i] in ls;
    if i > 0 {
      StartIsPrefix(ls, expected, i - 1);
      assert ls[i - 1] in ls;
    }
    if PeersTo(ls, i) < Start(ls[i]) {
      NoGap(ls, expected, PeersTo(ls, i), i);
    }
  }

  /** A point below the i-th start lies in an earlier interval. */
  lemma NoGap(ls: seq<Leaf>, expected: nat, x: int, i: nat)
    requires Tiles(ls, expected) && Placed(ls) && i < |ls| && 0 <= x < Start(ls[i])
    ensures i > 0 && x < End(ls[i - 1])
  {
    assert ls[i] in ls;
    assert Covered(ls, x);
    var l :| l in ls && Start(l) <= x < End(l);
    var j :| 0 <= j < |ls| && ls[j] == l;
    if j < i - 1 { assert ls[i - 1] in ls && End(ls[j]) <= Start(ls[i - 1]); }
  }

  lemma {:induction false} TilesTotal(ls: seq<Leaf>, expected: nat)
    requires Tiles(ls, expected) && Placed(ls)
    ensures PeersTo(ls, |ls|) == expected
  {
    if |ls| > 0 {
      var last := |ls| - 1;
      assert ls[last] in ls;
      StartIsPrefix(ls, expected, last);
      if End(ls[last]) < expected { NothingAfterLast(ls, expected, End(ls[last])); }
    } else {
      assert expected == 0 || Covered(ls, 0);
    }
  }

  lemma NothingAfterLast(ls: seq<Leaf>, expected: nat, x: int)
    requires Tiles(ls, expected) && Placed(ls) && |ls| > 0 && 0 <= x < expected
    ensures x < End(ls[|ls| - 1])
  {
    assert Covered(ls, x);
    var l :| l in ls && Start(l) <= x < End(l);
    var j, last :| 0 <= j < |ls| && ls[j] == l && last == |ls| - 1;
    assert ls[last] in ls;
    if j < last { assert End(ls[j]) <= Start(ls[last]); }
  }

  /** On leaves sorted by ordinal the loop's arithmetic and the tiling are the same condition. */
  lemma ConsecutiveIffTiles(ls: seq<Leaf>, expected: nat)
    requires SortedBy(OrdinalKey, ls)
    ensures Consecutive(ls, expected) <==> Tiles(ls, expected)
  {
    if Consecutive(ls, expected) { ConsecutiveTiles(ls, expected); }
    if Tiles(ls, expected) {
      TilesPlaced(ls, expected);
      TilesTotal(ls, expected);
      forall i | 0 <= i < |ls| ensures InPlace(ls, i, expected) {
        StartIsPrefix(ls, expected, i);
        assert ls[i] in ls;
      }
    }
  }

  lemma TilesPermute(a: seq<Leaf>, b: seq<Leaf>, expected: nat)
    requires multiset(a) == multiset(b) && |a| == |b| && Tiles(a, expected)
    ensures Tiles(b, expected)
  {
    PermutationMembers(a, b);
    PermutationDistinct(a, b);
    forall x | 0 <= x < expected ensures Covered(b, x) { assert Covered(a, x); }
  }

  /** The loop over the leaves sorted by ordinal. */
  method CheckFamily(ls: seq<Leaf>, expected: nat) returns (ok: bool)
    ensures ok <==> Tiles(ls, expected)
  {
    var ordered := SortBy(OrdinalKey, ls);
    SortBySorts(OrdinalKey, ls);
    var start, contiguous := 0, true;
    for i := 0 to |ordered|
      invariant start == PeersTo(ordered, i)
      invariant contiguous <==> forall j :: 0 <= j < i ==> InPlace(ordered, j, expected)
    {
      if Ordinal(ordered[i]) != i || Start(ordered[i]) != start || Total(ordered[i]) != expected {
        contiguous := false;
      }
      assert InPlace(ordered, i, expected) <==>
             Ordinal(ordered[i]) == i && Start(ordered[i]) == start && Total(ordered[i]) == expected;
      start := start + ordered[i].peers;
    }
    ok := contiguous && start == expected;
    ConsecutiveIffTiles(ordered, expected);
    if Tiles(ls, expected) { TilesPermute(ls, ordered, expected); }
    if Tiles(ordered, expected) { TilesPermute(ordered, ls, expected); }
  }

  // ---------- one role/AFI combination ----------

  /** The groups of one combination among the first `n`, in authored order. */
  function Select(gs: seq<Leaf>, k: RoleAfi, n: nat): (r: seq<Leaf>)
    requires n <= |gs|
  {
    if n == 0 then [] else Select(gs, k, n - 1) + if gs[n - 1].key == k then [gs[n - 1]] else []
  }

  predicate Partitioned(ls: seq<Leaf>) { forall i :: 0 <= i < |ls| ==> ls[i].partition.Some? }

  predicate OneFamily(ls: seq<Leaf>)
    requires ls != [] && Partitioned(ls)
  {
    forall i :: 0 <= i < |ls| ==> ls[i].partition.value.family == ls[0].partition.value.family
  }

  /** One whole group of the expected size, or one complete partition family. */
  ghost predicate Allowed(k: RoleAfi, ls: seq<Leaf>)
    requires ls != []
  {
    Expected(k).Some? &&
    if |ls| == 1 && ls[0].partition.None? then ls[0].peers == Expected(k).value
    else k != BGPMON && Partitioned(ls) && OneFamily(ls) && Tiles(ls, Expected(k).value)
  }

  datatype Issue =
    | Unsupported(key: RoleAfi)
    | WrongCount(key: RoleAfi)
    | PartitionedOptional(key: RoleAfi)
    | MixedGroups(key: RoleAfi)
    | NotContiguous(key: RoleAfi)
    | Missing(key: RoleAfi)

  method CheckKey(k: RoleAfi, ls: seq<Leaf>) returns (issue: Option<Issue>)
    requires ls != []
    ensures issue.None? <==> Allowed(k, ls)
    ensures issue.Some? ==> issue.value.key == k
  {
    if Expected(k).None? { return Some(Unsupported(k)); }
    var expected := Expected(k).value;
    if |ls| == 1 && ls[0].partition.None? {
      return if ls[0].peers != expected then Some(WrongCount(k)) else None;
    }
    if k == BGPMON { return Some(PartitionedOptional(k)); }
    if !Partitioned(ls) { return Some(MixedGroups(k)); }
    var contiguous := CheckFamily(ls, expected);
    issue := if !OneFamily(ls) || !contiguous then Some(NotContiguous(k)) else None;
  }

  // ---------- the whole topology ----------

  ghost predicate GroupedAt(gs: seq<Leaf>, n: nat, groups: map<RoleAfi, seq<Leaf>>, k: RoleAfi)
    requires n <= |gs|
  {
    (k in groups <==> Select(gs, k, n) != []) && (k in groups ==> groups[k] == Select(gs, k, n))
  }

  ghost predicate Grouped(gs: seq<Leaf>, n: nat, order: seq<RoleAfi>, groups: map<RoleAfi, seq<Leaf>>)
    requires n <= |gs|
  {
    (forall k :: k in order <==> k in groups) && forall k :: GroupedAt(gs, n, groups, k)
  }

  /** `groups_by_role_afi`. */
  method GroupByRoleAfi(gs: seq<Leaf>) returns (order: seq<RoleAfi>, groups: map<RoleAfi, seq<Leaf>>)
    ensures Grouped(gs, |gs|, order, groups)
  {
    order, groups := [], map[];
    assert Grouped(gs, 0, order, groups) by { forall k ensures GroupedAt(gs, 0, groups, k) {} }
    for n := 0 to |gs|
      invariant Grouped(gs, n, order, groups)
    {
      var k := gs[n].key;
      GroupStep(gs, n, order, groups);
      if k !in groups { order := order + [k]; }
      groups := groups[k := (if k in groups then groups[k] else []) + [gs[n]]];
    }
  }

  lemma GroupStep(gs: seq<Leaf>, n: nat, order: seq<RoleAfi>, groups: map<RoleAfi, seq<Leaf>>)
    requires n < |gs| && Grouped(gs, n, order, groups)
    ensures var k := gs[n].key;
            Grouped(gs, n + 1, if k in groups then order else order + [k],
                    groups[k := (if k in groups then groups[k] else []) + [gs[n]]])
  {
    var key, next := gs[n].key, n + 1;
    var after := groups[key := (if key in groups then groups[key] else []) + [gs[n]]];
    forall k ensures GroupedAt(gs, next, after, k) {
      assert GroupedAt(gs, n, groups, k);
      if k != key { assert Select(gs, k, next) == Select(gs, k, n); }
    }
  }

  /** A combination that the topology gets wrong: present but not allowed, or required but missing. */
  ghost predicate Faulty(gs: seq<Leaf>, k: RoleAfi) {
    var ls := Select(gs, k, |gs|);
    if ls == [] then k in REQUIRED else !Allowed(k, ls)
  }

  ghost predicate Reported(issues: seq<Issue>, k: RoleAfi) { exists i :: i in issues && i.key == k }

  lemma ReportedAppend(issues: seq<Issue>, i: Issue, k: RoleAfi)
    ensures Reported(issues + [i], k) <==> Reported(issues, k) || i.key == k
  {
    assert i in issues + [i];
    if Reported(issues, k) {
      var j :| j in issues && j.key == k;
      assert j in issues + [i];
    }
  }

  method CheckPresent(gs: seq<Leaf>, order: seq<RoleAfi>, groups: map<RoleAfi, seq<Leaf>>) returns (issues: seq<Issue>)
    requires Grouped(gs, |gs|, order, groups)
    ensures forall k :: Reported(issues, k) <==> k in order && Faulty(gs, k)
  {
    issues := [];
    for n := 0 to |order|
      invariant forall k :: Reported(issues, k) <==> k in order[..n] && Faulty(gs, k)
    {
      var k := order[n];
      assert k in order && GroupedAt(gs, |gs|, groups, k);
      var issue := CheckKey(k, groups[k]);
      assert order[..n + 1] == order[..n] + [k];
      if issue.Some? {
        forall j ensures Reported(issues + [issue.value], j) <==> Reported(issues, j) || j == k {
          ReportedAppend(issues, issue.value, j);
        }
        issues := issues + [issue.value];
      }
    }
    assert order[..|order|] == order;
  }

  method CheckMissing(order: seq<RoleAfi>, found: seq<Issue>) returns (issues: seq<Issue>)
    ensures forall k :: Reported(issues, k) <==> Reported(found, k) || (k in REQUIRED && k !in order)
  {
    issues := found;
    for n := 0 to |REQUIRED|
      invariant forall k :: Reported(issues, k) <==> Reported(found, k) || (k in REQUIRED[..n] && k !in order)
    {
      var k := REQUIRED[n];
      assert REQUIRED[..n + 1] == REQUIRED[..n] + [k];
      if k !in order {
        forall j ensures Reported(issues + [Missing(k)], j) <==> Reported(issues, j) || j == k {
          ReportedAppend(issues, Missing(k), j);
        }
        issues := issues + [Missing(k)];
      }
    }
    assert REQUIRED[..|REQUIRED|] == REQUIRED;
  }

  /** The issues name exactly the faulty combinations; none means the topology is accepted. */
  method Validate(gs: seq<Leaf>) returns (issues: seq<Issue>)
    ensures forall k :: Reported(issues, k) <==> Faulty(gs, k)
    ensures issues == [] <==> Accepted(gs)
  {
    var order, groups := GroupByRoleAfi(gs);
    var present := CheckPresent(gs, order, groups);
    issues := CheckMissing(order, present);
    forall k ensures Reported(issues, k) <==> Faulty(gs, k) {
      assert GroupedAt(gs, |gs|, groups, k);
    }
    if issues != [] {
      assert issues[0] in issues;
      assert Reported(issues, issues[0].key);
    }
  }

  ghost predicate Accepted(gs: seq<Leaf>) { forall k :: !Faulty(gs, k) }

  // ---------- the total ----------

  lemma {:induction false} PeersFirst(l: Leaf, ls: seq<Leaf>, n: nat)
    requires n <= |ls|
    ensures PeersTo([l] + ls, n + 1) == l.peers + PeersTo(ls, n)
  {
    if n > 0 { PeersFirst(l, ls, n - 1); } else { assert PeersTo([l] + ls, 0) == 0; }
  }

  lemma {:induction false} InsertKeepsPeers(l: Leaf, ls: seq<Leaf>)
    ensures |Insert(OrdinalKey, l, ls)| == |ls| + 1
    ensures PeersTo(Insert(OrdinalKey, l, ls), |ls| + 1) == l.peers + PeersTo(ls, |ls|)
  {
    if ls == [] || LexLe(OrdinalKey(l), OrdinalKey(ls[0])) {
      assert [l] + ls == Insert(OrdinalKey, l, ls);
      PeersFirst(l, ls, |ls|);
    } else {
      var rest := Insert(OrdinalKey, l, ls[1..]);
      InsertKeepsPeers(l, ls[1..]);
      PeersFirst(ls[0], rest, |rest|);
      assert ls == [ls[0]] + ls[1..];
      PeersFirst(ls[0], ls[1..], |ls| - 1);
    }
  }

  lemma InsertSortedPeers(l: Leaf, tail: seq<Leaf>, rest: seq<Leaf>)
    requires |tail| == |rest| && PeersTo(tail, |rest|) == PeersTo(rest, |rest|)
    ensures |Insert(OrdinalKey, l, tail)| == |rest| + 1
    ensures PeersTo(Insert(OrdinalKey, l, tail), |rest| + 1) == PeersTo([l] + rest, |rest| + 1)
  {
    InsertKeepsPeers(l, tail);
    PeersFirst(l, rest, |rest|);
  }

  lemma {:induction false} SortKeepsPeers(ls: seq<Leaf>)
    ensures PeersTo(SortBy(OrdinalKey, ls), |ls|) == PeersTo(ls, |ls|)
  {
    if ls != [] {
      var l, rest := ls[0], ls[1..];
      assert ls == [l] + rest;
      SortKeepsPeers(rest);
      InsertSortedPeers(l, SortBy(OrdinalKey, rest), rest);
      assert SortBy(OrdinalKey, ls) == Insert(OrdinalKey, l, SortBy(OrdinalKey, rest));
    }
  }

  /** However a combination is split, its groups add up to the expected count. */
  lemma AllowedTotal(k: RoleAfi, ls: seq<Leaf>)
    requires ls != [] && Allowed(k, ls)
    ensures PeersTo(ls, |ls|) == Expected(k).value
  {
    if |ls| == 1 && ls[0].partition.None? {
      assert PeersTo(ls, 1) == PeersTo(ls, 0) + ls[0].peers;
    } else {
      TilesSum(ls, Expected(k).value);
    }
  }

  lemma TilesSum(ls: seq<Leaf>, expected: nat)
    requires Tiles(ls, expected)
    ensures PeersTo(ls, |ls|) == expected
  {
    var ordered := SortBy(OrdinalKey, ls);
    SortBySorts(OrdinalKey, ls);
    TilesPermute(ls, ordered, expected);
    TilesPlaced(ordered, expected);
    TilesTotal(ordered, expected);
    SortKeepsPeers(ls);
  }

  function KeyPeers(gs: seq<Leaf>, k: RoleAfi, n: nat): (r: nat)
    requires n <= |gs|
  {
    if n == 0 then 0 else KeyPeers(gs, k, n - 1) + if gs[n - 1].key == k then gs[n - 1].peers else 0
  }

  function RolePeers(gs: seq<Leaf>, role: Role, n: nat): (r: nat)
    requires n <= |gs|
  {
    if n == 0 then 0 else RolePeers(gs, role, n - 1) + if gs[n - 1].key.role == role then gs[n - 1].peers else 0
  }

  lemma {:induction false} PeersPrefix(a: seq<Leaf>, b: seq<Leaf>, n: nat)
    requires n <= |a|
    ensures PeersTo(a + b, n) == PeersTo(a, n)
  {
    if n > 0 { PeersPrefix(a, b, n - 1); }
  }

  lemma {:induction false} KeyPeersIsSum(gs: seq<Leaf>, k: RoleAfi, n: nat)
    requires n <= |gs|
    ensures KeyPeers(gs, k, n) == PeersTo(Select(gs, k, n), |Select(gs, k, n)|)
  {
    if n > 0 {
      KeyPeersIsSum(gs, k, n - 1);
      var before := Select(gs, k, n - 1);
      if gs[n - 1].key == k { PeersPrefix(before, [gs[n - 1]], |before|); } else { assert Select(gs, k, n) == before; }
    }
  }

  lemma {:induction false} RolePeersSplit(gs: seq<Leaf>, role: Role, n: nat)
    requires n <= |gs|
    ensures RolePeers(gs, role, n) ==
            KeyPeers(gs, RoleAfi(role, Topology.V4), n) + KeyPeers(gs, RoleAfi(role, Topology.V6), n)
  {
    if n > 0 {
      RolePeersSplit(gs, role, n - 1);
      assert gs[n - 1].key.afi == Topology.V4 || gs[n - 1].key.afi == Topology.V6;
    }
  }

  predicate IsDc(role: Role) { role == DcP1 || role == DcP2 || role == DcP3 || role == DcP4 }

  predicate IsMp(role: Role) { role == MpP1 || role == MpP2 || role == MpP3 || role == MpP4 }

  function DcPeers(gs: seq<Leaf>, n: nat): (r: nat)
    requires n <= |gs|
  {
    if n == 0 then 0 else DcPeers(gs, n - 1) + if IsDc(gs[n - 1].key.role) then gs[n - 1].peers else 0
  }

  function MpPeers(gs: seq<Leaf>, n: nat): (r: nat)
    requires n <= |gs|
  {
    if n == 0 then 0 else MpPeers(gs, n - 1) + if IsMp(gs[n - 1].key.role) then gs[n - 1].peers else 0
  }

  lemma {:induction false} DcPeersSplit(gs: seq<Leaf>, n: nat)
    requires n <= |gs|
    ensures DcPeers(gs, n) ==
            RolePeers(gs, DcP1, n) + RolePeers(gs, DcP2, n) + RolePeers(gs, DcP3, n) + RolePeers(gs, DcP4, n)
  {
    if n > 0 { DcPeersSplit(gs, n - 1); }
  }

  lemma {:induction false} MpPeersSplit(gs: seq<Leaf>, n: nat)
    requires n <= |gs|
    ensures MpPeers(gs, n) ==
            RolePeers(gs, MpP1, n) + RolePeers(gs, MpP2, n) + RolePeers(gs, MpP3, n) + RolePeers(gs, MpP4, n)
  {
    if n > 0 { MpPeersSplit(gs, n - 1); }
  }

  lemma {:induction false} PeersByRole(gs: seq<Leaf>, n: nat)
    requires n <= |gs| && forall i :: 0 <= i < n ==> !gs[i].key.role.OtherRole?
    ensures PeersTo(gs, n) == RolePeers(gs, Uplink, n) + DcPeers(gs, n) + MpPeers(gs, n) + RolePeers(gs, Bgpmon, n)
  {
    if n > 0 { PeersByRole(gs, n - 1); }
  }

  lemma AcceptedKey(gs: seq<Leaf>, k: RoleAfi)
    requires Accepted(gs)
    ensures Select(gs, k, |gs|) == [] ==> KeyPeers(gs, k, |gs|) == 0 && k !in REQUIRED
    ensures Select(gs, k, |gs|) != [] ==> Expected(k).Some? && KeyPeers(gs, k, |gs|) == Expected(k).value
  {
    assert !Faulty(gs, k);
    KeyPeersIsSum(gs, k, |gs|);
    if Select(gs, k, |gs|) != [] { AllowedTotal(k, Select(gs, k, |gs|)); }
  }

  lemma {:induction false} SelectsOwn(gs: seq<Leaf>, i: nat, n: nat)
    requires i < n <= |gs|
    ensures Select(gs, gs[i].key, n) != []
  {
    if i < n - 1 { SelectsOwn(gs, i, n - 1); }
  }

  /** A required role contributes its expected count in both address families. */
  lemma {:induction false} RequiredRole(gs: seq<Leaf>, role: Role)
    requires Accepted(gs) && RoleAfi(role, Topology.V4) in REQUIRED && RoleAfi(role, Topology.V6) in REQUIRED
    ensures RolePeers(gs, role, |gs|) == 2 * if role == Uplink then EBGP_PEERS else IBGP_PEERS
  {
    RolePeersSplit(gs, role, |gs|);
    AcceptedKey(gs, RoleAfi(role, Topology.V4));
    AcceptedKey(gs, RoleAfi(role, Topology.V6));
  }

  ghost predicate HasBgpmon(gs: seq<Leaf>) { Select(gs, BGPMON, |gs|) != [] }

  lemma BgpmonRole(gs: seq<Leaf>)
    requires Accepted(gs)
    ensures RolePeers(gs, Bgpmon, |gs|) == if HasBgpmon(gs) then BGPMON_PEERS else 0
  {
    RolePeersSplit(gs, Bgpmon, |gs|);
    AcceptedKey(gs, RoleAfi(Bgpmon, Topology.V4));
    AcceptedKey(gs, BGPMON);
  }

  lemma NoOtherRole(gs: seq<Leaf>)
    requires Accepted(gs)
    ensures forall i :: 0 <= i < |gs| ==> !gs[i].key.role.OtherRole?
  {
    forall i | 0 <= i < |gs| ensures !gs[i].key.role.OtherRole? {
      SelectsOwn(gs, i, |gs|);
      AcceptedKey(gs, gs[i].key);
    }
  }

  lemma RequiredInBoth(role: Role)
    requires !role.OtherRole? && role != Bgpmon
    ensures RoleAfi(role, Topology.V4) in REQUIRED && RoleAfi(role, Topology.V6) in REQUIRED
  {
    match role
    case Uplink => assert REQUIRED[0] == RoleAfi(Uplink, Topology.V4) && REQUIRED[1] == RoleAfi(Uplink, Topology.V6);
    case DcP1 => assert REQUIRED[2] == RoleAfi(DcP1, Topology.V4) && REQUIRED[3] == RoleAfi(DcP1, Topology.V6);
    case DcP2 => assert REQUIRED[4] == RoleAfi(DcP2, Topology.V4) && REQUIRED[5] == RoleAfi(DcP2, Topology.V6);
    case DcP3 => assert REQUIRED[6] == RoleAfi(DcP3, Topology.V4) && REQUIRED[7] == RoleAfi(DcP3, Topology.V6);
    case DcP4 => assert REQUIRED[8] == RoleAfi(DcP4, Topology.V4) && REQUIRED[9] == RoleAfi(DcP4, Topology.V6);
    case MpP1 => assert REQUIRED[10] == RoleAfi(MpP1, Topology.V4) && REQUIRED[11] == RoleAfi(MpP1, Topology.V6);
    case MpP2 => assert REQUIRED[12] == RoleAfi(MpP2, Topology.V4) && REQUIRED[13] == RoleAfi(MpP2, Topology.V6);
    case MpP3 => assert REQUIRED[14] == RoleAfi(MpP3, Topology.V4) && REQUIRED[15] == RoleAfi(MpP3, Topology.V6);
    case MpP4 => assert REQUIRED[16] == RoleAfi(MpP4, Topology.V4) && REQUIRED[17] == RoleAfi(MpP4, Topology.V6);
  }

  lemma RoleTotal(gs: seq<Leaf>, role: Role)
    requires Accepted(gs) && !role.OtherRole? && role != Bgpmon
    ensures RolePeers(gs, role, |gs|) == 2 * if role == Uplink then EBGP_PEERS else IBGP_PEERS
  {
    RequiredInBoth(role);
    RequiredRole(gs, role);
  }

  lemma DcTotals(gs: seq<Leaf>)
    requires Accepted(gs)
    ensures DcPeers(gs, |gs|) == 8 * IBGP_PEERS
  {
    DcPeersSplit(gs, |gs|);
    RoleTotal(gs, DcP1);
    RoleTotal(gs, DcP2);
    RoleTotal(gs, DcP3);
    RoleTotal(gs, DcP4);
  }

  lemma MpTotals(gs: seq<Leaf>)
    requires Accepted(gs)
    ensures MpPeers(gs, |gs|) == 8 * IBGP_PEERS
  {
    MpPeersSplit(gs, |gs|);
    RoleTotal(gs, MpP1);
    RoleTotal(gs, MpP2);
    RoleTotal(gs, MpP3);
    RoleTotal(gs, MpP4);
  }

  /** Every accepted topology has 2 * 140 + 16 * 62 peers, and two more when the monitor is present. */
  lemma {:induction false} AcceptedTotal(gs: seq<Leaf>)
    requires Accepted(gs)
    ensures PeersTo(gs, |gs|) == 1272 + if HasBgpmon(gs) then 2 else 0
  {
    NoOtherRole(gs);
    PeersByRole(gs, |gs|);
    RoleTotal(gs, Uplink);
    DcTotals(gs);
    MpTotals(gs);
    BgpmonRole(gs);
  }
}
