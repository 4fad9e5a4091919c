/** The IXIA address configuration of one leaf of a partitioned EBB device-group family. */
module PartitionLeaves {
  import opened Sequences
  import opened Orders
  import opened Strides
  import opened FullScaleShape

  /** `n` addresses of the progression, from its index `from`. */
  function Run(origin: int, stride: int, from: nat, n: nat): (r: seq<int>)
    ensures |r| == n
  {
    if n == 0 then [] else Run(origin, stride, from, n - 1) + [StepAddress(origin, stride, from + n - 1)]
  }

  /** The increment that every emitted configuration carries, for both address families. */
  const INCREMENT := 2

  datatype AddressConfig =
    AddressConfig(starting: int, increment: int, gatewayStarting: int, gatewayIncrement: int, startIndex: Option<nat>)

  function StartIndex(l: Leaf): (r: Option<nat>)
    requires Start(l) >= 0
  {
    if l.partition.Some? then Some(Start(l)) else None
  }

  /** Undo the leaf's own offset into the family. */
  function FamilyBase(address: int, stride: int, l: Leaf): (r: int) {
    if l.partition.None? then address else address - Start(l) * stride
  }

  function LeafConfig(firstPeer: int, firstGateway: int, stride: int, l: Leaf): (c: AddressConfig)
    requires Start(l) >= 0
  {
    AddressConfig(FamilyBase(firstPeer, stride, l), INCREMENT, FamilyBase(firstGateway, stride, l), INCREMENT,
                  StartIndex(l))
  }

  /** The configuration of a leaf whose peers were bound to a family's progressions. */
  function BoundConfig(peerOrigin: int, gatewayOrigin: int, stride: int, l: Leaf): (c: AddressConfig)
    requires Start(l) >= 0
  {
    LeafConfig(StepAddress(peerOrigin, stride, Start(l)), StepAddress(gatewayOrigin, stride, Start(l)), stride, l)
  }

  /** The runtime shifts the configured start by `startIndex` increments. */
  function RuntimeStart(starting: int, increment: int, startIndex: Option<nat>): (r: int) {
    if startIndex.Some? then starting + startIndex.value * increment else starting
  }

  /** The addresses the runtime assigns to the leaf's peers. */
  function Assigned(c: AddressConfig, n: nat): (r: seq<int>) {
    Run(RuntimeStart(c.starting, c.increment, c.startIndex), c.increment, 0, n)
  }

  function AssignedGateways(c: AddressConfig, n: nat): (r: seq<int>) {
    Run(RuntimeStart(c.gatewayStarting, c.gatewayIncrement, c.startIndex), c.gatewayIncrement, 0, n)
  }

  /** The addresses that binding gave the leaf: its window of the family's progression. */
  function Bound(origin: int, stride: int, l: Leaf): (r: seq<int>)
    requires Start(l) >= 0
  {
    Run(origin, stride, Start(l), l.peers)
  }

  lemma {:induction false} RunStart(origin: int, stride: int, from: nat, n: nat)
    ensures Run(StepAddress(origin, stride, from), stride, 0, n) == Run(origin, stride, from, n)
  {
    if n > 0 {
      RunStart(origin, stride, from, n - 1);
      StepAddressSplit(origin, stride, from, n - 1);
    }
  }

  lemma {:induction false} RunAppend(origin: int, stride: int, from: nat, m: nat, n: nat)
    ensures Run(origin, stride, from, m) + Run(origin, stride, from + m, n) == Run(origin, stride, from, m + n)
  {
    if n > 0 { RunAppend(origin, stride, from, m, n - 1); }
  }

  /** Every leaf of a family recovers the same base, whatever its position. */
  lemma BaseIsCommon(origin: int, stride: int, l: Leaf)
    requires Start(l) >= 0
    ensures FamilyBase(StepAddress(origin, stride, Start(l)), stride, l) == origin
  {
    StepAddressIsProduct(origin, stride, Start(l));
  }

  /** What the runtime assigns: the leaf's window of the progression from the family base in steps of two. */
  lemma AssignedIsWindow(peerOrigin: int, gatewayOrigin: int, stride: int, l: Leaf)
    requires Start(l) >= 0
    ensures var c := BoundConfig(peerOrigin, gatewayOrigin, stride, l);
            Assigned(c, l.peers) == Run(peerOrigin, INCREMENT, Start(l), l.peers) &&
            AssignedGateways(c, l.peers) == Run(gatewayOrigin, INCREMENT, Start(l), l.peers)
  {
    BaseIsCommon(peerOrigin, stride, l);
    BaseIsCommon(gatewayOrigin, stride, l);
    StepAddressIsProduct(peerOrigin, INCREMENT, Start(l));
    StepAddressIsProduct(gatewayOrigin, INCREMENT, Start(l));
    RunStart(peerOrigin, INCREMENT, Start(l), l.peers);
    RunStart(gatewayOrigin, INCREMENT, Start(l), l.peers);
  }

  // ---------- the whole family ----------

  /** The windows of the first `n` leaves, one after the other. */
  function Windows(origin: int, stride: int, ls: seq<Leaf>, n: nat): (r: seq<int>)
    requires n <= |ls|
  {
    if n == 0 then []
    else
      var l := ls[n - 1];
      Windows(origin, stride, ls, n - 1) + if Start(l) >= 0 then Bound(origin, stride, l) else []
  }

  lemma {:induction false} WindowsAreRun(origin: int, stride: int, ls: seq<Leaf>, expected: nat, n: nat)
    requires Consecutive(ls, expected) && n <= |ls|
    ensures Windows(origin, stride, ls, n) == Run(origin, stride, 0, PeersTo(ls, n))
  {
    if n > 0 {
      WindowsAreRun(origin, stride, ls, expected, n - 1);
      assert InPlace(ls, n - 1, expected);
      RunAppend(origin, stride, 0, PeersTo(ls, n - 1), ls[n - 1].peers);
    }
  }

  /** In ordinal order the leaves of an accepted family list the family's addresses exactly once each. */
  lemma WindowsTileFamily(origin: int, stride: int, ls: seq<Leaf>, expected: nat)
    requires Tiles(ls, expected)
    ensures Windows(origin, stride, SortBy(OrdinalKey, ls), |ls|) == Run(origin, stride, 0, expected)
    ensures stride > 0 ==> Distinct(Run(origin, stride, 0, expected))
  {
    var ordered := SortBy(OrdinalKey, ls);
    SortBySorts(OrdinalKey, ls);
    TilesPermute(ls, ordered, expected);
    ConsecutiveIffTiles(ordered, expected);
    WindowsAreRun(origin, stride, ordered, expected, |ordered|);
    if stride > 0 { RunDistinct(origin, stride, expected); }
  }

  lemma {:induction false} RunAt(origin: int, stride: int, from: nat, n: nat, i: nat)
    requires i < n
    ensures Run(origin, stride, from, n)[i] == StepAddress(origin, stride, from + i)
  {
    if i < n - 1 { RunAt(origin, stride, from, n - 1, i); }
  }

  lemma RunIsProgression(s: seq<int>, first: int, stride: int)
    ensures Run(first, stride, 0, |s|) == s <==> Progression(s, first, stride)
  {
    FollowsAt(s, first, stride, |s|);
    forall i | 0 <= i < |s| ensures Run(first, stride, 0, |s|)[i] == StepAddress(first, stride, i) {
      RunAt(first, stride, 0, |s|, i);
    }
  }

  lemma RunDistinct(origin: int, stride: int, n: nat)
    requires stride > 0
    ensures Distinct(Run(origin, stride, 0, n))
  {
    var r := Run(origin, stride, 0, n);
    forall i, j | 0 <= i < j < n ensures r[i] != r[j] {
      RunAt(origin, stride, 0, n, i);
      RunAt(origin, stride, 0, n, j);
      StepAddressIncreases(origin, stride, i, j);
    }
  }

  // ---------- when the assigned addresses are the bound ones ----------

  lemma RunEqualIff(origin: int, s: int, t: int, from: nat, n: nat)
    ensures Run(origin, s, from, n) == Run(origin, t, from, n) <==> s == t || n == 0 || (from == 0 && n == 1)
  {
    if n > 0 && s != t && from + n > 1 {
      RunAt(origin, s, from, n, n - 1);
      RunAt(origin, t, from, n, n - 1);
      if s < t { StepsDiffer(origin, s, t, from + n - 1); } else { StepsDiffer(origin, t, s, from + n - 1); }
    } else if n == 1 {
      assert Run(origin, s, from, 0) == [] == Run(origin, t, from, 0);
      assert s != t ==> from == 0;
    }
  }

  /** A leaf is assigned the addresses it was bound to exactly when the stride is the emitted increment
      (or the leaf is empty, or is the family's first peer alone). */
  lemma LeafFaithfulIff(peerOrigin: int, gatewayOrigin: int, stride: int, l: Leaf)
    requires Start(l) >= 0
    ensures var c := BoundConfig(peerOrigin, gatewayOrigin, stride, l);
            Assigned(c, l.peers) == Bound(peerOrigin, stride, l) &&
            AssignedGateways(c, l.peers) == Bound(gatewayOrigin, stride, l)
            <==> stride == INCREMENT || l.peers == 0 || (Start(l) == 0 && l.peers == 1)
  {
    AssignedIsWindow(peerOrigin, gatewayOrigin, stride, l);
    RunEqualIff(peerOrigin, INCREMENT, stride, Start(l), l.peers);
    RunEqualIff(gatewayOrigin, INCREMENT, stride, Start(l), l.peers);
  }

  /** The addresses assigned to the first `n` leaves, each through its own configuration. */
  function AssignedFamily(origin: int, gatewayOrigin: int, stride: int, ls: seq<Leaf>, n: nat): (r: seq<int>)
    requires n <= |ls|
  {
    if n == 0 then []
    else
      var l := ls[n - 1];
      AssignedFamily(origin, gatewayOrigin, stride, ls, n - 1) +
      if Start(l) >= 0 then
        Assigned(BoundConfig(origin, gatewayOrigin, stride, l), l.peers)
      else []
  }

  lemma {:induction false} AssignedFamilyIsWindows(origin: int, gatewayOrigin: int, stride: int, ls: seq<Leaf>, n: nat)
    requires n <= |ls|
    ensures AssignedFamily(origin, gatewayOrigin, stride, ls, n) == Windows(origin, INCREMENT, ls, n)
  {
    if n > 0 {
      AssignedFamilyIsWindows(origin, gatewayOrigin, stride, ls, n - 1);
      if Start(ls[n - 1]) >= 0 { AssignedIsWindow(origin, gatewayOrigin, stride, ls[n - 1]); }
    }
  }

  /** The leaf expansions of an accepted family partition the progression from the common base in steps of two;
      that is the family's bound address list exactly when the stride is two or the family has at most one peer. */
  lemma FamilyFaithfulIff(origin: int, gatewayOrigin: int, stride: int, ls: seq<Leaf>, expected: nat)
    requires Tiles(ls, expected)
    ensures AssignedFamily(origin, gatewayOrigin, stride, SortBy(OrdinalKey, ls), |ls|) ==
            Run(origin, INCREMENT, 0, expected)
    ensures (AssignedFamily(origin, gatewayOrigin, stride, SortBy(OrdinalKey, ls), |ls|) ==
             Windows(origin, stride, SortBy(OrdinalKey, ls), |ls|)) <==> (stride == INCREMENT || expected <= 1)
  {
    AssignedFamilyIsWindows(origin, gatewayOrigin, stride, SortBy(OrdinalKey, ls), |ls|);
    WindowsTileFamily(origin, INCREMENT, ls, expected);
    WindowsTileFamily(origin, stride, ls, expected);
    RunEqualIff(origin, INCREMENT, stride, 0, expected);
  }

  /** A second leaf bound with stride 4 gets an address two above the base instead of four. */
  lemma StrideFourMisassigns(name: string, key: RoleAfi, family: string)
    ensures var l := Leaf(name, key, 1, Some(Partition(family, 1, 1, 2)));
            Assigned(LeafConfig(StepAddress(100, 4, 1), StepAddress(101, 4, 1), 4, l), 1) == [102] &&
            Bound(100, 4, l) == [104]
  {
    var l := Leaf(name, key, 1, Some(Partition(family, 1, 1, 2)));
    var c := LeafConfig(StepAddress(100, 4, 1), StepAddress(101, 4, 1), 4, l);
    assert StepAddress(100, 4, 1) == StepAddress(100, 4, 0) + 4 == 104;
    assert RuntimeStart(c.starting, c.increment, c.startIndex) == 102;
    RunAt(102, INCREMENT, 0, 1, 0);
    RunAt(100, 4, 1, 1, 0);
  }
}
