/** Aggregating device groups into compact interface address blocks. */
module InterfacePlan {
  import opened Sequences
  import opened Topology
  import opened Strides

  /** `parent` is the text of the parent network. */
  datatype Key = Key(interface: string, afi: Afi, parent: string)

  datatype Block =
    Block(groups: seq<string>, role: Role, locals: seq<int>, peers: seq<int>, prefixLength: int, startOffset: int,
          stride: int)

  /** Groups without a bound interface, addresses or parent network are skipped. */
  predicate Included(g: Group) {
    DutInterface(g).Some? && Locals(g) != [] && g.parent.Some? && g.parent.value.text != ""
  }

  function KeyOf(g: Group): (k: Key)
    requires Included(g)
  {
    Key(DutInterface(g).value, g.afi, g.parent.value.text)
  }

  /** The one resolved prefix length of a group; None when peers and CIDRs do not pair up or disagree. */
  function PrefixLength(g: Group): (r: Option<int>) {
    if |g.aIps| != |g.zIps| || (g.cidrLengths != [] && |g.cidrLengths| != |g.aIps|) then None
    else CommonLength(g.cidrLengths, |g.cidrLengths|)
  }

  function CommonLength(ls: seq<Option<int>>, n: nat): (r: Option<int>)
    requires n <= |ls|
    ensures r.Some? ==> forall i :: 0 <= i < n && ls[i].Some? ==> ls[i] == r
  {
    if n == 0 then None
    else
      var before := CommonLength(ls, n - 1);
      if ls[n - 1].None? then before
      else if (forall i :: 0 <= i < n - 1 ==> ls[i].None?) || before == ls[n - 1] then ls[n - 1]
      else None
  }

  predicate Resolvable(g: Group)
    requires Included(g)
  {
    PrefixLength(g).Some? && g.stride.Some? && g.stride.value > 0 && g.parent.value.base.Some? &&
    Locals(g)[0] >= g.parent.value.base.value
  }

  /** Distance of a group's first address from the parent base; meaningful for resolvable groups. */
  function Offset(g: Group): (r: int) {
    if Locals(g) != [] && g.parent.Some? && g.parent.value.base.Some? then Locals(g)[0] - g.parent.value.base.value
    else 0
  }

  function Stride(g: Group): (r: int) { if g.stride.Some? then g.stride.value else 0 }

  /** The included groups of one key among the first `n`. */
  function Members(gs: seq<Group>, k: Key, n: nat): (r: seq<Group>)
    requires n <= |gs|
  {
    if n == 0 then []
    else Members(gs, k, n - 1) + if Included(gs[n - 1]) && KeyOf(gs[n - 1]) == k then [gs[n - 1]] else []
  }

  lemma {:induction false} MemberHasKey(gs: seq<Group>, k: Key, n: nat, i: nat)
    requires n <= |gs| && i < |Members(gs, k, n)|
    ensures Included(Members(gs, k, n)[i]) && KeyOf(Members(gs, k, n)[i]) == k
  {
    if i < |Members(gs, k, n - 1)| { MemberHasKey(gs, k, n - 1, i); }
  }

  lemma {:induction false} MemberFrom(gs: seq<Group>, k: Key, n: nat, m: nat) returns (i: nat)
    requires n <= |gs| && m < |Members(gs, k, n)|
    ensures i < n && gs[i] == Members(gs, k, n)[m]
  {
    if m < |Members(gs, k, n - 1)| { i := MemberFrom(gs, k, n - 1, m); } else { i := n - 1; }
  }

  function LocalParts(ms: seq<Group>): (r: seq<seq<int>>)
    ensures |r| == |ms| && forall i :: 0 <= i < |ms| ==> r[i] == Locals(ms[i])
  {
    seq(|ms|, i requires 0 <= i < |ms| => Locals(ms[i]))
  }

  function PeerParts(ms: seq<Group>): (r: seq<seq<int>>)
    ensures |r| == |ms| && forall i :: 0 <= i < |ms| ==> r[i] == Peers(ms[i])
  {
    seq(|ms|, i requires 0 <= i < |ms| => Peers(ms[i]))
  }

  /** The members' local addresses, concatenated. */
  function LocalsOf(ms: seq<Group>): (r: seq<int>) { Joined(LocalParts(ms), |ms|) }

  function PeersOf(ms: seq<Group>): (r: seq<int>) { Joined(PeerParts(ms), |ms|) }

  function NamesOf(ms: seq<Group>): (r: seq<string>)
    ensures |r| == |ms|
  {
    seq(|ms|, i requires 0 <= i < |ms| => ms[i].name)
  }

  /** A further group continues the block that the earlier members form. */
  predicate Continues(ms: seq<Group>, g: Group) {
    ms == [] ||
    (Family(g.role) == Family(ms[0].role) && PrefixLength(g) == PrefixLength(ms[0]) && Stride(g) == Stride(ms[0]) &&
     Offset(g) == Offset(ms[0]) + Stride(ms[0]) * |LocalsOf(ms)|)
  }

  /** The n-th group passes every check of the loop, given the groups before it. */
  predicate Fits(gs: seq<Group>, n: nat)
    requires n < |gs|
  {
    Projectable(gs[n]) &&
    (!Included(gs[n]) || (Resolvable(gs[n]) && Continues(Members(gs, KeyOf(gs[n]), n), gs[n])))
  }

  /** The block that a non-empty list of members stands for. */
  function BlockOf(ms: seq<Group>): (b: Block)
    requires ms != []
  {
    var length := PrefixLength(ms[0]);
    Block(NamesOf(ms), ms[0].role, LocalsOf(ms), PeersOf(ms), if length.Some? then length.value else 0,
          Offset(ms[0]), Stride(ms[0]))
  }

  ghost predicate BlockAt(gs: seq<Group>, n: nat, blocks: map<Key, Block>, k: Key)
    requires n <= |gs|
  {
    (k in blocks <==> Members(gs, k, n) != []) && (k in blocks ==> blocks[k] == BlockOf(Members(gs, k, n)))
  }

  /** The dictionary after `n` groups: one block per key that has members, keys in first-use order. */
  ghost predicate Grouped(gs: seq<Group>, n: nat, order: seq<Key>, blocks: map<Key, Block>)
    requires n <= |gs|
  {
    Distinct(order) && (forall k :: k in blocks <==> k in order) && forall k :: BlockAt(gs, n, blocks, k)
  }

  lemma {:induction false} JoinedPrefix(a: seq<seq<int>>, b: seq<seq<int>>, n: nat)
    requires n <= |a| && n <= |b| && forall i :: 0 <= i < n ==> a[i] == b[i]
    ensures Joined(a, n) == Joined(b, n)
  {
    if n > 0 { JoinedPrefix(a, b, n - 1); }
  }

  lemma LocalsOfAppend(ms: seq<Group>, g: Group)
    ensures LocalsOf(ms + [g]) == LocalsOf(ms) + Locals(g) && PeersOf(ms + [g]) == PeersOf(ms) + Peers(g)
  {
    JoinedPrefix(LocalParts(ms + [g]), LocalParts(ms), |ms|);
    JoinedPrefix(PeerParts(ms + [g]), PeerParts(ms), |ms|);
  }

  /** Extending a block in place is the block of the extended members. */
  lemma BlockOfAppend(ms: seq<Group>, g: Group)
    requires ms != []
    ensures BlockOf(ms + [g]) == Extend(BlockOf(ms), g)
  {
    LocalsOfAppend(ms, g);
    assert NamesOf(ms + [g]) == NamesOf(ms) + [g.name];
  }

  function FreshBlock(g: Group): (b: Block)
    requires PrefixLength(g).Some?
  {
    Block([], g.role, [], [], PrefixLength(g).value, Offset(g), Stride(g))
  }

  lemma BlockOfOne(g: Group)
    requires PrefixLength(g).Some?
    ensures BlockOf([g]) == Extend(FreshBlock(g), g)
  {
    LocalsOfAppend([], g);
    assert [] + [g] == [g];
    assert LocalsOf([]) == [] && PeersOf([]) == [];
  }

  datatype PlanResult = Planned(order: seq<Key>, blocks: map<Key, Block>) | Rejected(at: nat)

  /** The aggregation loop: accepts exactly the inputs whose groups all fit, and then returns one block per key. */
  method Plan(gs: seq<Group>) returns (r: PlanResult)
    ensures r.Planned? <==> forall n :: 0 <= n < |gs| ==> Fits(gs, n)
    ensures r.Planned? ==> Grouped(gs, |gs|, r.order, r.blocks)
    ensures r.Rejected? ==> r.at < |gs| && !Fits(gs, r.at) && forall n :: 0 <= n < r.at ==> Fits(gs, n)
  {
    var order: seq<Key>, grouped: map<Key, Block> := [], map[];
    assert Grouped(gs, 0, order, grouped) by { forall k ensures BlockAt(gs, 0, grouped, k) {} }
    for n := 0 to |gs|
      invariant Grouped(gs, n, order, grouped)
      invariant forall m :: 0 <= m < n ==> Fits(gs, m)
    {
      var g := gs[n];
      if Ambiguous(g) || |Locals(g)| != |Peers(g)| {
        assert !Fits(gs, n);
        return Rejected(n);
      }
      if DutInterface(g).None? || Locals(g) == [] || g.parent.None? || g.parent.value.text == "" {
        SkippedGroup(gs, n, order, grouped);
        continue;
      }
      if !Resolvable(g) {
        assert !Fits(gs, n);
        return Rejected(n);
      }
      var key := KeyOf(g);
      var block := if key in grouped then grouped[key] else FreshBlock(g);
      FitsItsBlock(gs, n, order, grouped, block);
      if !Consistent(block, g) { return Rejected(n); }
      ExtendedGroup(gs, n, order, grouped, block);
      if key !in grouped { order := order + [key]; }
      grouped := grouped[key := Extend(block, g)];
    }
    r := Planned(order, grouped);
  }

  /** The loop's consistency check against the block so far. */
  predicate Consistent(b: Block, g: Group) {
    Family(g.role) == Family(b.role) && PrefixLength(g) == Some(b.prefixLength) && Stride(g) == b.stride &&
    Offset(g) == b.startOffset + b.stride * |b.locals|
  }

  function Extend(b: Block, g: Group): (r: Block) {
    b.(groups := b.groups + [g.name], locals := b.locals + Locals(g), peers := b.peers + Peers(g))
  }

  lemma FitsItsBlock(gs: seq<Group>, n: nat, order: seq<Key>, blocks: map<Key, Block>, block: Block)
    requires n < |gs| && Grouped(gs, n, order, blocks) && Included(gs[n]) && Resolvable(gs[n]) && Projectable(gs[n])
    requires forall m :: 0 <= m < n ==> Fits(gs, m)
    requires block == if KeyOf(gs[n]) in blocks then blocks[KeyOf(gs[n])] else FreshBlock(gs[n])
    ensures Fits(gs, n) <==> Consistent(block, gs[n])
  {
    var k := KeyOf(gs[n]);
    assert BlockAt(gs, n, blocks, k);
    if k in blocks { FirstMemberResolvable(gs, k, n); }
  }

  lemma {:induction false} FirstMemberResolvable(gs: seq<Group>, k: Key, n: nat)
    requires n <= |gs| && (forall m :: 0 <= m < n ==> Fits(gs, m)) && Members(gs, k, n) != []
    ensures Included(Members(gs, k, n)[0]) && Resolvable(Members(gs, k, n)[0])
  {
    if Members(gs, k, n - 1) != [] {
      FirstMemberResolvable(gs, k, n - 1);
    } else {
      assert Fits(gs, n - 1);
    }
  }

  lemma SkippedGroup(gs: seq<Group>, n: nat, order: seq<Key>, blocks: map<Key, Block>)
    requires n < |gs| && Grouped(gs, n, order, blocks) && !Included(gs[n])
    ensures Grouped(gs, n + 1, order, blocks)
  {
    var next := n + 1;
    forall k ensures BlockAt(gs, next, blocks, k) {
      assert BlockAt(gs, n, blocks, k);
      assert Members(gs, k, next) == Members(gs, k, n);
    }
  }

  lemma ExtendedGroup(gs: seq<Group>, n: nat, order: seq<Key>, blocks: map<Key, Block>, block: Block)
    requires n < |gs| && Grouped(gs, n, order, blocks) && Included(gs[n]) && Resolvable(gs[n])
    requires block == if KeyOf(gs[n]) in blocks then blocks[KeyOf(gs[n])] else FreshBlock(gs[n])
    ensures Grouped(gs, n + 1, if KeyOf(gs[n]) in blocks then order else order + [KeyOf(gs[n])],
                    blocks[KeyOf(gs[n]) := Extend(block, gs[n])])
  {
    var key := KeyOf(gs[n]);
    var next, after := n + 1, blocks[key := Extend(block, gs[n])];
    forall k ensures BlockAt(gs, next, after, k) {
      assert BlockAt(gs, n, blocks, k);
      if k == key { ExtendedBlock(gs, n, blocks, block); } else { assert Members(gs, k, next) == Members(gs, k, n); }
    }
  }

  lemma ExtendedBlock(gs: seq<Group>, n: nat, blocks: map<Key, Block>, block: Block)
    requires n < |gs| && Included(gs[n]) && Resolvable(gs[n]) && BlockAt(gs, n, blocks, KeyOf(gs[n]))
    requires block == if KeyOf(gs[n]) in blocks then blocks[KeyOf(gs[n])] else FreshBlock(gs[n])
    ensures Members(gs, KeyOf(gs[n]), n + 1) != [] && BlockOf(Members(gs, KeyOf(gs[n]), n + 1)) == Extend(block, gs[n])
  {
    var ms, g := Members(gs, KeyOf(gs[n]), n), gs[n];
    assert Members(gs, KeyOf(g), n + 1) == ms + [g];
    if ms != [] {
      BlockOfAppend(ms, g);
    } else {
      assert ms + [g] == [g];
      BlockOfOne(g);
    }
  }

  // ---------- the compact form stands for the explicit lists ----------

  /** The first `n` members as accepted by the loop: each continues the ones before it. */
  ghost predicate Chained(ms: seq<Group>, n: nat)
    requires n <= |ms|
  {
    n == 0 ||
    (Chained(ms, n - 1) && Included(ms[n - 1]) && Resolvable(ms[n - 1]) && ms[n - 1].parent == ms[0].parent &&
     Continues(ms[..n - 1], ms[n - 1]))
  }

  lemma {:induction false} ChainedPrefix(a: seq<Group>, b: seq<Group>, n: nat)
    requires n <= |a| && n <= |b| && a[..n] == b[..n] && Chained(a, n)
    ensures Chained(b, n)
  {
    if n > 0 {
      assert a[n - 1] == a[..n][n - 1] == b[..n][n - 1] == b[n - 1];
      assert a[0] == a[..n][0] == b[..n][0] == b[0];
      assert a[..n - 1] == a[..n][..n - 1] == b[..n][..n - 1] == b[..n - 1];
      ChainedPrefix(a, b, n - 1);
    }
  }

  lemma ChainExtend(before: seq<Group>, g: Group)
    requires Chained(before, |before|) && Included(g) && Resolvable(g) && Continues(before, g)
    requires before != [] ==> g.parent == before[0].parent
    ensures Chained(before + [g], |before| + 1)
  {
    var ms := before + [g];
    assert ms[..|before|] == before == before[..|before|];
    ChainedPrefix(before, ms, |before|);
  }

  lemma NextMemberChains(gs: seq<Group>, k: Key, n: nat, before: seq<Group>)
    requires n < |gs| && Fits(gs, n) && Included(gs[n]) && KeyOf(gs[n]) == k && BasesAgree(gs)
    requires before == Members(gs, k, n) && Chained(before, |before|)
    ensures Chained(before + [gs[n]], |before| + 1)
  {
    if before != [] {
      MemberHasKey(gs, k, n, 0);
      var i := MemberFrom(gs, k, n, 0);
      assert gs[i].parent == gs[n].parent;
    }
    ChainExtend(before, gs[n]);
  }

  lemma MembersStep(gs: seq<Group>, k: Key, n: nat, before: seq<Group>)
    requires n < |gs| && BasesAgree(gs) && Fits(gs, n) && before == Members(gs, k, n) && Chained(before, |before|)
    ensures Chained(Members(gs, k, n + 1), |Members(gs, k, n + 1)|)
  {
    if Included(gs[n]) && KeyOf(gs[n]) == k {
      NextMemberChains(gs, k, n, before);
    } else {
      assert Members(gs, k, n + 1) == before;
    }
  }

  lemma {:induction false} MembersChained(gs: seq<Group>, k: Key, n: nat)
    requires n <= |gs| && BasesAgree(gs) && forall m :: 0 <= m < n ==> Fits(gs, m)
    ensures Chained(Members(gs, k, n), |Members(gs, k, n)|)
  {
    if n > 0 {
      MembersChained(gs, k, n - 1);
      MembersStep(gs, k, n - 1, Members(gs, k, n - 1));
    }
  }

  /** A member's first address is where the members before it stop. */
  lemma MemberStart(ms: seq<Group>, n: nat)
    requires 0 < n <= |ms| && Chained(ms, n) && Chained(ms, 1)
    ensures Stride(ms[n - 1]) == Stride(ms[0]) && Locals(ms[n - 1]) != []
    ensures Locals(ms[n - 1])[0] == StepAddress(Locals(ms[0])[0], Stride(ms[0]), |Joined(LocalParts(ms), n - 1)|)
  {
    JoinedPrefix(LocalParts(ms[..n - 1]), LocalParts(ms), n - 1);
    if n > 1 {
      assert ms[..n - 1][0] == ms[0];
      ContinuesAt(ms[..n - 1], ms[n - 1]);
    }
  }

  lemma ContinuesAt(ms: seq<Group>, g: Group)
    requires ms != [] && Included(ms[0]) && Resolvable(ms[0]) && Included(g) && Resolvable(g)
    requires g.parent == ms[0].parent
    requires Continues(ms, g)
    ensures Locals(g)[0] == StepAddress(Locals(ms[0])[0], Stride(ms[0]), |LocalsOf(ms)|)
  {
    StepAddressIsProduct(Locals(ms[0])[0], Stride(ms[0]), |LocalsOf(ms)|);
  }

  /** A group's local addresses step by its own stride. */
  ghost predicate Steps(g: Group) { OwnProgression(Locals(g), Stride(g)) }

  ghost predicate AllStep(ms: seq<Group>) { forall i :: 0 <= i < |ms| ==> Steps(ms[i]) }

  lemma {:induction false} ChainPrefix(ms: seq<Group>, m: nat, n: nat)
    requires 0 < m <= n <= |ms| && Chained(ms, n)
    ensures Chained(ms, m)
  {
    if m < n { ChainPrefix(ms, m, n - 1); }
  }

  lemma {:induction false} ChainIsContiguous(ms: seq<Group>, n: nat)
    requires 0 < n <= |ms| && Chained(ms, n) && Chained(ms, 1)
    ensures Contiguous(LocalParts(ms), Locals(ms[0])[0], Stride(ms[0]), n)
  {
    var parts := LocalParts(ms);
    if n > 1 { ChainIsContiguous(ms, n - 1); } else { assert Contiguous(parts, Locals(ms[0])[0], Stride(ms[0]), 0); }
    MemberStart(ms, n);
    assert parts[n - 1] == Locals(ms[n - 1]);
  }

  lemma {:induction false} ChainStrides(ms: seq<Group>, n: nat)
    requires 0 < n <= |ms| && Chained(ms, n) && Chained(ms, 1)
    ensures forall i :: 0 <= i < n ==> Stride(ms[i]) == Stride(ms[0])
  {
    if n > 1 { ChainStrides(ms, n - 1); }
    MemberStart(ms, n);
  }

  lemma ChainDescribed(ms: seq<Group>)
    requires ms != [] && Chained(ms, |ms|) && Chained(ms, 1)
    ensures Progression(LocalsOf(ms), Locals(ms[0])[0], Stride(ms[0])) <==> AllStep(ms)
  {
    var parts := LocalParts(ms);
    ChainIsContiguous(ms, |ms|);
    ChainStrides(ms, |ms|);
    JoinedProgression(parts, Locals(ms[0])[0], Stride(ms[0]), |ms|);
    EachOwnAt(parts, Stride(ms[0]), |ms|);
    assert forall i :: 0 <= i < |ms| ==> (Steps(ms[i]) <==> OwnProgression(parts[i], Stride(ms[0])));
  }

  /** A chain of several members cannot step by anything but its own stride. */
  lemma SecondMemberForcesStride(ms: seq<Group>, step: int)
    requires |ms| > 1 && Chained(ms, |ms|) && Chained(ms, 2) && Chained(ms, 1)
    requires Progression(LocalsOf(ms), Locals(ms[0])[0], step)
    ensures step == Stride(ms[0])
  {
    var parts, first := LocalParts(ms), Locals(ms[0])[0];
    var at := |Joined(parts, 1)|;
    assert Joined(parts, 0) == [];
    MemberStart(ms, 2);
    JoinedAt(parts, 0, 1);
    JoinedAt(parts, 1, |ms|);
    FollowsAt(LocalsOf(ms), first, step, |LocalsOf(ms)|);
    assert StepAddress(first, step, at) == StepAddress(first, Stride(ms[0]), at);
    if step < Stride(ms[0]) { StepsDiffer(first, step, Stride(ms[0]), at); }
    if step > Stride(ms[0]) { StepsDiffer(first, Stride(ms[0]), step, at); }
  }

  /** `step` is the stride and every member steps by it, or there is one member and its own addresses step so. */
  ghost predicate StepBy(ms: seq<Group>, step: int)
    requires ms != []
  {
    (step == Stride(ms[0]) && AllStep(ms)) || (|ms| == 1 && OwnProgression(Locals(ms[0]), step))
  }

  lemma ChainStepsIff(ms: seq<Group>, step: int)
    requires ms != [] && Chained(ms, |ms|) && Chained(ms, 1)
    ensures Progression(LocalsOf(ms), Locals(ms[0])[0], step) <==> StepBy(ms, step)
  {
    if |ms| == 1 {
      assert Joined(LocalParts(ms), 0) == [];
      assert LocalsOf(ms) == Locals(ms[0]);
      assert AllStep(ms) <==> Steps(ms[0]);
    } else {
      if step == Stride(ms[0]) { ChainDescribed(ms); }
      if Progression(LocalsOf(ms), Locals(ms[0])[0], step) {
        ChainPrefix(ms, 2, |ms|);
        SecondMemberForcesStride(ms, step);
      }
    }
  }

  /** For members that step by their stride only a single address steps by anything else. */
  lemma SteppingChainStepsIff(ms: seq<Group>, step: int)
    requires ms != [] && Chained(ms, |ms|) && Chained(ms, 1) && AllStep(ms)
    ensures Progression(LocalsOf(ms), Locals(ms[0])[0], step) <==> step == Stride(ms[0]) || |LocalsOf(ms)| == 1
  {
    var s, first := LocalsOf(ms), Locals(ms[0])[0];
    ChainDescribed(ms);
    JoinedAt(LocalParts(ms), 0, |ms|);
    FollowsAt(s, first, step, |s|);
    FollowsAt(s, first, Stride(ms[0]), |s|);
    if |s| > 1 {
      assert StepAddress(first, step, 1) == StepAddress(first, step, 0) + step;
      assert StepAddress(first, Stride(ms[0]), 1) == StepAddress(first, Stride(ms[0]), 0) + Stride(ms[0]);
    }
  }

  lemma BlockMembers(gs: seq<Group>, order: seq<Key>, blocks: map<Key, Block>, k: Key)
    requires (forall n :: 0 <= n < |gs| ==> Fits(gs, n)) && Grouped(gs, |gs|, order, blocks) && k in blocks
    requires BasesAgree(gs)
    ensures Members(gs, k, |gs|) != [] && blocks[k] == BlockOf(Members(gs, k, |gs|))
    ensures Chained(Members(gs, k, |gs|), |Members(gs, k, |gs|)|) && Chained(Members(gs, k, |gs|), 1)
    ensures KeyOf(Members(gs, k, |gs|)[0]) == k && Resolvable(Members(gs, k, |gs|)[0])
  {
    assert BlockAt(gs, |gs|, blocks, k);
    MembersChained(gs, k, |gs|);
    MemberHasKey(gs, k, |gs|, 0);
    ChainPrefix(Members(gs, k, |gs|), 1, |Members(gs, k, |gs|)|);
  }

  /** A block whose addresses are base + start offset, then `step` further each time, for the base of its first
      member's parent. */
  ghost predicate BlockSteps(b: Block, ms: seq<Group>, step: int)
    requires ms != [] && ms[0].parent.Some? && ms[0].parent.value.base.Some?
  {
    Progression(b.locals, ms[0].parent.value.base.value + b.startOffset, step)
  }

  lemma {:induction false} ChainBlockSteps(ms: seq<Group>, b: Block, step: int)
    requires ms != [] && Chained(ms, |ms|) && Chained(ms, 1) && Resolvable(ms[0]) && b == BlockOf(ms)
    ensures BlockSteps(b, ms, step) <==> StepBy(ms, step)
    ensures AllStep(ms) ==> (StepBy(ms, step) <==> b.stride == step || |b.locals| == 1)
  {
    ChainStepsIff(ms, step);
    if AllStep(ms) { SteppingChainStepsIff(ms, step); }
  }

  lemma {:induction false} BlockStepsIff(gs: seq<Group>, order: seq<Key>, blocks: map<Key, Block>, k: Key, step: int)
    requires (forall n :: 0 <= n < |gs| ==> Fits(gs, n)) && Grouped(gs, |gs|, order, blocks) && k in blocks
    requires BasesAgree(gs)
    ensures var b, ms := blocks[k], Members(gs, k, |gs|);
            ms != [] && ms[0].parent.Some? && ms[0].parent.value.base.Some? &&
            (BlockSteps(b, ms, step) <==> StepBy(ms, step)) &&
            (AllStep(ms) ==> (StepBy(ms, step) <==> b.stride == step || |b.locals| == 1))
  {
    BlockMembers(gs, order, blocks, k);
    ChainBlockSteps(Members(gs, k, |gs|), blocks[k], step);
  }

  /** The block's addresses are base + start offset, then one stride further each time. */
  ghost predicate DescribedBy(b: Block, base: int) { Progression(b.locals, base + b.startOffset, b.stride) }

  /** Aggregation is lossless. Each block lists exactly its members' addresses in order, and its compact form
      (base, start offset, stride) describes that list exactly when every member steps by its own stride;
      then no address repeats. */
  lemma AggregationIsLossless(gs: seq<Group>, order: seq<Key>, blocks: map<Key, Block>, k: Key)
    requires (forall n :: 0 <= n < |gs| ==> Fits(gs, n)) && Grouped(gs, |gs|, order, blocks) && k in blocks
    requires BasesAgree(gs)
    ensures blocks[k].locals == LocalsOf(Members(gs, k, |gs|)) && blocks[k].peers == PeersOf(Members(gs, k, |gs|))
    ensures var ms := Members(gs, k, |gs|);
            ms != [] && ms[0].parent.Some? && ms[0].parent.value.base.Some? &&
            (DescribedBy(blocks[k], ms[0].parent.value.base.value) <==> AllStep(ms))
    ensures AllStep(Members(gs, k, |gs|)) ==> Distinct(blocks[k].locals)
  {
    BlockMembers(gs, order, blocks, k);
    ChainLossless(Members(gs, k, |gs|), k);
  }

  lemma {:induction false} ChainLossless(ms: seq<Group>, k: Key)
    requires ms != [] && Chained(ms, |ms|) && Chained(ms, 1) && KeyOf(ms[0]) == k && Resolvable(ms[0])
    ensures DescribedBy(BlockOf(ms), ms[0].parent.value.base.value) <==> AllStep(ms)
    ensures AllStep(ms) ==> Distinct(BlockOf(ms).locals)
  {
    ChainDescribed(ms);
    if AllStep(ms) { ProgressionDistinct(LocalsOf(ms), Locals(ms[0])[0], Stride(ms[0])); }
  }

  /** A group of two peerings on local addresses `x` and `y`. */
  function PairGroup(name: string, interface: string, text: string, x: int, y: int, stride: int): (g: Group) {
    Group(name, Uplink, V4, Some(interface), None, [x, y], [x + 1, y + 1], [Some(31), Some(31)], Some(stride),
          Some(Parent(text, Some(0))), false, None, None)
  }

  lemma PairFits(g: Group, name: string, interface: string, text: string, x: int, y: int, stride: int)
    requires text != [] && x >= 0 && stride > 0 && g == PairGroup(name, interface, text, x, y, stride)
    ensures Locals(g) == [x, y] && Fits([g], 0)
    ensures forall step :: OwnProgression(Locals(g), step) <==> y == x + step
  {
    assert PrefixLength(g) == Some(31) by {
      var ls: seq<Option<int>> := [Some(31), Some(31)];
      assert g.cidrLengths == ls && CommonLength(ls, 0) == None && CommonLength(ls, 1) == Some(31) &&
             CommonLength(ls, 2) == Some(31);
    }
    assert Members([g], KeyOf(g), 0) == [];
    forall step ensures OwnProgression(Locals(g), step) <==> y == x + step {
      FollowsAt(Locals(g), x, step, 2);
      assert StepAddress(x, step, 1) == StepAddress(x, step, 0) + step;
    }
  }

  /** Acceptance alone does not make the compact form right: this single group passes every check although its
      addresses 10, 99 do not step by its stride 2. */
  lemma AcceptedButNotDescribed(name: string, interface: string, text: string)
    requires text != []
    ensures var g := PairGroup(name, interface, text, 10, 99, 2); Fits([g], 0) && !AllStep([g])
  {
    var g := PairGroup(name, interface, text, 10, 99, 2);
    PairFits(g, name, interface, text, 10, 99, 2);
    assert !Steps([g][0]);
  }

  /** Nor do members that step by their stride have to step by two: here they are 10 and 14. */
  lemma AcceptedWithStrideFour(name: string, interface: string, text: string)
    requires text != []
    ensures var g := PairGroup(name, interface, text, 10, 14, 4); Fits([g], 0) && AllStep([g]) && !StepBy([g], 2)
  {
    var g := PairGroup(name, interface, text, 10, 14, 4);
    PairFits(g, name, interface, text, 10, 14, 4);
  }
}
