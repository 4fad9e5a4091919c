/** The interface and peer projections of one topology cover the same peerings. */
module Agreement {
  import opened Sequences
  import opened Topology
  import opened PeerSlots
  import InterfacePlan
  import PeerPlan
  import Strides

  function AbsentSlots(g: Group): (r: seq<Slot>) { if g.neighborAbsent then Slots(g) else [] }

  function SkippedSlots(g: Group): (r: seq<Slot>) { if InterfacePlan.Included(g) then [] else Slots(g) }

  function IncludedSlots(g: Group): (r: seq<Slot>) { if InterfacePlan.Included(g) then Slots(g) else [] }

  /** The peerings behind the block of one key: those of its members, in order. */
  function KeySlots(gs: seq<Group>, k: InterfacePlan.Key, n: nat): (r: seq<Slot>)
    requires n <= |gs|
  {
    if n == 0 then [] else KeySlots(gs, k, n - 1) + if InKey(gs[n - 1], k) then Slots(gs[n - 1]) else []
  }

  function KeyPart(gs: seq<Group>): (f: InterfacePlan.Key -> seq<Slot>) {
    (k: InterfacePlan.Key) => KeySlots(gs, k, |gs|)
  }

  /** The peerings behind all blocks, block by block. */
  function InterfaceSlots(gs: seq<Group>, order: seq<InterfacePlan.Key>): (r: seq<Slot>) {
    FlatMap(KeyPart(gs), order, |order|)
  }

  type Counter = seq<Slot> -> int

  predicate InKey(g: Group, k: InterfacePlan.Key) { InterfacePlan.Included(g) && InterfacePlan.KeyOf(g) == k }

  /** They are the peerings of the key's members, member by member. */
  lemma {:induction false} KeySlotsOfMembers(gs: seq<Group>, k: InterfacePlan.Key, n: nat)
    requires n <= |gs|
    ensures var ms := InterfacePlan.Members(gs, k, n); KeySlots(gs, k, n) == FlatMap(Slots, ms, |ms|)
  {
    if n > 0 {
      KeySlotsOfMembers(gs, k, n - 1);
      var ms := InterfacePlan.Members(gs, k, n - 1);
      if InKey(gs[n - 1], k) {
        FlatMapLast(Slots, ms, gs[n - 1]);
      } else {
        assert InterfacePlan.Members(gs, k, n) == ms;
        assert KeySlots(gs, k, n - 1) + [] == KeySlots(gs, k, n - 1);
      }
    }
  }

  /** A group is counted by the block of its own key and by no other. */
  ghost predicate Counted(g: Group, order: seq<InterfacePlan.Key>, m: nat)
    requires m <= |order|
  {
    m > 0 && (Counted(g, order, m - 1) || InKey(g, order[m - 1]))
  }

  lemma CountedOnce(g: Group, order: seq<InterfacePlan.Key>, m: nat)
    requires m < |order| && Distinct(order) && InKey(g, order[m])
    ensures !Counted(g, order, m)
  {
    NotCounted(g, order, m, m);
  }

  lemma {:induction false} NotCounted(g: Group, order: seq<InterfacePlan.Key>, m: nat, k: nat)
    requires k <= m < |order| && Distinct(order) && InKey(g, order[m])
    ensures !Counted(g, order, k)
  {
    if k > 0 { NotCounted(g, order, m, k - 1); }
  }

  lemma {:induction false} CountedSomewhere(g: Group, order: seq<InterfacePlan.Key>, i: nat, m: nat)
    requires i < m <= |order| && InKey(g, order[i])
    ensures Counted(g, order, m)
  {
    if i < m - 1 { CountedSomewhere(g, order, i, m - 1); }
  }

  /** A group's peerings, when the group counts at all. */
  ghost function CountIf(count: Counter, b: bool, g: Group): (r: int) { if b then count(Slots(g)) else 0 }

  ghost function KeyCount(count: Counter, gs: seq<Group>, k: InterfacePlan.Key, n: nat): (r: int)
    requires n <= |gs|
  {
    if n == 0 then 0 else KeyCount(count, gs, k, n - 1) + CountIf(count, InKey(gs[n - 1], k), gs[n - 1])
  }

  ghost function InterfaceCount(count: Counter, gs: seq<Group>, order: seq<InterfacePlan.Key>, n: nat, m: nat): (r: int)
    requires n <= |gs| && m <= |order|
  {
    if m == 0 then 0 else InterfaceCount(count, gs, order, n, m - 1) + KeyCount(count, gs, order[m - 1], n)
  }

  lemma {:induction false} KeyCountIsCount(count: Counter, gs: seq<Group>, k: InterfacePlan.Key, n: nat)
    requires n <= |gs| && Additive(count)
    ensures count(KeySlots(gs, k, n)) == KeyCount(count, gs, k, n)
  {
    if n > 0 { KeyCountIsCount(count, gs, k, n - 1); }
  }

  /** Counting a concatenation part by part. */
  ghost function PartCount(count: Counter, part: InterfacePlan.Key -> seq<Slot>, order: seq<InterfacePlan.Key>,
                           m: nat): (r: int)
    requires m <= |order|
  {
    if m == 0 then 0 else PartCount(count, part, order, m - 1) + count(part(order[m - 1]))
  }

  lemma {:induction false} PartCountIsCount(count: Counter, part: InterfacePlan.Key -> seq<Slot>,
                                            order: seq<InterfacePlan.Key>, m: nat)
    requires m <= |order| && Additive(count)
    ensures count(FlatMap(part, order, m)) == PartCount(count, part, order, m)
  {
    if m > 0 { PartCountIsCount(count, part, order, m - 1); }
  }

  lemma {:induction false} PartCountIsInterfaceCount(count: Counter, part: InterfacePlan.Key -> seq<Slot>,
                                                     gs: seq<Group>, order: seq<InterfacePlan.Key>, m: nat)
    requires m <= |order| && forall k :: count(part(k)) == KeyCount(count, gs, k, |gs|)
    ensures PartCount(count, part, order, m) == InterfaceCount(count, gs, order, |gs|, m)
  {
    if m > 0 { PartCountIsInterfaceCount(count, part, gs, order, m - 1); }
  }

  lemma InterfaceCountIsCount(count: Counter, gs: seq<Group>, order: seq<InterfacePlan.Key>)
    requires Additive(count)
    ensures count(InterfaceSlots(gs, order)) == InterfaceCount(count, gs, order, |gs|, |order|)
  {
    var part := KeyPart(gs);
    PartCountIsCount(count, part, order, |order|);
    forall k ensures count(part(k)) == KeyCount(count, gs, k, |gs|) { KeyCountIsCount(count, gs, k, |gs|); }
    PartCountIsInterfaceCount(count, part, gs, order, |order|);
  }

  lemma {:induction false} InterfaceStep(count: Counter, gs: seq<Group>, order: seq<InterfacePlan.Key>, n: nat, m: nat)
    requires n < |gs| && m <= |order| && Distinct(order)
    ensures InterfaceCount(count, gs, order, n + 1, m) ==
            InterfaceCount(count, gs, order, n, m) + CountIf(count, Counted(gs[n], order, m), gs[n])
  {
    if m > 0 {
      InterfaceStep(count, gs, order, n, m - 1);
      if InKey(gs[n], order[m - 1]) { CountedOnce(gs[n], order, m - 1); }
    }
  }

  lemma {:induction false} NoGroupsNoSlots(count: Counter, gs: seq<Group>, order: seq<InterfacePlan.Key>, m: nat)
    requires m <= |order|
    ensures InterfaceCount(count, gs, order, 0, m) == 0
  {
    if m > 0 { NoGroupsNoSlots(count, gs, order, m - 1); }
  }

  /** Every included group has its key listed. */
  ghost predicate Listed(gs: seq<Group>, order: seq<InterfacePlan.Key>, n: nat)
    requires n <= |gs|
  {
    forall i :: 0 <= i < n && InterfacePlan.Included(gs[i]) ==> InterfacePlan.KeyOf(gs[i]) in order
  }

  lemma {:induction false} InterfaceCountsIncluded(count: Counter, gs: seq<Group>, order: seq<InterfacePlan.Key>,
                                                   n: nat)
    requires n <= |gs| && Distinct(order) && Listed(gs, order, n) && Additive(count)
    ensures InterfaceCount(count, gs, order, n, |order|) == count(FlatMap(IncludedSlots, gs, n))
  {
    if n == 0 {
      NoGroupsNoSlots(count, gs, order, |order|);
    } else {
      InterfaceCountsIncluded(count, gs, order, n - 1);
      InterfaceStep(count, gs, order, n - 1, |order|);
      CountedIffIncluded(gs, order, n - 1);
    }
  }

  lemma CountedIffIncluded(gs: seq<Group>, order: seq<InterfacePlan.Key>, n: nat)
    requires n < |gs| && Listed(gs, order, n + 1)
    ensures Counted(gs[n], order, |order|) <==> InterfacePlan.Included(gs[n])
  {
    if InterfacePlan.Included(gs[n]) {
      var i :| 0 <= i < |order| && order[i] == InterfacePlan.KeyOf(gs[n]);
      CountedSomewhere(gs[n], order, i, |order|);
    } else {
      NeverCounted(gs[n], order, |order|);
    }
  }

  lemma {:induction false} NeverCounted(g: Group, order: seq<InterfacePlan.Key>, m: nat)
    requires m <= |order| && !InterfacePlan.Included(g)
    ensures !Counted(g, order, m)
  {
    if m > 0 { NeverCounted(g, order, m - 1); }
  }

  /** Each way of splitting the groups in two splits their peerings in two. */
  lemma {:induction false} TwoSplits(count: Counter, gs: seq<Group>, n: nat)
    requires n <= |gs| && Additive(count)
    ensures count(FlatMap(IncludedSlots, gs, n)) + count(FlatMap(SkippedSlots, gs, n)) ==
            count(FlatMap(PeerPlan.ConfiguredSlots, gs, n)) + count(FlatMap(AbsentSlots, gs, n))
  {
    if n > 0 { TwoSplits(count, gs, n - 1); }
  }

  lemma OrderListsKeys(gs: seq<Group>, order: seq<InterfacePlan.Key>,
                       blocks: map<InterfacePlan.Key, InterfacePlan.Block>)
    requires InterfacePlan.Grouped(gs, |gs|, order, blocks)
    ensures Distinct(order) && Listed(gs, order, |gs|)
  {
    forall i | 0 <= i < |gs| && InterfacePlan.Included(gs[i]) ensures InterfacePlan.KeyOf(gs[i]) in order {
      assert InterfacePlan.BlockAt(gs, |gs|, blocks, InterfacePlan.KeyOf(gs[i]));
      IncludedIsMember(gs, i, |gs|);
    }
  }

  lemma {:induction false} IncludedIsMember(gs: seq<Group>, i: nat, n: nat)
    requires i < n <= |gs| && InterfacePlan.Included(gs[i])
    ensures InterfacePlan.Members(gs, InterfacePlan.KeyOf(gs[i]), n) != []
  {
    if i < n - 1 { IncludedIsMember(gs, i, n - 1); }
  }

  lemma CountsBalance(count: Counter, gs: seq<Group>, order: seq<InterfacePlan.Key>)
    requires Additive(count) && Distinct(order) && Listed(gs, order, |gs|)
    ensures count(InterfaceSlots(gs, order)) + count(FlatMap(SkippedSlots, gs, |gs|)) ==
            count(FlatMap(PeerPlan.ConfiguredSlots, gs, |gs|)) + count(FlatMap(AbsentSlots, gs, |gs|))
  {
    InterfaceCountIsCount(count, gs, order);
    InterfaceCountsIncluded(count, gs, order, |gs|);
    TwoSplits(count, gs, |gs|);
  }

  lemma EqualCounts(a: seq<Slot>, b: seq<Slot>, c: seq<Slot>, d: seq<Slot>)
    requires forall p :: Multiplicity(p)(a) + Multiplicity(p)(b) == Multiplicity(p)(c) + Multiplicity(p)(d)
    ensures multiset(a) + multiset(b) == multiset(c) + multiset(d)
  {
    forall p ensures multiset(a)[p] + multiset(b)[p] == multiset(c)[p] + multiset(d)[p] {
      assert Multiplicity(p)(a) == multiset(a)[p];
    }
  }

  /** Interface peerings and skipped peerings together are the planned peerings and the absent ones. */
  lemma ProjectionsBalance(gs: seq<Group>, order: seq<InterfacePlan.Key>,
                           blocks: map<InterfacePlan.Key, InterfacePlan.Block>)
    requires InterfacePlan.Grouped(gs, |gs|, order, blocks)
    ensures multiset(InterfaceSlots(gs, order)) + multiset(FlatMap(SkippedSlots, gs, |gs|)) ==
            multiset(PeerPlan.PlanSlots(gs)) + multiset(FlatMap(AbsentSlots, gs, |gs|))
  {
    var interfaces, skipped := InterfaceSlots(gs, order), FlatMap(SkippedSlots, gs, |gs|);
    var configured, absent := FlatMap(PeerPlan.ConfiguredSlots, gs, |gs|), FlatMap(AbsentSlots, gs, |gs|);
    OrderListsKeys(gs, order, blocks);
    PeerPlan.PlanIsPermutation(gs);
    forall p
      ensures Multiplicity(p)(interfaces) + Multiplicity(p)(skipped) ==
              Multiplicity(p)(configured) + Multiplicity(p)(absent)
    {
      MultiplicityAdditive(p);
      CountsBalance(Multiplicity(p), gs, order);
    }
    EqualCounts(interfaces, skipped, configured, absent);
  }

  /** The group's parent network is present and not empty. */
  predicate HasParent(g: Group) { g.parent.Some? && g.parent.value.text != "" }

  lemma SkippedOne(g: Group)
    ensures SkippedSlots(g) == [] <==> (Locals(g) != [] ==> HasParent(g))
  {
  }

  lemma SkippedNone(gs: seq<Group>)
    ensures FlatMap(SkippedSlots, gs, |gs|) == [] <==>
            forall i :: 0 <= i < |gs| && Locals(gs[i]) != [] ==> HasParent(gs[i])
  {
    FlatMapEmpty(SkippedSlots, gs, |gs|);
    forall i | 0 <= i < |gs| ensures SkippedSlots(gs[i]) == [] <==> (Locals(gs[i]) != [] ==> HasParent(gs[i])) {
      SkippedOne(gs[i]);
    }
  }

  lemma NothingExtra(a: multiset<Slot>, b: seq<Slot>, c: multiset<Slot>)
    requires a + multiset(b) == c
    ensures a == c <==> b == []
  {
    assert |a| + |b| == |c|;
  }

  /** The projections agree up to the absent neighbors exactly when every group that has addresses names
      its parent network. */
  lemma ProjectionsAgree(gs: seq<Group>, order: seq<InterfacePlan.Key>,
                         blocks: map<InterfacePlan.Key, InterfacePlan.Block>)
    requires InterfacePlan.Grouped(gs, |gs|, order, blocks)
    ensures multiset(InterfaceSlots(gs, order)) ==
              multiset(PeerPlan.PlanSlots(gs)) + multiset(FlatMap(AbsentSlots, gs, |gs|)) <==>
            forall i :: 0 <= i < |gs| && Locals(gs[i]) != [] ==> HasParent(gs[i])
  {
    ProjectionsBalance(gs, order, blocks);
    SkippedNone(gs);
    NothingExtra(multiset(InterfaceSlots(gs, order)), FlatMap(SkippedSlots, gs, |gs|),
                 multiset(PeerPlan.PlanSlots(gs)) + multiset(FlatMap(AbsentSlots, gs, |gs|)));
  }

  // ---------- what the blocks list ----------

  ghost predicate AllProjectable(ms: seq<Group>, n: nat)
    requires n <= |ms|
  {
    n == 0 || (AllProjectable(ms, n - 1) && Projectable(ms[n - 1]))
  }

  lemma {:induction false} SlotAddresses(ms: seq<Group>, n: nat)
    requires n <= |ms| && AllProjectable(ms, n)
    ensures Map(LocalAt, FlatMap(Slots, ms, n)) == Strides.Joined(InterfacePlan.LocalParts(ms), n)
    ensures Map(PeerAt, FlatMap(Slots, ms, n)) == Strides.Joined(InterfacePlan.PeerParts(ms), n)
  {
    if n > 0 {
      SlotAddresses(ms, n - 1);
      MapAppend(LocalAt, FlatMap(Slots, ms, n - 1), Slots(ms[n - 1]));
      MapAppend(PeerAt, FlatMap(Slots, ms, n - 1), Slots(ms[n - 1]));
      GroupAddresses(ms[n - 1]);
    }
  }

  lemma GroupAddresses(g: Group)
    requires Projectable(g)
    ensures Map(LocalAt, Slots(g)) == Locals(g) && Map(PeerAt, Slots(g)) == Peers(g)
  {
    forall i | 0 <= i < |Locals(g)| ensures Slots(g)[i] == Slot(g, i) { GroupSlotAt(g, |Locals(g)|, i); }
  }

  lemma {:induction false} MembersProjectable(gs: seq<Group>, k: InterfacePlan.Key, n: nat, m: nat)
    requires n <= |gs| && (forall i :: 0 <= i < n ==> InterfacePlan.Fits(gs, i))
    requires m <= |InterfacePlan.Members(gs, k, n)|
    ensures AllProjectable(InterfacePlan.Members(gs, k, n), m)
  {
    if m > 0 {
      MembersProjectable(gs, k, n, m - 1);
      var i := InterfacePlan.MemberFrom(gs, k, n, m - 1);
      assert InterfacePlan.Fits(gs, i);
    }
  }

  /** The addresses that the block of `k` lists are those of the peerings counted for it, position by position. */
  lemma BlockListsSlots(gs: seq<Group>, order: seq<InterfacePlan.Key>,
                        blocks: map<InterfacePlan.Key, InterfacePlan.Block>, k: InterfacePlan.Key)
    requires (forall n :: 0 <= n < |gs| ==> InterfacePlan.Fits(gs, n)) && InterfacePlan.Grouped(gs, |gs|, order, blocks)
    requires k in blocks
    ensures blocks[k].locals == Map(LocalAt, KeySlots(gs, k, |gs|))
    ensures blocks[k].peers == Map(PeerAt, KeySlots(gs, k, |gs|))
  {
    var ms := InterfacePlan.Members(gs, k, |gs|);
    assert InterfacePlan.BlockAt(gs, |gs|, blocks, k);
    MembersProjectable(gs, k, |gs|, |ms|);
    SlotAddresses(ms, |ms|);
    KeySlotsOfMembers(gs, k, |gs|);
  }
}
