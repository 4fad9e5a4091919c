/** Numbering the BGP peers that the device under test is configured with. */
module PeerPlan {
  import opened Sequences
  import opened Orders
  import opened Topology
  import opened PeerSlots
  import opened Decimals

  // ---------- ordering the groups ----------

  /** `{group.name: index}` keeps the last index of a repeated name. */
  function LastIndex(gs: seq<Group>, name: string, n: nat): (r: int)
    requires n <= |gs|
  {
    if n == 0 then -1 else if gs[n - 1].name == name then n - 1 else LastIndex(gs, name, n - 1)
  }

  function AfiRank(afi: Afi): (r: int) { if afi == V6 then 0 else 1 }

  function GroupKey(gs: seq<Group>): (f: Group -> Key) {
    (g: Group) => [AfiRank(g.afi), FamilyRank(Family(g.role)), LastIndex(gs, g.name, |gs|)]
  }

  function OrderedGroups(gs: seq<Group>): (r: seq<Group>) { SortBy(GroupKey(gs), gs) }

  // ---------- descriptions ----------

  const V4_PREFIX := "IXIA_V4_PEER_"
  const V6_PREFIX := "IXIA_V6_PEER_"

  function Description(afi: Afi, ordinal: nat): (s: string) {
    (if afi == V4 then V4_PREFIX else V6_PREFIX) + Decimal(ordinal + 1)
  }

  lemma DescriptionInjective(a: Afi, m: nat, b: Afi, n: nat)
    requires Description(a, m) == Description(b, n)
    ensures a == b && m == n
  {
    var s := Description(a, m);
    assert |V4_PREFIX| == 13 && |V6_PREFIX| == 13 && V4_PREFIX[6] == '4' && V6_PREFIX[6] == '6';
    assert s[6] == (if a == V4 then '4' else '6') && s[6] == (if b == V4 then '4' else '6');
    assert s[13..] == Decimal(m + 1) && s[13..] == Decimal(n + 1);
    DecimalInjective(m + 1, n + 1);
  }

  /** A description is its family's prefix and the number of the peer, counted from one. */
  lemma DescriptionReads(afi: Afi, ordinal: nat)
    ensures var s := Description(afi, ordinal);
            |s| > 13 && s[..13] == (if afi == V4 then "IXIA_V4_PEER_" else "IXIA_V6_PEER_") &&
            (forall c :: c in s[13..] ==> IsDigit(c)) && Value(s[13..]) == ordinal + 1
  {
    var s := Description(afi, ordinal);
    assert |V4_PREFIX| == 13 && |V6_PREFIX| == 13;
    assert s[13..] == Decimal(ordinal + 1);
    ValueDecimal(ordinal + 1);
    DecimalDigits(ordinal + 1);
  }

  // ---------- entries ----------

  datatype Entry =
    Entry(group: string, ordinal: nat, afi: Afi, remoteAsn: Option<int>, local: int, peer: int,
          peerGroup: Option<string>, description: string)

  function EntryFor(p: Slot, ordinal: nat): (e: Entry) {
    Entry(p.group.name, ordinal, p.group.afi, p.group.remoteAsn, LocalAt(p), PeerAt(p), p.group.peerGroup,
          Description(p.group.afi, ordinal))
  }

  /** How many of the first `n` peerings belong to one address family. */
  function Rank(ps: seq<Slot>, afi: Afi, n: nat): (r: nat)
    requires n <= |ps|
    ensures r <= n
  {
    if n == 0 then 0 else Rank(ps, afi, n - 1) + if ps[n - 1].group.afi == afi then 1 else 0
  }

  /** The first `n` peerings, each numbered by how many of its own family precede it. */
  function NumberedTo(ps: seq<Slot>, n: nat): (es: seq<Entry>)
    requires n <= |ps|
    ensures |es| == n
  {
    if n == 0 then [] else NumberedTo(ps, n - 1) + [EntryFor(ps[n - 1], Rank(ps, ps[n - 1].group.afi, n - 1))]
  }

  function Numbered(ps: seq<Slot>): (es: seq<Entry>) { NumberedTo(ps, |ps|) }

  predicate Planable(g: Group) { g.neighborAbsent || Projectable(g) }

  /** The peerings of a group that gets a baseline neighbor. */
  function ConfiguredSlots(g: Group): (r: seq<Slot>) { if g.neighborAbsent then [] else Slots(g) }

  /** The peerings the plan covers, in the plan's order. */
  function PlanSlots(gs: seq<Group>): (ps: seq<Slot>) { FlatMap(ConfiguredSlots, OrderedGroups(gs), |gs|) }

  lemma {:induction false} RankPrefix(a: seq<Slot>, b: seq<Slot>, afi: Afi, n: nat)
    requires n <= |a|
    ensures Rank(a + b, afi, n) == Rank(a, afi, n)
  {
    if n > 0 { RankPrefix(a, b, afi, n - 1); }
  }

  lemma {:induction false} NumberedPrefix(a: seq<Slot>, b: seq<Slot>, n: nat)
    requires n <= |a|
    ensures NumberedTo(a + b, n) == NumberedTo(a, n)
  {
    if n > 0 {
      NumberedPrefix(a, b, n - 1);
      RankPrefix(a, b, a[n - 1].group.afi, n - 1);
    }
  }

  lemma NumberedAppend(ps: seq<Slot>, p: Slot)
    ensures Numbered(ps + [p]) == Numbered(ps) + [EntryFor(p, Rank(ps, p.group.afi, |ps|))]
  {
    NumberedPrefix(ps, [p], |ps|);
    RankPrefix(ps, [p], p.group.afi, |ps|);
  }

  lemma RankAppend(ps: seq<Slot>, p: Slot, afi: Afi)
    ensures Rank(ps + [p], afi, |ps| + 1) == Rank(ps, afi, |ps|) + if afi == p.group.afi then 1 else 0
  {
    RankPrefix(ps, [p], afi, |ps|);
  }

  lemma AppendOne(ps: seq<Slot>, g: Group, n: nat)
    ensures ps + GroupSlots(g, n + 1) == (ps + GroupSlots(g, n)) + [Slot(g, n)]
  {
    AppendAssociative(ps, GroupSlots(g, n), [Slot(g, n)]);
  }

  lemma {:induction false} RankGrows(ps: seq<Slot>, g: Group, n: nat, afi: Afi)
    ensures Rank(ps + GroupSlots(g, n), afi, |ps| + n) == Rank(ps, afi, |ps|) + if afi == g.afi then n else 0
  {
    if n == 0 {
      assert ps + GroupSlots(g, 0) == ps;
    } else {
      RankGrows(ps, g, n - 1, afi);
      AppendOne(ps, g, n - 1);
      RankAppend(ps + GroupSlots(g, n - 1), Slot(g, n - 1), afi);
    }
  }

  lemma NumberedStep(before: seq<Slot>, g: Group, i: nat)
    ensures Numbered(before + GroupSlots(g, i + 1)) ==
            Numbered(before + GroupSlots(g, i)) + [EntryFor(Slot(g, i), Rank(before, g.afi, |before|) + i)]
  {
    RankGrows(before, g, i, g.afi);
    NumberedAppend(before + GroupSlots(g, i), Slot(g, i));
    AppendOne(before, g, i);
  }

  /** The inner loop: one group continues its family's numbering. */
  method AppendGroup(entries: seq<Entry>, g: Group, next: nat, ghost before: seq<Slot>) returns (r: seq<Entry>)
    requires entries == Numbered(before) && next == Rank(before, g.afi, |before|)
    requires |Locals(g)| == |Peers(g)|
    ensures r == Numbered(before + Slots(g))
  {
    r := entries;
    assert before + GroupSlots(g, 0) == before;
    for i := 0 to |Locals(g)|
      invariant r == Numbered(before + GroupSlots(g, i))
    {
      NumberedStep(before, g, i);
      r := r + [EntryFor(Slot(g, i), next + i)];
    }
  }

  datatype PlanResult = Planned(entries: seq<Entry>) | Rejected

  /** The state of the outer loop after `n` groups. */
  ghost predicate PlannedTo(ordered: seq<Group>, n: nat, entries: seq<Entry>, ordinals: map<Afi, nat>)
    requires n <= |ordered|
  {
    var ps := FlatMap(ConfiguredSlots, ordered, n);
    entries == Numbered(ps) && Counts(ordinals, ps)
  }

  lemma SkipStep(ordered: seq<Group>, n: nat, entries: seq<Entry>, ordinals: map<Afi, nat>)
    requires n < |ordered| && PlannedTo(ordered, n, entries, ordinals) && ordered[n].neighborAbsent
    ensures PlannedTo(ordered, n + 1, entries, ordinals)
  {
    var before := FlatMap(ConfiguredSlots, ordered, n);
    assert before + [] == before;
  }

  /** One turn of the outer loop for a configured group. */
  method PlanGroup(ordered: seq<Group>, n: nat, entries: seq<Entry>, ordinals: map<Afi, nat>)
    returns (es: seq<Entry>, os: map<Afi, nat>)
    requires n < |ordered| && PlannedTo(ordered, n, entries, ordinals)
    requires !ordered[n].neighborAbsent && |Locals(ordered[n])| == |Peers(ordered[n])|
    ensures PlannedTo(ordered, n + 1, es, os)
  {
    var g := ordered[n];
    ghost var before := FlatMap(ConfiguredSlots, ordered, n);
    var next := CountOf(ordinals, g.afi);
    CountsAt(ordinals, before, g.afi);
    es := AppendGroup(entries, g, next, before);
    CountsGrow(ordinals, before, g);
    os := ordinals[g.afi := next + |Locals(g)|];
  }

  /** Acceptance over the fields of the groups. */
  lemma PlanableByFields(gs: seq<Group>)
    ensures (forall g :: g in gs ==> Planable(g)) <==>
            forall g :: g in gs && !g.neighborAbsent ==>
              (g.aInterface.None? || g.zInterface.None?) &&
              (g.aInterface.Some? || g.zInterface.Some? ==> |g.aIps| == |g.zIps|)
  {
  }

  /** The plan exists exactly when every configured group projects, and then numbers the covered peerings. */
  method Plan(gs: seq<Group>) returns (r: PlanResult)
    ensures r.Planned? <==> forall g :: g in gs ==> Planable(g)
    ensures r.Planned? ==> r.entries == Numbered(PlanSlots(gs))
  {
    var ordered := OrderedGroups(gs);
    PermutationMembers(ordered, gs);
    var ordinals: map<Afi, nat>, entries: seq<Entry> := map[], [];
    for n := 0 to |ordered|
      invariant forall i :: 0 <= i < n ==> Planable(ordered[i])
      invariant PlannedTo(ordered, n, entries, ordinals)
    {
      var g := ordered[n];
      if g.neighborAbsent {
        SkipStep(ordered, n, entries, ordinals);
        continue;
      }
      if Ambiguous(g) || |Locals(g)| != |Peers(g)| {
        assert g in gs && !Planable(g);
        return Rejected;
      }
      entries, ordinals := PlanGroup(ordered, n, entries, ordinals);
    }
    r := Planned(entries);
  }

  function CountOf(ordinals: map<Afi, nat>, afi: Afi): (r: nat) { if afi in ordinals then ordinals[afi] else 0 }

  /** The counters hold each family's size so far. */
  ghost predicate Counts(ordinals: map<Afi, nat>, ps: seq<Slot>) {
    CountOf(ordinals, V4) == Rank(ps, V4, |ps|) && CountOf(ordinals, V6) == Rank(ps, V6, |ps|)
  }

  lemma CountsAt(ordinals: map<Afi, nat>, ps: seq<Slot>, afi: Afi)
    requires Counts(ordinals, ps)
    ensures CountOf(ordinals, afi) == Rank(ps, afi, |ps|)
  {
    match afi case V4 => case V6 =>
  }

  lemma CountsGrow(ordinals: map<Afi, nat>, ps: seq<Slot>, g: Group)
    requires Counts(ordinals, ps)
    ensures Counts(ordinals[g.afi := CountOf(ordinals, g.afi) + |Locals(g)|], ps + Slots(g))
  {
    RankGrows(ps, g, |Locals(g)|, V4);
    RankGrows(ps, g, |Locals(g)|, V6);
  }

  // ---------- numbering ----------

  lemma {:induction false} RankMonotone(ps: seq<Slot>, afi: Afi, m: nat, n: nat)
    requires m <= n <= |ps|
    ensures Rank(ps, afi, m) <= Rank(ps, afi, n)
  {
    if m < n { RankMonotone(ps, afi, m, n - 1); }
  }

  lemma {:induction false} RankIncreases(ps: seq<Slot>, i: nat, j: nat)
    requires i < j < |ps| && ps[i].group.afi == ps[j].group.afi
    ensures Rank(ps, ps[i].group.afi, i) < Rank(ps, ps[j].group.afi, j)
  {
    RankMonotone(ps, ps[i].group.afi, i + 1, j);
  }

  /** Every ordinal below a family's size is used by some entry of the family. */
  lemma {:induction false} RankSurjective(ps: seq<Slot>, afi: Afi, o: nat, n: nat) returns (i: nat)
    requires n <= |ps| && o < Rank(ps, afi, n)
    ensures i < n && ps[i].group.afi == afi && Rank(ps, afi, i) == o
  {
    if o < Rank(ps, afi, n - 1) {
      i := RankSurjective(ps, afi, o, n - 1);
    } else {
      i := n - 1;
    }
  }

  lemma {:induction false} NumberedAt(ps: seq<Slot>, i: nat, n: nat)
    requires i < n <= |ps|
    ensures NumberedTo(ps, n)[i] == EntryFor(ps[i], Rank(ps, ps[i].group.afi, i))
  {
    if i < n - 1 { NumberedAt(ps, i, n - 1); }
  }

  /** Entry by entry: the peering, its family's rank as the ordinal, below the family's size. */
  lemma OrdinalIsRank(ps: seq<Slot>, i: nat)
    requires i < |ps|
    ensures Numbered(ps)[i] == EntryFor(ps[i], Rank(ps, ps[i].group.afi, i))
    ensures Numbered(ps)[i].ordinal < Rank(ps, ps[i].group.afi, |ps|)
  {
    NumberedAt(ps, i, |ps|);
    RankMonotone(ps, ps[i].group.afi, i + 1, |ps|);
  }

  /** Within a family the ordinals increase in output order, and no two entries share a description. */
  lemma NumberingOrders(ps: seq<Slot>, i: nat, j: nat)
    requires i < j < |ps|
    ensures Numbered(ps)[i].afi == Numbered(ps)[j].afi ==> Numbered(ps)[i].ordinal < Numbered(ps)[j].ordinal
    ensures Numbered(ps)[i].description != Numbered(ps)[j].description
  {
    NumberedAt(ps, i, |ps|);
    NumberedAt(ps, j, |ps|);
    if ps[i].group.afi == ps[j].group.afi { RankIncreases(ps, i, j); }
    var m, n := Rank(ps, ps[i].group.afi, i), Rank(ps, ps[j].group.afi, j);
    if Description(ps[i].group.afi, m) == Description(ps[j].group.afi, n) {
      DescriptionInjective(ps[i].group.afi, m, ps[j].group.afi, n);
    }
  }

  // ---------- order ----------

  ghost predicate UniqueNames(gs: seq<Group>) {
    forall i, j :: 0 <= i < j < |gs| ==> gs[i].name != gs[j].name
  }

  lemma {:induction false} LastIndexIsIndex(gs: seq<Group>, i: nat, n: nat)
    requires UniqueNames(gs) && i < n <= |gs|
    ensures LastIndex(gs, gs[i].name, n) == i
  {
    if i < n - 1 { LastIndexIsIndex(gs, i, n - 1); }
  }

  /** Address family, then role family, then authored position, then position within the group. */
  function SlotKey(gs: seq<Group>): (f: Slot -> Key) {
    (p: Slot) => GroupKey(gs)(p.group) + [p.index]
  }

  lemma KeyOrder(gs: seq<Group>, p: Slot, q: Slot)
    requires LexLe(GroupKey(gs)(p.group), GroupKey(gs)(q.group))
    requires GroupKey(gs)(p.group) == GroupKey(gs)(q.group) ==> p.index <= q.index
    ensures LexLe(SlotKey(gs)(p), SlotKey(gs)(q))
  {
    LexExtend(GroupKey(gs)(p.group), GroupKey(gs)(q.group), p.index, q.index);
  }

  lemma {:induction false} LexExtend(a: Key, b: Key, i: int, j: int)
    requires |a| == |b| && LexLe(a, b) && (a == b ==> i <= j)
    ensures LexLe(a + [i], b + [j])
  {
    if a == [] {
      assert a + [i] == [i] && b + [j] == [j];
    } else {
      assert (a + [i])[1..] == a[1..] + [i] && (b + [j])[1..] == b[1..] + [j];
      assert a == [a[0]] + a[1..] && b == [b[0]] + b[1..];
      if a[0] == b[0] { LexExtend(a[1..], b[1..], i, j); }
    }
  }

  /** With unique names a group's key holds its authored position, so keys tell groups apart. */
  lemma KeyNamesGroup(gs: seq<Group>, g: Group, h: Group)
    requires UniqueNames(gs) && g in gs && h in gs && GroupKey(gs)(g) == GroupKey(gs)(h)
    ensures g == h
  {
    var i :| 0 <= i < |gs| && gs[i] == g;
    var j :| 0 <= j < |gs| && gs[j] == h;
    LastIndexIsIndex(gs, i, |gs|);
    LastIndexIsIndex(gs, j, |gs|);
    assert GroupKey(gs)(g)[2] == GroupKey(gs)(h)[2];
  }

  lemma OrderedStrictly(gs: seq<Group>)
    requires UniqueNames(gs)
    ensures Strict(gs, OrderedGroups(gs))
  {
    var ordered := OrderedGroups(gs);
    SortBySorts(GroupKey(gs), gs);
    PermutationDistinct(gs, ordered);
    PermutationMembers(ordered, gs);
    forall i, j | 0 <= i < j < |ordered| && GroupKey(gs)(ordered[i]) == GroupKey(gs)(ordered[j]) ensures false {
      KeyNamesGroup(gs, ordered[i], ordered[j]);
    }
  }

  ghost predicate KeysDiffer(gs: seq<Group>, ordered: seq<Group>) {
    forall i, j :: 0 <= i < j < |ordered| ==> GroupKey(gs)(ordered[i]) != GroupKey(gs)(ordered[j])
  }

  /** Sorted by key, and no key twice. */
  ghost predicate Strict(gs: seq<Group>, ordered: seq<Group>) {
    SortedBy(GroupKey(gs), ordered) && KeysDiffer(gs, ordered)
  }

  lemma GroupSlotsSorted(gs: seq<Group>, g: Group, n: nat)
    ensures SortedBy(SlotKey(gs), GroupSlots(g, n))
  {
    var ps := GroupSlots(g, n);
    forall i, j | 0 <= i < j < n ensures LexLe(SlotKey(gs)(ps[i]), SlotKey(gs)(ps[j])) {
      LexReflexive(GroupKey(gs)(g));
      GroupSlotAt(g, n, i);
      GroupSlotAt(g, n, j);
      KeyOrder(gs, Slot(g, i), Slot(g, j));
    }
  }

  lemma LaterGroupLater(gs: seq<Group>, ordered: seq<Group>, n: nat, p: Slot, q: Slot)
    requires n < |ordered| && Strict(gs, ordered)
    requires p in FlatMap(ConfiguredSlots, ordered, n) && q in ConfiguredSlots(ordered[n])
    ensures LexLe(SlotKey(gs)(p), SlotKey(gs)(q))
  {
    var i := FlatMapFrom(ConfiguredSlots, ordered, n, p);
    GroupSlotFrom(ordered[i], |Locals(ordered[i])|, p);
    GroupSlotFrom(ordered[n], |Locals(ordered[n])|, q);
    KeyOrder(gs, p, q);
  }

  lemma PartSorted(gs: seq<Group>, ordered: seq<Group>, n: nat)
    requires n < |ordered| && Strict(gs, ordered)
    ensures SortedBy(SlotKey(gs), ConfiguredSlots(ordered[n]))
    ensures forall p, q :: p in FlatMap(ConfiguredSlots, ordered, n) && q in ConfiguredSlots(ordered[n]) ==>
              LexLe(SlotKey(gs)(p), SlotKey(gs)(q))
  {
    GroupSlotsSorted(gs, ordered[n], |Locals(ordered[n])|);
    forall p, q | p in FlatMap(ConfiguredSlots, ordered, n) && q in ConfiguredSlots(ordered[n])
      ensures LexLe(SlotKey(gs)(p), SlotKey(gs)(q))
    {
      LaterGroupLater(gs, ordered, n, p, q);
    }
  }

  lemma {:induction false} FlatMapSorted(gs: seq<Group>, ordered: seq<Group>, n: nat)
    requires n <= |ordered| && Strict(gs, ordered)
    ensures SortedBy(SlotKey(gs), FlatMap(ConfiguredSlots, ordered, n))
  {
    if n > 0 {
      var before, last := FlatMap(ConfiguredSlots, ordered, n - 1), ConfiguredSlots(ordered[n - 1]);
      FlatMapSorted(gs, ordered, n - 1);
      PartSorted(gs, ordered, n - 1);
      SortedConcat(SlotKey(gs), before, last);
    }
  }

  lemma SlotKeysDiffer(gs: seq<Group>, p: Slot, q: Slot)
    requires UniqueNames(gs) && p.group in gs && q.group in gs && SlotKey(gs)(p) == SlotKey(gs)(q)
    ensures p == q
  {
    var a, b := GroupKey(gs)(p.group), GroupKey(gs)(q.group);
    assert a == SlotKey(gs)(p)[..3] && b == SlotKey(gs)(q)[..3];
    assert p.index == SlotKey(gs)(p)[3] && q.index == SlotKey(gs)(q)[3];
    KeyNamesGroup(gs, p.group, q.group);
  }

  /** The plan covers every peering of every configured group exactly once. */
  lemma PlanIsPermutation(gs: seq<Group>)
    ensures multiset(PlanSlots(gs)) == multiset(FlatMap(ConfiguredSlots, gs, |gs|))
  {
    SortKeepsParts(ConfiguredSlots, GroupKey(gs), gs);
  }

  /** With unique group names the plan is the one listing of those peerings that is ordered by
      IPv6 first, then role rank, then authored position, then position in the group. */
  lemma PlanIsSorted(gs: seq<Group>)
    requires UniqueNames(gs)
    ensures SortedBy(SlotKey(gs), PlanSlots(gs))
    ensures forall ps :: SortedBy(SlotKey(gs), ps) && multiset(ps) == multiset(PlanSlots(gs)) ==> ps == PlanSlots(gs)
  {
    var plan := PlanSlots(gs);
    OrderedStrictly(gs);
    FlatMapSorted(gs, OrderedGroups(gs), |gs|);
    forall p, q | p in plan && q in plan && SlotKey(gs)(p) == SlotKey(gs)(q) ensures p == q {
      SlotFromGroup(gs, p);
      SlotFromGroup(gs, q);
      SlotKeysDiffer(gs, p, q);
    }
    forall ps | SortedBy(SlotKey(gs), ps) && multiset(ps) == multiset(plan) ensures ps == plan {
      SortedUnique(SlotKey(gs), plan, ps);
    }
  }

  /** A peering is planned exactly when its group is authored with a baseline neighbor and has an address for it on
      the device's side. */
  lemma PlanCovers(gs: seq<Group>, p: Slot)
    ensures p in PlanSlots(gs) <==>
            p.group in gs && !p.group.neighborAbsent &&
            if p.group.aInterface.Some? then p.index < |p.group.aIps|
            else p.group.zInterface.Some? && p.index < |p.group.zIps|
  {
    if p in PlanSlots(gs) { SlotFromGroup(gs, p); }
    if p.group in gs && !p.group.neighborAbsent && p.index < |Locals(p.group)| {
      var i :| 0 <= i < |gs| && gs[i] == p.group;
      GroupSlotAt(p.group, |Locals(p.group)|, p.index);
      FlatMapHolds(ConfiguredSlots, gs, |gs|, i, p);
      PlanIsPermutation(gs);
      PermutationMembers(PlanSlots(gs), FlatMap(ConfiguredSlots, gs, |gs|));
    }
  }

  lemma SlotFromGroup(gs: seq<Group>, p: Slot)
    requires p in PlanSlots(gs)
    ensures p.group in gs && !p.group.neighborAbsent && p.index < |Locals(p.group)|
  {
    var i := FlatMapFrom(ConfiguredSlots, OrderedGroups(gs), |gs|, p);
    GroupSlotFrom(OrderedGroups(gs)[i], |Locals(OrderedGroups(gs)[i])|, p);
    PermutationMembers(OrderedGroups(gs), gs);
    assert OrderedGroups(gs)[i] in gs;
  }

  /** What the sort key holds for the i-th authored group. */
  lemma SlotKeyMeaning(gs: seq<Group>, i: nat, k: nat)
    requires UniqueNames(gs) && i < |gs|
    ensures SlotKey(gs)(Slot(gs[i], k)) == [AfiRank(gs[i].afi), FamilyRank(Family(gs[i].role)), i, k]
  {
    LastIndexIsIndex(gs, i, |gs|);
    var a, r, l: int, x: int := AfiRank(gs[i].afi), FamilyRank(Family(gs[i].role)), i, k;
    assert GroupKey(gs)(gs[i]) == [a, r, l];
    assert [a, r, l] + [x] == [a, r, l, x];
  }

  /** Entry by entry: which peering of which configured group it describes. */
  lemma EntryDescribesPeering(gs: seq<Group>, i: nat)
    requires (forall g :: g in gs ==> Planable(g)) && i < |PlanSlots(gs)|
    ensures |Numbered(PlanSlots(gs))| == |PlanSlots(gs)|
    ensures var p, e := PlanSlots(gs)[i], Numbered(PlanSlots(gs))[i];
            p.group in gs && !p.group.neighborAbsent && p.index < |p.group.aIps| == |p.group.zIps| &&
            (if p.group.aInterface.Some? then e.local == p.group.aIps[p.index] && e.peer == p.group.zIps[p.index]
             else p.group.zInterface.Some? && e.local == p.group.zIps[p.index] && e.peer == p.group.aIps[p.index]) &&
            e.group == p.group.name && e.afi == p.group.afi &&
            e.remoteAsn == p.group.remoteAsn && e.peerGroup == p.group.peerGroup &&
            e.description == Description(e.afi, e.ordinal)
  {
    var ps := PlanSlots(gs);
    assert ps[i] in ps;
    SlotFromGroup(gs, ps[i]);
    OrdinalIsRank(ps, i);
  }

  // ---------- the order by family, role and position ----------

  function SlotGroupKey(gs: seq<Group>): (f: Slot -> Key) { (p: Slot) => GroupKey(gs)(p.group) }

  lemma OneGroupSorted(gs: seq<Group>, g: Group)
    ensures SortedBy(SlotGroupKey(gs), ConfiguredSlots(g))
    ensures forall p :: p in ConfiguredSlots(g) ==> p.group == g
  {
    var ps := ConfiguredSlots(g);
    forall p | p in ps ensures p.group == g { GroupSlotFrom(g, |Locals(g)|, p); }
    forall i, j | 0 <= i < j < |ps| ensures LexLe(SlotGroupKey(gs)(ps[i]), SlotGroupKey(gs)(ps[j])) {
      assert ps[i] in ps && ps[j] in ps;
      LexReflexive(GroupKey(gs)(g));
    }
  }

  lemma {:induction false} GroupsInOrder(gs: seq<Group>, ordered: seq<Group>, n: nat)
    requires n <= |ordered| && SortedBy(GroupKey(gs), ordered)
    ensures SortedBy(SlotGroupKey(gs), FlatMap(ConfiguredSlots, ordered, n))
  {
    if n > 0 {
      var before, last := FlatMap(ConfiguredSlots, ordered, n - 1), ConfiguredSlots(ordered[n - 1]);
      GroupsInOrder(gs, ordered, n - 1);
      OneGroupSorted(gs, ordered[n - 1]);
      forall p, q | p in before && q in last ensures LexLe(SlotGroupKey(gs)(p), SlotGroupKey(gs)(q)) {
        var i := FlatMapFrom(ConfiguredSlots, ordered, n - 1, p);
        OneGroupSorted(gs, ordered[i]);
      }
      SortedConcat(SlotGroupKey(gs), before, last);
    }
  }

  lemma TripleOrderMeans(p: Group, q: Group, x: int, y: int)
    requires LexLe([AfiRank(p.afi), FamilyRank(Family(p.role)), x], [AfiRank(q.afi), FamilyRank(Family(q.role)), y])
    ensures !(p.afi == V4 && q.afi == V6)
    ensures p.afi == q.afi ==> !RoleBefore(q.role, p.role)
    ensures p.afi == q.afi && !RoleBefore(p.role, q.role) ==> x <= y
  {
    LexTriple([AfiRank(p.afi), FamilyRank(Family(p.role)), x], [AfiRank(q.afi), FamilyRank(Family(q.role)), y]);
    RanksByRole(p.role, q.role);
    RanksByRole(q.role, p.role);
  }

  /** What the order of two group keys means. */
  lemma {:induction false} KeyOrderMeans(gs: seq<Group>, p: Group, q: Group)
    requires LexLe(GroupKey(gs)(p), GroupKey(gs)(q))
    ensures !(p.afi == V4 && q.afi == V6)
    ensures p.afi == q.afi ==> !RoleBefore(q.role, p.role)
    ensures p.afi == q.afi && !RoleBefore(p.role, q.role) ==> LastIndex(gs, p.name, |gs|) <= LastIndex(gs, q.name, |gs|)
  {
    TripleOrderMeans(p, q, LastIndex(gs, p.name, |gs|), LastIndex(gs, q.name, |gs|));
  }

  /** No IPv4 entry precedes an IPv6 one; within an address family EBGP peerings come first, then IBGP, then the
      monitor's, then all others; among these the group authored first comes first, and in it the first position. */
  lemma PlanOrder(gs: seq<Group>, i: nat, j: nat)
    requires i < j < |PlanSlots(gs)|
    ensures !(Numbered(PlanSlots(gs))[i].afi == V4 && Numbered(PlanSlots(gs))[j].afi == V6)
    ensures var p, q := PlanSlots(gs)[i], PlanSlots(gs)[j];
            p.group.afi == q.group.afi ==> !RoleBefore(q.group.role, p.group.role)
    ensures var p, q := PlanSlots(gs)[i], PlanSlots(gs)[j];
            UniqueNames(gs) && p.group.afi == q.group.afi && !RoleBefore(p.group.role, q.group.role) ==>
              exists a, b :: 0 <= a <= b < |gs| && gs[a] == p.group && gs[b] == q.group &&
                (a == b ==> p.index < q.index)
  {
    var ps := PlanSlots(gs);
    SortBySorts(GroupKey(gs), gs);
    GroupsInOrder(gs, OrderedGroups(gs), |gs|);
    assert LexLe(SlotGroupKey(gs)(ps[i]), SlotGroupKey(gs)(ps[j]));
    KeyOrderMeans(gs, ps[i].group, ps[j].group);
    OrdinalIsRank(ps, i);
    OrdinalIsRank(ps, j);
    if UniqueNames(gs) && ps[i].group.afi == ps[j].group.afi && !RoleBefore(ps[i].group.role, ps[j].group.role) {
      PositionsInOrder(gs, i, j);
    }
  }

  /** An earlier part of the plan has nothing of a later group. */
  lemma EarlierPart(gs: seq<Group>, ordered: seq<Group>, n: nat, p: Slot)
    requires n < |ordered| && KeysDiffer(gs, ordered) && p in FlatMap(ConfiguredSlots, ordered, n)
    ensures p.group != ordered[n]
  {
    var k := FlatMapFrom(ConfiguredSlots, ordered, n, p);
    OneGroupSorted(gs, ordered[k]);
    assert GroupKey(gs)(ordered[k]) != GroupKey(gs)(ordered[n]);
  }

  lemma LaterPart(gs: seq<Group>, ordered: seq<Group>, n: nat, p: Slot, q: Slot)
    requires n < |ordered| && KeysDiffer(gs, ordered)
    requires p in FlatMap(ConfiguredSlots, ordered, n) && q in ConfiguredSlots(ordered[n])
    ensures p.group != q.group
  {
    OneGroupSorted(gs, ordered[n]);
    EarlierPart(gs, ordered, n, p);
  }

  /** Peerings of one group come in the order of their positions. */
  ghost predicate InGroupOrder(ps: seq<Slot>) {
    forall i, j :: 0 <= i < j < |ps| && ps[i].group == ps[j].group ==> ps[i].index < ps[j].index
  }

  lemma WithinGroup(g: Group)
    ensures InGroupOrder(ConfiguredSlots(g))
  {
    var ps := ConfiguredSlots(g);
    forall i, j | 0 <= i < j < |ps| ensures ps[i].index < ps[j].index {
      GroupSlotAt(g, |ps|, i);
      GroupSlotAt(g, |ps|, j);
    }
  }

  lemma AcrossGroups(a: seq<Slot>, b: seq<Slot>)
    requires InGroupOrder(a) && InGroupOrder(b) && forall p, q :: p in a && q in b ==> p.group != q.group
    ensures InGroupOrder(a + b)
  {
    var ps := a + b;
    assert forall i :: 0 <= i < |a| ==> ps[i] == a[i] && ps[i] in a;
    assert forall j :: |a| <= j < |ps| ==> ps[j] == b[j - |a|] && ps[j] in b;
  }

  lemma {:induction false} PlanInGroupOrder(gs: seq<Group>, ordered: seq<Group>, n: nat)
    requires n <= |ordered| && KeysDiffer(gs, ordered)
    ensures InGroupOrder(FlatMap(ConfiguredSlots, ordered, n))
  {
    if n > 0 {
      var before, last := FlatMap(ConfiguredSlots, ordered, n - 1), ConfiguredSlots(ordered[n - 1]);
      PlanInGroupOrder(gs, ordered, n - 1);
      WithinGroup(ordered[n - 1]);
      forall p, q | p in before && q in last ensures p.group != q.group { LaterPart(gs, ordered, n - 1, p, q); }
      AcrossGroups(before, last);
    }
  }

  lemma PositionsInOrder(gs: seq<Group>, i: nat, j: nat)
    requires i < j < |PlanSlots(gs)| && UniqueNames(gs)
    requires LastIndex(gs, PlanSlots(gs)[i].group.name, |gs|) <= LastIndex(gs, PlanSlots(gs)[j].group.name, |gs|)
    ensures var p, q := PlanSlots(gs)[i], PlanSlots(gs)[j];
            exists a, b :: 0 <= a <= b < |gs| && gs[a] == p.group && gs[b] == q.group && (a == b ==> p.index < q.index)
  {
    var ps := PlanSlots(gs);
    assert ps[i] in ps && ps[j] in ps;
    SlotFromGroup(gs, ps[i]);
    SlotFromGroup(gs, ps[j]);
    var a :| 0 <= a < |gs| && gs[a] == ps[i].group;
    var b :| 0 <= b < |gs| && gs[b] == ps[j].group;
    LastIndexIsIndex(gs, a, |gs|);
    LastIndexIsIndex(gs, b, |gs|);
    if a == b {
      OrderedStrictly(gs);
      PlanInGroupOrder(gs, OrderedGroups(gs), |gs|);
    }
  }
}
