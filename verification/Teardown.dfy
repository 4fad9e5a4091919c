/** Characteristic interface setup and the ordered teardown that undoes it. */
module Teardown {
  import opened Sequences
  import opened Orders
  import opened Topology
  import opened Strides
  import PartitionLeaves
  import InterfacePlan
  import Agreement

  /** One address block of the interface plan; `peers` is the number of its local addresses. */
  datatype Block = Block(interface: string, role: Role, afi: Afi, parent: string, startOffset: int, peers: nat)

  datatype Base = Base(parent: string, startOffset: int)

  /** Clears one interface and assigns `peers` addresses per family given. */
  datatype IpTask = IpTask(interface: string, peers: nat, v4: Option<Base>, v6: Option<Base>)

  // ---------- setup ----------

  predicate SetUp(b: Block) { Family(b.role) == EbgpFamily || Family(b.role) == IbgpFamily }

  predicate In(b: Block, f: RoleFamily, afi: Afi) { Family(b.role) == f && b.afi == afi }

  function FindBlock(bs: seq<Block>, f: RoleFamily, afi: Afi, n: nat): (r: Option<Block>)
    requires n <= |bs|
    ensures r.Some? ==> r.value in bs && In(r.value, f, afi)
  {
    if n == 0 then None
    else
      var before := FindBlock(bs, f, afi, n - 1);
      if before.Some? then before else if In(bs[n - 1], f, afi) then Some(bs[n - 1]) else None
  }

  function BaseOf(b: Option<Block>): (r: Option<Base>) {
    if b.Some? then Some(Base(b.value.parent, b.value.startOffset)) else None
  }

  predicate Agree(a: Option<Block>, b: Option<Block>) {
    a.Some? && b.Some? ==> a.value.interface == b.value.interface && a.value.peers == b.value.peers
  }

  /** One family's interface step, if it has a block at all. */
  function TaskOf(v4: Option<Block>, v6: Option<Block>): (r: seq<IpTask>) {
    if v4.Some? then [IpTask(v4.value.interface, v4.value.peers, BaseOf(v4), BaseOf(v6))]
    else if v6.Some? then [IpTask(v6.value.interface, v6.value.peers, None, BaseOf(v6))]
    else []
  }

  function FamilyTask(bs: seq<Block>, f: RoleFamily): (r: seq<IpTask>) {
    TaskOf(FindBlock(bs, f, V4, |bs|), FindBlock(bs, f, V6, |bs|))
  }

  function SetupTasks(bs: seq<Block>): (r: seq<IpTask>) { FamilyTask(bs, EbgpFamily) + FamilyTask(bs, IbgpFamily) }

  /** No two blocks of one set-up family and address family. */
  ghost predicate Unambiguous(bs: seq<Block>) {
    forall i, j :: 0 <= i < j < |bs| && SetUp(bs[i]) && SetUp(bs[j]) ==>
      !(Family(bs[i].role) == Family(bs[j].role) && bs[i].afi == bs[j].afi)
  }

  /** The blocks of one family share interface and peer count. */
  ghost predicate Coherent(bs: seq<Block>, f: RoleFamily) {
    forall a, b :: a in bs && b in bs && Family(a.role) == f && Family(b.role) == f ==>
      a.interface == b.interface && a.peers == b.peers
  }

  lemma {:induction false} FindSome(bs: seq<Block>, f: RoleFamily, afi: Afi, i: nat, n: nat)
    requires i < n <= |bs| && In(bs[i], f, afi)
    ensures FindBlock(bs, f, afi, n).Some?
  {
    if i < n - 1 { FindSome(bs, f, afi, i, n - 1); }
  }

  lemma {:induction false} FindFrom(bs: seq<Block>, f: RoleFamily, afi: Afi, n: nat) returns (i: nat)
    requires n <= |bs| && FindBlock(bs, f, afi, n).Some?
    ensures i < n && bs[i] == FindBlock(bs, f, afi, n).value
  {
    if FindBlock(bs, f, afi, n - 1).Some? { i := FindFrom(bs, f, afi, n - 1); } else { i := n - 1; }
  }

  /** Without ambiguity every block is the one its slot finds. */
  lemma FindIs(bs: seq<Block>, i: nat)
    requires Unambiguous(bs) && i < |bs| && SetUp(bs[i])
    ensures FindBlock(bs, Family(bs[i].role), bs[i].afi, |bs|) == Some(bs[i])
  {
    FindSome(bs, Family(bs[i].role), bs[i].afi, i, |bs|);
    var j := FindFrom(bs, Family(bs[i].role), bs[i].afi, |bs|);
    assert j == i;
  }

  lemma CoherentIffAgree(bs: seq<Block>, f: RoleFamily)
    requires Unambiguous(bs) && (f == EbgpFamily || f == IbgpFamily)
    ensures Coherent(bs, f) <==> Agree(FindBlock(bs, f, V4, |bs|), FindBlock(bs, f, V6, |bs|))
  {
    if Agree(FindBlock(bs, f, V4, |bs|), FindBlock(bs, f, V6, |bs|)) {
      forall a, b | a in bs && b in bs && Family(a.role) == f && Family(b.role) == f
        ensures a.interface == b.interface && a.peers == b.peers
      {
        var i :| 0 <= i < |bs| && bs[i] == a;
        var j :| 0 <= j < |bs| && bs[j] == b;
        FindIs(bs, i);
        FindIs(bs, j);
        assert a.afi == V4 || a.afi == V6;
        assert b.afi == V4 || b.afi == V6;
      }
    }
  }

  type Table = map<(RoleFamily, Afi), Block>

  function At(table: Table, f: RoleFamily, afi: Afi): (r: Option<Block>) {
    if (f, afi) in table then Some(table[(f, afi)]) else None
  }

  ghost predicate Tabled(bs: seq<Block>, n: nat, table: Table)
    requires n <= |bs|
  {
    forall f, afi :: f == EbgpFamily || f == IbgpFamily ==> At(table, f, afi) == FindBlock(bs, f, afi, n)
  }

  datatype SetupResult = Tasks(tasks: seq<IpTask>) | Rejected

  /** The dictionary of the first loop, or None at an ambiguous block. */
  method Tabulate(bs: seq<Block>) returns (r: Option<Table>)
    ensures r.Some? <==> Unambiguous(bs)
    ensures r.Some? ==> Tabled(bs, |bs|, r.value)
  {
    var table: Table := map[];
    for n := 0 to |bs|
      invariant Tabled(bs, n, table)
      invariant forall i, j :: 0 <= i < j < n && SetUp(bs[i]) && SetUp(bs[j]) ==>
                  !(Family(bs[i].role) == Family(bs[j].role) && bs[i].afi == bs[j].afi)
    {
      var b := bs[n];
      if !SetUp(b) { continue; }
      assert At(table, Family(b.role), b.afi) == FindBlock(bs, Family(b.role), b.afi, n);
      if (Family(b.role), b.afi) in table {
        var i := FindFrom(bs, Family(b.role), b.afi, n);
        return None;
      }
      forall i | 0 <= i < n ensures !In(bs[i], Family(b.role), b.afi) {
        if In(bs[i], Family(b.role), b.afi) { FindSome(bs, Family(b.role), b.afi, i, n); }
      }
      table := table[(Family(b.role), b.afi) := b];
    }
    r := Some(table);
  }

  method CharacteristicTasks(bs: seq<Block>) returns (r: SetupResult)
    ensures r.Tasks? <==> bs != [] && Unambiguous(bs) && Coherent(bs, EbgpFamily) && Coherent(bs, IbgpFamily)
    ensures r.Tasks? ==> r.tasks == SetupTasks(bs)
  {
    if bs == [] { return Rejected; }
    var table := Tabulate(bs);
    if table.None? { return Rejected; }
    CoherentIffAgree(bs, EbgpFamily);
    CoherentIffAgree(bs, IbgpFamily);
    var families, tasks := [EbgpFamily, IbgpFamily], [];
    for n := 0 to 2
      invariant tasks == if n == 0 then [] else if n == 1 then FamilyTask(bs, EbgpFamily) else SetupTasks(bs)
      invariant n > 0 ==> Coherent(bs, EbgpFamily)
      invariant n > 1 ==> Coherent(bs, IbgpFamily)
    {
      var v4, v6 := At(table.value, families[n], V4), At(table.value, families[n], V6);
      if !Agree(v4, v6) { return Rejected; }
      tasks := tasks + TaskOf(v4, v6);
    }
    r := Tasks(tasks);
  }

  /** The step assigns the addresses of a block. */
  predicate Assigns(t: IpTask, b: Block) {
    t.interface == b.interface && t.peers == b.peers &&
    (if b.afi == V4 then t.v4 else t.v6) == Some(Base(b.parent, b.startOffset))
  }

  /** Each block of a set-up family is assigned by the family's single task. */
  lemma SetupAssignsBlock(bs: seq<Block>, i: nat)
    requires Unambiguous(bs) && i < |bs| && SetUp(bs[i]) && Coherent(bs, Family(bs[i].role))
    ensures var ts := FamilyTask(bs, Family(bs[i].role));
            |ts| == 1 && Assigns(ts[0], bs[i]) &&
            ts[0].interface == bs[i].interface && ts[0].peers == bs[i].peers &&
            (bs[i].afi == V4 ==> ts[0].v4 == Some(Base(bs[i].parent, bs[i].startOffset))) &&
            (bs[i].afi == V6 ==> ts[0].v6 == Some(Base(bs[i].parent, bs[i].startOffset)))
  {
    FindIs(bs, i);
    CoherentIffAgree(bs, Family(bs[i].role));
    assert bs[i].afi == V4 || bs[i].afi == V6;
  }

  ghost predicate Holds(bs: seq<Block>, f: RoleFamily, afi: Afi) {
    exists b :: b in bs && Family(b.role) == f && b.afi == afi
  }

  /** The task covers the address families that the family has blocks of. */
  ghost predicate ServesExactly(t: IpTask, bs: seq<Block>, f: RoleFamily) {
    (t.v4.Some? <==> Holds(bs, f, V4)) && (t.v6.Some? <==> Holds(bs, f, V6))
  }

  lemma FindIffHolds(bs: seq<Block>, f: RoleFamily, afi: Afi)
    ensures FindBlock(bs, f, afi, |bs|).Some? <==> Holds(bs, f, afi)
  {
    if b :| b in bs && Family(b.role) == f && b.afi == afi {
      var i :| 0 <= i < |bs| && bs[i] == b;
      FindSome(bs, f, afi, i, |bs|);
    }
  }

  /** One task for each of the two families that has a block, EBGP first, for exactly the address families that it has
      blocks of; each block is assigned by the task of its family. */
  lemma SetupTasksAre(bs: seq<Block>)
    requires Unambiguous(bs) && Coherent(bs, EbgpFamily) && Coherent(bs, IbgpFamily)
    ensures var ts := SetupTasks(bs);
            var ebgp := Holds(bs, EbgpFamily, V4) || Holds(bs, EbgpFamily, V6);
            var ibgp := Holds(bs, IbgpFamily, V4) || Holds(bs, IbgpFamily, V6);
            |ts| == (if ebgp then 1 else 0) + (if ibgp then 1 else 0) &&
            (ebgp ==> ServesExactly(ts[0], bs, EbgpFamily)) && (ibgp ==> ServesExactly(ts[|ts| - 1], bs, IbgpFamily)) &&
            forall b :: b in bs && SetUp(b) ==>
              Assigns(if Family(b.role) == EbgpFamily then ts[0] else ts[|ts| - 1], b)
  {
    FindIffHolds(bs, EbgpFamily, V4);
    FindIffHolds(bs, EbgpFamily, V6);
    FindIffHolds(bs, IbgpFamily, V4);
    FindIffHolds(bs, IbgpFamily, V6);
    var ts := SetupTasks(bs);
    forall b | b in bs && SetUp(b)
      ensures |ts| > 0 && Assigns(if Family(b.role) == EbgpFamily then ts[0] else ts[|ts| - 1], b)
    {
      var i :| 0 <= i < |bs| && bs[i] == b;
      SetupAssignsBlock(bs, i);
    }
  }

  // ---------- the order of configured interfaces ----------

  function BlockKey(b: Block): (k: Key) { [FamilyRank(Family(b.role)), if b.afi == V6 then 0 else 1] }

  function InterfaceOf(b: Block): (r: string) { b.interface }

  /** What is used first comes first. */
  lemma {:induction false} FirstUsesOrder<T>(s: seq<T>, i: nat, y: T, n: nat)
    requires i < n <= |s| && y in s[..n] && y !in s[..i + 1]
    ensures Before(FirstUses(s, n), s[i], y)
  {
    assert s[..n] == s[..n - 1] + [s[n - 1]];
    FirstUsesMembers(s, n - 1, y);
    FirstUsesMembers(s, n - 1, s[i]);
    if y in s[..n - 1] {
      FirstUsesOrder(s, i, y, n - 1);
      BeforePrefix(FirstUses(s, n - 1), FirstUses(s, n), s[i], y);
    } else {
      assert s[i] in s[..n - 1] by { assert i < n - 1; assert s[..n - 1][i] == s[i]; }
      var k :| 0 <= k < |FirstUses(s, n - 1)| && FirstUses(s, n - 1)[k] == s[i];
      var r := FirstUses(s, n);
      assert r[k] == s[i] && r[|r| - 1] == y;
    }
  }

  lemma BeforePrefix<T>(a: seq<T>, b: seq<T>, x: T, y: T)
    requires |a| <= |b| && (forall i :: 0 <= i < |a| ==> a[i] == b[i]) && Before(a, x, y)
    ensures Before(b, x, y)
  {
    var i, j :| 0 <= i < j < |a| && a[i] == x && a[j] == y;
    assert b[i] == x && b[j] == y;
  }

  function OrderedInterfaces(bs: seq<Block>): (r: seq<string>) { Map(InterfaceOf, SortBy(BlockKey, bs)) }

  function Configured(bs: seq<Block>): (r: seq<string>) { FirstUses(OrderedInterfaces(bs), |bs|) }

  method ConfiguredInterfaceOrder(bs: seq<Block>) returns (r: seq<string>)
    ensures r == Configured(bs)
  {
    var ordered := SortBy(BlockKey, bs);
    r := [];
    for n := 0 to |ordered|
      invariant r == FirstUses(OrderedInterfaces(bs), n)
    {
      if ordered[n].interface !in r { r := r + [ordered[n].interface]; }
    }
  }

  /** Exactly the interfaces of the blocks, each once. */
  lemma ConfiguredOnce(bs: seq<Block>)
    ensures Distinct(Configured(bs))
    ensures forall x :: x in Configured(bs) <==> exists b :: b in bs && b.interface == x
  {
    var ordered, s := SortBy(BlockKey, bs), OrderedInterfaces(bs);
    PermutationMembers(ordered, bs);
    assert s[..|bs|] == s;
    forall x ensures x in Configured(bs) <==> exists b :: b in bs && b.interface == x {
      FirstUsesMembers(s, |bs|, x);
      if x in s {
        var i :| 0 <= i < |s| && s[i] == x;
        assert ordered[i] in bs && ordered[i].interface == x;
      }
      if b :| b in bs && b.interface == x {
        assert b in ordered;
        var i :| 0 <= i < |ordered| && ordered[i] == b;
        assert s[i] == x;
      }
    }
  }

  /** Block `i` is configured before block `j`: by role, then IPv6 first, then position in the plan. */
  predicate BlockBefore(bs: seq<Block>, i: nat, j: nat)
    requires i < |bs| && j < |bs|
  {
    var a, b := bs[i], bs[j];
    RoleBefore(a.role, b.role) ||
    (!RoleBefore(b.role, a.role) && ((a.afi == V6 && b.afi == V4) || (a.afi == b.afi && i < j)))
  }

  /** It orders any two blocks one way. */
  lemma BlockBeforeTotal(bs: seq<Block>, i: nat, j: nat)
    requires i < |bs| && j < |bs| && i != j
    ensures BlockBefore(bs, i, j) <==> !BlockBefore(bs, j, i)
  {
    RanksByRole(bs[i].role, bs[j].role);
    RanksByRole(bs[j].role, bs[i].role);
  }

  lemma BlockKeysMean(a: Block, b: Block)
    requires LexLe(BlockKey(b), BlockKey(a))
    ensures !RoleBefore(a.role, b.role)
    ensures RoleBefore(b.role, a.role) || !(a.afi == V6 && b.afi == V4)
    ensures RoleBefore(b.role, a.role) || (a.afi == V4 && b.afi == V6) || BlockKey(a) == BlockKey(b)
  {
    RanksByRole(a.role, b.role);
    RanksByRole(b.role, a.role);
    assert BlockKey(a)[1..] == [if a.afi == V6 then 0 else 1] && BlockKey(b)[1..] == [if b.afi == V6 then 0 else 1];
  }

  /** Of blocks with one key the sorted list keeps the order of the plan. */
  lemma TiesInPlanOrder(bs: seq<Block>, ordered: seq<Block>, i: nat, j: nat, p: nat, q: nat)
    requires Distinct(bs) && ordered == SortBy(BlockKey, bs) && i < |bs| && j < |bs| && q < p < |ordered|
    requires BlockKey(bs[i]) == BlockKey(bs[j]) && ordered[p] == bs[i] && ordered[q] == bs[j]
    ensures j <= i
  {
    if i < j {
      SortKeepsTies(BlockKey, bs, bs[i], bs[j]);
    }
  }

  /** Whatever comes first in the plan's order of roles, families and positions is configured first. */
  lemma InterfaceOrder(bs: seq<Block>, i: nat, y: string)
    requires Distinct(bs) && i < |bs| && y != bs[i].interface && exists b :: b in bs && b.interface == y
    requires forall j :: 0 <= j < |bs| && bs[j].interface == y ==> BlockBefore(bs, i, j)
    ensures Before(Configured(bs), bs[i].interface, y)
  {
    var ordered, s := SortBy(BlockKey, bs), OrderedInterfaces(bs);
    SortBySorts(BlockKey, bs);
    PermutationMembers(ordered, bs);
    assert bs[i] in ordered;
    var p :| 0 <= p < |ordered| && ordered[p] == bs[i];
    var b :| b in bs && b.interface == y;
    var r :| 0 <= r < |ordered| && ordered[r] == b;
    forall q | 0 <= q <= p ensures ordered[q].interface != y { NotEarlier(bs, i, y, p, q); }
    assert s[r] == y && s[..|s|] == s && s[p] == bs[i].interface;
    assert y !in s[..p + 1];
    FirstUsesOrder(s, p, y, |s|);
  }

  lemma NotEarlier(bs: seq<Block>, i: nat, y: string, p: nat, q: nat)
    requires Distinct(bs) && i < |bs| && y != bs[i].interface && q <= p < |bs|
    requires SortedBy(BlockKey, SortBy(BlockKey, bs)) && SortBy(BlockKey, bs)[p] == bs[i]
    requires forall b :: b in SortBy(BlockKey, bs) ==> b in bs
    requires forall j :: 0 <= j < |bs| && bs[j].interface == y ==> BlockBefore(bs, i, j)
    ensures SortBy(BlockKey, bs)[q].interface != y
  {
    var ordered := SortBy(BlockKey, bs);
    if ordered[q].interface == y {
      assert ordered[q] in bs;
      var j :| 0 <= j < |bs| && bs[j] == ordered[q];
      assert BlockBefore(bs, i, j) && q < p;
      BlockKeysMean(bs[i], bs[j]);
      TiesInPlanOrder(bs, ordered, i, j, p, q);
    }
  }

  // ---------- the teardown plan ----------

  datatype Daemon = FibGrpc | FibBgpGrpc | FibAgent | FibAgentBgp | Openr | Bgpcpp | OtherDaemon(name: string)

  /** Startup order of the characteristic setup. */
  const DAEMONS: seq<Daemon> := [FibGrpc, FibBgpGrpc, FibAgent, FibAgentBgp, Openr, Bgpcpp]

  datatype OpenrMode = NoOpenr | Standalone | Peer

  datatype Component = Component(name: Daemon, enabled: bool)

  /** `link` holds the cleanup steps of the standalone OpenR link. */
  datatype Inputs =
    Inputs(profileListed: bool, fullSetup: bool, profileFree: bool, hostname: string, restoreFibagent: bool,
           mode: OpenrMode, link: Option<seq<string>>, fullScale: bool, runtime: Option<seq<Component>>)

  datatype Task =
    | Withdraw
    | Disable(component: Daemon)
    | RestoreFibagent
    | Clean(interface: string)
    | CleanLink(step: string)
    | CleanFiles

  function EnabledNames(cs: seq<Component>, n: nat): (r: seq<Daemon>)
    requires n <= |cs|
  {
    if n == 0 then [] else EnabledNames(cs, n - 1) + if cs[n - 1].enabled then [cs[n - 1].name] else []
  }

  /** The components that setup started, in startup order. */
  function EnabledComponents(inputs: Inputs): (r: seq<Daemon>) {
    if inputs.fullScale then
      if inputs.runtime.Some? then EnabledNames(inputs.runtime.value, |inputs.runtime.value|) else []
    else
      Filter((d: Daemon) => d != Openr || inputs.mode == Peer, DAEMONS)
  }

  /** Full-scale setups disable exactly the enabled components of the runtime plan; the others the daemons of the
      characteristic setup, with OpenR only as a peer. */
  lemma EnabledAre(inputs: Inputs)
    ensures inputs.fullScale && inputs.runtime.Some? ==>
              EnabledComponents(inputs) ==
              Map((c: Component) => c.name, Filter((c: Component) => c.enabled, inputs.runtime.value))
    ensures !inputs.fullScale ==>
              EnabledComponents(inputs) ==
              if inputs.mode == Peer then [FibGrpc, FibBgpGrpc, FibAgent, FibAgentBgp, Openr, Bgpcpp]
              else [FibGrpc, FibBgpGrpc, FibAgent, FibAgentBgp, Bgpcpp]
  {
    if inputs.fullScale && inputs.runtime.Some? {
      EnabledNamesAre(inputs.runtime.value, |inputs.runtime.value|);
      assert inputs.runtime.value[..|inputs.runtime.value|] == inputs.runtime.value;
    }
    if !inputs.fullScale { StartedDaemons((d: Daemon) => d != Openr || inputs.mode == Peer); }
  }

  lemma StartedDaemons(p: Daemon -> bool)
    requires forall d :: d != Openr ==> p(d)
    ensures p(Openr) ==> Filter(p, DAEMONS) == [FibGrpc, FibBgpGrpc, FibAgent, FibAgentBgp, Openr, Bgpcpp]
    ensures !p(Openr) ==> Filter(p, DAEMONS) == [FibGrpc, FibBgpGrpc, FibAgent, FibAgentBgp, Bgpcpp]
  {
    if p(Openr) {
      FilterAll(p, DAEMONS);
    } else {
      WithoutOpenr(p, [FibGrpc, FibBgpGrpc, FibAgent, FibAgentBgp], DAEMONS);
    }
  }

  lemma WithoutOpenr(p: Daemon -> bool, fib: seq<Daemon>, all: seq<Daemon>)
    requires (forall d :: p(d) <==> d != Openr) && Openr !in fib && all == fib + [Openr, Bgpcpp]
    ensures Filter(p, all) == fib + [Bgpcpp]
  {
    assert [Openr, Bgpcpp] == [Openr] + [Bgpcpp];
    FilterAppend(p, fib, [Openr] + [Bgpcpp]);
    FilterAppend(p, [Openr], [Bgpcpp]);
    FilterAll(p, fib);
    FilterOne(p, Openr);
    FilterOne(p, Bgpcpp);
  }

  lemma {:induction false} EnabledNamesAre(cs: seq<Component>, n: nat)
    requires n <= |cs|
    ensures EnabledNames(cs, n) == Map((c: Component) => c.name, Filter((c: Component) => c.enabled, cs[..n]))
  {
    if n > 0 {
      var enabled := (c: Component) => c.enabled;
      EnabledNamesAre(cs, n - 1);
      assert cs[..n] == cs[..n - 1] + [cs[n - 1]];
      FilterAppend(enabled, cs[..n - 1], [cs[n - 1]]);
      FilterOne(enabled, cs[n - 1]);
    }
  }

  datatype PlanResult =
    | Planned(tasks: seq<Task>, cleaned: seq<string>, disabled: seq<Daemon>)
    | MissingHostname
    | MissingLink
    | MissingRuntime

  /** No teardown is planned for other profiles or partial setups, unless asked for. */
  predicate Skipped(inputs: Inputs) { (!inputs.profileListed || !inputs.fullSetup) && !inputs.profileFree }

  function DisableTask(d: Daemon): (t: Task) { Disable(d) }
  function CleanTask(x: string): (t: Task) { Clean(x) }
  function LinkTask(x: string): (t: Task) { CleanLink(x) }

  /** The components a task list disables, in order. */
  function DisabledBy(ts: seq<Task>, n: nat): (r: seq<Daemon>)
    requires n <= |ts|
  {
    if n == 0 then [] else DisabledBy(ts, n - 1) + if ts[n - 1].Disable? then [ts[n - 1].component] else []
  }

  /** The interfaces a task list cleans, in order. */
  function CleanedBy(ts: seq<Task>, n: nat): (r: seq<string>)
    requires n <= |ts|
  {
    if n == 0 then [] else CleanedBy(ts, n - 1) + if ts[n - 1].Clean? then [ts[n - 1].interface] else []
  }

  ghost predicate DisablesFirst(ts: seq<Task>) {
    forall i, j :: 0 <= i < |ts| && 0 <= j < |ts| && ts[i].Disable? && ts[j].Clean? ==> i < j
  }

  lemma {:induction false} DisabledPrefix(a: seq<Task>, b: seq<Task>, n: nat)
    requires n <= |a|
    ensures DisabledBy(a + b, n) == DisabledBy(a, n) && CleanedBy(a + b, n) == CleanedBy(a, n)
  {
    if n > 0 { DisabledPrefix(a, b, n - 1); }
  }

  /** Appending one task to what is disabled and cleaned. */
  lemma AppendTask(ts: seq<Task>, t: Task)
    ensures DisabledBy(ts + [t], |ts| + 1) == DisabledBy(ts, |ts|) + if t.Disable? then [t.component] else []
    ensures CleanedBy(ts + [t], |ts| + 1) == CleanedBy(ts, |ts|) + if t.Clean? then [t.interface] else []
  {
    DisabledPrefix(ts, [t], |ts|);
  }

  /** What one stage of the plan has produced. */
  ghost predicate Produced(ts: seq<Task>, ds: seq<Daemon>, xs: seq<string>) {
    DisabledBy(ts, |ts|) == ds && CleanedBy(ts, |ts|) == xs && DisablesFirst(ts) &&
    (xs == [] ==> forall t :: t in ts ==> !t.Clean?)
  }

  lemma ProduceDisable(ts: seq<Task>, ds: seq<Daemon>, d: Daemon)
    requires Produced(ts, ds, [])
    ensures Produced(ts + [Disable(d)], ds + [d], [])
  {
    AppendTask(ts, Disable(d));
  }

  lemma ProduceClean(ts: seq<Task>, ds: seq<Daemon>, xs: seq<string>, x: string)
    requires Produced(ts, ds, xs)
    ensures Produced(ts + [Clean(x)], ds, xs + [x])
  {
    AppendTask(ts, Clean(x));
  }

  /** Any other task leaves both orders alone. */
  lemma ProduceOther(ts: seq<Task>, ds: seq<Daemon>, xs: seq<string>, t: Task)
    requires Produced(ts, ds, xs) && !t.Clean? && !t.Disable?
    ensures Produced(ts + [t], ds, xs)
  {
    AppendTask(ts, t);
  }

  lemma {:induction false} ProduceDisables(ts: seq<Task>, ds: seq<Daemon>, n: nat)
    requires Produced(ts, [], []) && n <= |ds|
    ensures Produced(ts + Map(DisableTask, ds[..n]), ds[..n], [])
  {
    if n == 0 {
      assert ts + Map(DisableTask, ds[..0]) == ts;
    } else {
      ProduceDisables(ts, ds, n - 1);
      ProduceDisable(ts + Map(DisableTask, ds[..n - 1]), ds[..n - 1], ds[n - 1]);
      assert ds[..n] == ds[..n - 1] + [ds[n - 1]];
      assert ts + Map(DisableTask, ds[..n]) == (ts + Map(DisableTask, ds[..n - 1])) + [Disable(ds[n - 1])];
    }
  }

  lemma {:induction false} ProduceCleans(ts: seq<Task>, ds: seq<Daemon>, xs: seq<string>, n: nat)
    requires Produced(ts, ds, []) && n <= |xs|
    ensures Produced(ts + Map(CleanTask, xs[..n]), ds, xs[..n])
  {
    if n == 0 {
      assert ts + Map(CleanTask, xs[..0]) == ts;
    } else {
      ProduceCleans(ts, ds, xs, n - 1);
      ProduceClean(ts + Map(CleanTask, xs[..n - 1]), ds, xs[..n - 1], xs[n - 1]);
      assert xs[..n] == xs[..n - 1] + [xs[n - 1]];
      assert ts + Map(CleanTask, xs[..n]) == (ts + Map(CleanTask, xs[..n - 1])) + [Clean(xs[n - 1])];
    }
  }

  lemma {:induction false} ProduceLinks(ts: seq<Task>, ds: seq<Daemon>, xs: seq<string>, steps: seq<string>, n: nat)
    requires Produced(ts, ds, xs) && n <= |steps|
    ensures Produced(ts + Map(LinkTask, steps[..n]), ds, xs)
  {
    if n == 0 {
      assert ts + Map(LinkTask, steps[..0]) == ts;
    } else {
      ProduceLinks(ts, ds, xs, steps, n - 1);
      ProduceOther(ts + Map(LinkTask, steps[..n - 1]), ds, xs, CleanLink(steps[n - 1]));
      assert steps[..n] == steps[..n - 1] + [steps[n - 1]];
      assert ts + Map(LinkTask, steps[..n]) == (ts + Map(LinkTask, steps[..n - 1])) + [CleanLink(steps[n - 1])];
    }
  }

  /** The steps before the interfaces are cleaned. */
  function Stopping(inputs: Inputs): (r: seq<Task>) {
    (if inputs.mode == Standalone then [Withdraw] else []) + Map(DisableTask, Reverse(EnabledComponents(inputs))) +
    if inputs.restoreFibagent then [RestoreFibagent] else []
  }

  /** The whole task list. */
  function TeardownTasks(inputs: Inputs, bs: seq<Block>): (r: seq<Task>) {
    Stopping(inputs) + Map(CleanTask, Reverse(Configured(bs))) +
    Map(LinkTask, if inputs.mode == Standalone && inputs.link.Some? then inputs.link.value else []) + [CleanFiles]
  }

  lemma StoppingProduces(first: seq<Task>, ds: seq<Daemon>, last: seq<Task>)
    requires Produced(first, [], []) && (last == [] || last == [RestoreFibagent])
    ensures Produced(first + Map(DisableTask, ds) + last, ds, [])
  {
    var stopped := first + Map(DisableTask, ds);
    ProduceDisables(first, ds, |ds|);
    assert ds[..|ds|] == ds;
    if last == [] { assert stopped + last == stopped; } else { ProduceOther(stopped, ds, [], RestoreFibagent); }
  }

  lemma FirstProduces(first: seq<Task>)
    requires first == [] || first == [Withdraw]
    ensures Produced(first, [], [])
  {
    if first != [] {
      ProduceOther([], [], [], Withdraw);
      assert [] + [Withdraw] == first;
    }
  }

  lemma CleaningProduces(stopped: seq<Task>, ds: seq<Daemon>, xs: seq<string>)
    requires Produced(stopped, ds, [])
    ensures Produced(stopped + Map(CleanTask, xs), ds, xs)
  {
    ProduceCleans(stopped, ds, xs, |xs|);
    assert xs[..|xs|] == xs;
  }

  lemma FinishingProduces(cleaned: seq<Task>, ds: seq<Daemon>, xs: seq<string>, steps: seq<string>)
    requires Produced(cleaned, ds, xs)
    ensures Produced(cleaned + Map(LinkTask, steps) + [CleanFiles], ds, xs)
  {
    ProduceLinks(cleaned, ds, xs, steps, |steps|);
    assert steps[..|steps|] == steps;
    ProduceOther(cleaned + Map(LinkTask, steps), ds, xs, CleanFiles);
  }

  lemma TeardownProduces(inputs: Inputs, bs: seq<Block>)
    ensures Produced(TeardownTasks(inputs, bs), Reverse(EnabledComponents(inputs)), Reverse(Configured(bs)))
  {
    var ds, xs := Reverse(EnabledComponents(inputs)), Reverse(Configured(bs));
    var first: seq<Task> := if inputs.mode == Standalone then [Withdraw] else [];
    FirstProduces(first);
    StoppingProduces(first, ds, if inputs.restoreFibagent then [RestoreFibagent] else []);
    CleaningProduces(Stopping(inputs), ds, xs);
    FinishingProduces(Stopping(inputs) + Map(CleanTask, xs), ds, xs,
                      if inputs.mode == Standalone && inputs.link.Some? then inputs.link.value else []);
  }

  /** Components are disabled in the reverse of their startup order, interfaces are cleaned in the reverse of
      their configuration order, and every disable precedes every cleanup. */
  lemma TeardownOrder(inputs: Inputs, bs: seq<Block>)
    ensures var ts := TeardownTasks(inputs, bs);
            DisabledBy(ts, |ts|) == Reverse(EnabledComponents(inputs)) &&
            CleanedBy(ts, |ts|) == Reverse(Configured(bs)) && DisablesFirst(ts)
  {
    TeardownProduces(inputs, bs);
  }

  method AppendDisables(before: seq<Task>, enabled: seq<Daemon>) returns (tasks: seq<Task>)
    ensures tasks == before + Map(DisableTask, Reverse(enabled))
  {
    tasks := before;
    var reversed := Reverse(enabled);
    for n := 0 to |reversed|
      invariant tasks == before + Map(DisableTask, reversed[..n])
    {
      MapAppend(DisableTask, reversed[..n], [reversed[n]]);
      assert reversed[..n + 1] == reversed[..n] + [reversed[n]];
      tasks := tasks + [Disable(reversed[n])];
    }
    assert reversed[..|reversed|] == reversed;
  }

  method AppendCleans(before: seq<Task>, configured: seq<string>) returns (tasks: seq<Task>)
    ensures tasks == before + Map(CleanTask, Reverse(configured))
  {
    tasks := before;
    var reversed := Reverse(configured);
    for n := 0 to |reversed|
      invariant tasks == before + Map(CleanTask, reversed[..n])
    {
      MapAppend(CleanTask, reversed[..n], [reversed[n]]);
      assert reversed[..n + 1] == reversed[..n] + [reversed[n]];
      tasks := tasks + [Clean(reversed[n])];
    }
    assert reversed[..|reversed|] == reversed;
  }

  /** What a plan for these inputs lacks, in the order the checks are made. */
  function Missing(inputs: Inputs): (r: Option<PlanResult>) {
    if inputs.hostname == [] then Some(MissingHostname)
    else if inputs.mode == Standalone && inputs.link.None? then Some(MissingLink)
    else if inputs.fullScale && inputs.runtime.None? then Some(MissingRuntime)
    else None
  }

  /** A plan that is due: which input is missing, or the routes withdrawn, the components disabled, FibAgent restored,
      the interfaces cleaned, then the OpenR link, and the files last. */
  ghost predicate PlanByInputs(inputs: Inputs, r: PlanResult) {
    var standalone := inputs.mode == Standalone;
    match r
    case MissingHostname => inputs.hostname == []
    case MissingLink => inputs.hostname != [] && standalone && inputs.link.None?
    case MissingRuntime =>
      inputs.hostname != [] && (standalone ==> inputs.link.Some?) && inputs.fullScale && inputs.runtime.None?
    case Planned(tasks, cleaned, disabled) =>
      inputs.hostname != [] && (standalone ==> inputs.link.Some?) && (inputs.fullScale ==> inputs.runtime.Some?) &&
      var links := if standalone then inputs.link.value else [];
      tasks == (if standalone then [Withdraw] else []) + AllDisabled(disabled) +
               (if inputs.restoreFibagent then [RestoreFibagent] else []) + AllCleaned(cleaned) + AllUnlinked(links) +
               [CleanFiles]
  }

  function AllDisabled(ds: seq<Daemon>): (r: seq<Task>) {
    seq(|ds|, i requires 0 <= i < |ds| => Disable(ds[i]))
  }

  function AllCleaned(xs: seq<string>): (r: seq<Task>) { seq(|xs|, i requires 0 <= i < |xs| => Clean(xs[i])) }

  function AllUnlinked(steps: seq<string>): (r: seq<Task>) {
    seq(|steps|, i requires 0 <= i < |steps| => CleanLink(steps[i]))
  }

  lemma TasksByInputs(inputs: Inputs, bs: seq<Block>, ds: seq<Daemon>, xs: seq<string>)
    requires !Skipped(inputs) && Missing(inputs).None?
    requires ds == Reverse(EnabledComponents(inputs)) && xs == Reverse(Configured(bs))
    ensures TeardownTasks(inputs, bs) != [] && PlanByInputs(inputs, Planned(TeardownTasks(inputs, bs), xs, ds))
  {
    SameTasks(ds, xs, if inputs.mode == Standalone then inputs.link.value else []);
  }

  lemma SameTasks(ds: seq<Daemon>, xs: seq<string>, steps: seq<string>)
    ensures Map(DisableTask, ds) == AllDisabled(ds) && Map(CleanTask, xs) == AllCleaned(xs)
    ensures Map(LinkTask, steps) == AllUnlinked(steps)
  {
  }

  method TeardownPlan(inputs: Inputs, bs: seq<Block>) returns (r: PlanResult)
    ensures Skipped(inputs) ==> r == Planned([], [], [])
    ensures !Skipped(inputs) && Missing(inputs).Some? ==> r == Missing(inputs).value
    ensures !Skipped(inputs) && Missing(inputs).None? ==>
              r == Planned(TeardownTasks(inputs, bs), Reverse(Configured(bs)), Reverse(EnabledComponents(inputs)))
    ensures r.Planned? ==>
              CleanedBy(r.tasks, |r.tasks|) == r.cleaned && DisabledBy(r.tasks, |r.tasks|) == r.disabled &&
              DisablesFirst(r.tasks)
    ensures r.Planned? && r.tasks == [] <==> !inputs.profileFree && !(inputs.profileListed && inputs.fullSetup)
    ensures !(r.Planned? && r.tasks == []) ==> PlanByInputs(inputs, r)
  {
    if Skipped(inputs) { return Planned([], [], []); }
    if inputs.hostname == [] { return MissingHostname; }
    if inputs.mode == Standalone && inputs.link.None? { return MissingLink; }
    var tasks: seq<Task> := if inputs.mode == Standalone then [Withdraw] else [];
    if inputs.fullScale && inputs.runtime.None? { return MissingRuntime; }
    tasks := AppendDisables(tasks, EnabledComponents(inputs));
    tasks := tasks + if inputs.restoreFibagent then [RestoreFibagent] else [];
    var configured := ConfiguredInterfaceOrder(bs);
    tasks := AppendCleans(tasks, configured);
    tasks := tasks + Map(LinkTask, if inputs.mode == Standalone then inputs.link.value else []);
    TeardownOrder(inputs, bs);
    TasksByInputs(inputs, bs, Reverse(EnabledComponents(inputs)), Reverse(configured));
    r := Planned(tasks + [CleanFiles], Reverse(configured), Reverse(EnabledComponents(inputs)));
  }

  // ---------- teardown undoes setup ----------

  /** An EBGP block comes before every interface that no EBGP block uses. */
  lemma EbgpComesFirst(bs: seq<Block>, x: Block, y: Block)
    requires x in bs && y in bs && Family(x.role) == EbgpFamily && x.interface != y.interface
    requires Coherent(bs, EbgpFamily)
    ensures Before(Configured(bs), x.interface, y.interface)
  {
    var ordered, s := SortBy(BlockKey, bs), OrderedInterfaces(bs);
    SortBySorts(BlockKey, bs);
    PermutationMembers(ordered, bs);
    var p :| 0 <= p < |ordered| && ordered[p] == x;
    var q :| 0 <= q < |ordered| && ordered[q] == y;
    assert s[q] == y.interface && s[..|s|] == s;
    NotUsedEarlier(bs, ordered, p, y);
    FirstUsesOrder(s, p, y.interface, |s|);
  }

  lemma EarlierIsEbgp(bs: seq<Block>, ordered: seq<Block>, i: nat, p: nat, y: Block)
    requires SortedBy(BlockKey, ordered) && i <= p < |ordered| && (forall b :: b in ordered ==> b in bs)
    requires Family(ordered[p].role) == EbgpFamily && Coherent(bs, EbgpFamily) && ordered[p].interface != y.interface
    ensures ordered[i].interface != y.interface
  {
    LexReflexive(BlockKey(ordered[p]));
    assert LexLe(BlockKey(ordered[i]), BlockKey(ordered[p]));
    assert FamilyRank(Family(ordered[i].role)) <= 0;
    assert ordered[i] in bs && ordered[p] in bs;
  }

  lemma NotUsedEarlier(bs: seq<Block>, ordered: seq<Block>, p: nat, y: Block)
    requires SortedBy(BlockKey, ordered) && p < |ordered| && (forall b :: b in ordered ==> b in bs)
    requires Family(ordered[p].role) == EbgpFamily && Coherent(bs, EbgpFamily) && ordered[p].interface != y.interface
    ensures y.interface !in Map(InterfaceOf, ordered)[..p + 1]
  {
    var used := Map(InterfaceOf, ordered)[..p + 1];
    forall i | 0 <= i <= p ensures used[i] != y.interface { EarlierIsEbgp(bs, ordered, i, p, y); }
  }

  lemma ReverseBefore<T>(s: seq<T>, x: T, y: T)
    requires Before(s, x, y)
    ensures Before(Reverse(s), y, x)
  {
    var i, j :| 0 <= i < j < |s| && s[i] == x && s[j] == y;
    var r := Reverse(s);
    assert r[|s| - 1 - j] == y && r[|s| - 1 - i] == x;
  }

  lemma TaskFromBlock(bs: seq<Block>, f: RoleFamily)
    requires FamilyTask(bs, f) != []
    ensures exists b :: b in bs && Family(b.role) == f && b.interface == FamilyTask(bs, f)[0].interface
  {
    var v4, v6 := FindBlock(bs, f, V4, |bs|), FindBlock(bs, f, V6, |bs|);
    if v4.Some? { assert v4.value in bs; } else { assert v6.value in bs; }
  }

  /** Every interface that setup assigns is cleaned exactly once. */
  lemma SetupIsCleaned(bs: seq<Block>)
    ensures Distinct(Reverse(Configured(bs)))
    ensures forall t :: t in SetupTasks(bs) ==> t.interface in Reverse(Configured(bs))
  {
    ConfiguredOnce(bs);
    ReverseDistinct(Configured(bs));
    if FamilyTask(bs, EbgpFamily) != [] { TaskFromBlock(bs, EbgpFamily); }
    if FamilyTask(bs, IbgpFamily) != [] { TaskFromBlock(bs, IbgpFamily); }
  }

  /** When the two setup tasks use different interfaces, the one set up later is cleaned first. */
  lemma CleanedInReverse(bs: seq<Block>)
    requires Coherent(bs, EbgpFamily) && |SetupTasks(bs)| == 2
    requires SetupTasks(bs)[0].interface != SetupTasks(bs)[1].interface
    ensures Before(Reverse(Configured(bs)), SetupTasks(bs)[1].interface, SetupTasks(bs)[0].interface)
  {
    var ebgp, ibgp := FamilyTask(bs, EbgpFamily), FamilyTask(bs, IbgpFamily);
    TaskFromBlock(bs, EbgpFamily);
    TaskFromBlock(bs, IbgpFamily);
    var x :| x in bs && Family(x.role) == EbgpFamily && x.interface == ebgp[0].interface;
    var y :| y in bs && Family(y.role) == IbgpFamily && y.interface == ibgp[0].interface;
    EbgpComesFirst(bs, x, y);
    ReverseBefore(Configured(bs), x.interface, y.interface);
  }

  /** Nothing else is cleaned: a cleaned interface belongs to a block. */
  lemma OnlyBlocksCleaned(bs: seq<Block>, x: string)
    requires x in Reverse(Configured(bs))
    ensures exists b :: b in bs && b.interface == x
  {
    ConfiguredOnce(bs);
    ReverseDistinct(Configured(bs));
  }

  // ---------- from the interface plan ----------

  /** The address blocks of an interface plan as setup and teardown read them. */
  function BlocksOf(order: seq<InterfacePlan.Key>, blocks: map<InterfacePlan.Key, InterfacePlan.Block>): (r: seq<Block>)
    requires forall k :: k in order ==> k in blocks
    ensures |r| == |order| && forall i :: 0 <= i < |order| ==> r[i].interface == order[i].interface
  {
    seq(|order|, i requires 0 <= i < |order| =>
      var k, b := order[i], blocks[order[i]];
      Block(k.interface, b.role, k.afi, k.parent, b.startOffset, |b.locals|))
  }

  /** The loop with which the interface task expands one family at run time. */
  method SecondaryAddresses(base: int, startOffset: int, peers: nat) returns (r: seq<int>)
    ensures r == PartitionLeaves.Run(base + startOffset, 2, 0, peers)
  {
    r := [];
    for n := 0 to peers
      invariant r == PartitionLeaves.Run(base + startOffset, 2, 0, n)
    {
      StepAddressIsProduct(base + startOffset, 2, n);
      r := r + [base + startOffset + n * 2];
    }
  }

  /** The addresses that the task gives its interface in one address family. */
  function TaskAddresses(t: IpTask, afi: Afi, base: int): (r: seq<int>) {
    var start := if afi == V4 then t.v4 else t.v6;
    if start.Some? then PartitionLeaves.Run(base + start.value.startOffset, 2, 0, t.peers) else []
  }

  lemma TaskAddressesOf(t: IpTask, b: Block, base: int, locals: seq<int>)
    requires Assigns(t, b) && b.peers == |locals|
    ensures TaskAddresses(t, b.afi, base) == locals <==> Progression(locals, base + b.startOffset, 2)
  {
    PartitionLeaves.RunIsProgression(locals, base + b.startOffset, 2);
  }

  /** At run time the task that assigns a block gives its interface the block's own addresses exactly when they step
      by two: the stride is two and every member steps by it, or a single member's addresses do. For members that step
      by their stride: exactly when the stride is two or there is one address. */
  lemma {:induction false} TaskGivesBlockIff(gs: seq<Group>, order: seq<InterfacePlan.Key>,
                                             blocks: map<InterfacePlan.Key, InterfacePlan.Block>, i: nat, t: IpTask)
    requires (forall n :: 0 <= n < |gs| ==> InterfacePlan.Fits(gs, n)) && BasesAgree(gs)
    requires InterfacePlan.Grouped(gs, |gs|, order, blocks) && i < |order| && Assigns(t, BlocksOf(order, blocks)[i])
    ensures var b, ms := blocks[order[i]], InterfacePlan.Members(gs, order[i], |gs|);
            ms != [] && ms[0].parent.Some? && ms[0].parent.value.base.Some? &&
            var given := TaskAddresses(t, order[i].afi, ms[0].parent.value.base.value);
            (given == b.locals <==> InterfacePlan.StepBy(ms, 2)) &&
            (InterfacePlan.AllStep(ms) ==> (given == b.locals <==> b.stride == 2 || |b.locals| == 1))
  {
    var bs, ms := BlocksOf(order, blocks), InterfacePlan.Members(gs, order[i], |gs|);
    InterfacePlan.BlockStepsIff(gs, order, blocks, order[i], 2);
    TaskAddressesOf(t, bs[i], ms[0].parent.value.base.value, blocks[order[i]].locals);
  }

  /** The interface of every group that the interface plan covers is cleaned. */
  lemma GroupInterfaceCleaned(gs: seq<Group>, order: seq<InterfacePlan.Key>,
                              blocks: map<InterfacePlan.Key, InterfacePlan.Block>, i: nat)
    requires InterfacePlan.Grouped(gs, |gs|, order, blocks) && i < |gs| && InterfacePlan.Included(gs[i])
    ensures DutInterface(gs[i]).value in Reverse(Configured(BlocksOf(order, blocks)))
  {
    var bs, k := BlocksOf(order, blocks), InterfacePlan.KeyOf(gs[i]);
    Agreement.OrderListsKeys(gs, order, blocks);
    var j :| 0 <= j < |order| && order[j] == k;
    assert bs[j] in bs && bs[j].interface == DutInterface(gs[i]).value;
    ConfiguredOnce(bs);
    ReverseDistinct(Configured(bs));
  }
}
