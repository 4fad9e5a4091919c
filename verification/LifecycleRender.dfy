/** Lowering a lifecycle plan into ordered setup fragments and grouped cleanup fragments. */
module LifecycleRender {
  import opened Sequences
  import opened LifecycleOrder

  datatype Physical = Physical(id: ResourceId, endpoint: ResourceId, interface: string)

  /** `source` is None when absent, else whether Configerator provides it. */
  datatype ConfigPlan = ConfigPlan(id: ResourceId, endpoint: ResourceId, bgpcpp: bool, source: Option<bool>)

  /** `standard` stands for the routing-control-plane role, running, restart after configuration, acknowledged. */
  datatype ComponentPlan =
    ComponentPlan(id: ResourceId, endpoint: ResourceId, standard: bool, dependsOn: seq<ResourceId>)

  datatype Cidr = Cidr(ip: int, length: int)

  datatype Logical =
    Logical(id: ResourceId, physical: Option<ResourceId>, links: seq<ResourceId>, v4: bool, addresses: seq<Cidr>)

  datatype Adjacency = Adjacency(link: ResourceId, local: int)

  /** `dut` is the single EOS endpoint under test; None when there is not exactly one usable endpoint. */
  datatype DutPlan =
    DutPlan(dut: Option<ResourceId>, full: bool, physicals: seq<Physical>, logicals: seq<Logical>,
            adjacencies: seq<Adjacency>, configs: seq<ConfigPlan>, components: seq<ComponentPlan>, openrNone: bool)

  function PhysicalIds(ps: seq<Physical>): (r: seq<ResourceId>)
    ensures |r| == |ps|
    ensures forall i :: 0 <= i < |ps| ==> r[i] == ps[i].id
  {
    seq(|ps|, i requires 0 <= i < |ps| => ps[i].id)
  }

  /** What constructing a plan guarantees: typed ids, and no id twice. */
  ghost predicate ValidPlan(plan: DutPlan) {
    Distinct(PhysicalIds(plan.physicals)) &&
    (forall i :: 0 <= i < |plan.physicals| ==> plan.physicals[i].id.kind == PhysicalInterface) &&
    (forall i :: 0 <= i < |plan.configs| ==> plan.configs[i].id.kind == RoutingConfig) &&
    forall i :: 0 <= i < |plan.components| ==> plan.components[i].id.kind == Component
  }

  // ---------- the CIDRs of one physical interface ----------

  function Locals(adjacencies: seq<Adjacency>, links: seq<ResourceId>, n: nat): (r: seq<int>)
    requires n <= |adjacencies|
  {
    if n == 0 then []
    else Locals(adjacencies, links, n - 1) + if adjacencies[n - 1].link in links then [adjacencies[n - 1].local] else []
  }

  function Ips(cidrs: seq<Cidr>): (r: seq<int>)
    ensures |r| == |cidrs|
  {
    seq(|cidrs|, i requires 0 <= i < |cidrs| => cidrs[i].ip)
  }

  predicate Member(l: Logical, id: ResourceId) { l.physical == Some(id) }

  /** Addresses of one family among the first `n` logical members, in plan order. */
  function FamilyCidrs(ls: seq<Logical>, id: ResourceId, v4: bool, n: nat): (r: seq<Cidr>)
    requires n <= |ls|
  {
    if n == 0 then []
    else
      FamilyCidrs(ls, id, v4, n - 1) +
      if Member(ls[n - 1], id) && ls[n - 1].v4 == v4 then ls[n - 1].addresses else []
  }

  /** All member addresses, both families interleaved in plan order. */
  function AllCidrs(ls: seq<Logical>, id: ResourceId, n: nat): (r: seq<Cidr>)
    requires n <= |ls|
  {
    if n == 0 then [] else AllCidrs(ls, id, n - 1) + if Member(ls[n - 1], id) then ls[n - 1].addresses else []
  }

  predicate ListsLocals(plan: DutPlan, l: Logical) {
    Ips(l.addresses) == Locals(plan.adjacencies, l.links, |plan.adjacencies|)
  }

  /** Some logical member exists, each lists exactly the local addresses of its adjacencies, no address twice. */
  predicate CidrsOk(plan: DutPlan, id: ResourceId) {
    (exists i :: 0 <= i < |plan.logicals| && Member(plan.logicals[i], id)) &&
    (forall i :: 0 <= i < |plan.logicals| && Member(plan.logicals[i], id) ==> ListsLocals(plan, plan.logicals[i])) &&
    Distinct(AllCidrs(plan.logicals, id, |plan.logicals|))
  }

  method PhysicalCidrs(plan: DutPlan, id: ResourceId) returns (ok: bool, v4: seq<Cidr>, v6: seq<Cidr>)
    ensures ok <==> CidrsOk(plan, id)
    ensures ok ==> v4 == FamilyCidrs(plan.logicals, id, true, |plan.logicals|) &&
                   v6 == FamilyCidrs(plan.logicals, id, false, |plan.logicals|)
  {
    v4, v6 := [], [];
    var ls := plan.logicals;
    if !exists i :: 0 <= i < |ls| && Member(ls[i], id) { return false, v4, v6; }
    var seen: set<Cidr> := {};
    for i := 0 to |ls|
      invariant forall k :: 0 <= k < i && Member(ls[k], id) ==> ListsLocals(plan, ls[k])
      invariant v4 == FamilyCidrs(ls, id, true, i) && v6 == FamilyCidrs(ls, id, false, i)
      invariant Distinct(AllCidrs(ls, id, i))
      invariant forall c :: c in seen <==> c in AllCidrs(ls, id, i)
    {
      if !Member(ls[i], id) { continue; }
      if !ListsLocals(plan, ls[i]) { return false, v4, v6; }
      var before := AllCidrs(ls, id, i);
      var added;
      added, seen := AddFresh(before, ls[i].addresses, seen);
      if !added {
        RepeatStays(ls, id, i + 1);
        return false, v4, v6;
      }
      if ls[i].v4 { v4 := v4 + ls[i].addresses; } else { v6 := v6 + ls[i].addresses; }
    }
    ok := true;
  }

  lemma {:induction false} AllCidrsPrefix(ls: seq<Logical>, id: ResourceId, m: nat, n: nat)
    requires m <= n <= |ls|
    ensures AllCidrs(ls, id, m) <= AllCidrs(ls, id, n)
  {
    if m < n { AllCidrsPrefix(ls, id, m, n - 1); }
  }

  lemma RepeatStays(ls: seq<Logical>, id: ResourceId, m: nat)
    requires m <= |ls| && !Distinct(AllCidrs(ls, id, m))
    ensures !Distinct(AllCidrs(ls, id, |ls|))
  {
    AllCidrsPrefix(ls, id, m, |ls|);
  }

  method AddFresh(before: seq<Cidr>, more: seq<Cidr>, seen: set<Cidr>) returns (ok: bool, after: set<Cidr>)
    requires Distinct(before) && forall c :: c in seen <==> c in before
    ensures ok <==> Distinct(before + more)
    ensures ok ==> forall c :: c in after <==> c in before + more
  {
    after := seen;
    for j := 0 to |more|
      invariant Distinct(before + more[..j])
      invariant forall c :: c in after <==> c in before + more[..j]
    {
      assert before + more[..j + 1] == before + more[..j] + [more[j]];
      if more[j] in after {
        var i :| 0 <= i < |before + more[..j]| && (before + more[..j])[i] == more[j];
        assert (before + more)[i] == (before + more)[|before| + j];
        return false, after;
      }
      after := after + {more[j]};
    }
    assert more[..|more|] == more;
    ok := true;
  }

  /** The two family lists of an accepted interface split its addresses: nothing lost, nothing twice. */
  lemma CidrFamiliesPartition(ls: seq<Logical>, id: ResourceId, n: nat)
    requires n <= |ls|
    ensures multiset(AllCidrs(ls, id, n)) ==
            multiset(FamilyCidrs(ls, id, true, n)) + multiset(FamilyCidrs(ls, id, false, n))
  {
    forall c
      ensures multiset(AllCidrs(ls, id, n))[c] ==
              multiset(FamilyCidrs(ls, id, true, n))[c] + multiset(FamilyCidrs(ls, id, false, n))[c]
    {
      MultiplicityAdditive(c);
      CidrCounts(Multiplicity(c), ls, id, n);
    }
  }

  lemma {:induction false} CidrCounts(count: seq<Cidr> -> int, ls: seq<Logical>, id: ResourceId, n: nat)
    requires n <= |ls| && Additive(count)
    ensures count(AllCidrs(ls, id, n)) == count(FamilyCidrs(ls, id, true, n)) + count(FamilyCidrs(ls, id, false, n))
  {
    if n > 0 { CidrCounts(count, ls, id, n - 1); }
  }

  // ---------- rendering ----------

  datatype Intent =
    | RealizeInterface(id: ResourceId, interface: string, v4: seq<Cidr>, v6: seq<Cidr>)
    | InstallConfig(id: ResourceId)
    | ReconcileComponent(id: ResourceId, config: ResourceId)

  datatype Fragment<T> = Fragment(id: ResourceId, pre: seq<T>, post: seq<T>)

  datatype CleanupIntent =
    | RestoreInterfaces(operations: seq<ResourceId>)
    | RestoreConfig(operation: ResourceId)
    | RestoreComponent(operation: ResourceId)

  datatype Cleanup<T> = Cleanup(ids: seq<ResourceId>, task: T)

  datatype Rendered<T, C> = Rendered(consumed: seq<ResourceId>, fragments: seq<Fragment<T>>, cleanups: seq<Cleanup<C>>)

  datatype RenderError =
    | NoEndpoint
    | BadConfigPlan
    | BadComponentPlan
    | OpenRConfigured
    | Coverage
    | BadOperation
    | NotReversed
    | NotGrouped

  datatype RenderResult = Ok(rendered: Rendered<Intent, CleanupIntent>) | Err(error: RenderError)

  function Setup(ops: seq<Operation>, order: seq<nat>): (r: seq<Operation>)
    requires Indices(ops, order)
    ensures |r| == |order|
    ensures forall i :: 0 <= i < |order| ==> r[i] == ops[order[i]]
  {
    seq(|order|, i requires 0 <= i < |order| => ops[order[i]])
  }

  predicate Eligible(op: Operation) { op.TeardownEligible() }

  predicate Supported(op: Operation) { op.id.kind != OtherKind }

  predicate IsPhysical(id: ResourceId) { id.kind == PhysicalInterface }

  predicate IsConfig(id: ResourceId) { id.kind == RoutingConfig }

  predicate IsComponent(id: ResourceId) { id.kind == Component }

  function OperationId(op: Operation): (id: ResourceId) { op.id }

  /** The lifecycle's teardown order: reversed setup, eligible operations only. */
  function Teardown(setup: seq<Operation>): (r: seq<Operation>) { Filter(Eligible, Reverse(setup)) }

  predicate ConfigAccepted(plan: DutPlan) {
    |plan.configs| == 1 && plan.dut == Some(plan.configs[0].endpoint) && plan.configs[0].bgpcpp &&
    (plan.full ==> plan.configs[0].source.Some?) && plan.configs[0].source != Some(false)
  }

  predicate ComponentAccepted(plan: DutPlan)
    requires |plan.configs| == 1
  {
    |plan.components| == 1 && plan.dut == Some(plan.components[0].endpoint) && plan.components[0].standard &&
    plan.components[0].dependsOn == [plan.configs[0].id]
  }

  predicate SnapshotContract(op: Operation, readiness: Readiness) {
    op.ownership == SnapshotRestored && op.restoration == FirstSnapshot && op.readiness == readiness && op.stateChanging
  }

  /** Physical interfaces on the configuration's endpoint. */
  function ConfigPhysicals(plan: DutPlan): (r: seq<ResourceId>)
    requires |plan.configs| == 1
  {
    PhysicalIds(Filter((p: Physical) => p.endpoint == plan.configs[0].endpoint, plan.physicals))
  }

  /** The lifecycle contract each operation must have. */
  predicate OperationAccepted(plan: DutPlan, op: Operation)
    requires |plan.configs| == 1 && |plan.components| == 1
  {
    match op.id.kind
    case Component =>
      op.id == plan.components[0].id && SnapshotContract(op, Acknowledged) && op.deps == plan.components[0].dependsOn
    case RoutingConfig =>
      op.id == plan.configs[0].id && SnapshotContract(op, ExactReadback) &&
      |op.deps| == |ConfigPhysicals(plan)| && Elements(op.deps) == Elements(ConfigPhysicals(plan))
    case _ =>
      op.id in PhysicalIds(plan.physicals) && SnapshotContract(op, ExactReadback) && op.deps == [] &&
      CidrsOk(plan, op.id)
  }

  function InterfaceOf(ps: seq<Physical>, id: ResourceId): (r: Option<string>)
    ensures r.Some? <==> id in PhysicalIds(ps)
    ensures r.Some? ==> exists p :: p in ps && p.id == id && p.interface == r.value
  {
    if ps == [] then None
    else
      assert PhysicalIds(ps) == [ps[0].id] + PhysicalIds(ps[1..]);
      if ps[0].id == id then Some(ps[0].interface) else InterfaceOf(ps[1..], id)
  }

  function RenderFragment(plan: DutPlan, op: Operation): (r: Fragment<Intent>)
    requires |plan.configs| == 1 && |plan.components| == 1 && OperationAccepted(plan, op)
    ensures r.id == op.id
  {
    match op.id.kind
    case Component => Fragment(op.id, [], [ReconcileComponent(op.id, plan.configs[0].id)])
    case RoutingConfig => Fragment(op.id, [], [InstallConfig(op.id)])
    case _ =>
      Fragment(op.id, [RealizeInterface(op.id, InterfaceOf(plan.physicals, op.id).value,
                                        FamilyCidrs(plan.logicals, op.id, true, |plan.logicals|),
                                        FamilyCidrs(plan.logicals, op.id, false, |plan.logicals|))], [])
  }

  function RenderFragments(plan: DutPlan, ops: seq<Operation>): (r: seq<Fragment<Intent>>)
    requires |plan.configs| == 1 && |plan.components| == 1
    requires forall i :: 0 <= i < |ops| ==> OperationAccepted(plan, ops[i])
    ensures |r| == |ops| && forall i :: 0 <= i < |ops| ==> r[i] == RenderFragment(plan, ops[i])
  {
    seq(|ops|, i requires 0 <= i < |ops| => RenderFragment(plan, ops[i]))
  }

  /** Components first, then the configuration, then all interfaces in one restore. */
  function RenderCleanups(ids: seq<ResourceId>): (r: seq<Cleanup<CleanupIntent>>) {
    var interfaces := Filter(IsPhysical, ids);
    Map(id => Cleanup([id], RestoreComponent(id)), Filter(IsComponent, ids)) +
    Map(id => Cleanup([id], RestoreConfig(id)), Filter(IsConfig, ids)) +
    (if interfaces == [] then [] else [Cleanup(interfaces, RestoreInterfaces(interfaces))])
  }

  function ExpectedIds(plan: DutPlan): (r: seq<ResourceId>)
    requires |plan.configs| == 1 && |plan.components| == 1
  {
    if plan.full then PhysicalIds(plan.physicals) + [plan.configs[0].id, plan.components[0].id] else []
  }

  predicate Covers(ids: seq<ResourceId>, expected: seq<ResourceId>) {
    |ids| == |expected| && Elements(ids) == Elements(expected)
  }

  predicate Grouped(ids: seq<ResourceId>) {
    ids == Filter(IsComponent, ids) + Filter(IsConfig, ids) + Filter(IsPhysical, ids)
  }

  function Render(plan: DutPlan, setup: seq<Operation>): (r: RenderResult) {
    if plan.dut.None? then Err(NoEndpoint)
    else if !ConfigAccepted(plan) then Err(BadConfigPlan)
    else if !ComponentAccepted(plan) then Err(BadComponentPlan)
    else if !plan.openrNone then Err(OpenRConfigured)
    else
      var ops := Filter(Supported, setup);
      var ids := Map(OperationId, ops);
      var teardown := Map(OperationId, Filter(Supported, Teardown(setup)));
      if !Covers(ids, ExpectedIds(plan)) then Err(Coverage)
      else if exists i :: 0 <= i < |ops| && !OperationAccepted(plan, ops[i]) then Err(BadOperation)
      else if teardown != Reverse(ids) then Err(NotReversed)
      else if !Grouped(teardown) then Err(NotGrouped)
      else Ok(Rendered(ids, RenderFragments(plan, ops), RenderCleanups(teardown)))
  }

  // ---------- what a successful rendering means ----------

  function CleanupIds<C>(cleanups: seq<Cleanup<C>>): (r: seq<ResourceId>) {
    if cleanups == [] then [] else cleanups[0].ids + CleanupIds(cleanups[1..])
  }

  lemma {:induction false} CleanupIdsAppend<C>(a: seq<Cleanup<C>>, b: seq<Cleanup<C>>)
    ensures CleanupIds(a + b) == CleanupIds(a) + CleanupIds(b)
  {
    if a == [] {
      assert a + b == b;
    } else {
      assert (a + b)[1..] == a[1..] + b;
      CleanupIdsAppend(a[1..], b);
    }
  }

  lemma {:induction false} SingletonCleanupIds<C>(f: ResourceId -> Cleanup<C>, ids: seq<ResourceId>)
    requires forall id :: f(id).ids == [id]
    ensures CleanupIds(Map(f, ids)) == ids
  {
    if ids != [] {
      assert Map(f, ids)[1..] == Map(f, ids[1..]);
      SingletonCleanupIds(f, ids[1..]);
    }
  }

  /** The grouped cleanups name the teardown ids, in teardown order. */
  lemma CleanupsFollowTeardown(ids: seq<ResourceId>)
    requires Grouped(ids)
    ensures CleanupIds(RenderCleanups(ids)) == ids
  {
    var fc := (id: ResourceId) => Cleanup([id], RestoreComponent(id));
    var fr := (id: ResourceId) => Cleanup([id], RestoreConfig(id));
    var cs, rs, interfaces := Filter(IsComponent, ids), Filter(IsConfig, ids), Filter(IsPhysical, ids);
    var last: seq<Cleanup<CleanupIntent>> :=
      if interfaces == [] then [] else [Cleanup(interfaces, RestoreInterfaces(interfaces))];
    SingletonCleanupIds(fc, cs);
    SingletonCleanupIds(fr, rs);
    CleanupIdsAppend(Map(fc, cs), Map(fr, rs));
    CleanupIdsAppend(Map(fc, cs) + Map(fr, rs), last);
    assert CleanupIds(last) == interfaces;
    assert RenderCleanups(ids) == Map(fc, cs) + Map(fr, rs) + last;
  }

  /** A repetition-free cover of the expected ids splits by kind. */
  lemma CoverKinds(plan: DutPlan, ids: seq<ResourceId>)
    requires ValidPlan(plan) && |plan.configs| == 1 && |plan.components| == 1 && plan.full
    requires Distinct(ids) && Covers(ids, ExpectedIds(plan))
    ensures Filter(IsComponent, ids) == [plan.components[0].id] && Filter(IsConfig, ids) == [plan.configs[0].id]
    ensures forall id :: id in Filter(IsPhysical, ids) <==> id in PhysicalIds(plan.physicals)
  {
    var expected := ExpectedIds(plan);
    assert forall id :: id in ids <==> id in Elements(ids);
    assert forall id :: id in expected <==> id in Elements(expected);
    assert plan.configs[0].id in expected && plan.components[0].id in expected;
    FilterSingleton(IsComponent, ids, plan.components[0].id);
    FilterSingleton(IsConfig, ids, plan.configs[0].id);
  }

  /** The listed interfaces are all physical interfaces, each once, before the configuration and the component. */
  ghost predicate ShapedBy(plan: DutPlan, ids: seq<ResourceId>, interfaces: seq<ResourceId>)
    requires |plan.configs| == 1 && |plan.components| == 1
  {
    ids == interfaces + [plan.configs[0].id, plan.components[0].id] && Distinct(interfaces) &&
    forall id :: id in interfaces <==> id in PhysicalIds(plan.physicals)
  }

  /** All physical interfaces, then the routing configuration, then the component, each once. */
  ghost predicate SetupShape(plan: DutPlan, ids: seq<ResourceId>)
    requires |plan.configs| == 1 && |plan.components| == 1
  {
    exists interfaces :: ShapedBy(plan, ids, interfaces)
  }

  lemma GroupedShape(plan: DutPlan, ids: seq<ResourceId>)
    requires ValidPlan(plan) && |plan.configs| == 1 && |plan.components| == 1 && plan.full
    requires Distinct(ids) && Covers(ids, ExpectedIds(plan)) && Grouped(Reverse(ids))
    ensures SetupShape(plan, ids)
  {
    var rev := Reverse(ids);
    ReverseDistinct(ids);
    ReverseCovers(ids, ExpectedIds(plan));
    CoverKinds(plan, rev);
    FilterDistinct(IsPhysical, rev);
    ShapeFromReverse(plan, ids, Filter(IsPhysical, rev));
  }

  lemma ShapeFromReverse(plan: DutPlan, ids: seq<ResourceId>, interfaces: seq<ResourceId>)
    requires |plan.configs| == 1 && |plan.components| == 1
    requires Reverse(ids) == [plan.components[0].id] + [plan.configs[0].id] + interfaces
    requires Distinct(interfaces) && forall id :: id in interfaces <==> id in PhysicalIds(plan.physicals)
    ensures SetupShape(plan, ids)
  {
    var config, component := plan.configs[0].id, plan.components[0].id;
    ReverseReverse(ids);
    ReverseAppend([component] + [config], interfaces);
    assert Reverse([component] + [config]) == [config, component];
    ReverseDistinct(interfaces);
    assert ShapedBy(plan, ids, Reverse(interfaces));
  }

  /** Full mode: setup is all physical interfaces, then the routing configuration, then the component;
      the concatenated cleanup ids are its exact reverse. */
  lemma RenderedOrder(plan: DutPlan, setup: seq<Operation>)
    requires ValidPlan(plan) && plan.full && Distinct(Map(OperationId, setup)) && Render(plan, setup).Ok?
    ensures var r := Render(plan, setup).rendered;
            SetupShape(plan, r.consumed) && Distinct(r.consumed) && CleanupIds(r.cleanups) == Reverse(r.consumed)
  {
    SupportedIdsDistinct(setup);
    var ids := Map(OperationId, Filter(Supported, setup));
    CleanupsFollowTeardown(Reverse(ids));
    GroupedShape(plan, ids);
  }

  lemma ReverseCovers(ids: seq<ResourceId>, expected: seq<ResourceId>)
    requires Covers(ids, expected) && forall x :: x in Reverse(ids) <==> x in ids
    ensures Covers(Reverse(ids), expected)
  {
    assert Elements(Reverse(ids)) == Elements(ids);
  }

  lemma {:induction false} SupportedIdsDistinct(setup: seq<Operation>)
    requires Distinct(Map(OperationId, setup))
    ensures Distinct(Map(OperationId, Filter(Supported, setup)))
  {
    if setup != [] {
      var tail := setup[1..];
      assert Map(OperationId, setup)[1..] == Map(OperationId, tail);
      SupportedIdsDistinct(tail);
      var rest := Filter(Supported, tail);
      forall i | 0 <= i < |rest| ensures rest[i].id != setup[0].id {
        assert rest[i] in tail;
        var j :| 0 <= j < |tail| && tail[j] == rest[i];
        assert Map(OperationId, setup)[j + 1] == rest[i].id && Map(OperationId, setup)[0] == setup[0].id;
      }
    }
  }

  // ---------- dependencies, and checks that never fire ----------

  /** In a lifecycle's setup order every dependency comes first. */
  lemma SetupDepsBefore(ops: seq<Operation>, order: seq<nat>, k: nat, d: ResourceId) returns (x: Operation)
    requires RespectsDeps(ops, order) && k < |order| && d in ops[order[k]].deps
    ensures x.id == d && Before(Setup(ops, order), x, ops[order[k]])
  {
    assert DepsDone(ops, order, k, order[k]);
    assert Done(ops, order, k, d);
    var i :| 0 <= i < k && order[i] < |ops| && ops[order[i]].id == d;
    x := ops[order[i]];
    assert Setup(ops, order)[i] == x && Setup(ops, order)[k] == ops[order[k]];
  }

  lemma IdsBefore(ops: seq<Operation>, x: Operation, y: Operation)
    requires Before(ops, x, y)
    ensures Before(Map(OperationId, ops), x.id, y.id)
  {
    var i, j :| 0 <= i < j < |ops| && ops[i] == x && ops[j] == y;
    var ids := Map(OperationId, ops);
    assert ids[i] == x.id && ids[j] == y.id;
  }

  /** Everything before the configuration, the configuration before the component. */
  lemma LastTwo(ids: seq<ResourceId>, config: ResourceId, component: ResourceId)
    requires Distinct(ids) && Before(ids, config, component)
    requires forall x :: x in ids && x != config && x != component ==> Before(ids, x, config)
    ensures |ids| >= 2 && ids == ids[..|ids| - 2] + [config, component]
  {
    var n := |ids|;
    var i, j :| 0 <= i < j < n && ids[i] == config && ids[j] == component;
    if j != n - 1 { OtherBefore(ids, config, component, i, n - 1); }
    if i != n - 2 { OtherBefore(ids, config, component, i, n - 2); }
  }

  lemma OtherBefore(ids: seq<ResourceId>, config: ResourceId, component: ResourceId, i: nat, k: nat)
    requires Distinct(ids) && i < |ids| && k < |ids| && ids[i] == config
    requires forall x :: x in ids && x != config && x != component ==> Before(ids, x, config)
    ensures ids[k] == component || k <= i
  {
    if ids[k] != component && ids[k] != config {
      assert ids[k] in ids;
      var a, b :| 0 <= a < b < |ids| && ids[a] == ids[k] && ids[b] == config;
      assert a == k && b == i;
    }
  }

  /** The grouping check accepts exactly the intended shape. */
  lemma ShapeIsGrouped(plan: DutPlan, ids: seq<ResourceId>)
    requires ValidPlan(plan) && |plan.configs| == 1 && |plan.components| == 1 && plan.full
    requires Distinct(ids) && Covers(ids, ExpectedIds(plan)) && SetupShape(plan, ids)
    ensures Grouped(Reverse(ids))
  {
    var config, component := plan.configs[0].id, plan.components[0].id;
    var interfaces :| ShapedBy(plan, ids, interfaces);
    forall id | id in interfaces ensures IsPhysical(id) { assert id in PhysicalIds(plan.physicals); }
    ReverseIsGrouped(interfaces, config, component);
  }

  lemma ReverseIsGrouped(interfaces: seq<ResourceId>, config: ResourceId, component: ResourceId)
    requires Distinct(interfaces) && IsComponent(component) && IsConfig(config)
    requires forall id :: id in interfaces ==> IsPhysical(id)
    ensures Grouped(Reverse(interfaces + [config, component]))
  {
    ReverseAppend(interfaces, [config, component]);
    ReverseDistinct(interfaces);
    GroupedByParts(component, config, Reverse(interfaces));
    assert Reverse([config, component]) == [component] + [config];
  }

  lemma GroupedByParts(component: ResourceId, config: ResourceId, interfaces: seq<ResourceId>)
    requires IsComponent(component) && IsConfig(config) && forall id :: id in interfaces ==> IsPhysical(id)
    ensures Grouped([component] + [config] + interfaces)
  {
    FilterPair(IsComponent, component, config, interfaces);
    FilterPair(IsConfig, component, config, interfaces);
    FilterPair(IsPhysical, component, config, interfaces);
    FilterNone(IsComponent, interfaces);
    FilterNone(IsConfig, interfaces);
    FilterAll(IsPhysical, interfaces);
  }

  lemma FilterPair<T>(p: T -> bool, a: T, b: T, rest: seq<T>)
    ensures Filter(p, [a] + [b] + rest) == (if p(a) then [a] else []) + (if p(b) then [b] else []) + Filter(p, rest)
  {
    FilterAppend(p, [a] + [b], rest);
    FilterAppend(p, [a], [b]);
  }

  /** Teardown lists what setup changed and does not merely borrow, in the reverse order. */
  lemma TeardownMeans(setup: seq<Operation>, x: Operation, y: Operation)
    ensures x in Teardown(setup) <==> x in setup && x.stateChanging && x.ownership != Borrowed
    ensures x in Teardown(setup) && y in Teardown(setup) && Before(setup, x, y) ==> Before(Teardown(setup), y, x)
  {
    var rev := Reverse(setup);
    assert x in rev <==> x in setup by {
      if x in rev {
        var i :| 0 <= i < |rev| && rev[i] == x;
        assert setup[|setup| - 1 - i] == x;
      }
      if x in setup {
        var i :| 0 <= i < |setup| && setup[i] == x;
        assert rev[|setup| - 1 - i] == x;
      }
    }
    if x in Teardown(setup) && y in Teardown(setup) && Before(setup, x, y) {
      var i, j :| 0 <= i < j < |setup| && setup[i] == x && setup[j] == y;
      assert rev[|setup| - 1 - j] == y && rev[|setup| - 1 - i] == x;
      FilterKeepsBefore(Eligible, rev, y, x);
    }
  }

  /** Accepted operations are all teardown-eligible, so teardown always reverses setup. */
  lemma TeardownReverses(setup: seq<Operation>)
    requires forall op :: op in setup && Supported(op) ==> Eligible(op)
    ensures Map(OperationId, Filter(Supported, Teardown(setup))) == Reverse(Map(OperationId, Filter(Supported, setup)))
  {
    var rev := Reverse(setup);
    forall op | op in rev ensures op in setup {
      var i :| 0 <= i < |rev| && rev[i] == op;
      assert setup[|setup| - 1 - i] == op;
    }
    FilterRedundant(Supported, Eligible, rev);
    FilterReverse(Supported, setup);
    MapReverse(OperationId, Filter(Supported, setup));
  }

  lemma NeverNotReversed(plan: DutPlan, setup: seq<Operation>)
    ensures Render(plan, setup) != Err(NotReversed)
  {
    if Render(plan, setup) == Err(NotReversed) {
      NotReversedMeans(plan, setup);
      TeardownReverses(setup);
    }
  }

  /** What the reversal error would mean. */
  lemma {:induction false} NotReversedMeans(plan: DutPlan, setup: seq<Operation>)
    requires Render(plan, setup) == Err(NotReversed)
    ensures forall op :: op in setup && Supported(op) ==> Eligible(op)
    ensures Map(OperationId, Filter(Supported, Teardown(setup))) != Reverse(Map(OperationId, Filter(Supported, setup)))
  {
    var ops := Filter(Supported, setup);
    forall op | op in setup && Supported(op) ensures Eligible(op) {
      assert op in ops;
      var i :| 0 <= i < |ops| && ops[i] == op;
      assert OperationAccepted(plan, ops[i]);
    }
  }

  lemma SupportedDepBefore(ops: seq<Operation>, order: seq<nat>, y: Operation, d: ResourceId)
    requires RespectsDeps(ops, order) && y in Filter(Supported, Setup(ops, order)) && d in y.deps && d.kind != OtherKind
    ensures Before(Map(OperationId, Filter(Supported, Setup(ops, order))), d, y.id)
  {
    var setup := Setup(ops, order);
    var k :| 0 <= k < |setup| && setup[k] == y;
    var x := SetupDepsBefore(ops, order, k, d);
    FilterKeepsBefore(Supported, setup, x, y);
    IdsBefore(Filter(Supported, setup), x, y);
  }

  lemma IdInMap(ops: seq<Operation>, id: ResourceId) returns (op: Operation)
    requires id in Map(OperationId, ops)
    ensures op in ops && op.id == id
  {
    var i :| 0 <= i < |ops| && Map(OperationId, ops)[i] == id;
    op := ops[i];
  }

  lemma AllPhysicalsConfigured(plan: DutPlan)
    requires |plan.configs| == 1 && forall p :: p in plan.physicals ==> p.endpoint == plan.configs[0].endpoint
    ensures ConfigPhysicals(plan) == PhysicalIds(plan.physicals)
  {
    FilterAll((p: Physical) => p.endpoint == plan.configs[0].endpoint, plan.physicals);
  }

  lemma PhysicalBeforeConfig(plan: DutPlan, ops: seq<Operation>, order: seq<nat>, x: ResourceId)
    requires RespectsDeps(ops, order) && |plan.configs| == 1 && |plan.components| == 1
    requires forall p :: p in plan.physicals ==> p.endpoint == plan.configs[0].endpoint
    requires plan.configs[0].id in Map(OperationId, Filter(Supported, Setup(ops, order)))
    requires IsConfig(plan.configs[0].id)
    requires forall op :: op in Filter(Supported, Setup(ops, order)) ==> OperationAccepted(plan, op)
    requires x in PhysicalIds(plan.physicals) && IsPhysical(x)
    ensures Before(Map(OperationId, Filter(Supported, Setup(ops, order))), x, plan.configs[0].id)
  {
    var configOp := IdInMap(Filter(Supported, Setup(ops, order)), plan.configs[0].id);
    AllPhysicalsConfigured(plan);
    assert x in Elements(configOp.deps);
    SupportedDepBefore(ops, order, configOp, x);
  }

  /** With every physical interface on the endpoint under test, the dependency order alone forces the shape. */
  lemma DependenciesForceShape(plan: DutPlan, ops: seq<Operation>, order: seq<nat>)
    requires ValidPlan(plan) && plan.full && RespectsDeps(ops, order) && |plan.configs| == 1 && |plan.components| == 1
    requires ComponentAccepted(plan) && forall p :: p in plan.physicals ==> p.endpoint == plan.configs[0].endpoint
    requires Distinct(Map(OperationId, Setup(ops, order)))
    requires Covers(Map(OperationId, Filter(Supported, Setup(ops, order))), ExpectedIds(plan))
    requires forall op :: op in Filter(Supported, Setup(ops, order)) ==> OperationAccepted(plan, op)
    ensures SetupShape(plan, Map(OperationId, Filter(Supported, Setup(ops, order))))
  {
    var supported, config, component := Filter(Supported, Setup(ops, order)), plan.configs[0].id, plan.components[0].id;
    var ids := Map(OperationId, supported);
    SupportedIdsDistinct(Setup(ops, order));
    CoverMembers(plan, ids);
    var componentOp := IdInMap(supported, component);
    SupportedDepBefore(ops, order, componentOp, config);
    forall x | x in ids && x != config && x != component ensures Before(ids, x, config) {
      PhysicalBeforeConfig(plan, ops, order, x);
    }
    LastTwo(ids, config, component);
    ShapeFromCover(plan, ids);
  }

  lemma CoverMembers(plan: DutPlan, ids: seq<ResourceId>)
    requires |plan.configs| == 1 && |plan.components| == 1 && plan.full && Covers(ids, ExpectedIds(plan))
    ensures plan.configs[0].id in ids && plan.components[0].id in ids
    ensures forall x :: x in ids <==>
              x in PhysicalIds(plan.physicals) || x == plan.configs[0].id || x == plan.components[0].id
  {
    var expected := ExpectedIds(plan);
    assert forall x :: x in ids <==> x in Elements(ids);
    assert forall x :: x in expected <==> x in Elements(expected);
    assert expected[|expected| - 2] == plan.configs[0].id && expected[|expected| - 1] == plan.components[0].id;
  }

  lemma ShapeFromCover(plan: DutPlan, ids: seq<ResourceId>)
    requires ValidPlan(plan) && |plan.configs| == 1 && |plan.components| == 1 && plan.full
    requires Distinct(ids) && Covers(ids, ExpectedIds(plan)) && |ids| >= 2
    requires ids == ids[..|ids| - 2] + [plan.configs[0].id, plan.components[0].id]
    ensures SetupShape(plan, ids)
  {
    var interfaces := ids[..|ids| - 2];
    CoverMembers(plan, ids);
    forall x ensures x in interfaces <==> x in PhysicalIds(plan.physicals) {
      AllButLastTwo(ids, plan.configs[0].id, plan.components[0].id, x);
      if x in PhysicalIds(plan.physicals) { PhysicalsOnly(plan, x); }
    }
    assert ShapedBy(plan, ids, interfaces);
  }

  lemma PhysicalsOnly(plan: DutPlan, x: ResourceId)
    requires ValidPlan(plan) && |plan.configs| == 1 && |plan.components| == 1 && x in PhysicalIds(plan.physicals)
    ensures IsPhysical(x) && x != plan.configs[0].id && x != plan.components[0].id
  {
  }

  lemma AllButLastTwo(ids: seq<ResourceId>, a: ResourceId, b: ResourceId, x: ResourceId)
    requires Distinct(ids) && |ids| >= 2 && ids == ids[..|ids| - 2] + [a, b]
    ensures x in ids[..|ids| - 2] <==> x in ids && x != a && x != b
  {
    var front := ids[..|ids| - 2];
    assert ids[|ids| - 2] == a && ids[|ids| - 1] == b;
    if x in front {
      var i :| 0 <= i < |front| && front[i] == x;
      assert ids[i] == x;
    }
  }

  lemma AcceptedIsGrouped(plan: DutPlan, ops: seq<Operation>, order: seq<nat>)
    requires ValidPlan(plan) && plan.full && RespectsDeps(ops, order) && |plan.configs| == 1 && |plan.components| == 1
    requires ComponentAccepted(plan) && forall p :: p in plan.physicals ==> p.endpoint == plan.configs[0].endpoint
    requires Distinct(Map(OperationId, Setup(ops, order)))
    requires Covers(Map(OperationId, Filter(Supported, Setup(ops, order))), ExpectedIds(plan))
    requires forall op :: op in Filter(Supported, Setup(ops, order)) ==> OperationAccepted(plan, op)
    ensures Grouped(Reverse(Map(OperationId, Filter(Supported, Setup(ops, order)))))
  {
    DependenciesForceShape(plan, ops, order);
    SupportedIdsDistinct(Setup(ops, order));
    ShapeIsGrouped(plan, Map(OperationId, Filter(Supported, Setup(ops, order))));
  }

  /** What the grouping error would mean. */
  lemma NotGroupedMeans(plan: DutPlan, setup: seq<Operation>)
    requires Render(plan, setup) == Err(NotGrouped)
    ensures plan.dut.Some? && ConfigAccepted(plan) && ComponentAccepted(plan)
    ensures Covers(Map(OperationId, Filter(Supported, setup)), ExpectedIds(plan))
    ensures forall op :: op in Filter(Supported, setup) ==> OperationAccepted(plan, op)
    ensures !Grouped(Reverse(Map(OperationId, Filter(Supported, setup))))
  {
    var ops := Filter(Supported, setup);
    forall op | op in ops ensures OperationAccepted(plan, op) {
      var i :| 0 <= i < |ops| && ops[i] == op;
      assert OperationAccepted(plan, ops[i]);
    }
  }

  /** So on a lifecycle plan over one endpoint the cleanup grouping check never fires either. */
  lemma NeverNotGrouped(plan: DutPlan, ops: seq<Operation>, order: seq<nat>)
    requires ValidPlan(plan) && plan.full && RespectsDeps(ops, order) && Distinct(Map(OperationId, Setup(ops, order)))
    requires forall p :: p in plan.physicals ==> plan.dut == Some(p.endpoint)
    ensures Render(plan, Setup(ops, order)) != Err(NotGrouped)
  {
    var setup := Setup(ops, order);
    if Render(plan, setup) == Err(NotGrouped) {
      NotGroupedMeans(plan, setup);
      AcceptedIsGrouped(plan, ops, order);
    }
  }

  lemma ShapeFollowsDeps(plan: DutPlan, ids: seq<ResourceId>, op: Operation, d: ResourceId)
    requires |plan.configs| == 1 && |plan.components| == 1 && ComponentAccepted(plan) && SetupShape(plan, ids)
    requires OperationAccepted(plan, op) && d in op.deps
    ensures Before(ids, d, op.id)
  {
    var config, component := plan.configs[0].id, plan.components[0].id;
    var interfaces :| ShapedBy(plan, ids, interfaces);
    var n := |interfaces|;
    assert ids[n] == config && ids[n + 1] == component;
    if op.id == config && op.id.kind == RoutingConfig {
      assert d in Elements(op.deps);
      ConfigPhysicalsArePhysical(plan, d);
      var k :| 0 <= k < n && interfaces[k] == d;
      assert ids[k] == d;
    }
  }

  /** Every consumed operation follows all its dependencies. */
  lemma RenderedFollowsDeps(plan: DutPlan, setup: seq<Operation>, op: Operation, d: ResourceId)
    requires ValidPlan(plan) && plan.full && Distinct(Map(OperationId, setup)) && Render(plan, setup).Ok?
    requires op in Filter(Supported, setup) && d in op.deps
    ensures Before(Render(plan, setup).rendered.consumed, d, op.id)
  {
    RenderedOrder(plan, setup);
    RenderedAccepts(plan, setup, op);
    ShapeFollowsDeps(plan, Render(plan, setup).rendered.consumed, op, d);
  }

  lemma RenderedAccepts(plan: DutPlan, setup: seq<Operation>, op: Operation)
    requires Render(plan, setup).Ok? && op in Filter(Supported, setup)
    ensures OperationAccepted(plan, op)
  {
    var ops := Filter(Supported, setup);
    var i :| 0 <= i < |ops| && ops[i] == op;
    assert OperationAccepted(plan, ops[i]);
  }

  lemma ConfigPhysicalsArePhysical(plan: DutPlan, d: ResourceId)
    requires |plan.configs| == 1 && d in ConfigPhysicals(plan)
    ensures d in PhysicalIds(plan.physicals)
  {
    var f := Filter((p: Physical) => p.endpoint == plan.configs[0].endpoint, plan.physicals);
    var i :| 0 <= i < |f| && PhysicalIds(f)[i] == d;
    assert f[i] in plan.physicals;
    var j :| 0 <= j < |plan.physicals| && plan.physicals[j] == f[i];
    assert PhysicalIds(plan.physicals)[j] == d;
  }

  // ---------- splitting by phase ----------

  function PreTasks<T>(fs: seq<Fragment<T>>): (r: seq<T>) {
    if fs == [] then [] else fs[0].pre + PreTasks(fs[1..])
  }

  function PostTasks<T>(fs: seq<Fragment<T>>): (r: seq<T>) {
    if fs == [] then [] else fs[0].post + PostTasks(fs[1..])
  }

  /** All tasks fragment by fragment. */
  function AllTasks<T>(fs: seq<Fragment<T>>): (r: seq<T>) {
    if fs == [] then [] else fs[0].pre + fs[0].post + AllTasks(fs[1..])
  }

  /** Phases never interleave: fragments that run before IXIA come first. */
  ghost predicate Phased<T>(fs: seq<Fragment<T>>) {
    forall i, j :: 0 <= i < j < |fs| && fs[i].post != [] ==> fs[j].pre == []
  }

  lemma {:induction false} SplitKeepsOrder<T>(fs: seq<Fragment<T>>)
    requires Phased(fs)
    ensures PreTasks(fs) + PostTasks(fs) == AllTasks(fs)
  {
    if fs != [] {
      SplitKeepsOrder(fs[1..]);
      if fs[0].post != [] {
        forall i | 0 <= i < |fs[1..]| ensures fs[1..][i].pre == [] { assert fs[1..][i] == fs[i + 1]; }
        NoPreTasks(fs[1..]);
      }
    }
  }

  lemma {:induction false} NoPreTasks<T>(fs: seq<Fragment<T>>)
    requires forall i :: 0 <= i < |fs| ==> fs[i].pre == []
    ensures PreTasks(fs) == []
  {
    if fs != [] { NoPreTasks(fs[1..]); }
  }

  lemma ShapeIsPhased(plan: DutPlan, ops: seq<Operation>)
    requires ValidPlan(plan) && |plan.configs| == 1 && |plan.components| == 1
    requires forall i :: 0 <= i < |ops| ==> OperationAccepted(plan, ops[i])
    requires SetupShape(plan, Map(OperationId, ops))
    ensures Phased(RenderFragments(plan, ops))
  {
    var ids := Map(OperationId, ops);
    var interfaces :| ShapedBy(plan, ids, interfaces);
    var fs := RenderFragments(plan, ops);
    forall k | 0 <= k < |interfaces| ensures ops[k].id.kind == PhysicalInterface {
      assert interfaces[k] in interfaces && ids[k] == ops[k].id;
    }
    forall i, j | 0 <= i < j < |fs| && fs[i].post != [] ensures fs[j].pre == [] {
      assert ids[i] == ops[i].id && ids[j] == ops[j].id;
    }
  }

  /** Running all pre-IXIA tasks and then all post-IXIA tasks runs the fragments in setup order. */
  lemma RenderedSplitKeepsOrder(plan: DutPlan, setup: seq<Operation>)
    requires ValidPlan(plan) && plan.full && Distinct(Map(OperationId, setup)) && Render(plan, setup).Ok?
    ensures var fs := Render(plan, setup).rendered.fragments; Phased(fs) && PreTasks(fs) + PostTasks(fs) == AllTasks(fs)
  {
    RenderedOrder(plan, setup);
    ShapeIsPhased(plan, Filter(Supported, setup));
    SplitKeepsOrder(Render(plan, setup).rendered.fragments);
  }
}
