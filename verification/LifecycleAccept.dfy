/** Which plans render: the renderer's checks, stated over the plan and the declared operations alone. */
module LifecycleAccept {
  import opened Sequences
  import opened LifecycleOrder
  import opened LifecycleRender

  // ---------- addresses ----------

  /** The local addresses of the adjacencies on some of the links, in plan order. */
  function LocalsOn(adjacencies: seq<Adjacency>, links: seq<ResourceId>): (r: seq<int>) {
    Map((a: Adjacency) => a.local, Filter((a: Adjacency) => a.link in links, adjacencies))
  }

  lemma {:induction false} LocalsAre(adjacencies: seq<Adjacency>, links: seq<ResourceId>, n: nat)
    requires n <= |adjacencies|
    ensures Locals(adjacencies, links, n) == LocalsOn(adjacencies[..n], links)
  {
    if n > 0 {
      var on := (a: Adjacency) => a.link in links;
      var last := adjacencies[n - 1];
      LocalsAre(adjacencies, links, n - 1);
      assert adjacencies[..n] == adjacencies[..n - 1] + [last];
      FilterAppend(on, adjacencies[..n - 1], [last]);
      FilterOne(on, last);
    }
  }

  ghost predicate Apart(a: Logical, b: Logical) { forall c :: c in a.addresses ==> c !in b.addresses }

  /** No address stands twice among the first `n` logical members, within a member or in two of them. */
  ghost predicate NoRepeat(ls: seq<Logical>, id: ResourceId, n: nat)
    requires n <= |ls|
  {
    (forall i :: 0 <= i < n && ls[i].physical == Some(id) ==> Distinct(ls[i].addresses)) &&
    forall i, j :: 0 <= i < j < n && ls[i].physical == Some(id) && ls[j].physical == Some(id) ==> Apart(ls[i], ls[j])
  }

  lemma {:induction false} HeldIff(ls: seq<Logical>, id: ResourceId, n: nat, c: Cidr)
    requires n <= |ls|
    ensures c in AllCidrs(ls, id, n) <==>
            exists i :: 0 <= i < n && ls[i].physical == Some(id) && c in ls[i].addresses
  {
    if n > 0 { HeldIff(ls, id, n - 1, c); }
  }

  /** Appending keeps a list free of repeats exactly when the new part has none and shares nothing. */
  lemma DistinctAppend<T>(a: seq<T>, b: seq<T>)
    ensures Distinct(a + b) <==> Distinct(a) && Distinct(b) && forall x :: x in a ==> x !in b
  {
    var s := a + b;
    if Distinct(s) {
      forall i, j | 0 <= i < j < |a| ensures a[i] != a[j] { assert s[i] != s[j]; }
      forall i, j | 0 <= i < j < |b| ensures b[i] != b[j] { assert s[|a| + i] != s[|a| + j]; }
      forall x | x in a ensures x !in b {
        var i :| 0 <= i < |a| && a[i] == x;
        forall j | 0 <= j < |b| ensures b[j] != x { assert s[i] != s[|a| + j]; }
      }
    }
    if Distinct(a) && Distinct(b) && forall x :: x in a ==> x !in b {
      forall i, j | 0 <= i < j < |s| ensures s[i] != s[j] {
        assert i < |a| ==> s[i] in a;
        assert |a| <= j ==> s[j] == b[j - |a|] && s[j] in b;
      }
    }
  }

  lemma {:induction false} NoRepeatIff(ls: seq<Logical>, id: ResourceId, n: nat)
    requires n <= |ls|
    ensures Distinct(AllCidrs(ls, id, n)) <==> NoRepeat(ls, id, n)
  {
    if n > 0 {
      NoRepeatIff(ls, id, n - 1);
      if ls[n - 1].physical == Some(id) {
        NoRepeatStep(ls, id, n - 1);
      } else {
        assert AllCidrs(ls, id, n) == AllCidrs(ls, id, n - 1);
      }
    }
  }

  lemma NoRepeatStep(ls: seq<Logical>, id: ResourceId, n: nat)
    requires n < |ls| && ls[n].physical == Some(id) && (Distinct(AllCidrs(ls, id, n)) <==> NoRepeat(ls, id, n))
    ensures Distinct(AllCidrs(ls, id, n + 1)) <==> NoRepeat(ls, id, n + 1)
  {
    DistinctAppend(AllCidrs(ls, id, n), ls[n].addresses);
    assert (forall c :: c in AllCidrs(ls, id, n) ==> c !in ls[n].addresses) <==>
           forall i :: 0 <= i < n && ls[i].physical == Some(id) ==> Apart(ls[i], ls[n]) by {
      forall c
        ensures c in AllCidrs(ls, id, n) <==>
                exists i :: 0 <= i < n && ls[i].physical == Some(id) && c in ls[i].addresses
      {
        HeldIff(ls, id, n, c);
      }
    }
  }

  /** A physical interface has logical members, each with exactly its adjacencies' local addresses, none twice. */
  ghost predicate AddressesFit(plan: DutPlan, id: ResourceId) {
    (exists l :: l in plan.logicals && l.physical == Some(id)) &&
    (forall l :: l in plan.logicals && l.physical == Some(id) ==>
       |l.addresses| == |LocalsOn(plan.adjacencies, l.links)| &&
       forall k :: 0 <= k < |l.addresses| ==> l.addresses[k].ip == LocalsOn(plan.adjacencies, l.links)[k]) &&
    NoRepeat(plan.logicals, id, |plan.logicals|)
  }

  lemma AddressesFitIff(plan: DutPlan, id: ResourceId)
    ensures CidrsOk(plan, id) <==> AddressesFit(plan, id)
  {
    var ls := plan.logicals;
    NoRepeatIff(ls, id, |ls|);
    forall l | l in ls ensures ListsLocals(plan, l) <==>
        |l.addresses| == |LocalsOn(plan.adjacencies, l.links)| &&
        forall k :: 0 <= k < |l.addresses| ==> l.addresses[k].ip == LocalsOn(plan.adjacencies, l.links)[k]
    {
      ListsLocalsIff(plan, l);
    }
  }

  lemma ListsLocalsIff(plan: DutPlan, l: Logical)
    ensures ListsLocals(plan, l) <==>
            |l.addresses| == |LocalsOn(plan.adjacencies, l.links)| &&
            forall k :: 0 <= k < |l.addresses| ==> l.addresses[k].ip == LocalsOn(plan.adjacencies, l.links)[k]
  {
    LocalsAre(plan.adjacencies, l.links, |plan.adjacencies|);
    assert plan.adjacencies[..|plan.adjacencies|] == plan.adjacencies;
    var ips, expected := Ips(l.addresses), LocalsOn(plan.adjacencies, l.links);
    assert forall k :: 0 <= k < |ips| ==> ips[k] == l.addresses[k].ip;
    if |ips| == |expected| && forall k :: 0 <= k < |ips| ==> ips[k] == expected[k] { assert ips == expected; }
  }

  // ---------- operations ----------

  /** The lifecycle contract by kind: everything is snapshot and restored; an interface waits for nothing, the
      configuration for the interfaces of its endpoint, the component for the configuration. */
  ghost predicate Contracted(plan: DutPlan, op: Operation)
    requires |plan.configs| == 1 && |plan.components| == 1
  {
    var config := plan.configs[0];
    op.stateChanging && op.ownership == SnapshotRestored && op.restoration == FirstSnapshot &&
    (op.id.kind == Component ==> op.readiness == Acknowledged && op.deps == [config.id]) &&
    (op.id.kind != Component ==> op.readiness == ExactReadback) &&
    (op.id.kind == RoutingConfig ==>
       forall d :: d in op.deps <==> exists p :: p in plan.physicals && p.id == d && p.endpoint == config.endpoint) &&
    (op.id.kind == PhysicalInterface ==> op.deps == [] && AddressesFit(plan, op.id))
  }

  lemma {:induction false} EndpointIds(ps: seq<Physical>, endpoint: ResourceId, d: ResourceId)
    ensures d in PhysicalIds(Filter((p: Physical) => p.endpoint == endpoint, ps)) <==>
            exists p :: p in ps && p.id == d && p.endpoint == endpoint
  {
    var f := Filter((p: Physical) => p.endpoint == endpoint, ps);
    if d in PhysicalIds(f) {
      var i :| 0 <= i < |f| && PhysicalIds(f)[i] == d;
      assert f[i] in ps && f[i].id == d;
    }
    if p :| p in ps && p.id == d && p.endpoint == endpoint {
      var i :| 0 <= i < |f| && f[i] == p;
      assert PhysicalIds(f)[i] == d;
    }
  }

  lemma {:induction false} EndpointIdsDistinct(ps: seq<Physical>, endpoint: ResourceId)
    requires Distinct(PhysicalIds(ps))
    ensures Distinct(PhysicalIds(Filter((p: Physical) => p.endpoint == endpoint, ps)))
  {
    if ps != [] {
      var rest := Filter((p: Physical) => p.endpoint == endpoint, ps[1..]);
      assert PhysicalIds(ps)[1..] == PhysicalIds(ps[1..]);
      EndpointIdsDistinct(ps[1..], endpoint);
      forall i | 0 <= i < |rest| ensures rest[i].id != ps[0].id {
        assert rest[i] in ps[1..];
        var j :| 0 <= j < |ps| - 1 && ps[j + 1] == rest[i];
        assert PhysicalIds(ps)[j + 1] != PhysicalIds(ps)[0];
      }
    }
  }

  lemma ConfigDeps(plan: DutPlan, deps: seq<ResourceId>)
    requires ValidPlan(plan) && |plan.configs| == 1 && Distinct(deps)
    ensures |deps| == |ConfigPhysicals(plan)| && Elements(deps) == Elements(ConfigPhysicals(plan)) <==>
            forall d :: d in deps <==>
              exists p :: p in plan.physicals && p.id == d && p.endpoint == plan.configs[0].endpoint
  {
    var physicals := ConfigPhysicals(plan);
    EndpointIdsDistinct(plan.physicals, plan.configs[0].endpoint);
    forall d ensures d in physicals <==>
                     exists p :: p in plan.physicals && p.id == d && p.endpoint == plan.configs[0].endpoint
    {
      EndpointIds(plan.physicals, plan.configs[0].endpoint, d);
    }
    SameElements(deps, physicals);
  }

  /** Repetition-free lists with the same elements have the same length. */
  lemma SameElements<T>(a: seq<T>, b: seq<T>)
    requires Distinct(a) && Distinct(b)
    ensures |a| == |b| && Elements(a) == Elements(b) <==> forall x :: x in a <==> x in b
  {
    DistinctLength(a);
    DistinctLength(b);
    assert forall x :: x in a <==> x in Elements(a);
    assert forall x :: x in b <==> x in Elements(b);
    if forall x :: x in a <==> x in b { assert Elements(a) == Elements(b); }
  }

  /** `id` is one of the plan's resources that the renderer turns into tasks. */
  ghost predicate InPlan(plan: DutPlan, id: ResourceId)
    requires |plan.configs| == 1 && |plan.components| == 1
  {
    id == plan.configs[0].id || id == plan.components[0].id || exists p :: p in plan.physicals && p.id == id
  }

  lemma PhysicalIdOf(plan: DutPlan, id: ResourceId)
    ensures id in PhysicalIds(plan.physicals) <==> exists p :: p in plan.physicals && p.id == id
  {
    if id in PhysicalIds(plan.physicals) {
      var i :| 0 <= i < |plan.physicals| && PhysicalIds(plan.physicals)[i] == id;
      assert plan.physicals[i] in plan.physicals;
    }
    if p :| p in plan.physicals && p.id == id {
      var i :| 0 <= i < |plan.physicals| && plan.physicals[i] == p;
      assert PhysicalIds(plan.physicals)[i] == id;
    }
  }

  lemma ContractedIff(plan: DutPlan, op: Operation)
    requires ValidPlan(plan) && |plan.configs| == 1 && |plan.components| == 1 && op.Valid()
    requires Supported(op) && InPlan(plan, op.id) && plan.components[0].dependsOn == [plan.configs[0].id]
    ensures OperationAccepted(plan, op) <==> Contracted(plan, op)
  {
    PhysicalIdOf(plan, op.id);
    match op.id.kind
    case Component =>
    case RoutingConfig => ConfigDeps(plan, op.deps);
    case _ => AddressesFitIff(plan, op.id);
  }

  // ---------- the whole rendering ----------

  /** One usable endpoint, one BGP++ configuration from Configerator, one standard component, and no OpenR. */
  predicate PlanFits(plan: DutPlan) {
    plan.dut.Some? && plan.openrNone && |plan.configs| == 1 && |plan.components| == 1 &&
    var config, component := plan.configs[0], plan.components[0];
    config.endpoint == plan.dut.value && config.bgpcpp && config.source.Some? && config.source.value &&
    component.endpoint == plan.dut.value && component.standard && component.dependsOn == [config.id]
  }

  lemma PlanFitsIff(plan: DutPlan)
    requires plan.full
    ensures plan.dut.Some? && ConfigAccepted(plan) && ComponentAccepted(plan) && plan.openrNone <==> PlanFits(plan)
  {
    if |plan.configs| == 1 {
      var source := plan.configs[0].source;
      assert source.Some? && source != Some(false) <==> source.Some? && source.value;
    }
  }

  /** The declared operations of the three kinds are those of the plan's resources. */
  ghost predicate OperationsMatch(plan: DutPlan, ops: seq<Operation>)
    requires |plan.configs| == 1 && |plan.components| == 1
  {
    (forall op :: op in ops && op.id.kind != OtherKind ==> InPlan(plan, op.id)) &&
    forall id :: InPlan(plan, id) ==> exists op :: op in ops && op.id == id
  }

  /** What the renderer demands of a full plan and the declared operations, whatever their order. */
  ghost predicate Renderable(plan: DutPlan, ops: seq<Operation>) {
    PlanFits(plan) && OperationsMatch(plan, ops) &&
    forall op :: op in ops && op.id.kind != OtherKind ==> Contracted(plan, op)
  }

  lemma OrderCovers(ops: seq<Operation>, order: seq<nat>, i: nat)
    requires Indices(ops, order) && |order| == |ops| && i < |ops|
    ensures i in order
  {
    if i !in order {
      DistinctLength(order);
      assert Elements(order) <= Below(|ops|) - {i};
      SubsetSize(Elements(order), Below(|ops|) - {i});
    }
  }

  lemma SetupMembers(ops: seq<Operation>, order: seq<nat>)
    requires Indices(ops, order) && |order| == |ops|
    ensures forall op :: op in Setup(ops, order) <==> op in ops
  {
    var setup := Setup(ops, order);
    forall op ensures op in setup <==> op in ops {
      if op in setup {
        var k :| 0 <= k < |setup| && setup[k] == op;
      }
      if op in ops {
        var i :| 0 <= i < |ops| && ops[i] == op;
        OrderCovers(ops, order, i);
        var k :| 0 <= k < |order| && order[k] == i;
        assert setup[k] == op;
      }
    }
  }

  lemma ExpectedDistinct(plan: DutPlan)
    requires ValidPlan(plan) && plan.full && |plan.configs| == 1 && |plan.components| == 1
    ensures Distinct(ExpectedIds(plan)) && forall id :: id in ExpectedIds(plan) <==> InPlan(plan, id)
  {
    var ids, last := PhysicalIds(plan.physicals), [plan.configs[0].id, plan.components[0].id];
    DistinctAppend(ids, last);
    forall id ensures id in ExpectedIds(plan) <==> InPlan(plan, id) { PhysicalIdOf(plan, id); }
  }

  lemma CoversIff(plan: DutPlan, ops: seq<Operation>, setup: seq<Operation>)
    requires ValidPlan(plan) && plan.full && |plan.configs| == 1 && |plan.components| == 1
    requires Distinct(Map(OperationId, setup)) && forall op :: op in setup <==> op in ops
    ensures Covers(Map(OperationId, Filter(Supported, setup)), ExpectedIds(plan)) <==> OperationsMatch(plan, ops)
  {
    var supported := Filter(Supported, setup);
    var ids := Map(OperationId, supported);
    SupportedIdsDistinct(setup);
    ExpectedDistinct(plan);
    SameElements(ids, ExpectedIds(plan));
    forall id ensures id in ids <==> exists op :: op in ops && op.id.kind != OtherKind && op.id == id {
      IdsOfSupported(ops, supported, id);
    }
    assert forall id :: InPlan(plan, id) ==> id.kind != OtherKind;
  }

  lemma IdsOfSupported(ops: seq<Operation>, supported: seq<Operation>, id: ResourceId)
    requires forall op :: op in supported <==> op in ops && Supported(op)
    ensures id in Map(OperationId, supported) <==> exists op :: op in ops && op.id.kind != OtherKind && op.id == id
  {
    if id in Map(OperationId, supported) { var op := IdInMap(supported, id); }
    if op :| op in ops && op.id.kind != OtherKind && op.id == id {
      assert op in supported;
      var i :| 0 <= i < |supported| && supported[i] == op;
      assert Map(OperationId, supported)[i] == id;
    }
  }

  lemma AcceptedIff(plan: DutPlan, ops: seq<Operation>, supported: seq<Operation>)
    requires ValidPlan(plan) && PlanFits(plan) && AllValid(ops) && OperationsMatch(plan, ops)
    requires forall op :: op in supported <==> op in ops && Supported(op)
    ensures (forall i :: 0 <= i < |supported| ==> OperationAccepted(plan, supported[i])) <==>
            forall op :: op in ops && op.id.kind != OtherKind ==> Contracted(plan, op)
  {
    forall op | op in supported ensures OperationAccepted(plan, op) <==> Contracted(plan, op) {
      var i :| 0 <= i < |ops| && ops[i] == op;
      ContractedIff(plan, op);
    }
    if forall i :: 0 <= i < |supported| ==> OperationAccepted(plan, supported[i]) {
      forall op | op in ops && op.id.kind != OtherKind ensures Contracted(plan, op) {
        assert op in supported;
        var i :| 0 <= i < |supported| && supported[i] == op;
      }
    }
  }

  lemma RenderChecks(plan: DutPlan, setup: seq<Operation>)
    ensures Render(plan, setup).Ok? <==>
            plan.dut.Some? && ConfigAccepted(plan) && ComponentAccepted(plan) && plan.openrNone &&
            var ops := Filter(Supported, setup);
            Covers(Map(OperationId, ops), ExpectedIds(plan)) &&
            (forall i :: 0 <= i < |ops| ==> OperationAccepted(plan, ops[i])) &&
            Map(OperationId, Filter(Supported, Teardown(setup))) == Reverse(Map(OperationId, ops)) &&
            Grouped(Reverse(Map(OperationId, ops)))
  {
  }

  lemma GroupedIffShape(plan: DutPlan, ids: seq<ResourceId>)
    requires ValidPlan(plan) && |plan.configs| == 1 && |plan.components| == 1 && plan.full
    requires Distinct(ids) && Covers(ids, ExpectedIds(plan))
    ensures Grouped(Reverse(ids)) <==> SetupShape(plan, ids)
  {
    if Grouped(Reverse(ids)) { GroupedShape(plan, ids); }
    if SetupShape(plan, ids) { ShapeIsGrouped(plan, ids); }
  }

  lemma TeardownFits(plan: DutPlan, setup: seq<Operation>, ops: seq<Operation>)
    requires |plan.configs| == 1 && |plan.components| == 1 && ops == Filter(Supported, setup)
    requires forall i :: 0 <= i < |ops| ==> OperationAccepted(plan, ops[i])
    ensures Map(OperationId, Filter(Supported, Teardown(setup))) == Reverse(Map(OperationId, ops))
  {
    forall op | op in setup && Supported(op) ensures Eligible(op) {
      assert op in ops;
      var i :| 0 <= i < |ops| && ops[i] == op;
      assert OperationAccepted(plan, ops[i]);
    }
    TeardownReverses(setup);
  }

  /** A full plan renders exactly when plan and operations meet the demands and the order is interfaces,
      configuration, component. */
  lemma RendersIff(plan: DutPlan, ops: seq<Operation>, order: seq<nat>)
    requires ValidPlan(plan) && plan.full && AllValid(ops) && Indices(ops, order) && |order| == |ops|
    requires Distinct(Map(OperationId, Setup(ops, order)))
    ensures Render(plan, Setup(ops, order)).Ok? <==>
            Renderable(plan, ops) && SetupShape(plan, Map(OperationId, Filter(Supported, Setup(ops, order))))
  {
    var setup := Setup(ops, order);
    var supported := Filter(Supported, setup);
    SetupMembers(ops, order);
    PlanFitsIff(plan);
    RenderChecks(plan, setup);
    if PlanFits(plan) {
      CoversIff(plan, ops, setup);
      if OperationsMatch(plan, ops) {
        AcceptedIff(plan, ops, supported);
        SupportedIdsDistinct(setup);
        GroupedIffShape(plan, Map(OperationId, supported));
        if forall i :: 0 <= i < |supported| ==> OperationAccepted(plan, supported[i]) {
          TeardownFits(plan, setup, supported);
        }
      }
    }
  }

  /** With every physical interface on the endpoint under test the order is always that one. */
  lemma RenderableIsShaped(plan: DutPlan, ops: seq<Operation>, order: seq<nat>)
    requires ValidPlan(plan) && plan.full && AllValid(ops) && RespectsDeps(ops, order) && |order| == |ops|
    requires Distinct(Map(OperationId, Setup(ops, order))) && Renderable(plan, ops)
    requires forall p :: p in plan.physicals ==> plan.dut == Some(p.endpoint)
    ensures SetupShape(plan, Map(OperationId, Filter(Supported, Setup(ops, order))))
  {
    var setup := Setup(ops, order);
    SetupMembers(ops, order);
    PlanFitsIff(plan);
    CoversIff(plan, ops, setup);
    AcceptedIff(plan, ops, Filter(Supported, setup));
    forall op | op in Filter(Supported, setup) ensures OperationAccepted(plan, op) {
      var i :| 0 <= i < |Filter(Supported, setup)| && Filter(Supported, setup)[i] == op;
    }
    DependenciesForceShape(plan, ops, order);
  }
}
