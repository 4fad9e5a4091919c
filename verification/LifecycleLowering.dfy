/** The whole lifecycle chain: planning, rendering and materializing, and what its tasks configure and restore. */
module LifecycleLowering {
  import opened Sequences
  import opened LifecycleOrder
  import opened LifecycleRender
  import opened LifecycleAccept
  import opened DaemonReconcile
  import opened LifecycleRun
  import Orders

  // ---------- the addresses of an interface ----------

  /** `cidrs` are the addresses, each once, that the logical members of physical interface `id` have in one family. */
  ghost predicate MemberAddresses(plan: DutPlan, cidrs: seq<Cidr>, id: ResourceId, v4: bool) {
    Distinct(cidrs) &&
    forall c :: c in cidrs <==>
      exists l :: l in plan.logicals && l.physical == Some(id) && l.v4 == v4 && c in l.addresses
  }

  lemma {:induction false} FamilyMembers(ls: seq<Logical>, id: ResourceId, v4: bool, n: nat, c: Cidr)
    requires n <= |ls|
    ensures c in FamilyCidrs(ls, id, v4, n) <==>
            exists i :: 0 <= i < n && ls[i].physical == Some(id) && ls[i].v4 == v4 && c in ls[i].addresses
  {
    if n > 0 { FamilyMembers(ls, id, v4, n - 1, c); }
  }

  lemma FamilyDistinct(ls: seq<Logical>, id: ResourceId)
    requires Distinct(AllCidrs(ls, id, |ls|))
    ensures Distinct(FamilyCidrs(ls, id, true, |ls|)) && Distinct(FamilyCidrs(ls, id, false, |ls|))
  {
    var v4, v6 := FamilyCidrs(ls, id, true, |ls|), FamilyCidrs(ls, id, false, |ls|);
    CidrFamiliesPartition(ls, id, |ls|);
    assert multiset(v4 + v6) == multiset(v4) + multiset(v6);
    PermutationDistinct(AllCidrs(ls, id, |ls|), v4 + v6);
    forall i, j | 0 <= i < j < |v4| ensures v4[i] != v4[j] { assert (v4 + v6)[i] != (v4 + v6)[j]; }
    forall i, j | 0 <= i < j < |v6| ensures v6[i] != v6[j] { assert (v4 + v6)[|v4| + i] != (v4 + v6)[|v4| + j]; }
  }

  lemma FamilyIsMembers(plan: DutPlan, id: ResourceId, v4: bool)
    requires CidrsOk(plan, id)
    ensures MemberAddresses(plan, FamilyCidrs(plan.logicals, id, v4, |plan.logicals|), id, v4)
  {
    var ls := plan.logicals;
    FamilyDistinct(ls, id);
    forall c
      ensures c in FamilyCidrs(ls, id, v4, |ls|) <==>
              exists l :: l in ls && l.physical == Some(id) && l.v4 == v4 && c in l.addresses
    {
      FamilyMembers(ls, id, v4, |ls|, c);
    }
  }

  // ---------- what the setup tasks do ----------

  /** The task configures the bound interface of `p` with the addresses of its members. */
  ghost predicate Configures(plan: DutPlan, t: Task, p: Physical) {
    t.PhysicalApply? && t.op == p.id && t.interface == p.interface &&
    MemberAddresses(plan, t.v4, p.id, true) && MemberAddresses(plan, t.v6, p.id, false)
  }

  ghost predicate ConfiguresSome(plan: DutPlan, t: Task) {
    exists p :: p in plan.physicals && Configures(plan, t, p)
  }

  /** Each task configures a physical interface of the plan, no two the same, and there are as many as interfaces. */
  ghost predicate ConfiguresAll(plan: DutPlan, ts: seq<Task>) {
    |ts| == |plan.physicals| &&
    (forall k :: 0 <= k < |ts| ==> ConfiguresSome(plan, ts[k])) &&
    forall j, k :: 0 <= j < k < |ts| ==> ts[j].op != ts[k].op
  }

  /** The whole setup: all interfaces; then snapshot, write, validate and verify the configuration; then the daemons. */
  ghost predicate SetupContent(plan: DutPlan, ts: seq<Task>, ds: seq<Daemon>, os: seq<StartupOption>) {
    |plan.configs| == 1 && |plan.components| == 1 && |ts| >= |plan.physicals| &&
    var config, component := plan.configs[0].id, plan.components[0].id;
    ConfiguresAll(plan, ts[..|plan.physicals|]) &&
    ts[|plan.physicals|..] ==
    [ConfigSnapshot(config), ConfigCreate(config), ConfigValidate(config), ConfigVerify(config)] +
    Map(step => ComponentStep(component, step), DaemonReconcile.Materialize(ds, os))
  }

  lemma {:induction false} AllTasksAppend<T>(a: seq<Fragment<T>>, b: seq<Fragment<T>>)
    ensures AllTasks(a + b) == AllTasks(a) + AllTasks(b)
  {
    if a == [] {
      assert a + b == b;
    } else {
      assert (a + b)[1..] == a[1..] + b;
      AllTasksAppend(a[1..], b);
    }
  }

  lemma {:induction false} SingleTasks<T>(fs: seq<Fragment<T>>)
    requires forall i :: 0 <= i < |fs| ==> |fs[i].pre| == 1 && fs[i].post == []
    ensures |AllTasks(fs)| == |fs| && forall i :: 0 <= i < |fs| ==> AllTasks(fs)[i] == fs[i].pre[0]
  {
    if fs != [] {
      SingleTasks(fs[1..]);
      assert AllTasks(fs) == fs[0].pre + AllTasks(fs[1..]);
    }
  }

  lemma LowerSingle(i: Intent, ds: seq<Daemon>, os: seq<StartupOption>)
    ensures LowerAll([i], ds, os) == Lower(i, ds, os) && LowerAll([], ds, os) == []
  {
    assert [i][1..] == [];
    assert LowerAll([], ds, os) == [];
  }

  lemma PhysicalFragment(plan: DutPlan, op: Operation, ds: seq<Daemon>, os: seq<StartupOption>)
    requires |plan.configs| == 1 && |plan.components| == 1 && OperationAccepted(plan, op)
    requires op.id.kind == PhysicalInterface
    ensures var f := LowerFragment(RenderFragment(plan, op), ds, os);
            |f.pre| == 1 && f.post == [] && f.pre[0].op == op.id && ConfiguresSome(plan, f.pre[0])
  {
    var intent := RenderFragment(plan, op).pre[0];
    LowerSingle(intent, ds, os);
    FamilyIsMembers(plan, op.id, true);
    FamilyIsMembers(plan, op.id, false);
    var p :| p in plan.physicals && p.id == op.id && p.interface == InterfaceOf(plan.physicals, op.id).value;
    assert Configures(plan, PhysicalApply(intent.id, intent.interface, intent.v4, intent.v6), p);
  }

  lemma ConfigFragment(plan: DutPlan, op: Operation, ds: seq<Daemon>, os: seq<StartupOption>)
    requires |plan.configs| == 1 && |plan.components| == 1 && OperationAccepted(plan, op)
    requires op.id.kind == RoutingConfig
    ensures var f, id := LowerFragment(RenderFragment(plan, op), ds, os), plan.configs[0].id;
            f.pre + f.post == [ConfigSnapshot(id), ConfigCreate(id), ConfigValidate(id), ConfigVerify(id)]
  {
    LowerSingle(InstallConfig(op.id), ds, os);
  }

  lemma ComponentFragment(plan: DutPlan, op: Operation, ds: seq<Daemon>, os: seq<StartupOption>)
    requires |plan.configs| == 1 && |plan.components| == 1 && OperationAccepted(plan, op)
    requires op.id.kind == Component
    ensures var f, id := LowerFragment(RenderFragment(plan, op), ds, os), plan.components[0].id;
            f.pre + f.post == Map(step => ComponentStep(id, step), DaemonReconcile.Materialize(ds, os))
  {
    LowerSingle(ReconcileComponent(op.id, plan.configs[0].id), ds, os);
  }

  /** A fragment whose only task configures a physical interface of the plan. */
  ghost predicate ConfiguresOne(plan: DutPlan, f: Fragment<Task>) {
    |f.pre| == 1 && f.post == [] && f.pre[0].op == f.id && ConfiguresSome(plan, f.pre[0])
  }

  lemma {:induction false} ConfiguringTasks(plan: DutPlan, fs: seq<Fragment<Task>>, ts: seq<Task>)
    requires |fs| == |plan.physicals| == |ts|
    requires forall i :: 0 <= i < |fs| ==> ConfiguresOne(plan, fs[i]) && ts[i] == fs[i].pre[0]
    requires forall i, j :: 0 <= i < j < |fs| ==> fs[i].id != fs[j].id
    ensures ConfiguresAll(plan, ts)
  {
  }

  lemma AllTasksOne<T>(f: Fragment<T>)
    ensures AllTasks([f]) == f.pre + f.post
  {
    assert [f][1..] == [];
    assert AllTasks<T>([]) == [];
  }

  lemma {:induction false} LastTwoFragments<T>(fs: seq<Fragment<T>>, n: nat)
    requires |fs| == n + 2
    ensures AllTasks(fs) == AllTasks(fs[..n]) + ((fs[n].pre + fs[n].post) + (fs[n + 1].pre + fs[n + 1].post))
  {
    assert fs == fs[..n] + ([fs[n]] + [fs[n + 1]]);
    AllTasksAppend(fs[..n], [fs[n]] + [fs[n + 1]]);
    AllTasksAppend([fs[n]], [fs[n + 1]]);
    AllTasksOne(fs[n]);
    AllTasksOne(fs[n + 1]);
  }

  /** The operations of a full rendering, in setup shape. */
  ghost predicate Parts(plan: DutPlan, ops: seq<Operation>) {
    |plan.configs| == 1 && |plan.components| == 1 && |ops| == |plan.physicals| + 2 &&
    (forall i :: 0 <= i < |ops| ==> OperationAccepted(plan, ops[i])) &&
    (forall i :: 0 <= i < |ops| - 2 ==> ops[i].id.kind == PhysicalInterface) &&
    ops[|ops| - 2].id.kind == RoutingConfig && ops[|ops| - 1].id.kind == Component
  }

  lemma ShapeEnds(plan: DutPlan, ids: seq<ResourceId>)
    requires ValidPlan(plan) && |plan.configs| == 1 && |plan.components| == 1 && SetupShape(plan, ids)
    ensures |ids| >= 2 && ids[|ids| - 2] == plan.configs[0].id && ids[|ids| - 1] == plan.components[0].id
    ensures forall i :: 0 <= i < |ids| - 2 ==> ids[i] in PhysicalIds(plan.physicals)
  {
    var interfaces :| ShapedBy(plan, ids, interfaces);
    forall i | 0 <= i < |ids| - 2 ensures ids[i] in PhysicalIds(plan.physicals) { assert interfaces[i] == ids[i]; }
  }

  lemma {:induction false} RenderedParts(plan: DutPlan, setup: seq<Operation>, ops: seq<Operation>,
                                         ids: seq<ResourceId>)
    requires ValidPlan(plan) && plan.full && Distinct(Map(OperationId, setup)) && Render(plan, setup).Ok?
    requires ops == Filter(Supported, setup) && ids == Map(OperationId, ops)
    ensures Parts(plan, ops) && Distinct(ids)
  {
    RenderedOrder(plan, setup);
    RenderedFragments(plan, setup);
    RenderedCount(plan, setup);
    ShapeEnds(plan, ids);
    forall i | 0 <= i < |ops| - 2 ensures ops[i].id.kind == PhysicalInterface {
      assert ids[i] in PhysicalIds(plan.physicals);
    }
  }

  lemma RenderedCount(plan: DutPlan, setup: seq<Operation>)
    requires plan.full && Render(plan, setup).Ok?
    ensures |Filter(Supported, setup)| == |plan.physicals| + 2
  {
    assert |Map(OperationId, Filter(Supported, setup))| == |ExpectedIds(plan)|;
  }

  lemma {:induction false} PhysicalParts(plan: DutPlan, ops: seq<Operation>, fs: seq<Fragment<Task>>, ds: seq<Daemon>,
                                         os: seq<StartupOption>)
    requires Parts(plan, ops) && Distinct(Map(OperationId, ops))
    requires fs == LowerFragments(RenderFragments(plan, ops), ds, os)
    ensures ConfiguresAll(plan, AllTasks(fs[..|plan.physicals|]))
  {
    var front := fs[..|plan.physicals|];
    forall i | 0 <= i < |front| ensures ConfiguresOne(plan, front[i]) && front[i].id == ops[i].id {
      PhysicalFragment(plan, ops[i], ds, os);
    }
    forall i, j | 0 <= i < j < |front| ensures front[i].id != front[j].id {
      assert Map(OperationId, ops)[i] != Map(OperationId, ops)[j];
    }
    SingleTasks(front);
    ConfiguringTasks(plan, front, AllTasks(front));
  }

  lemma {:induction false} PartsContent(plan: DutPlan, ops: seq<Operation>, fs: seq<Fragment<Task>>, ds: seq<Daemon>,
                                        os: seq<StartupOption>)
    requires Parts(plan, ops) && Distinct(Map(OperationId, ops))
    requires fs == LowerFragments(RenderFragments(plan, ops), ds, os)
    ensures SetupContent(plan, AllTasks(fs), ds, os)
  {
    var n := |plan.physicals|;
    PhysicalParts(plan, ops, fs, ds, os);
    ConfigFragment(plan, ops[n], ds, os);
    ComponentFragment(plan, ops[n + 1], ds, os);
    LastTwoFragments(fs, n);
    Joins(AllTasks(fs[..n]), (fs[n].pre + fs[n].post) + (fs[n + 1].pre + fs[n + 1].post), AllTasks(fs));
  }

  lemma Joins<T>(a: seq<T>, b: seq<T>, s: seq<T>)
    requires s == a + b
    ensures s[..|a|] == a && s[|a|..] == b
  {
  }

  lemma RenderedFragments(plan: DutPlan, setup: seq<Operation>)
    requires Render(plan, setup).Ok?
    ensures |plan.configs| == 1 && |plan.components| == 1
    ensures forall i :: 0 <= i < |Filter(Supported, setup)| ==> OperationAccepted(plan, Filter(Supported, setup)[i])
    ensures Render(plan, setup).rendered.fragments == RenderFragments(plan, Filter(Supported, setup))
  {
  }

  /** What running a rendered and materialized setup does, task by task. */
  lemma {:induction false} RenderedContent(plan: DutPlan, setup: seq<Operation>, fs: seq<Fragment<Intent>>,
                                           ds: seq<Daemon>, os: seq<StartupOption>)
    requires ValidPlan(plan) && plan.full && Distinct(Map(OperationId, setup)) && Render(plan, setup).Ok?
    requires fs == Render(plan, setup).rendered.fragments
    ensures var ts := LowerFragments(fs, ds, os); SetupContent(plan, PreTasks(ts) + PostTasks(ts), ds, os)
  {
    RenderedParts(plan, setup, Filter(Supported, setup), Map(OperationId, Filter(Supported, setup)));
    RenderedFragments(plan, setup);
    PartsContent(plan, Filter(Supported, setup), LowerFragments(fs, ds, os), ds, os);
    RenderedSplitKeepsOrder(plan, setup);
    LoweredPhased(fs, ds, os);
    SplitKeepsOrder(LowerFragments(fs, ds, os));
  }

  // ---------- what the cleanup tasks restore ----------

  /** Each item is a physical interface of the plan under its own operation and on its own bound interface, no two
      the same, and there are as many as interfaces. */
  ghost predicate RestoresAll(plan: DutPlan, t: CleanupTask) {
    t.PhysicalRestore? && |t.items| == |plan.physicals| &&
    (forall k :: 0 <= k < |t.items| ==> BoundTo(plan, t.items[k])) &&
    forall j, k :: 0 <= j < k < |t.items| ==> t.items[j].0 != t.items[k].0
  }

  /** First the component, then the configuration, then all interfaces at once. */
  ghost predicate CleanupContent(plan: DutPlan, cs: seq<Cleanup<CleanupTask>>) {
    |plan.configs| == 1 && |plan.components| == 1 && |cs| == (if plan.physicals == [] then 2 else 3) &&
    cs[0].task == ComponentRestore(plan.components[0].id) && cs[1].task == ConfigRestore(plan.configs[0].id) &&
    (plan.physicals != [] ==> RestoresAll(plan, cs[2].task))
  }

  lemma {:induction false} InterfacesRestored(plan: DutPlan, ids: seq<ResourceId>)
    requires RestoreItems(plan, ids).Some? && |ids| == |plan.physicals| && Distinct(ids)
    ensures RestoresAll(plan, PhysicalRestore(RestoreItems(plan, ids).value))
  {
  }

  lemma {:induction false} LowerTwo(plan: DutPlan, a: Cleanup<CleanupIntent>, b: Cleanup<CleanupIntent>,
                                    rest: seq<Cleanup<CleanupIntent>>)
    requires LowerCleanups(plan, [a, b] + rest).Some?
    ensures LowerCleanup(plan, a).Some? && LowerCleanup(plan, b).Some? && LowerCleanups(plan, rest).Some?
    ensures LowerCleanups(plan, [a, b] + rest).value ==
            [LowerCleanup(plan, a).value, LowerCleanup(plan, b).value] + LowerCleanups(plan, rest).value
  {
    assert ([a, b] + rest)[1..] == [b] + rest && ([b] + rest)[1..] == rest;
  }

  lemma LowerOneCleanup(plan: DutPlan, c: Cleanup<CleanupIntent>)
    requires LowerCleanups(plan, [c]).Some?
    ensures LowerCleanup(plan, c).Some? && LowerCleanups(plan, [c]).value == [LowerCleanup(plan, c).value]
  {
    assert [c][1..] == [];
  }

  /** The cleanup groups of a teardown order that ends with the interfaces. */
  lemma {:induction false} GroupsContent(plan: DutPlan, ids: seq<ResourceId>)
    requires |plan.configs| == 1 && |plan.components| == 1 && LowerCleanups(plan, RenderCleanups(ids)).Some?
    requires Filter(IsComponent, ids) == [plan.components[0].id] && Filter(IsConfig, ids) == [plan.configs[0].id]
    requires |Filter(IsPhysical, ids)| == |plan.physicals| && Distinct(Filter(IsPhysical, ids))
    ensures CleanupContent(plan, LowerCleanups(plan, RenderCleanups(ids)).value)
  {
    var component, config, interfaces := plan.components[0].id, plan.configs[0].id, Filter(IsPhysical, ids);
    var a, b := Cleanup([component], RestoreComponent(component)), Cleanup([config], RestoreConfig(config));
    var last: seq<Cleanup<CleanupIntent>> :=
      if interfaces == [] then [] else [Cleanup(interfaces, RestoreInterfaces(interfaces))];
    assert RenderCleanups(ids) == [a, b] + last;
    LowerTwo(plan, a, b, last);
    if interfaces != [] {
      LowerOneCleanup(plan, last[0]);
      InterfacesRestored(plan, interfaces);
    }
  }

  lemma {:induction false} RenderedCleanupContent(plan: DutPlan, setup: seq<Operation>)
    requires ValidPlan(plan) && plan.full && Distinct(Map(OperationId, setup)) && Render(plan, setup).Ok?
    requires LowerCleanups(plan, Render(plan, setup).rendered.cleanups).Some?
    ensures CleanupContent(plan, LowerCleanups(plan, Render(plan, setup).rendered.cleanups).value)
  {
    var ids := Map(OperationId, Filter(Supported, setup));
    SupportedIdsDistinct(setup);
    ReverseDistinct(ids);
    ReverseCovers(ids, ExpectedIds(plan));
    CoverKinds(plan, Reverse(ids));
    FilterDistinct(IsPhysical, Reverse(ids));
    SameElements(Filter(IsPhysical, Reverse(ids)), PhysicalIds(plan.physicals));
    GroupsContent(plan, Reverse(ids));
  }

  // ---------- from an accepted lifecycle plan to a restored device ----------

  lemma SetupIdsDistinct(ops: seq<Operation>, order: seq<nat>)
    requires UniqueIds(ops) && Indices(ops, order)
    ensures Distinct(Map(OperationId, Setup(ops, order)))
  {
    var ids := Map(OperationId, Setup(ops, order));
    forall i, j | 0 <= i < j < |ids| ensures ids[i] != ids[j] {
      assert order[i] != order[j];
      assert ids[i] == ops[order[i]].id && ids[j] == ops[order[j]].id;
    }
  }

  lemma ShippedIntentMaterializes()
    ensures ComponentIntentOk(RoutingDaemons(), StartupOptions())
  {
    ShippedNamesDiffer();
  }

  /** An order that planning can return. */
  ghost predicate PlannedOrder(ops: seq<Operation>, order: seq<nat>) {
    UniqueIds(ops) && KnownDeps(ops) && Topological(ops, order) &&
    forall t: seq<nat> :: Topological(ops, t) ==> Orders.LexLe(order, t)
  }

  /** Planning, rendering and materializing with the shipped daemons. */
  ghost function Lowering(plan: DutPlan, ops: seq<Operation>, order: seq<nat>): (m: MaterializeResult)
    requires Indices(ops, order) && Render(plan, Setup(ops, order)).Ok?
  {
    MaterializeAll(plan, Render(plan, Setup(ops, order)).rendered, RoutingDaemons(), StartupOptions())
  }

  datatype LoweringResult = NotPlanned | NotRendered(error: RenderError) | Done(result: Rendered<Task, CleanupTask>)

  /** The operations that rendering turns into tasks, in the planned order. */
  function OrderedIds(ops: seq<Operation>, order: seq<nat>): (r: seq<ResourceId>)
    requires Indices(ops, order)
  {
    Map(OperationId, Filter(Supported, Setup(ops, order)))
  }

  ghost predicate OnDut(plan: DutPlan) { forall p :: p in plan.physicals ==> plan.dut == Some(p.endpoint) }

  /** What a completed chain emits: setup tasks, cleanup tasks, and a cleanup that restores in the reverse order. */
  ghost predicate Emits(plan: DutPlan, result: Rendered<Task, CleanupTask>) {
    SetupContent(plan, SetupTasks(result), RoutingDaemons(), StartupOptions()) &&
    CleanupContent(plan, result.cleanups) && SetupShape(plan, result.consumed) &&
    RestoredIds(result.cleanups) == Reverse(result.consumed)
  }

  lemma {:induction false} LoweringEmits(plan: DutPlan, ops: seq<Operation>, order: seq<nat>, m: MaterializeResult)
    requires PlannedOrder(ops, order) && ValidPlan(plan) && plan.full && Render(plan, Setup(ops, order)).Ok?
    requires m == Lowering(plan, ops, order)
    ensures m.Materialized? && Emits(plan, m.result)
  {
    var setup := Setup(ops, order);
    SetupIdsDistinct(ops, order);
    ShippedIntentMaterializes();
    MaterializeKeepsOrder(plan, setup, RoutingDaemons(), StartupOptions());
    RenderedOrder(plan, setup);
    RenderedContent(plan, setup, Render(plan, setup).rendered.fragments, RoutingDaemons(), StartupOptions());
    RenderedCleanupContent(plan, setup);
  }

  lemma LoweringErrors(plan: DutPlan, ops: seq<Operation>, order: seq<nat>)
    requires PlannedOrder(ops, order) && AllValid(ops) && ValidPlan(plan) && plan.full
    ensures Render(plan, Setup(ops, order)).Ok? <==> Accepts(plan, ops, order)
    ensures OnDut(plan) && Renderable(plan, ops) ==> Accepts(plan, ops, order)
    ensures Render(plan, Setup(ops, order)) != Err(NotReversed)
    ensures OnDut(plan) ==> Render(plan, Setup(ops, order)) != Err(NotGrouped)
  {
    SetupIdsDistinct(ops, order);
    RendersIff(plan, ops, order);
    NeverNotReversed(plan, Setup(ops, order));
    if OnDut(plan) {
      NeverNotGrouped(plan, ops, order);
      if Renderable(plan, ops) { RenderableIsShaped(plan, ops, order); }
    }
  }

  /** What the chain does after planning has succeeded. */
  ghost predicate Lowers(plan: DutPlan, ops: seq<Operation>, order: seq<nat>, r: LoweringResult)
    requires Indices(ops, order)
  {
    match r
    case NotPlanned => false
    case Done(result) => Accepts(plan, ops, order) && IsLowering(plan, ops, order, result) && Emits(plan, result)
    case NotRendered(error) =>
      !Accepts(plan, ops, order) && Render(plan, Setup(ops, order)) == Err(error) && error != NotReversed &&
      (OnDut(plan) ==> !Renderable(plan, ops) && error != NotGrouped)
  }

  ghost predicate Accepts(plan: DutPlan, ops: seq<Operation>, order: seq<nat>)
    requires Indices(ops, order)
  {
    Renderable(plan, ops) && SetupShape(plan, OrderedIds(ops, order))
  }

  ghost predicate IsLowering(plan: DutPlan, ops: seq<Operation>, order: seq<nat>, result: Rendered<Task, CleanupTask>)
    requires Indices(ops, order)
  {
    Render(plan, Setup(ops, order)).Ok? && Lowering(plan, ops, order) == Materialized(result)
  }

  lemma {:induction false} DoneLowers(plan: DutPlan, ops: seq<Operation>, order: seq<nat>, m: MaterializeResult)
    requires AllValid(ops) && ValidPlan(plan) && plan.full && PlannedOrder(ops, order)
    requires Render(plan, Setup(ops, order)).Ok? && m == Lowering(plan, ops, order)
    ensures m.Materialized? && Lowers(plan, ops, order, Done(m.result))
  {
    LoweringErrors(plan, ops, order);
    LoweringEmits(plan, ops, order, m);
    assert IsLowering(plan, ops, order, m.result) && Emits(plan, m.result) && Accepts(plan, ops, order);
  }

  lemma {:induction false} ErrorLowers(plan: DutPlan, ops: seq<Operation>, order: seq<nat>)
    requires AllValid(ops) && ValidPlan(plan) && plan.full && PlannedOrder(ops, order)
    requires Render(plan, Setup(ops, order)).Err?
    ensures Lowers(plan, ops, order, NotRendered(Render(plan, Setup(ops, order)).error))
  {
    LoweringErrors(plan, ops, order);
  }

  method LowerOrdered(plan: DutPlan, ops: seq<Operation>, order: seq<nat>) returns (r: LoweringResult)
    requires AllValid(ops) && ValidPlan(plan) && plan.full && PlannedOrder(ops, order)
    ensures !r.NotPlanned? && Lowers(plan, ops, order, r)
  {
    var rendered := Render(plan, Setup(ops, order));
    if rendered.Err? {
      ErrorLowers(plan, ops, order);
      return NotRendered(rendered.error);
    }
    var m := MaterializeAll(plan, rendered.rendered, RoutingDaemons(), StartupOptions());
    DoneLowers(plan, ops, order, m);
    r := Done(m.result);
  }

  /** The whole chain on a full plan. It stops early exactly when no order satisfies the dependencies, or plan and
      operations do not meet the renderer's demands, or the order is not interfaces, configuration, component, which
      cannot happen on one endpoint. Otherwise it emits exactly the tasks described above. */
  method LowerLifecycle(plan: DutPlan, ops: seq<Operation>) returns (r: LoweringResult, ghost order: seq<nat>)
    requires AllValid(ops) && ValidPlan(plan) && plan.full
    ensures r.NotPlanned? <==> !exists t :: PlannedOrder(ops, t)
    ensures !r.NotPlanned? ==> PlannedOrder(ops, order) && Lowers(plan, ops, order, r)
  {
    order := [];
    var planned := LifecycleOrder.Plan(ops);
    if !planned.Planned? { return NotPlanned, order; }
    order := planned.order;
    assert PlannedOrder(ops, order);
    r := LowerOrdered(plan, ops, planned.order);
  }

  /** Whatever the chain lowers, running any part of its setup and then its cleanup restores every resource. */
  lemma LoweredLifecycleRestores<V>(plan: DutPlan, ops: seq<Operation>, order: seq<nat>,
                                    initial: map<ResourceId, V>, n: nat, effect: (Task, V) -> V)
    requires PlannedOrder(ops, order) && ValidPlan(plan) && plan.full && Render(plan, Setup(ops, order)).Ok?
    requires Lowering(plan, ops, order).Materialized? && n <= |SetupTasks(Lowering(plan, ops, order).result)|
    ensures var m := Lowering(plan, ops, order).result; var ids := RestoredIds(m.cleanups);
            RestoreFirst(PerformFirst(World(initial, map[]), SetupTasks(m), n, effect), ids, |ids|).values == initial
  {
    SetupIdsDistinct(ops, order);
    SetupThenCleanupRestores(plan, Setup(ops, order), RoutingDaemons(), StartupOptions(), initial, n, effect);
  }
}
