/** Materialized lifecycle tasks as steps over a device, and what every run of them keeps. */
module LifecycleRun {
  import opened Sequences
  import opened LifecycleOrder
  import opened LifecycleRender
  import opened DaemonReconcile

  // ---------- materialization ----------

  datatype Task =
    | PhysicalApply(op: ResourceId, interface: string, v4: seq<Cidr>, v6: seq<Cidr>)
    | ConfigSnapshot(op: ResourceId)
    | ConfigCreate(op: ResourceId)
    | ConfigValidate(op: ResourceId)
    | ConfigVerify(op: ResourceId)
    | ComponentStep(op: ResourceId, step: Step)

  datatype CleanupTask =
    | PhysicalRestore(items: seq<(ResourceId, string)>)
    | ConfigRestore(op: ResourceId)
    | ComponentRestore(op: ResourceId)

  function Lower(i: Intent, ds: seq<Daemon>, os: seq<StartupOption>): (r: seq<Task>) {
    match i
    case RealizeInterface(id, interface, v4, v6) => [PhysicalApply(id, interface, v4, v6)]
    case InstallConfig(id) => [ConfigSnapshot(id), ConfigCreate(id), ConfigValidate(id), ConfigVerify(id)]
    case ReconcileComponent(id, _) => Map(step => ComponentStep(id, step), DaemonReconcile.Materialize(ds, os))
  }

  function LowerAll(intents: seq<Intent>, ds: seq<Daemon>, os: seq<StartupOption>): (r: seq<Task>) {
    if intents == [] then [] else Lower(intents[0], ds, os) + LowerAll(intents[1..], ds, os)
  }

  /** A fragment's tasks are those of its intents, in order. */
  lemma {:induction false} LowerAllAppend(a: seq<Intent>, b: seq<Intent>, ds: seq<Daemon>, os: seq<StartupOption>)
    ensures LowerAll(a + b, ds, os) == LowerAll(a, ds, os) + LowerAll(b, ds, os)
  {
    if a == [] {
      assert a + b == b;
    } else {
      assert (a + b)[1..] == a[1..] + b;
      LowerAllAppend(a[1..], b, ds, os);
    }
  }

  function LowerFragment(f: Fragment<Intent>, ds: seq<Daemon>, os: seq<StartupOption>): (r: Fragment<Task>)
    ensures r.id == f.id
  {
    Fragment(f.id, LowerAll(f.pre, ds, os), LowerAll(f.post, ds, os))
  }

  function LowerFragments(fs: seq<Fragment<Intent>>, ds: seq<Daemon>, os: seq<StartupOption>): (r: seq<Fragment<Task>>)
    ensures |r| == |fs| && forall i :: 0 <= i < |fs| ==> r[i] == LowerFragment(fs[i], ds, os)
  {
    seq(|fs|, i requires 0 <= i < |fs| => LowerFragment(fs[i], ds, os))
  }

  /** The operation and the bound interface of one physical interface of the plan. */
  ghost predicate BoundTo(plan: DutPlan, item: (ResourceId, string)) {
    exists p :: p in plan.physicals && p.id == item.0 && p.interface == item.1
  }

  /** Looks up the bound interface of every operation; None is the unknown-operation error. */
  function RestoreItems(plan: DutPlan, ids: seq<ResourceId>): (r: Option<seq<(ResourceId, string)>>)
    ensures r.Some? <==> forall id :: id in ids ==> id in PhysicalIds(plan.physicals)
    ensures r.Some? ==> |r.value| == |ids| && forall i :: 0 <= i < |ids| ==> r.value[i].0 == ids[i]
    ensures r.Some? ==> forall i :: 0 <= i < |ids| ==> BoundTo(plan, r.value[i])
  {
    if ids == [] then Some([])
    else
      assert ids == [ids[0]] + ids[1..];
      match (InterfaceOf(plan.physicals, ids[0]), RestoreItems(plan, ids[1..]))
      case (Some(interface), Some(rest)) => Some([(ids[0], interface)] + rest)
      case _ => None
  }

  function LowerCleanup(plan: DutPlan, c: Cleanup<CleanupIntent>): (r: Option<Cleanup<CleanupTask>>)
    ensures r.Some? ==> r.value.ids == c.ids
  {
    match c.task
    case RestoreInterfaces(ids) =>
      (match RestoreItems(plan, ids)
       case None => None
       case Some(items) => Some(Cleanup(c.ids, PhysicalRestore(items))))
    case RestoreConfig(id) => Some(Cleanup(c.ids, ConfigRestore(id)))
    case RestoreComponent(id) => Some(Cleanup(c.ids, ComponentRestore(id)))
  }

  function LowerCleanups(plan: DutPlan, cs: seq<Cleanup<CleanupIntent>>): (r: Option<seq<Cleanup<CleanupTask>>>) {
    if cs == [] then Some([])
    else match (LowerCleanup(plan, cs[0]), LowerCleanups(plan, cs[1..]))
      case (Some(c), Some(rest)) => Some([c] + rest)
      case _ => None
  }

  datatype MaterializeResult =
    | Materialized(result: Rendered<Task, CleanupTask>)
    | DuplicateDaemons
    | UnsupportedOption
    | DuplicateOption
    | UnknownOperation

  function OptionNames(os: seq<StartupOption>): (r: seq<string>)
    ensures |r| == |os|
    ensures forall i :: 0 <= i < |os| ==> r[i] == os[i].name
  {
    seq(|os|, i requires 0 <= i < |os| => os[i].name)
  }

  /** What the materializer itself demands of a component intent. */
  predicate ComponentIntentOk(ds: seq<Daemon>, os: seq<StartupOption>) {
    Distinct(Names(ds)) && (forall i :: 0 <= i < |os| ==> os[i].daemon == BGPCPP) && Distinct(OptionNames(os))
  }

  function MaterializeAll(plan: DutPlan, r: Rendered<Intent, CleanupIntent>, ds: seq<Daemon>,
                          os: seq<StartupOption>): (m: MaterializeResult) {
    if !Distinct(Names(ds)) then DuplicateDaemons
    else if exists i :: 0 <= i < |os| && os[i].daemon != BGPCPP then UnsupportedOption
    else if !Distinct(OptionNames(os)) then DuplicateOption
    else match LowerCleanups(plan, r.cleanups)
      case None => UnknownOperation
      case Some(cleanups) => Materialized(Rendered(r.consumed, LowerFragments(r.fragments, ds, os), cleanups))
  }

  /** A cleanup whose interface restores name known physical interfaces only. */
  ghost predicate KnownCleanup(plan: DutPlan, c: Cleanup<CleanupIntent>) {
    match c.task
    case RestoreInterfaces(ids) => ids == c.ids && forall id :: id in ids ==> id in PhysicalIds(plan.physicals)
    case RestoreConfig(id) => c.ids == [id]
    case RestoreComponent(id) => c.ids == [id]
  }

  lemma {:induction false} LowerCleanupsSome(plan: DutPlan, cs: seq<Cleanup<CleanupIntent>>)
    ensures LowerCleanups(plan, cs).Some? <==>
            forall c :: c in cs && c.task.RestoreInterfaces? ==>
              forall id :: id in c.task.operations ==> id in PhysicalIds(plan.physicals)
  {
    if cs != [] {
      LowerCleanupsSome(plan, cs[1..]);
      assert cs == [cs[0]] + cs[1..];
    }
  }

  /** Materialization succeeds exactly for distinct daemons, distinct options of Bgpcpp alone, and restores of known
      interfaces. */
  lemma MaterializesIff(plan: DutPlan, r: Rendered<Intent, CleanupIntent>, ds: seq<Daemon>, os: seq<StartupOption>)
    ensures MaterializeAll(plan, r, ds, os).Materialized? <==>
            (forall i, j :: 0 <= i < j < |ds| ==> ds[i].name != ds[j].name) &&
            (forall o :: o in os ==> o.daemon == "Bgpcpp") &&
            (forall i, j :: 0 <= i < j < |os| ==> os[i].name != os[j].name) &&
            forall c :: c in r.cleanups && c.task.RestoreInterfaces? ==>
              forall id :: id in c.task.operations ==> id in PhysicalIds(plan.physicals)
  {
    LowerCleanupsSome(plan, r.cleanups);
    assert Distinct(Names(ds)) <==> forall i, j :: 0 <= i < j < |ds| ==> ds[i].name != ds[j].name;
    assert Distinct(OptionNames(os)) <==> forall i, j :: 0 <= i < j < |os| ==> os[i].name != os[j].name;
  }

  lemma {:induction false} LowerCleanupsKeepsIds(plan: DutPlan, cs: seq<Cleanup<CleanupIntent>>)
    requires forall i :: 0 <= i < |cs| ==> KnownCleanup(plan, cs[i])
    ensures LowerCleanups(plan, cs).Some?
    ensures CleanupIds(LowerCleanups(plan, cs).value) == CleanupIds(cs)
    ensures RestoredIds(LowerCleanups(plan, cs).value) == CleanupIds(cs)
  {
    if cs != [] {
      LowerCleanupsKeepsIds(plan, cs[1..]);
      assert KnownCleanup(plan, cs[0]);
      var c, rest := LowerCleanup(plan, cs[0]).value, LowerCleanups(plan, cs[1..]).value;
      assert ([c] + rest)[1..] == rest;
      RestoredByOne(plan, cs[0]);
    }
  }

  lemma RestoredByOne(plan: DutPlan, c: Cleanup<CleanupIntent>)
    requires KnownCleanup(plan, c) && LowerCleanup(plan, c).Some?
    ensures Restores(LowerCleanup(plan, c).value.task) == c.ids
  {
  }

  /** The operations a cleanup task restores. */
  function Restores(t: CleanupTask): (r: seq<ResourceId>) {
    match t
    case PhysicalRestore(items) => seq(|items|, i requires 0 <= i < |items| => items[i].0)
    case ConfigRestore(op) => [op]
    case ComponentRestore(op) => [op]
  }

  function RestoredIds(cs: seq<Cleanup<CleanupTask>>): (r: seq<ResourceId>) {
    if cs == [] then [] else Restores(cs[0].task) + RestoredIds(cs[1..])
  }

  lemma RenderedCleanupsKnown(plan: DutPlan, ids: seq<ResourceId>)
    requires forall id :: id in Filter(IsPhysical, ids) ==> id in PhysicalIds(plan.physicals)
    ensures forall i :: 0 <= i < |RenderCleanups(ids)| ==> KnownCleanup(plan, RenderCleanups(ids)[i])
  {
  }

  lemma MaterializeIntact(plan: DutPlan, r: Rendered<Intent, CleanupIntent>, ds: seq<Daemon>, os: seq<StartupOption>)
    requires ComponentIntentOk(ds, os) && forall i :: 0 <= i < |r.cleanups| ==> KnownCleanup(plan, r.cleanups[i])
    ensures var m := MaterializeAll(plan, r, ds, os);
            && m.Materialized? && m.result.consumed == r.consumed
            && m.result.fragments == LowerFragments(r.fragments, ds, os)
            && CleanupIds(m.result.cleanups) == CleanupIds(r.cleanups)
            && RestoredIds(m.result.cleanups) == CleanupIds(r.cleanups)
  {
    LowerCleanupsKeepsIds(plan, r.cleanups);
  }

  /** Materializing renderer output never meets an unknown operation and keeps ids and order. */
  lemma MaterializeKeepsOrder(plan: DutPlan, setup: seq<Operation>, ds: seq<Daemon>, os: seq<StartupOption>)
    requires ValidPlan(plan) && plan.full && Distinct(Map(OperationId, setup)) && Render(plan, setup).Ok?
    requires ComponentIntentOk(ds, os)
    ensures var r := Render(plan, setup).rendered; var m := MaterializeAll(plan, r, ds, os);
            && m.Materialized? && m.result.consumed == r.consumed && |m.result.fragments| == |r.fragments|
            && (forall i :: 0 <= i < |r.fragments| ==> m.result.fragments[i].id == r.fragments[i].id == r.consumed[i])
            && CleanupIds(m.result.cleanups) == Reverse(r.consumed)
            && RestoredIds(m.result.cleanups) == Reverse(r.consumed)
  {
    RenderedOrder(plan, setup);
    RenderedRestoresKnown(plan, setup);
    MaterializeIntact(plan, Render(plan, setup).rendered, ds, os);
  }

  lemma RenderedRestoresKnown(plan: DutPlan, setup: seq<Operation>)
    requires ValidPlan(plan) && plan.full && Distinct(Map(OperationId, setup)) && Render(plan, setup).Ok?
    ensures var cs := Render(plan, setup).rendered.cleanups; forall i :: 0 <= i < |cs| ==> KnownCleanup(plan, cs[i])
  {
    var ids := Map(OperationId, Filter(Supported, setup));
    SupportedIdsDistinct(setup);
    ReverseDistinct(ids);
    ReverseCovers(ids, ExpectedIds(plan));
    CoverKinds(plan, Reverse(ids));
    RenderedCleanupsKnown(plan, Reverse(ids));
  }

  // ---------- running tasks under the first-snapshot contract ----------

  /** Values of the managed resources and the first snapshot taken of each. */
  datatype World<V> = World(values: map<ResourceId, V>, snapshots: map<ResourceId, V>)

  function Touches(t: Task): (r: ResourceId) { t.op }

  /** Tasks that record the first pre-mutation value of their resource. */
  predicate Captures(t: Task) { t.PhysicalApply? || t.ConfigSnapshot? || (t.ComponentStep? && t.step.Snapshot?) }

  predicate Mutates(t: Task) {
    t.PhysicalApply? || t.ConfigCreate? ||
    (t.ComponentStep? && (t.step.Disable? || t.step.Configure? || t.step.Enable?))
  }

  function CaptureOnce<V>(w: World<V>, r: ResourceId): (after: World<V>) {
    if r in w.snapshots || r !in w.values then w else w.(snapshots := w.snapshots[r := w.values[r]])
  }

  /** `effect` is whatever the device does to the value; nothing is assumed about it. */
  function Perform<V>(w: World<V>, t: Task, effect: (Task, V) -> V): (after: World<V>) {
    var seen := if Captures(t) then CaptureOnce(w, Touches(t)) else w;
    if Mutates(t) && Touches(t) in seen.values then
      seen.(values := seen.values[Touches(t) := effect(t, seen.values[Touches(t)])])
    else seen
  }

  function PerformFirst<V>(w: World<V>, ts: seq<Task>, n: nat, effect: (Task, V) -> V): (after: World<V>)
    requires n <= |ts|
  {
    if n == 0 then w else Perform(PerformFirst(w, ts, n - 1, effect), ts[n - 1], effect)
  }

  /** A resource without a snapshot cannot be restored and is left alone. */
  function Restore<V>(w: World<V>, r: ResourceId): (after: World<V>) {
    if r in w.snapshots then w.(values := w.values[r := w.snapshots[r]]) else w
  }

  function RestoreFirst<V>(w: World<V>, ids: seq<ResourceId>, n: nat): (after: World<V>)
    requires n <= |ids|
  {
    if n == 0 then w else Restore(RestoreFirst(w, ids, n - 1), ids[n - 1])
  }

  /** Every resource is either still at its initial value or its initial value is on record. */
  ghost predicate Recoverable<V>(initial: map<ResourceId, V>, w: World<V>) {
    w.values.Keys == initial.Keys && w.snapshots.Keys <= initial.Keys &&
    forall r :: r in initial ==> if r in w.snapshots then w.snapshots[r] == initial[r] else w.values[r] == initial[r]
  }

  /** No task changes a resource that was not captured first. */
  ghost predicate Guarded(ts: seq<Task>) {
    forall k :: 0 <= k < |ts| && Mutates(ts[k]) ==>
      exists j :: 0 <= j <= k && Captures(ts[j]) && Touches(ts[j]) == Touches(ts[k])
  }

  ghost predicate CapturedUpTo<V>(w: World<V>, ts: seq<Task>, n: nat)
    requires n <= |ts|
  {
    forall j :: 0 <= j < n && Captures(ts[j]) && Touches(ts[j]) in w.values ==> Touches(ts[j]) in w.snapshots
  }

  /** Every state of a guarded run is recoverable, wherever it is interrupted. */
  lemma {:induction false} RunStaysRecoverable<V>(initial: map<ResourceId, V>, ts: seq<Task>, n: nat,
                                                  effect: (Task, V) -> V)
    requires Guarded(ts) && n <= |ts|
    ensures Recoverable(initial, PerformFirst(World(initial, map[]), ts, n, effect))
    ensures CapturedUpTo(PerformFirst(World(initial, map[]), ts, n, effect), ts, n)
  {
    if n > 0 {
      RunStaysRecoverable(initial, ts, n - 1, effect);
      var w, t := PerformFirst(World(initial, map[]), ts, n - 1, effect), ts[n - 1];
      if Mutates(t) {
        var j :| 0 <= j <= n - 1 && Captures(ts[j]) && Touches(ts[j]) == Touches(t);
      }
    }
  }

  lemma {:induction false} RestoreReachesInitial<V>(initial: map<ResourceId, V>, w: World<V>, ids: seq<ResourceId>,
                                                    n: nat)
    requires Recoverable(initial, w) && n <= |ids|
    ensures RestoreFirst(w, ids, n).snapshots == w.snapshots && Recoverable(initial, RestoreFirst(w, ids, n))
    ensures forall k :: 0 <= k < n && ids[k] in initial ==> RestoreFirst(w, ids, n).values[ids[k]] == initial[ids[k]]
    ensures forall r :: r in initial && r !in ids[..n] ==> RestoreFirst(w, ids, n).values[r] == w.values[r]
  {
    if n > 0 {
      RestoreReachesInitial(initial, w, ids, n - 1);
      assert ids[..n] == ids[..n - 1] + [ids[n - 1]];
    }
  }

  /** A resource no task touches keeps its value. */
  lemma {:induction false} Untouched<V>(initial: map<ResourceId, V>, ts: seq<Task>, n: nat, effect: (Task, V) -> V,
                                        r: ResourceId)
    requires n <= |ts| && r in initial && forall k :: 0 <= k < |ts| ==> Touches(ts[k]) != r
    ensures var w := PerformFirst(World(initial, map[]), ts, n, effect); r in w.values && w.values[r] == initial[r]
  {
    if n > 0 { Untouched(initial, ts, n - 1, effect, r); }
  }

  /** Interrupt a guarded setup anywhere; restoring every touched operation returns every resource to its start. */
  lemma InterruptedRunIsUndone<V>(initial: map<ResourceId, V>, ts: seq<Task>, n: nat, effect: (Task, V) -> V,
                                  ids: seq<ResourceId>)
    requires Guarded(ts) && n <= |ts| && forall k :: 0 <= k < |ts| ==> Touches(ts[k]) in ids
    ensures RestoreFirst(PerformFirst(World(initial, map[]), ts, n, effect), ids, |ids|).values == initial
  {
    var w := PerformFirst(World(initial, map[]), ts, n, effect);
    RunStaysRecoverable(initial, ts, n, effect);
    RestoreReachesInitial(initial, w, ids, |ids|);
    var final := RestoreFirst(w, ids, |ids|).values;
    forall r | r in initial ensures final[r] == initial[r] {
      if r in ids {
        var k :| 0 <= k < |ids| && ids[k] == r;
      } else {
        assert ids[..|ids|] == ids;
        Untouched(initial, ts, n, effect, r);
      }
    }
  }

  // ---------- materialized fragments are guarded ----------

  /** All tasks belong to the fragment's operation and the first one captures it. */
  ghost predicate OwnsTasks(f: Fragment<Task>) {
    var ts := f.pre + f.post;
    (forall k :: 0 <= k < |ts| ==> Touches(ts[k]) == f.id) && (ts != [] ==> Captures(ts[0]))
  }

  lemma LowerOne(i: Intent, ds: seq<Daemon>, os: seq<StartupOption>)
    ensures LowerAll([i], ds, os) == Lower(i, ds, os) && Lower(i, ds, os) != [] && Captures(Lower(i, ds, os)[0])
    ensures forall k :: 0 <= k < |Lower(i, ds, os)| ==> Touches(Lower(i, ds, os)[k]) == i.id
  {
    assert [i][1..] == [];
    assert LowerAll([], ds, os) == [];
    if i.ReconcileComponent? {
      assert DaemonReconcile.Materialize(ds, os)[0] == Snapshot;
    }
  }

  lemma LoweredOwnsTasks(plan: DutPlan, op: Operation, ds: seq<Daemon>, os: seq<StartupOption>)
    requires |plan.configs| == 1 && |plan.components| == 1 && OperationAccepted(plan, op)
    ensures OwnsTasks(LowerFragment(RenderFragment(plan, op), ds, os))
  {
    var f := RenderFragment(plan, op);
    assert LowerAll([], ds, os) == [];
    if f.pre != [] {
      assert f.pre == [f.pre[0]] && f.pre[0].id == op.id;
      LowerOne(f.pre[0], ds, os);
    } else {
      assert f.post == [f.post[0]] && f.post[0].id == op.id;
      LowerOne(f.post[0], ds, os);
    }
  }

  lemma GuardedAppend(a: seq<Task>, b: seq<Task>)
    requires Guarded(a) && Guarded(b)
    ensures Guarded(a + b)
  {
    var ts := a + b;
    forall k | 0 <= k < |ts| && Mutates(ts[k])
      ensures exists j :: 0 <= j <= k && Captures(ts[j]) && Touches(ts[j]) == Touches(ts[k])
    {
      if k < |a| {
        var j :| 0 <= j <= k && Captures(a[j]) && Touches(a[j]) == Touches(a[k]);
        assert ts[j] == a[j];
      } else {
        var j :| 0 <= j <= k - |a| && Captures(b[j]) && Touches(b[j]) == Touches(b[k - |a|]);
        assert ts[|a| + j] == b[j];
      }
    }
  }

  lemma OwnedIsGuarded(f: Fragment<Task>)
    requires OwnsTasks(f)
    ensures Guarded(f.pre + f.post)
  {
    var ts := f.pre + f.post;
    forall k | 0 <= k < |ts| && Mutates(ts[k])
      ensures exists j :: 0 <= j <= k && Captures(ts[j]) && Touches(ts[j]) == Touches(ts[k])
    {
      assert Captures(ts[0]) && Touches(ts[0]) == Touches(ts[k]);
    }
  }

  lemma {:induction false} AllTasksGuarded(fs: seq<Fragment<Task>>, ids: seq<ResourceId>)
    requires forall i :: 0 <= i < |fs| ==> OwnsTasks(fs[i]) && fs[i].id in ids
    ensures Guarded(AllTasks(fs)) && forall k :: 0 <= k < |AllTasks(fs)| ==> Touches(AllTasks(fs)[k]) in ids
  {
    if fs != [] {
      AllTasksGuarded(fs[1..], ids);
      OwnedIsGuarded(fs[0]);
      GuardedAppend(fs[0].pre + fs[0].post, AllTasks(fs[1..]));
    }
  }

  lemma LoweredPhased(fs: seq<Fragment<Intent>>, ds: seq<Daemon>, os: seq<StartupOption>)
    requires Phased(fs)
    ensures Phased(LowerFragments(fs, ds, os))
  {
    assert LowerAll([], ds, os) == [];
  }

  /** The tasks of a materialized run, as executed: all pre-IXIA tasks, then all post-IXIA tasks. */
  function SetupTasks(r: Rendered<Task, CleanupTask>): (ts: seq<Task>) {
    PreTasks(r.fragments) + PostTasks(r.fragments)
  }

  lemma SetupTasksGuarded(plan: DutPlan, setup: seq<Operation>, ds: seq<Daemon>, os: seq<StartupOption>)
    requires ValidPlan(plan) && plan.full && Distinct(Map(OperationId, setup)) && Render(plan, setup).Ok?
    ensures var r := Render(plan, setup).rendered; var fs := LowerFragments(r.fragments, ds, os);
            && Guarded(PreTasks(fs) + PostTasks(fs))
            && forall k :: 0 <= k < |PreTasks(fs) + PostTasks(fs)| ==>
              Touches((PreTasks(fs) + PostTasks(fs))[k]) in r.consumed
  {
    var r := Render(plan, setup).rendered;
    var ops, fs := Filter(Supported, setup), LowerFragments(r.fragments, ds, os);
    RenderedSplitKeepsOrder(plan, setup);
    LoweredPhased(r.fragments, ds, os);
    SplitKeepsOrder(fs);
    forall i | 0 <= i < |fs| ensures OwnsTasks(fs[i]) && fs[i].id in r.consumed {
      RenderedAccepts(plan, setup, ops[i]);
      LoweredOwnsTasks(plan, ops[i], ds, os);
      assert r.consumed[i] == ops[i].id;
    }
    AllTasksGuarded(fs, r.consumed);
  }

  /** Whenever rendering and materialization succeed, running any part of the setup and then the whole cleanup
      returns every resource to its initial value, whatever the tasks did to it. */
  lemma {:induction false} SetupThenCleanupRestores<V>(plan: DutPlan, setup: seq<Operation>, ds: seq<Daemon>,
                                                       os: seq<StartupOption>, initial: map<ResourceId, V>, n: nat,
                                                       effect: (Task, V) -> V)
    requires ValidPlan(plan) && plan.full && Distinct(Map(OperationId, setup)) && Render(plan, setup).Ok?
    requires MaterializeAll(plan, Render(plan, setup).rendered, ds, os).Materialized?
    requires n <= |SetupTasks(MaterializeAll(plan, Render(plan, setup).rendered, ds, os).result)|
    ensures var m := MaterializeAll(plan, Render(plan, setup).rendered, ds, os).result;
            var ids := RestoredIds(m.cleanups);
            RestoreFirst(PerformFirst(World(initial, map[]), SetupTasks(m), n, effect), ids, |ids|).values == initial
  {
    var r := Render(plan, setup).rendered;
    var m := MaterializeAll(plan, r, ds, os).result;
    MaterializeKeepsOrder(plan, setup, ds, os);
    SetupTasksGuarded(plan, setup, ds, os);
    RenderedOrder(plan, setup);
    ReverseDistinct(r.consumed);
    InterruptedRunIsUndone(initial, SetupTasks(m), n, effect, RestoredIds(m.cleanups));
  }
}
