/** Lifecycle operations and their stable dependency order: Kahn's algorithm with a heap of declaration indices. */
module LifecycleOrder {
  import opened Sequences
  import opened Orders

  datatype ResourceKind = PhysicalInterface | RoutingConfig | Component | OtherKind

  datatype ResourceId = ResourceId(kind: ResourceKind, path: string)

  datatype Ownership = Owned | Borrowed | SnapshotRestored

  datatype Restoration = Inverse | NoRestoration | FirstSnapshot

  datatype Readiness = NoReadiness | Acknowledged | ExactReadback | HealthCheck

  datatype Operation =
    Operation(id: ResourceId, ownership: Ownership, restoration: Restoration, readiness: Readiness,
              deps: seq<ResourceId>, stateChanging: bool)
  {
    function ExpectedRestoration(): (r: Restoration) {
      if !stateChanging || ownership == Borrowed then NoRestoration
      else if ownership == SnapshotRestored then FirstSnapshot
      else Inverse
    }

    /** What constructing an operation accepts. */
    ghost predicate Valid() {
      id !in deps && Distinct(deps) && (ownership == Borrowed ==> !stateChanging) &&
      restoration == ExpectedRestoration()
    }

    predicate TeardownEligible() { stateChanging && ownership != Borrowed }
  }

  /** What constructing an operation demands of its restoration: none without a change of state, the first snapshot
      for a snapshot-restored resource, the inverse for an owned one. */
  lemma ValidIff(op: Operation)
    ensures op.Valid() <==>
            op.id !in op.deps && Distinct(op.deps) &&
            match op.ownership
            case Borrowed => !op.stateChanging && op.restoration == NoRestoration
            case Owned => op.restoration == if op.stateChanging then Inverse else NoRestoration
            case SnapshotRestored => op.restoration == if op.stateChanging then FirstSnapshot else NoRestoration
  {
  }

  ghost predicate UniqueIds(ops: seq<Operation>) {
    forall i, j :: 0 <= i < j < |ops| ==> ops[i].id != ops[j].id
  }

  ghost predicate AllValid(ops: seq<Operation>) {
    forall i :: 0 <= i < |ops| ==> ops[i].Valid()
  }

  /** Every dependency is itself an operation of the plan. */
  ghost predicate KnownDeps(ops: seq<Operation>) {
    forall i, d :: 0 <= i < |ops| && d in ops[i].deps ==> exists j :: 0 <= j < |ops| && ops[j].id == d
  }

  // ---------- orders as sequences of declaration indices ----------

  ghost predicate Indices(ops: seq<Operation>, order: seq<nat>) {
    Distinct(order) && forall k :: 0 <= k < |order| ==> order[k] < |ops|
  }

  /** `id` is the operation at one of the first `n` positions of the order. */
  ghost predicate Done(ops: seq<Operation>, order: seq<nat>, n: nat, id: ResourceId) {
    exists k :: 0 <= k < n && k < |order| && order[k] < |ops| && ops[order[k]].id == id
  }

  ghost predicate DepsDone(ops: seq<Operation>, order: seq<nat>, n: nat, x: nat)
    requires x < |ops|
  {
    forall d :: d in ops[x].deps ==> Done(ops, order, n, d)
  }

  /** Every listed operation comes after all its dependencies. */
  ghost predicate RespectsDeps(ops: seq<Operation>, order: seq<nat>) {
    Indices(ops, order) && forall k :: 0 <= k < |order| ==> DepsDone(ops, order, k, order[k])
  }

  ghost predicate Topological(ops: seq<Operation>, order: seq<nat>) {
    RespectsDeps(ops, order) && |order| == |ops|
  }

  /** x could come next after the first n of the order. */
  ghost predicate Ready(ops: seq<Operation>, order: seq<nat>, n: nat, x: nat) {
    n <= |order| && x < |ops| && x !in order[..n] && DepsDone(ops, order, n, x)
  }

  /** Each step takes the earliest declared operation among the ready ones. */
  ghost predicate Greedy(ops: seq<Operation>, order: seq<nat>) {
    forall k, x :: 0 <= k < |order| && Ready(ops, order, k, x) ==> order[k] <= x
  }

  // ---------- theory ----------

  lemma DoneAgree(ops: seq<Operation>, a: seq<nat>, b: seq<nat>, n: nat, x: nat)
    requires n <= |a| && n <= |b| && a[..n] == b[..n] && x < |ops|
    ensures Ready(ops, a, n, x) == Ready(ops, b, n, x)
  {
    forall d ensures Done(ops, a, n, d) == Done(ops, b, n, d) {
      DoneTransfers(ops, a, b, n, d);
      DoneTransfers(ops, b, a, n, d);
    }
  }

  lemma DoneTransfers(ops: seq<Operation>, a: seq<nat>, b: seq<nat>, n: nat, d: ResourceId)
    requires n <= |a| && n <= |b| && a[..n] == b[..n]
    ensures Done(ops, a, n, d) ==> Done(ops, b, n, d)
  {
    if Done(ops, a, n, d) {
      var k :| 0 <= k < n && k < |a| && a[k] < |ops| && ops[a[k]].id == d;
      assert a[..n][k] == b[..n][k];
    }
  }

  lemma {:induction false} LexByFirstDifference(a: seq<int>, b: seq<int>, k: nat)
    requires k <= |a| && k <= |b| && a[..k] == b[..k]
    requires k == |a| || (k < |b| && a[k] < b[k])
    ensures LexLe(a, b)
    decreases k
  {
    if k > 0 {
      assert a[0] == a[..k][0] == b[..k][0] == b[0];
      assert a[1..][..k - 1] == a[..k][1..] == b[..k][1..] == b[1..][..k - 1];
      LexByFirstDifference(a[1..], b[1..], k - 1);
    }
  }

  /** A greedy topological order is the lexicographically least one, so it is the unique stable order. */
  lemma GreedyIsLeast(ops: seq<Operation>, order: seq<nat>, other: seq<nat>)
    requires Topological(ops, order) && Greedy(ops, order) && Topological(ops, other)
    ensures LexLe(order, other)
  {
    var k := FirstDifference(order, other, 0);
    if k == |order| {
      LexByFirstDifference(order, other, k);
    } else {
      NextIsReady(ops, other, k);
      DoneAgree(ops, order, other, k, other[k]);
      LexByFirstDifference(order, other, k);
    }
  }

  lemma NextIsReady(ops: seq<Operation>, order: seq<nat>, k: nat)
    requires RespectsDeps(ops, order) && k < |order|
    ensures Ready(ops, order, k, order[k])
  {
    assert forall i :: 0 <= i < k ==> order[..k][i] == order[i];
  }

  ghost function FirstDifference(a: seq<nat>, b: seq<nat>, from: nat): (k: nat)
    requires |a| == |b| && from <= |a| && a[..from] == b[..from]
    ensures from <= k <= |a| && a[..k] == b[..k] && (k < |a| ==> a[k] != b[k])
    decreases |a| - from
  {
    if from == |a| || a[from] != b[from] then from
    else
      assert a[..from + 1] == a[..from] + [a[from]] && b[..from + 1] == b[..from] + [b[from]];
      FirstDifference(a, b, from + 1)
  }

  /** Nothing is left to take. */
  ghost predicate Stuck(ops: seq<Operation>, order: seq<nat>) {
    forall x: nat :: !Ready(ops, order, |order|, x)
  }

  /** If the algorithm gets stuck early, no order at all satisfies the dependencies. */
  lemma StuckMeansCyclic(ops: seq<Operation>, order: seq<nat>, other: seq<nat>)
    requires UniqueIds(ops) && Indices(ops, order) && |order| < |ops| && Stuck(ops, order)
    ensures !Topological(ops, other)
  {
    if Topological(ops, other) {
      var k := FirstMissing(ops, order, other, 0);
      var x := other[k];
      forall d | d in ops[x].deps ensures Done(ops, order, |order|, d) {
        assert Done(ops, other, k, d);
        var i :| 0 <= i < k && other[i] < |ops| && ops[other[i]].id == d;
        var j :| 0 <= j < |order| && order[j] == other[i];
        assert ops[order[j]].id == d;
      }
      assert order[..|order|] == order;
      assert Ready(ops, order, |order|, x);
      assert false;
    }
  }

  /** The first entry of `other` that the stuck order does not list. */
  lemma {:induction false} FirstMissing(ops: seq<Operation>, order: seq<nat>, other: seq<nat>, from: nat)
    returns (k: nat)
    requires Indices(ops, order) && Indices(ops, other) && |order| < |other| && from <= |other|
    requires forall i :: 0 <= i < from ==> other[i] in order
    ensures k < |other| && other[k] !in order && forall i :: 0 <= i < k ==> other[i] in order
    decreases |other| - from
  {
    if from == |other| {
      var a, b := Elements(order), Elements(other);
      DistinctLength(order);
      DistinctLength(other);
      SubsetSize(b, a);
      assert false;
    } else if other[from] in order {
      k := FirstMissing(ops, order, other, from + 1);
    } else {
      k := from;
    }
  }

  lemma SubsetSize<T>(a: set<T>, b: set<T>)
    requires a <= b
    ensures |a| <= |b|
  {
    assert b == a + (b - a);
  }

  // ---------- counting open dependencies ----------

  /** How many of the first `n` dependencies are not in `done`. */
  ghost function Open(deps: seq<ResourceId>, done: set<ResourceId>, n: nat): (r: nat)
    requires n <= |deps|
    ensures r <= n
  {
    if n == 0 then 0 else Open(deps, done, n - 1) + if deps[n - 1] in done then 0 else 1
  }

  lemma {:induction false} OpenZero(deps: seq<ResourceId>, done: set<ResourceId>, n: nat)
    requires n <= |deps|
    ensures Open(deps, done, n) == 0 <==> forall i :: 0 <= i < n ==> deps[i] in done
  {
    if n > 0 { OpenZero(deps, done, n - 1); }
  }

  lemma {:induction false} OpenInitially(deps: seq<ResourceId>, n: nat)
    requires n <= |deps|
    ensures Open(deps, {}, n) == n
  {
    if n > 0 { OpenInitially(deps, n - 1); }
  }

  /** Finishing one operation closes exactly one dependency of each operation that lists it. */
  lemma {:induction false} OpenStep(deps: seq<ResourceId>, done: set<ResourceId>, v: ResourceId, n: nat)
    requires n <= |deps| && Distinct(deps) && v !in done
    ensures Open(deps, done + {v}, n) == Open(deps, done, n) - if v in deps[..n] then 1 else 0
  {
    if n > 0 {
      OpenStep(deps, done, v, n - 1);
      assert deps[..n] == deps[..n - 1] + [deps[n - 1]];
    }
  }

  // ---------- the algorithm's tables ----------

  /** Ids of the operations among the first `n` that depend on `id`, in declaration order. */
  function DependentsOf(ops: seq<Operation>, id: ResourceId, n: nat): (r: seq<ResourceId>)
    requires n <= |ops|
  {
    if n == 0 then []
    else DependentsOf(ops, id, n - 1) + if id in ops[n - 1].deps then [ops[n - 1].id] else []
  }

  lemma {:induction false} DependentsMembers(ops: seq<Operation>, id: ResourceId, n: nat)
    requires n <= |ops| && UniqueIds(ops)
    ensures forall i :: 0 <= i < |ops| ==> (ops[i].id in DependentsOf(ops, id, n) <==> i < n && id in ops[i].deps)
    ensures Distinct(DependentsOf(ops, id, n))
    ensures forall x :: x in DependentsOf(ops, id, n) ==> exists i :: 0 <= i < n && ops[i].id == x
  {
    if n > 0 {
      DependentsMembers(ops, id, n - 1);
      assert ops[n - 1].id !in DependentsOf(ops, id, n - 1);
    }
  }

  ghost predicate Tables(ops: seq<Operation>, m: map<ResourceId, seq<ResourceId>>, n: nat)
    requires n <= |ops|
  {
    forall i {:trigger ops[i]} :: 0 <= i < |ops| ==> ops[i].id in m && m[ops[i].id] == DependentsOf(ops, ops[i].id, n)
  }

  method AppendDependent(m: map<ResourceId, seq<ResourceId>>, deps: seq<ResourceId>, id: ResourceId)
    returns (r: map<ResourceId, seq<ResourceId>>)
    requires Distinct(deps) && forall d :: d in deps ==> d in m
    ensures r.Keys == m.Keys
    ensures forall x :: x in m ==> r[x] == m[x] + if x in deps then [id] else []
  {
    r := m;
    for j := 0 to |deps|
      invariant r.Keys == m.Keys
      invariant forall x :: x in m ==> r[x] == m[x] + if x in deps[..j] then [id] else []
    {
      assert deps[..j + 1] == deps[..j] + [deps[j]];
      assert deps[j] !in deps[..j];
      r := r[deps[j] := r[deps[j]] + [id]];
    }
    assert deps[..|deps|] == deps;
  }

  method BuildDependents(ops: seq<Operation>) returns (m: map<ResourceId, seq<ResourceId>>)
    requires AllValid(ops) && UniqueIds(ops) && KnownDeps(ops)
    ensures Tables(ops, m, |ops|)
  {
    m := map[];
    for i := 0 to |ops|
      invariant forall k :: 0 <= k < |ops| && ops[k].id in m ==> m[ops[k].id] == []
      invariant forall k :: 0 <= k < i ==> ops[k].id in m
    {
      m := m[ops[i].id := []];
    }
    for i := 0 to |ops|
      invariant Tables(ops, m, i)
    {
      forall d | d in ops[i].deps ensures d in m {
        var j :| 0 <= j < |ops| && ops[j].id == d;
      }
      assert ops[i].Valid();
      m := AppendDependent(m, ops[i].deps, ops[i].id);
    }
  }

  // ---------- the main loop ----------

  /** Ids of the operations listed by an order. */
  ghost function DoneIds(ops: seq<Operation>, order: seq<nat>): (r: set<ResourceId>)
    requires Indices(ops, order)
    ensures forall id :: id in r <==> Done(ops, order, |order|, id)
  {
    set k | 0 <= k < |order| :: ops[order[k]].id
  }

  ghost predicate Counts(ops: seq<Operation>, order: seq<nat>, indegree: map<ResourceId, int>) {
    Indices(ops, order) &&
    forall i {:trigger ops[i]} :: 0 <= i < |ops| ==>
      ops[i].id in indegree && indegree[ops[i].id] == Open(ops[i].deps, DoneIds(ops, order), |ops[i].deps|)
  }

  /** The heap holds exactly the unlisted operations with no open dependency. */
  ghost predicate Heap(ops: seq<Operation>, order: seq<nat>, indegree: map<ResourceId, int>, ready: set<nat>) {
    (forall i :: i in ready ==> i < |ops|) &&
    forall i {:trigger i in ready} :: 0 <= i < |ops| && ops[i].id in indegree ==>
      (i in ready <==> i !in order && indegree[ops[i].id] == 0)
  }

  lemma HeapIsReady(ops: seq<Operation>, order: seq<nat>, indegree: map<ResourceId, int>, ready: set<nat>, x: nat)
    requires Counts(ops, order, indegree) && Heap(ops, order, indegree, ready)
    ensures x in ready <==> Ready(ops, order, |order|, x)
  {
    if x < |ops| {
      OpenZero(ops[x].deps, DoneIds(ops, order), |ops[x].deps|);
      assert order[..|order|] == order;
      assert forall d :: d in ops[x].deps ==> exists i :: 0 <= i < |ops[x].deps| && ops[x].deps[i] == d;
    }
  }

  lemma DoneIdsGrow(ops: seq<Operation>, order: seq<nat>, x: nat)
    requires UniqueIds(ops) && Indices(ops, order) && x < |ops| && x !in order
    ensures Indices(ops, order + [x])
    ensures DoneIds(ops, order + [x]) == DoneIds(ops, order) + {ops[x].id} && ops[x].id !in DoneIds(ops, order)
  {
    var more := order + [x];
    forall id ensures id in DoneIds(ops, more) <==> id in DoneIds(ops, order) + {ops[x].id} {
      if id in DoneIds(ops, order) {
        var k :| 0 <= k < |order| && ops[order[k]].id == id;
        assert ops[more[k]].id == id;
      }
      assert more[|order|] == x;
    }
    forall k | 0 <= k < |order| ensures ops[order[k]].id != ops[x].id { assert order[k] != x; }
  }

  /** One relaxation round brings the counters up to date. */
  lemma {:induction false} CountsStep(ops: seq<Operation>, order: seq<nat>, x: nat, before: map<ResourceId, int>,
                                      after: map<ResourceId, int>)
    requires UniqueIds(ops) && AllValid(ops) && Counts(ops, order, before) && x < |ops| && x !in order
    requires after.Keys == before.Keys
    requires forall id :: id in before ==>
               after[id] == before[id] - if id in DependentsOf(ops, ops[x].id, |ops|) then 1 else 0
    ensures Counts(ops, order + [x], after)
  {
    DoneIdsGrow(ops, order, x);
    DependentsMembers(ops, ops[x].id, |ops|);
    forall i | 0 <= i < |ops|
      ensures ops[i].id in after && after[ops[i].id] == Open(ops[i].deps, DoneIds(ops, order + [x]), |ops[i].deps|)
    {
      assert ops[i].Valid();
      OpenStep(ops[i].deps, DoneIds(ops, order), ops[x].id, |ops[i].deps|);
      assert ops[i].deps[..|ops[i].deps|] == ops[i].deps;
    }
  }

  method Relax(ops: seq<Operation>, index: map<ResourceId, nat>, dependents: seq<ResourceId>,
               before: map<ResourceId, int>, heap: set<nat>)
    returns (indegree: map<ResourceId, int>, ready: set<nat>)
    requires Distinct(dependents) && forall x :: x in dependents ==> x in before && x in index
    ensures indegree.Keys == before.Keys
    ensures forall id :: id in before ==> indegree[id] == before[id] - if id in dependents then 1 else 0
    ensures ready == heap + set x | x in dependents && indegree[x] == 0 :: index[x]
  {
    indegree, ready := before, heap;
    for j := 0 to |dependents|
      invariant indegree.Keys == before.Keys
      invariant forall id :: id in before ==> indegree[id] == before[id] - if id in dependents[..j] then 1 else 0
      invariant ready == heap + set x | x in dependents[..j] && indegree[x] == 0 :: index[x]
    {
      var x := dependents[j];
      assert dependents[..j + 1] == dependents[..j] + [x];
      assert x !in dependents[..j];
      indegree := indegree[x := indegree[x] - 1];
      if indegree[x] == 0 { ready := ready + {index[x]}; }
    }
    assert dependents[..|dependents|] == dependents;
  }

  lemma ListedIsClosed(ops: seq<Operation>, order: seq<nat>, indegree: map<ResourceId, int>, k: nat)
    requires RespectsDeps(ops, order) && Counts(ops, order, indegree) && k < |order|
    ensures indegree[ops[order[k]].id] == 0
  {
    var deps := ops[order[k]].deps;
    OpenZero(deps, DoneIds(ops, order), |deps|);
    assert DepsDone(ops, order, k, order[k]);
    forall i | 0 <= i < |deps| ensures deps[i] in DoneIds(ops, order) {
      assert Done(ops, order, k, deps[i]);
    }
  }

  lemma HeapStep(ops: seq<Operation>, order: seq<nat>, x: nat,
                 before: map<ResourceId, int>, after: map<ResourceId, int>,
                 ready: set<nat>, index: map<ResourceId, nat>, next: set<nat>)
    requires UniqueIds(ops) && RespectsDeps(ops, order) && Counts(ops, order, before) && Heap(ops, order, before, ready)
    requires x in ready && Counts(ops, order + [x], after)
    requires forall i {:trigger ops[i]} :: 0 <= i < |ops| ==> ops[i].id in index && index[ops[i].id] == i
    requires forall i {:trigger ops[i]} :: 0 <= i < |ops| ==>
               after[ops[i].id] == before[ops[i].id] - if ops[x].id in ops[i].deps then 1 else 0
    requires forall i: nat :: i in next <==>
               i in ready - {x} || (i < |ops| && ops[x].id in ops[i].deps && after[ops[i].id] == 0)
    ensures Heap(ops, order + [x], after, next)
  {
    forall i | 0 <= i < |ops|
      ensures i in next <==> i !in order + [x] && after[ops[i].id] == 0
    {
      assert after[ops[i].id] >= 0;
      if i in order {
        var k :| 0 <= k < |order| && order[k] == i;
        ListedIsClosed(ops, order, before, k);
      }
      if i == x { assert before[ops[x].id] == 0; }
    }
  }

  /** `heapq.heappop`: the least element. */
  method PopLeast(heap: set<nat>) returns (x: nat, rest: set<nat>)
    requires heap != {}
    ensures x in heap && rest == heap - {x} && forall y :: y in heap ==> x <= y
  {
    x :| x in heap;
    var left := heap - {x};
    while left != {}
      invariant x in heap && left <= heap
      invariant forall y :: y in heap && y !in left ==> x <= y
      decreases left
    {
      var y :| y in left;
      left := left - {y};
      if y < x { x := y; }
    }
    rest := heap - {x};
  }

  ghost function Below(n: nat): (r: set<nat>)
    ensures |r| == n && forall i: nat :: i in r <==> i < n
  {
    if n == 0 then {} else Below(n - 1) + {n - 1}
  }

  lemma OrderBound(ops: seq<Operation>, order: seq<nat>)
    requires Indices(ops, order)
    ensures |order| <= |ops|
  {
    DistinctLength(order);
    SubsetSize(Elements(order), Below(|ops|));
  }

  /** Taking the least ready operation keeps the order respectful and greedy. */
  lemma TakeLeast(ops: seq<Operation>, order: seq<nat>, x: nat)
    requires RespectsDeps(ops, order) && Greedy(ops, order) && Ready(ops, order, |order|, x)
    requires forall y :: Ready(ops, order, |order|, y) ==> x <= y
    ensures RespectsDeps(ops, order + [x]) && Greedy(ops, order + [x])
  {
    var more := order + [x];
    assert order[..|order|] == order;
    forall k | 0 <= k < |more| ensures DepsDone(ops, more, k, more[k]) {
      assert more[..k] == order[..k];
      DoneAgree(ops, order, more, k, more[k]);
      if k < |order| { NextIsReady(ops, order, k); }
    }
    forall k, y | 0 <= k < |more| && Ready(ops, more, k, y) ensures more[k] <= y {
      assert more[..k] == order[..k];
      DoneAgree(ops, order, more, k, y);
    }
  }

  method InitialTables(ops: seq<Operation>)
    returns (index: map<ResourceId, nat>, indegree: map<ResourceId, int>, ready: set<nat>)
    requires UniqueIds(ops)
    ensures forall i {:trigger ops[i]} :: 0 <= i < |ops| ==> ops[i].id in index && index[ops[i].id] == i
    ensures Counts(ops, [], indegree) && Heap(ops, [], indegree, ready)
  {
    index, indegree, ready := map[], map[], {};
    for i := 0 to |ops|
      invariant forall k {:trigger ops[k]} :: 0 <= k < i ==> ops[k].id in index && index[ops[k].id] == k
      invariant forall k {:trigger ops[k]} :: 0 <= k < i ==>
                  ops[k].id in indegree && indegree[ops[k].id] == |ops[k].deps|
      invariant forall k: nat :: k in ready <==> k < i && |ops[k].deps| == 0
    {
      index := index[ops[i].id := i];
      indegree := indegree[ops[i].id := |ops[i].deps|];
      if |ops[i].deps| == 0 { ready := ready + {i}; }
    }
    forall i | 0 <= i < |ops| ensures indegree[ops[i].id] == Open(ops[i].deps, DoneIds(ops, []), |ops[i].deps|) {
      assert DoneIds(ops, []) == {};
      OpenInitially(ops[i].deps, |ops[i].deps|);
    }
  }

  /** Runs until nothing is ready: the result respects the dependencies, is greedy and cannot be extended. */
  method StableDependencyOrder(ops: seq<Operation>) returns (order: seq<nat>)
    requires AllValid(ops) && UniqueIds(ops) && KnownDeps(ops)
    ensures RespectsDeps(ops, order) && Greedy(ops, order) && Stuck(ops, order)
  {
    var dependents := BuildDependents(ops);
    var index, indegree, ready := InitialTables(ops);
    order := [];
    while ready != {}
      invariant RespectsDeps(ops, order) && Greedy(ops, order)
      invariant Counts(ops, order, indegree) && Heap(ops, order, indegree, ready)
      decreases |ops| - |order|
    {
      var x, rest := PopLeast(ready);
      forall y ensures y in ready <==> Ready(ops, order, |order|, y) { HeapIsReady(ops, order, indegree, ready, y); }
      assert x !in order by { assert order[..|order|] == order; }
      assert ops[x].id in dependents;
      DependentsMembers(ops, ops[x].id, |ops|);
      var before := indegree;
      ghost var heap := ready;
      indegree, ready := Relax(ops, index, dependents[ops[x].id], before, rest);
      CountsStep(ops, order, x, before, indegree);
      HeapStep(ops, order, x, before, indegree, heap, index, ready);
      TakeLeast(ops, order, x);
      order := order + [x];
      OrderBound(ops, order);
    }
    forall y: nat ensures !Ready(ops, order, |order|, y) { HeapIsReady(ops, order, indegree, ready, y); }
  }

  datatype PlanResult = DuplicateId | MissingDependency | Cycle | Planned(order: seq<nat>)

  method HasDuplicateId(ops: seq<Operation>) returns (duplicate: bool, known: set<ResourceId>)
    ensures duplicate <==> !UniqueIds(ops)
    ensures !duplicate ==> forall id :: id in known <==> exists j :: 0 <= j < |ops| && ops[j].id == id
  {
    known := {};
    for i := 0 to |ops|
      invariant UniqueIds(ops[..i])
      invariant forall id :: id in known <==> exists j :: 0 <= j < i && ops[j].id == id
    {
      if ops[i].id in known {
        var j :| 0 <= j < i && ops[j].id == ops[i].id;
        return true, known;
      }
      assert ops[..i + 1] == ops[..i] + [ops[i]];
      known := known + {ops[i].id};
    }
    assert ops[..|ops|] == ops;
    return false, known;
  }

  /** Building a plan: it is accepted exactly when ids are unique, dependencies known, and some order satisfies
      them; the order it fixes is then the least such order by declaration index. */
  method Plan(ops: seq<Operation>) returns (r: PlanResult)
    requires AllValid(ops)
    ensures r.DuplicateId? <==> !UniqueIds(ops)
    ensures r.MissingDependency? <==> UniqueIds(ops) && !KnownDeps(ops)
    ensures r.Planned? <==> UniqueIds(ops) && KnownDeps(ops) && exists t: seq<nat> :: Topological(ops, t)
    ensures r.Planned? ==> Topological(ops, r.order) && forall t: seq<nat> :: Topological(ops, t) ==> LexLe(r.order, t)
  {
    var duplicate, known := HasDuplicateId(ops);
    if duplicate { return DuplicateId; }
    if exists i :: 0 <= i < |ops| && exists d :: d in ops[i].deps && d !in known { return MissingDependency; }
    assert KnownDeps(ops);
    var order := StableDependencyOrder(ops);
    OrderBound(ops, order);
    if |order| != |ops| {
      forall t: seq<nat> ensures !Topological(ops, t) { StuckMeansCyclic(ops, order, t); }
      return Cycle;
    }
    forall t: seq<nat> | Topological(ops, t) ensures LexLe(order, t) { GreedyIsLeast(ops, order, t); }
    assert Topological(ops, order);
    return Planned(order);
  }
}
