/** Preflight of policy bindings: every present adjacency gets exactly one policy per direction. */
module PolicyCoverage {
  import opened Sequences
  import Topology

  datatype Direction = Import | Export

  type Afi = Topology.Afi

  /** What a policy preset is keyed by. */
  datatype PresetKey = PresetKey(direction: Direction, afi: Afi, relationship: string, localRole: string)

  datatype Policy = Policy(id: string, preset: Option<PresetKey>)

  datatype Adjacency = Adjacency(id: string, present: bool, afi: Afi, relationship: Option<string>)

  datatype Binding = Binding(id: string, policyId: string, adjacencyId: string, direction: Direction)

  /** `networkRole` is the role of the device under test. */
  datatype DutPlan =
    DutPlan(policies: seq<Policy>, adjacencies: seq<Adjacency>, bindings: seq<Binding>, networkRole: Option<string>)

  type Slot = (string, Direction)

  // ---------- duplicates ----------

  ghost predicate Repeated<T>(s: seq<T>, x: T) { exists i, j :: 0 <= i < j < |s| && s[i] == x && s[j] == x }

  lemma RepeatedAppend<T>(s: seq<T>, y: T, x: T)
    ensures Repeated(s + [y], x) <==> Repeated(s, x) || (x == y && y in s)
  {
    var longer := s + [y];
    if Repeated(s, x) {
      var i, j :| 0 <= i < j < |s| && s[i] == x && s[j] == x;
      assert longer[i] == x && longer[j] == x;
    }
    if x == y && y in s {
      var i :| 0 <= i < |s| && s[i] == y;
      assert longer[i] == x && longer[|s|] == x;
    }
  }

  /** Lists each repeated key exactly once, and nothing else. */
  method DuplicateKeys(keys: seq<Slot>) returns (duplicate: seq<Slot>)
    ensures Distinct(duplicate)
    ensures forall k :: k in duplicate <==> Repeated(keys, k)
    ensures duplicate == [] <==> Distinct(keys)
  {
    var seen: set<Slot>;
    seen, duplicate := {}, [];
    for n := 0 to |keys|
      invariant forall k :: k in seen <==> k in keys[..n]
      invariant Distinct(duplicate)
      invariant forall k :: k in duplicate <==> Repeated(keys[..n], k)
    {
      var key := keys[n];
      assert keys[..n + 1] == keys[..n] + [key];
      forall k ensures Repeated(keys[..n + 1], k) <==> Repeated(keys[..n], k) || (k == key && key in keys[..n]) {
        RepeatedAppend(keys[..n], key, k);
      }
      if key in seen && key !in duplicate { duplicate := duplicate + [key]; }
      seen := seen + {key};
    }
    assert keys[..|keys|] == keys;
    NoRepeats(keys);
    if duplicate != [] { assert duplicate[0] in duplicate; }
  }

  lemma NoRepeats<T>(s: seq<T>)
    ensures Distinct(s) <==> forall x :: !Repeated(s, x)
  {
    if Distinct(s) {
      forall x ensures !Repeated(s, x) {}
    }
    if forall x :: !Repeated(s, x) {
      forall i, j | 0 <= i < j < |s| ensures s[i] != s[j] {
        assert !Repeated(s, s[i]);
      }
    }
  }

  // ---------- exact coverage ----------

  predicate Desired(a: Adjacency) { a.present }

  function Present(plan: DutPlan): (r: seq<Adjacency>) { Filter(Desired, plan.adjacencies) }

  /** (adjacency, direction) pairs of the first `n` adjacencies. */
  function ExpectedTo(adjacencies: seq<Adjacency>, n: nat): (r: seq<Slot>)
    requires n <= |adjacencies|
    ensures |r| == 2 * n
  {
    if n == 0 then []
    else ExpectedTo(adjacencies, n - 1) + [(adjacencies[n - 1].id, Import), (adjacencies[n - 1].id, Export)]
  }

  function Expected(adjacencies: seq<Adjacency>): (r: seq<Slot>) { ExpectedTo(adjacencies, |adjacencies|) }

  function Actual(bindings: seq<Binding>): (r: seq<Slot>) {
    Map((b: Binding) => (b.adjacencyId, b.direction), bindings)
  }

  ghost predicate UniqueIds(adjacencies: seq<Adjacency>) {
    forall i, j :: 0 <= i < j < |adjacencies| ==> adjacencies[i].id != adjacencies[j].id
  }

  lemma {:induction false} ExpectedMembers(adjacencies: seq<Adjacency>, n: nat, k: Slot)
    requires n <= |adjacencies|
    ensures k in ExpectedTo(adjacencies, n) <==> exists i :: 0 <= i < n && adjacencies[i].id == k.0
  {
    if n > 0 {
      ExpectedMembers(adjacencies, n - 1, k);
      var a := adjacencies[n - 1];
      assert k in [(a.id, Import), (a.id, Export)] <==> a.id == k.0 by {
        if a.id == k.0 { assert k == (a.id, k.1) && (k.1 == Import || k.1 == Export); }
      }
    }
  }

  lemma {:induction false} ExpectedDistinct(adjacencies: seq<Adjacency>, n: nat)
    requires n <= |adjacencies| && UniqueIds(adjacencies)
    ensures Distinct(ExpectedTo(adjacencies, n))
  {
    if n > 0 {
      ExpectedDistinct(adjacencies, n - 1);
      ExpectedMembers(adjacencies, n - 1, (adjacencies[n - 1].id, Import));
      ExpectedMembers(adjacencies, n - 1, (adjacencies[n - 1].id, Export));
    }
  }

  /** No binding twice, none missing, none unexpected. */
  ghost predicate Covered(actual: seq<Slot>, expected: seq<Slot>) {
    Distinct(actual) && forall k :: k in actual <==> k in expected
  }

  datatype Coverage = Exact | Mismatch(duplicate: seq<Slot>, missing: seq<Slot>, unexpected: seq<Slot>)

  method CheckCoverage(bindings: seq<Binding>, adjacencies: seq<Adjacency>) returns (r: Coverage)
    ensures r.Exact? <==> Covered(Actual(bindings), Expected(adjacencies))
    ensures r.Mismatch? ==>
              (forall k :: k in r.duplicate <==> Repeated(Actual(bindings), k)) &&
              (forall k :: k in r.missing <==> k in Expected(adjacencies) && k !in Actual(bindings)) &&
              (forall k :: k in r.unexpected <==> k in Actual(bindings) && k !in Expected(adjacencies))
  {
    var expected, actual := Expected(adjacencies), Actual(bindings);
    var duplicate := DuplicateKeys(actual);
    var missing := Filter((k: Slot) => k !in actual, expected);
    var unexpected := Filter((k: Slot) => k !in expected, actual);
    if duplicate != [] || missing != [] || unexpected != [] {
      if missing != [] { assert missing[0] in missing; }
      if unexpected != [] { assert unexpected[0] in unexpected; }
      return Mismatch(duplicate, missing, unexpected);
    }
    assert forall k :: k in expected && k !in actual ==> k in missing;
    assert forall k :: k in actual && k !in expected ==> k in unexpected;
    return Exact;
  }

  /** With distinct adjacency ids the check accepts exactly the one-to-one covers. */
  lemma CoveredIffBijection(bindings: seq<Binding>, adjacencies: seq<Adjacency>)
    requires UniqueIds(adjacencies)
    ensures Covered(Actual(bindings), Expected(adjacencies)) <==>
            multiset(Actual(bindings)) == multiset(Expected(adjacencies))
  {
    ExpectedDistinct(adjacencies, |adjacencies|);
    if Covered(Actual(bindings), Expected(adjacencies)) {
      SameElementsPermutation(Actual(bindings), Expected(adjacencies));
    }
    if multiset(Actual(bindings)) == multiset(Expected(adjacencies)) {
      PermutationDistinct(Expected(adjacencies), Actual(bindings));
      PermutationMembers(Actual(bindings), Expected(adjacencies));
    }
  }

  // ---------- the whole preflight ----------

  function PolicyTo(policies: seq<Policy>, id: string, n: nat): (r: Option<Policy>)
    requires n <= |policies|
  {
    if n == 0 then None else if policies[n - 1].id == id then Some(policies[n - 1]) else PolicyTo(policies, id, n - 1)
  }

  /** `policies_by_id.get`: the last policy of an id. */
  function PolicyOf(plan: DutPlan, id: string): (r: Option<Policy>) { PolicyTo(plan.policies, id, |plan.policies|) }

  function AdjacencyTo(adjacencies: seq<Adjacency>, id: string, n: nat): (r: Option<Adjacency>)
    requires n <= |adjacencies|
    ensures r.Some? ==> r.value in adjacencies && r.value.id == id
  {
    if n == 0 then None
    else if adjacencies[n - 1].id == id then Some(adjacencies[n - 1])
    else AdjacencyTo(adjacencies, id, n - 1)
  }

  /** `adjacencies_by_id`, over the present adjacencies. */
  function AdjacencyOf(plan: DutPlan, id: string): (r: Option<Adjacency>) {
    AdjacencyTo(Present(plan), id, |Present(plan)|)
  }

  lemma {:induction false} AdjacencyFound(adjacencies: seq<Adjacency>, i: nat, n: nat)
    requires i < n <= |adjacencies|
    ensures AdjacencyTo(adjacencies, adjacencies[i].id, n).Some?
  {
    if adjacencies[n - 1].id != adjacencies[i].id { AdjacencyFound(adjacencies, i, n - 1); }
  }

  /** Once coverage is exact, the lookup of a binding's adjacency never fails. */
  lemma LookupNeverFails(plan: DutPlan, b: Binding)
    requires Covered(Actual(plan.bindings), Expected(Present(plan))) && b in plan.bindings
    ensures AdjacencyOf(plan, b.adjacencyId).Some?
  {
    var i :| 0 <= i < |plan.bindings| && plan.bindings[i] == b;
    var k := Actual(plan.bindings)[i];
    assert k in Actual(plan.bindings) && k.0 == b.adjacencyId;
    ExpectedMembers(Present(plan), |Present(plan)|, k);
    var j :| 0 <= j < |Present(plan)| && Present(plan)[j].id == k.0;
    AdjacencyFound(Present(plan), j, |Present(plan)|);
  }

  /** A binding's preset has its direction, its adjacency's family and relationship, and the device's role. */
  predicate Matches(plan: DutPlan, b: Binding, a: Adjacency) {
    var policy := PolicyOf(plan, b.policyId);
    policy.Some? && policy.value.preset.Some? && a.relationship.Some? && plan.networkRole.Some? &&
    policy.value.preset.value == PresetKey(b.direction, a.afi, a.relationship.value, plan.networkRole.value)
  }

  datatype Verdict = Accepted | Unresolved(at: nat) | Unrelated | Uncovered(coverage: Coverage) | Mismatched(at: nat)

  ghost predicate Acceptable(resolvable: PresetKey -> bool, plan: DutPlan) {
    (forall p :: p in plan.policies && p.preset.Some? ==> resolvable(p.preset.value)) &&
    (forall a :: a in plan.adjacencies && a.present ==> a.relationship.Some?) &&
    Covered(Actual(plan.bindings), Expected(Present(plan))) &&
    forall b, a :: b in plan.bindings && AdjacencyOf(plan, b.adjacencyId) == Some(a) ==> Matches(plan, b, a)
  }

  // ---------- acceptance by policies, adjacencies and bindings ----------

  /** `i` is the last position of a policy with this id. */
  ghost predicate LastPolicy(plan: DutPlan, id: string, i: nat) {
    i < |plan.policies| && plan.policies[i].id == id &&
    forall j :: i < j < |plan.policies| ==> plan.policies[j].id != id
  }

  /** `i` is the last position of a present adjacency with this id. */
  ghost predicate LastAdjacency(plan: DutPlan, id: string, i: nat) {
    i < |plan.adjacencies| && plan.adjacencies[i].present && plan.adjacencies[i].id == id &&
    forall j :: i < j < |plan.adjacencies| ==> !(plan.adjacencies[j].present && plan.adjacencies[j].id == id)
  }

  /** The policy that the binding names was made for what it is bound to. */
  ghost predicate WellBound(plan: DutPlan, b: Binding) {
    plan.networkRole.Some? &&
    exists i: nat, j: nat :: LastPolicy(plan, b.policyId, i) && LastAdjacency(plan, b.adjacencyId, j) &&
      var a := plan.adjacencies[j];
      a.relationship.Some? &&
      plan.policies[i].preset == Some(PresetKey(b.direction, a.afi, a.relationship.value, plan.networkRole.value))
  }

  ghost predicate IsBound(plan: DutPlan, id: string, d: Direction) {
    exists b :: b in plan.bindings && b.adjacencyId == id && b.direction == d
  }

  ghost predicate IsPresent(plan: DutPlan, id: string) {
    exists a :: a in plan.adjacencies && a.present && a.id == id
  }

  /** Exactly the present adjacencies are bound, in both directions, and nothing is bound twice. */
  ghost predicate BoundOnce(plan: DutPlan) {
    (forall id, d :: IsBound(plan, id, d) <==> IsPresent(plan, id)) &&
    forall i, j :: 0 <= i < j < |plan.bindings| ==>
      plan.bindings[i].adjacencyId != plan.bindings[j].adjacencyId ||
      plan.bindings[i].direction != plan.bindings[j].direction
  }

  lemma PresentIff(plan: DutPlan, id: string)
    ensures (exists i :: 0 <= i < |Present(plan)| && Present(plan)[i].id == id) <==> IsPresent(plan, id)
  {
    if i :| 0 <= i < |Present(plan)| && Present(plan)[i].id == id { assert Present(plan)[i] in Present(plan); }
    if a :| a in plan.adjacencies && a.present && a.id == id {
      var i :| 0 <= i < |Present(plan)| && Present(plan)[i] == a;
    }
  }

  lemma BoundIff(plan: DutPlan, id: string, d: Direction)
    ensures (id, d) in Actual(plan.bindings) <==> IsBound(plan, id, d)
  {
    var actual := Actual(plan.bindings);
    if (id, d) in actual {
      var i :| 0 <= i < |actual| && actual[i] == (id, d);
      assert plan.bindings[i] in plan.bindings;
    }
    if b :| b in plan.bindings && b.adjacencyId == id && b.direction == d {
      var i :| 0 <= i < |plan.bindings| && plan.bindings[i] == b;
      assert actual[i] == (id, d);
    }
  }

  lemma CoveredIffBoundOnce(plan: DutPlan)
    ensures Covered(Actual(plan.bindings), Expected(Present(plan))) <==> BoundOnce(plan)
  {
    var actual, expected := Actual(plan.bindings), Expected(Present(plan));
    forall id, d
      ensures (id, d) in actual <==> IsBound(plan, id, d)
      ensures (id, d) in expected <==> IsPresent(plan, id)
    {
      BoundIff(plan, id, d);
      PresentIff(plan, id);
      ExpectedMembers(Present(plan), |Present(plan)|, (id, d));
    }
    forall k: Slot ensures k == (k.0, k.1) {}
    assert forall i :: 0 <= i < |actual| ==> actual[i] == (plan.bindings[i].adjacencyId, plan.bindings[i].direction);
    if BoundOnce(plan) {
      forall k: Slot ensures k in actual <==> k in expected {
        assert IsBound(plan, k.0, k.1) <==> IsPresent(plan, k.0);
      }
    }
    if Covered(actual, expected) {
      forall id, d ensures IsBound(plan, id, d) <==> IsPresent(plan, id) {
        assert (id, d) in actual <==> (id, d) in expected;
      }
    }
  }

  lemma {:induction false} PolicyIsLast(plan: DutPlan, id: string, n: nat)
    requires n <= |plan.policies| && forall j :: n <= j < |plan.policies| ==> plan.policies[j].id != id
    ensures var r := PolicyTo(plan.policies, id, n);
            if r.None? then forall i: nat :: !LastPolicy(plan, id, i)
            else exists i: nat :: LastPolicy(plan, id, i) && plan.policies[i] == r.value
  {
    if n > 0 {
      if plan.policies[n - 1].id == id {
        assert LastPolicy(plan, id, n - 1);
      } else {
        PolicyIsLast(plan, id, n - 1);
      }
    }
  }

  lemma {:induction false} AdjacencyPrefix(a: seq<Adjacency>, b: seq<Adjacency>, id: string, n: nat)
    requires n <= |a|
    ensures AdjacencyTo(a + b, id, n) == AdjacencyTo(a, id, n)
  {
    if n > 0 { AdjacencyPrefix(a, b, id, n - 1); }
  }

  ghost predicate IsLastAdjacency(plan: DutPlan, id: string, r: Option<Adjacency>) {
    if r.None? then forall i: nat :: !LastAdjacency(plan, id, i)
    else exists i: nat :: LastAdjacency(plan, id, i) && plan.adjacencies[i] == r.value
  }

  /** The last present adjacency of an id among the first `n`. */
  function LastPresent(adjacencies: seq<Adjacency>, id: string, n: nat): (r: Option<Adjacency>)
    requires n <= |adjacencies|
  {
    if n == 0 then None
    else if adjacencies[n - 1].present && adjacencies[n - 1].id == id then Some(adjacencies[n - 1])
    else LastPresent(adjacencies, id, n - 1)
  }

  lemma LookupAppend(before: seq<Adjacency>, last: Adjacency, id: string)
    ensures AdjacencyTo(before + [last], id, |before| + 1) ==
            if last.id == id then Some(last) else AdjacencyTo(before, id, |before|)
  {
    AdjacencyPrefix(before, [last], id, |before|);
  }

  lemma FilterPresent(adjacencies: seq<Adjacency>, n: nat)
    requires n < |adjacencies|
    ensures var before := Filter(Desired, adjacencies[..n]);
            Filter(Desired, adjacencies[..n + 1]) ==
            if adjacencies[n].present then before + [adjacencies[n]] else before
  {
    assert adjacencies[..n + 1] == adjacencies[..n] + [adjacencies[n]];
    FilterAppend(Desired, adjacencies[..n], [adjacencies[n]]);
    FilterOne(Desired, adjacencies[n]);
  }

  /** It is the last one of that id in the filtered list. */
  lemma {:induction false} LookupIsLastPresent(adjacencies: seq<Adjacency>, id: string, n: nat, present: seq<Adjacency>)
    requires n <= |adjacencies| && present == Filter(Desired, adjacencies[..n])
    ensures AdjacencyTo(present, id, |present|) == LastPresent(adjacencies, id, n)
  {
    if n > 0 {
      var before := Filter(Desired, adjacencies[..n - 1]);
      FilterPresent(adjacencies, n - 1);
      LookupIsLastPresent(adjacencies, id, n - 1, before);
      LookupAppend(before, adjacencies[n - 1], id);
    }
  }

  lemma {:induction false} AdjacencyIsLast(plan: DutPlan, id: string, n: nat)
    requires n <= |plan.adjacencies|
    requires forall j :: n <= j < |plan.adjacencies| ==> !(plan.adjacencies[j].present && plan.adjacencies[j].id == id)
    ensures IsLastAdjacency(plan, id, LastPresent(plan.adjacencies, id, n))
  {
    if n > 0 {
      if plan.adjacencies[n - 1].present && plan.adjacencies[n - 1].id == id {
        assert LastAdjacency(plan, id, n - 1);
      } else {
        AdjacencyIsLast(plan, id, n - 1);
      }
    }
  }

  lemma AdjacencyOfIsLast(plan: DutPlan, id: string)
    ensures IsLastAdjacency(plan, id, AdjacencyOf(plan, id))
  {
    assert plan.adjacencies[..|plan.adjacencies|] == plan.adjacencies;
    LookupIsLastPresent(plan.adjacencies, id, |plan.adjacencies|, Present(plan));
    AdjacencyIsLast(plan, id, |plan.adjacencies|);
  }

  /** A binding whose adjacency is found matches it exactly when it is well bound. */
  lemma MatchesIff(plan: DutPlan, b: Binding)
    requires AdjacencyOf(plan, b.adjacencyId).Some?
    ensures Matches(plan, b, AdjacencyOf(plan, b.adjacencyId).value) <==> WellBound(plan, b)
  {
    AdjacencyOfIsLast(plan, b.adjacencyId);
    PolicyIsLast(plan, b.policyId, |plan.policies|);
    var a := AdjacencyOf(plan, b.adjacencyId).value;
    var j: nat :| LastAdjacency(plan, b.adjacencyId, j) && plan.adjacencies[j] == a;
    if Matches(plan, b, plan.adjacencies[j]) {
      var i: nat :| LastPolicy(plan, b.policyId, i) && plan.policies[i] == PolicyOf(plan, b.policyId).value;
      assert LastPolicy(plan, b.policyId, i) && LastAdjacency(plan, b.adjacencyId, j);
    }
  }

  /** The preflight's conditions, by the plan's own lists. */
  lemma AcceptableIff(resolvable: PresetKey -> bool, plan: DutPlan)
    ensures Acceptable(resolvable, plan) <==>
            (forall p :: p in plan.policies && p.preset.Some? ==> resolvable(p.preset.value)) &&
            (forall a :: a in plan.adjacencies && a.present ==> a.relationship.Some?) &&
            BoundOnce(plan) && forall b :: b in plan.bindings ==> WellBound(plan, b)
  {
    CoveredIffBoundOnce(plan);
    if BoundOnce(plan) {
      forall b | b in plan.bindings
        ensures AdjacencyOf(plan, b.adjacencyId).Some?
        ensures Matches(plan, b, AdjacencyOf(plan, b.adjacencyId).value) <==> WellBound(plan, b)
      {
        LookupNeverFails(plan, b);
        MatchesIff(plan, b);
      }
    }
  }

  method ValidatePolicyBindings(resolvable: PresetKey -> bool, plan: DutPlan) returns (r: Verdict)
    ensures r.Accepted? <==> Acceptable(resolvable, plan)
    ensures r.Accepted? <==>
            (forall p :: p in plan.policies && p.preset.Some? ==> resolvable(p.preset.value)) &&
            (forall a :: a in plan.adjacencies && a.present ==> a.relationship.Some?) &&
            BoundOnce(plan) && forall b :: b in plan.bindings ==> WellBound(plan, b)
    ensures r.Unresolved? <==> exists p :: p in plan.policies && p.preset.Some? && !resolvable(p.preset.value)
    ensures r.Unrelated? <==>
            !r.Unresolved? && exists a :: a in plan.adjacencies && a.present && a.relationship.None?
    ensures r.Uncovered? <==> !r.Unresolved? && !r.Unrelated? && !BoundOnce(plan)
    ensures r.Mismatched? ==> r.at < |plan.bindings| && !WellBound(plan, plan.bindings[r.at]) &&
                              forall i :: 0 <= i < r.at ==> WellBound(plan, plan.bindings[i])
  {
    AcceptableIff(resolvable, plan);
    CoveredIffBoundOnce(plan);
    for n := 0 to |plan.policies|
      invariant forall i :: 0 <= i < n && plan.policies[i].preset.Some? ==> resolvable(plan.policies[i].preset.value)
    {
      var p := plan.policies[n];
      if p.preset.Some? && !resolvable(p.preset.value) {
        assert p in plan.policies;
        return Unresolved(n);
      }
    }
    var adjacencies := Present(plan);
    var unrelated := Filter((a: Adjacency) => a.relationship.None?, adjacencies);
    if unrelated != [] {
      assert unrelated[0] in unrelated;
      return Unrelated;
    }
    assert forall a :: a in adjacencies && a.relationship.None? ==> a in unrelated;
    var coverage := CheckCoverage(plan.bindings, adjacencies);
    if coverage.Mismatch? { return Uncovered(coverage); }
    r := CheckBindings(plan);
  }

  /** The checks on one binding, in their order. */
  method CheckBinding(plan: DutPlan, b: Binding) returns (ok: bool)
    requires AdjacencyOf(plan, b.adjacencyId).Some?
    ensures ok <==> Matches(plan, b, AdjacencyOf(plan, b.adjacencyId).value)
    ensures ok <==> WellBound(plan, b)
  {
    MatchesIff(plan, b);
    var a := AdjacencyOf(plan, b.adjacencyId).value;
    var policy := PolicyOf(plan, b.policyId);
    if policy.None? || policy.value.preset.None? { return false; }
    var key := policy.value.preset.value;
    if key.direction != b.direction { return false; }
    if key.afi != a.afi || Some(key.relationship) != a.relationship { return false; }
    if plan.networkRole.None? || key.localRole != plan.networkRole.value { return false; }
    ok := true;
  }

  method CheckBindings(plan: DutPlan) returns (r: Verdict)
    requires Covered(Actual(plan.bindings), Expected(Present(plan)))
    requires forall a :: a in Present(plan) ==> a.relationship.Some?
    ensures r.Accepted? || r.Mismatched?
    ensures r.Mismatched? ==> r.at < |plan.bindings| && !WellBound(plan, plan.bindings[r.at]) &&
                              forall i :: 0 <= i < r.at ==> WellBound(plan, plan.bindings[i])
    ensures r.Accepted? <==> forall b :: b in plan.bindings ==> WellBound(plan, b)
  {
    for n := 0 to |plan.bindings|
      invariant forall i :: 0 <= i < n ==> WellBound(plan, plan.bindings[i])
    {
      LookupNeverFails(plan, plan.bindings[n]);
      var ok := CheckBinding(plan, plan.bindings[n]);
      if !ok { return Mismatched(n); }
    }
    r := Accepted;
  }

  predicate Binds(b: Binding, a: Adjacency, d: Direction) { b.adjacencyId == a.id && b.direction == d }

  /** What acceptance guarantees: each present adjacency has, in each direction, exactly one binding, whose
      policy preset was made for that direction, family, relationship and device role. */
  lemma AcceptedCoversExactly(resolvable: PresetKey -> bool, plan: DutPlan, a: Adjacency, d: Direction) returns (i: nat)
    requires Acceptable(resolvable, plan) && UniqueIds(Present(plan)) && a in Present(plan)
    ensures i < |plan.bindings| && Binds(plan.bindings[i], a, d)
    ensures forall j :: 0 <= j < |plan.bindings| && Binds(plan.bindings[j], a, d) ==> j == i
    ensures Matches(plan, plan.bindings[i], a) && WellBound(plan, plan.bindings[i])
  {
    var present, actual, k := Present(plan), Actual(plan.bindings), (a.id, d);
    var m :| 0 <= m < |present| && present[m] == a;
    ExpectedMembers(present, |present|, k);
    assert k in actual;
    i :| 0 <= i < |actual| && actual[i] == k;
    forall j | 0 <= j < |plan.bindings| && Binds(plan.bindings[j], a, d)
      ensures j == i
    {
      assert actual[j] == k;
    }
    AdjacencyIs(present, m, |present|);
    MatchesIff(plan, plan.bindings[i]);
  }

  lemma {:induction false} AdjacencyIs(adjacencies: seq<Adjacency>, i: nat, n: nat)
    requires i < n <= |adjacencies| && UniqueIds(adjacencies)
    ensures AdjacencyTo(adjacencies, adjacencies[i].id, n) == Some(adjacencies[i])
  {
    if i < n - 1 { AdjacencyIs(adjacencies, i, n - 1); }
  }
}
