/** The results of a walk in sorted order, and the `--check` mode of the pinning script. */
module PinModes {
  import opened Sequences
  import opened Orders
  import opened Manifests
  import opened DependencyWalk

  // ---------- ordering the results ----------

  /** Strings compare by code point, left to right. */
  function Codes(s: string): (k: Key)
    ensures |k| == |s|
    ensures forall i :: 0 <= i < |s| ==> k[i] == s[i] as int
  {
    seq(|s|, i requires 0 <= i < |s| => s[i] as int)
  }

  function NameKey(d: Dep): (k: Key) { Codes(d.name) }

  lemma CodesInjective(a: string, b: string)
    requires Codes(a) == Codes(b)
    ensures a == b
  {
    forall i | 0 <= i < |a| ensures a[i] == b[i] {
      assert Codes(a)[i] == a[i] as int && Codes(b)[i] == b[i] as int;
    }
  }

  datatype Comparison = Less | NotLess | TypeMismatch

  function CompareText(a: string, b: string): (c: Comparison) {
    if LexLe(Codes(b), Codes(a)) then NotLess else Less
  }

  /** An absent field has no order against a present one. */
  function CompareOptional(a: Option<string>, b: Option<string>): (c: Comparison) {
    if a.Some? && b.Some? then CompareText(a.value, b.value) else TypeMismatch
  }

  /** Alphabetical rank of the kind names. */
  function KindRank(k: Kind): (r: int) {
    match k case Floating => 0 case Immutable => 1 case Missing => 2 case Pinned => 3 case System => 4
  }

  /** Tuple comparison: the first field that differs decides. */
  function TupleLess(a: Dep, b: Dep): (c: Comparison) {
    if a.name != b.name then CompareText(a.name, b.name)
    else if a.kind != b.kind then if KindRank(a.kind) < KindRank(b.kind) then Less else NotLess
    else if a.url != b.url then CompareOptional(a.url, b.url)
    else if a.rev != b.rev then CompareOptional(a.rev, b.rev)
    else if a.isOverlay != b.isOverlay then if b.isOverlay then Less else NotLess
    else CompareText(Arrows(a.via), Arrows(b.via))
  }

  function Arrows(via: seq<string>): (r: string) {
    if via == [] then "" else if |via| == 1 then via[0] else via[0] + " -> " + Arrows(via[1..])
  }

  function Values(found: map<string, Dep>, order: seq<string>): (r: seq<Dep>)
    requires forall n :: n in order ==> n in found
    ensures |r| == |order|
    ensures forall i :: 0 <= i < |order| ==> r[i] == found[order[i]]
  {
    seq(|order|, i requires 0 <= i < |order| => found[order[i]])
  }

  /** `sorted(deps.values())`. */
  function SortedDeps(found: map<string, Dep>, order: seq<string>): (r: seq<Dep>)
    requires forall n :: n in order ==> n in found
  {
    SortBy(NameKey, Values(found, order))
  }

  /** Sorting the results never compares an optional field: distinct entries have distinct names, and the tuples
      compare as their names do. */
  lemma SortingComparesNamesOnly(up: Upstream, roots: seq<string>, found: map<string, Dep>, order: seq<string>, i: nat,
                                 j: nat)
    requires Sound(up, roots, found, order) && i < j < |order|
    ensures var a, b := Values(found, order)[i], Values(found, order)[j];
            && a.name != b.name && TupleLess(a, b) == CompareText(a.name, b.name) != TypeMismatch
            && TupleLess(b, a) == CompareText(b.name, a.name) != TypeMismatch
            && (TupleLess(a, b) == Less <==> LexLe(NameKey(a), NameKey(b)))
            && (TupleLess(b, a) == Less <==> LexLe(NameKey(b), NameKey(a)))
  {
    var a, b := found[order[i]], found[order[j]];
    assert a.name == order[i] && b.name == order[j];
    LexTotal(Codes(a.name), Codes(b.name));
    if LexLe(Codes(a.name), Codes(b.name)) && LexLe(Codes(b.name), Codes(a.name)) {
      LexAntisymmetric(Codes(a.name), Codes(b.name));
      CodesInjective(a.name, b.name);
      assert false;
    }
  }

  /** The sorted list holds each found name exactly once. */
  lemma SortedDepsMembers(up: Upstream, roots: seq<string>, found: map<string, Dep>, order: seq<string>)
    requires Sound(up, roots, found, order)
    ensures forall d :: d in SortedDeps(found, order) ==> d.name in found && d == found[d.name]
    ensures forall n :: n in found ==> found[n] in SortedDeps(found, order)
  {
    var v, s := Values(found, order), SortedDeps(found, order);
    PermutationMembers(v, s);
    forall d | d in s ensures d.name in found && d == found[d.name] {
      var i :| 0 <= i < |v| && v[i] == d;
      assert found[order[i]].name == order[i];
    }
    forall n | n in found ensures found[n] in s {
      var i :| 0 <= i < |order| && order[i] == n;
      assert v[i] == found[n];
    }
  }

  lemma SortedDepsDistinct(up: Upstream, roots: seq<string>, found: map<string, Dep>, order: seq<string>)
    requires Sound(up, roots, found, order)
    ensures Distinct(SortedDeps(found, order))
  {
    var v := Values(found, order);
    forall i, j | 0 <= i < j < |v| ensures v[i] != v[j] {
      assert found[order[i]].name == order[i] && found[order[j]].name == order[j];
    }
    PermutationDistinct(v, SortedDeps(found, order));
  }

  /** Strictly ascending names. */
  ghost predicate NamesAscend(deps: seq<Dep>) {
    forall i, j :: 0 <= i < j < |deps| ==> !LexLe(Codes(deps[j].name), Codes(deps[i].name))
  }

  lemma SortedAscend(up: Upstream, roots: seq<string>, found: map<string, Dep>, order: seq<string>)
    requires Sound(up, roots, found, order)
    ensures NamesAscend(SortedDeps(found, order))
  {
    var deps := SortedDeps(found, order);
    SortBySorts(NameKey, Values(found, order));
    SortedDepsMembers(up, roots, found, order);
    SortedDepsDistinct(up, roots, found, order);
    forall i, j | 0 <= i < j < |deps| ensures !LexLe(Codes(deps[j].name), Codes(deps[i].name)) {
      assert LexLe(NameKey(deps[i]), NameKey(deps[j]));
      assert deps[i] in deps && deps[j] in deps && deps[i] != deps[j];
      if LexLe(Codes(deps[j].name), Codes(deps[i].name)) {
        LexAntisymmetric(Codes(deps[i].name), Codes(deps[j].name));
        CodesInjective(deps[i].name, deps[j].name);
      }
    }
  }

  // ---------- --check ----------

  predicate Offends(d: Dep, allow: set<string>) {
    d.kind == Missing || (d.kind == Floating && d.name !in allow)
  }

  method Failures(deps: seq<Dep>, allow: set<string>) returns (failures: seq<Dep>)
    ensures failures == Filter(d => Offends(d, allow), deps)
  {
    var p := d => Offends(d, allow);
    failures := [];
    for i := 0 to |deps|
      invariant failures == Filter(p, deps[..i])
    {
      FilterAppend(p, deps[..i], [deps[i]]);
      assert deps[..i + 1] == deps[..i] + [deps[i]];
      if Offends(deps[i], allow) { failures := failures + [deps[i]]; }
    }
    assert deps[..|deps|] == deps;
  }

  datatype CheckResult = Aborted | Pass | Fail(failures: seq<Dep>)

  /** A manifest that keeps the build from being reproducible. */
  ghost predicate Unfixed(up: Upstream, name: string, allow: set<string>) {
    up.Find(name).Absent? || (up.Find(name).Present? && Offends(Classified(up.Find(name), name, []), allow))
  }

  /** Missing, or with a repository but no rev, and not allowed to float. */
  lemma UnfixedBySections(up: Upstream, name: string, allow: set<string>)
    ensures Unfixed(up, name, allow) <==>
            up.Find(name).Absent? ||
            (up.Find(name).Present? && HasGitValue(up.Find(name).manifest, "repo_url") &&
             !HasGitValue(up.Find(name).manifest, "rev") && name !in allow)
  {
    if up.Find(name).Present? { ClassifiedBySections(up.Find(name).manifest, up.Find(name).isOverlay, name, []); }
  }

  lemma {:induction false} FilterAscends(p: Dep -> bool, deps: seq<Dep>)
    requires NamesAscend(deps)
    ensures NamesAscend(Filter(p, deps))
  {
    if deps != [] {
      var rest := Filter(p, deps[1..]);
      assert NamesAscend(deps[1..]);
      FilterAscends(p, deps[1..]);
      forall i | 0 <= i < |rest| ensures !LexLe(Codes(rest[i].name), Codes(deps[0].name)) {
        assert rest[i] in deps[1..];
        var j :| 0 <= j < |deps| - 1 && deps[j + 1] == rest[i];
      }
    }
  }

  lemma OffendsIffUnfixed(up: Upstream, d: Dep, allow: set<string>)
    requires !up.Find(d.name).Unparsable? && d == Classified(up.Find(d.name), d.name, d.via)
    ensures Offends(d, allow) <==> Unfixed(up, d.name, allow)
  {
  }

  /** What the failure list of a sound walk amounts to. */
  lemma FailuresAreUnfixed(up: Upstream, roots: seq<string>, found: map<string, Dep>, order: seq<string>,
                           allow: set<string>, failures: seq<Dep>)
    requires Sound(up, roots, found, order)
    requires failures == Filter(d => Offends(d, allow), SortedDeps(found, order))
    ensures failures == [] <==> forall n :: n in found ==> !Unfixed(up, n, allow)
    ensures forall d :: d in failures ==> d.name in found && d == found[d.name] && Unfixed(up, d.name, allow)
    ensures forall n :: n in found && Unfixed(up, n, allow) ==> found[n] in failures
    ensures Distinct(failures)
  {
    SortedDepsMembers(up, roots, found, order);
    SortedDepsDistinct(up, roots, found, order);
    FilterDistinct(d => Offends(d, allow), SortedDeps(found, order));
    forall n | n in found ensures Offends(found[n], allow) <==> Unfixed(up, n, allow) {
      OffendsIffUnfixed(up, found[n], allow);
    }
    if failures != [] {
      assert failures[0] in failures;
    }
  }

  /** No reachable manifest is unreadable, missing, or floating outside the allow list. */
  ghost predicate ChecksOut(up: Upstream, roots: seq<string>, allow: set<string>) {
    forall n :: Reachable(up, roots, n) ==> !up.Find(n).Unparsable? && !Unfixed(up, n, allow)
  }

  lemma ChecksOutBySections(up: Upstream, roots: seq<string>, allow: set<string>)
    ensures ChecksOut(up, roots, allow) <==>
            forall n :: Reachable(up, roots, n) ==>
              up.Find(n).Present? &&
              (HasGitValue(up.Find(n).manifest, "repo_url") ==>
                 HasGitValue(up.Find(n).manifest, "rev") || n in allow)
  {
    forall n
      ensures !up.Find(n).Unparsable? && !Unfixed(up, n, allow) <==>
              up.Find(n).Present? &&
              (HasGitValue(up.Find(n).manifest, "repo_url") ==>
                 HasGitValue(up.Find(n).manifest, "rev") || n in allow)
    {
      UnfixedBySections(up, n, allow);
    }
  }

  /** Passes exactly when no manifest reachable by any chain of dependencies is missing, or floats outside the
      allow list; otherwise every failure is such a manifest with a simple path to it, and none is left out. */
  method Check(up: Upstream, roots: seq<string>, allow: set<string>, ghost names: set<string>) returns (r: CheckResult)
    requires Universe(up, roots, names)
    ensures r.Aborted? <==> exists n :: Reachable(up, roots, n) && up.Find(n).Unparsable?
    ensures r.Pass? <==> ChecksOut(up, roots, allow)
    ensures r.Pass? <==> forall n :: Reachable(up, roots, n) ==>
              up.Find(n).Present? &&
              (HasGitValue(up.Find(n).manifest, "repo_url") ==>
                 HasGitValue(up.Find(n).manifest, "rev") || n in allow)
    ensures r.Fail? ==> NamesAscend(r.failures)
    ensures r.Fail? ==> Distinct(r.failures)
    ensures r.Fail? ==> forall d :: d in r.failures ==>
              Unfixed(up, d.name, allow) && Path(up, roots, d.via, d.name) && Distinct(d.via)
    ensures r.Fail? ==> forall n :: Reachable(up, roots, n) && Unfixed(up, n, allow) ==>
              exists d :: d in r.failures && d.name == n
  {
    var store := new ManifestStore(up);
    var ok, found, order := Walk(store, roots, names);
    ChecksOutBySections(up, roots, allow);
    if !ok { return Aborted; }
    SortedAscend(up, roots, found, order);
    FilterAscends(d => Offends(d, allow), SortedDeps(found, order));
    var failures := Failures(SortedDeps(found, order), allow);
    FailuresAreUnfixed(up, roots, found, order, allow, failures);
    if failures == [] { return Pass; }
    assert failures[0] in failures;
    forall n | Reachable(up, roots, n) && Unfixed(up, n, allow) ensures exists d :: d in failures && d.name == n {
      assert found[n] in failures && found[n].name == n;
    }
    return Fail(failures);
  }
}
