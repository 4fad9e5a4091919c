/** The depth-first walk over the manifest graph, cycles included. */
module DependencyWalk {
  import opened Sequences
  import opened Manifests

  ghost predicate Edge(up: Upstream, a: string, b: string) { DependsOn(up.Find(a), b) }

  /** A chain of dependencies from a build target down to `name`. */
  ghost predicate Path(up: Upstream, roots: seq<string>, p: seq<string>, name: string) {
    p != [] && p[|p| - 1] == name &&
    if |p| == 1 then name in roots
    else Edge(up, p[|p| - 2], name) && Path(up, roots, p[..|p| - 1], p[|p| - 2])
  }

  /** Reachable from a build target by some chain of dependencies. */
  ghost predicate Reachable(up: Upstream, roots: seq<string>, name: string) {
    exists p :: Path(up, roots, p, name)
  }

  /** A finite universe of names that no dependency leaves. */
  ghost predicate Universe(up: Upstream, roots: seq<string>, names: set<string>) {
    (forall r :: r in roots ==> r in names) &&
    forall a, b {:trigger Edge(up, a, b)} :: a in names && Edge(up, a, b) ==> b in names
  }

  /** Every recorded dependency is classified from an uncached lookup and carries a simple path. */
  ghost predicate Recorded(up: Upstream, roots: seq<string>, found: map<string, Dep>) {
    forall n {:trigger found[n]} :: n in found ==>
      !up.Find(n).Unparsable? && found[n] == Classified(up.Find(n), n, found[n].via) &&
      Path(up, roots, found[n].via, n) && Distinct(found[n].via)
  }

  /** Everything found outside `open` has all its dependencies found. */
  ghost predicate ClosedExcept(up: Upstream, found: map<string, Dep>, open: seq<string>) {
    forall a, b {:trigger Edge(up, a, b)} :: a in found && a !in open && Edge(up, a, b) ==> b in found
  }

  ghost predicate Grows(a: map<string, Dep>, b: map<string, Dep>) {
    forall n {:trigger n in b} :: n in a ==> n in b
  }

  lemma GrowsTransitive(a: map<string, Dep>, b: map<string, Dep>, c: map<string, Dep>)
    requires Grows(a, b) && Grows(b, c)
    ensures Grows(a, c)
  {
    forall n | n in a ensures n in c { assert n in b; }
  }

  /** The first `n` of `deps` are found. */
  ghost predicate AllFound(found: map<string, Dep>, deps: seq<string>, n: nat) {
    forall i :: 0 <= i < n && i < |deps| ==> deps[i] in found
  }

  lemma OneMoreFound(before: map<string, Dep>, found: map<string, Dep>, deps: seq<string>, n: nat)
    requires n < |deps| && Grows(before, found) && AllFound(before, deps, n) && deps[n] in found
    ensures AllFound(found, deps, n + 1)
  {
    forall i | 0 <= i < n ensures deps[i] in found { assert deps[i] in before; }
  }

  /** The dependencies named by the first `n` sections are all found. */
  ghost predicate SectionsFound(found: map<string, Dep>, sections: seq<Section>, n: nat) {
    forall i :: 0 <= i < n <= |sections| ==> AllFound(found, SectionDeps(sections[i]), |sections[i].entries|)
  }

  lemma OneMoreSection(before: map<string, Dep>, found: map<string, Dep>, sections: seq<Section>, n: nat)
    requires n < |sections| && Grows(before, found) && SectionsFound(before, sections, n)
    requires AllFound(found, SectionDeps(sections[n]), |sections[n].entries|)
    ensures SectionsFound(found, sections, n + 1)
  {
    forall i | 0 <= i < n ensures AllFound(found, SectionDeps(sections[i]), |sections[i].entries|) {
      assert AllFound(before, SectionDeps(sections[i]), |sections[i].entries|);
    }
  }

  lemma AllSectionsFound(found: map<string, Dep>, l: Lookup)
    requires l.Present? ==> SectionsFound(found, l.manifest.sections, |l.manifest.sections|)
    ensures forall b :: DependsOn(l, b) ==> b in found
  {
    forall b | DependsOn(l, b) ensures b in found {
      var i :| 0 <= i < |l.manifest.sections| && b in SectionDeps(l.manifest.sections[i]);
      assert AllFound(found, SectionDeps(l.manifest.sections[i]), |l.manifest.sections[i].entries|);
    }
  }

  lemma SectionEdges(up: Upstream, name: string, s: nat)
    requires up.Find(name).Present? && s < |up.Find(name).manifest.sections|
    ensures forall b :: b in SectionDeps(up.Find(name).manifest.sections[s]) ==> Edge(up, name, b)
  {
  }

  lemma PathExtends(up: Upstream, roots: seq<string>, p: seq<string>, a: string, b: string)
    requires Path(up, roots, p, a) && Edge(up, a, b)
    ensures Path(up, roots, p + [b], b)
  {
    assert (p + [b])[..|p|] == p;
  }

  /** Once all its dependencies are found, a name need no longer be kept open. */
  lemma CloseName(up: Upstream, found: map<string, Dep>, ancestors: seq<string>, name: string)
    requires ClosedExcept(up, found, ancestors + [name])
    requires forall b :: Edge(up, name, b) ==> b in found
    ensures ClosedExcept(up, found, ancestors)
  {
    forall a, b | a in found && a !in ancestors && Edge(up, a, b) ensures b in found {
      assert a == name || a !in ancestors + [name];
    }
  }

  /** A failed visit hands back a path to a reachable manifest that does not parse. */
  ghost predicate BadPath(up: Upstream, roots: seq<string>, bad: seq<string>) {
    bad != [] && Path(up, roots, bad, bad[|bad| - 1]) && up.Find(bad[|bad| - 1]).Unparsable?
  }

  /** The walk's dictionary: classified entries, listed once each in insertion order. */
  ghost predicate Sound(up: Upstream, roots: seq<string>, found: map<string, Dep>, order: seq<string>) {
    Recorded(up, roots, found) && Distinct(order) && forall n :: n in found <==> n in order
  }

  /** Between visits: the names on the current `line` of ancestors are found, all others are closed. */
  ghost predicate Between(up: Upstream, roots: seq<string>, names: set<string>, found: map<string, Dep>,
                          line: seq<string>) {
    found.Keys <= names && Distinct(line) && (forall a :: a in line ==> a in found) && ClosedExcept(up, found, line)
  }

  lemma {:induction false} RecordIsSound(up: Upstream, roots: seq<string>, found: map<string, Dep>, order: seq<string>,
                                         line: seq<string>, name: string, dep: Dep)
    requires Sound(up, roots, found, order) && name !in found && Distinct(line)
    requires !up.Find(name).Unparsable? && dep == Classified(up.Find(name), name, line) && Path(up, roots, line, name)
    ensures Sound(up, roots, found[name := dep], order + [name])
  {
    var after := found[name := dep];
    forall n | n in after
      ensures !up.Find(n).Unparsable? && after[n] == Classified(up.Find(n), n, after[n].via) &&
              Path(up, roots, after[n].via, n) && Distinct(after[n].via)
    {
      if n != name { assert found[n] == after[n]; }
    }
    assert name !in order;
  }

  lemma RecordOpensName(up: Upstream, roots: seq<string>, names: set<string>, found: map<string, Dep>,
                        ancestors: seq<string>, name: string, dep: Dep)
    requires Between(up, roots, names, found, ancestors) && name !in found && name in names
    ensures Between(up, roots, names, found[name := dep], ancestors + [name])
  {
  }

  class Walker {
    const store: ManifestStore
    var found: map<string, Dep>
    var order: seq<string>

    constructor (store: ManifestStore)
      ensures this.store == store && found == map[] && order == []
    {
      this.store := store;
      found := map[];
      order := [];
    }

    /** Visits `name` unless it was found before. */
    method Visit(name: string, ancestors: seq<string>, ghost roots: seq<string>, ghost names: set<string>)
      returns (ok: bool, ghost bad: seq<string>)
      requires store.Valid() && Universe(store.up, roots, names)
      requires Sound(store.up, roots, found, order) && Between(store.up, roots, names, found, ancestors)
      requires Path(store.up, roots, ancestors + [name], name) && name in names
      modifies this, store
      ensures store.Valid() && Sound(store.up, roots, found, order) && Grows(old(found), found)
      ensures ok ==> name in found && Between(store.up, roots, names, found, ancestors)
      ensures !ok ==> BadPath(store.up, roots, bad)
      decreases names - found.Keys, 1
    {
      bad := [];
      if name in found { return true, bad; }
      var l := Enter(name, ancestors, roots, names);
      if l.None? { return false, ancestors + [name]; }
      ghost var entered := found;
      ok, bad := VisitDependencies(name, l.value, ancestors + [name], roots, names);
      GrowsTransitive(old(found), entered, found);
      if ok { CloseName(store.up, found, ancestors, name); }
    }

    /** Classifies and records a new name; None aborts the walk. */
    method Enter(name: string, ancestors: seq<string>, ghost roots: seq<string>, ghost names: set<string>)
      returns (l: Option<Lookup>)
      requires store.Valid() && name !in found && name in names
      requires Sound(store.up, roots, found, order) && Between(store.up, roots, names, found, ancestors)
      requires Path(store.up, roots, ancestors + [name], name)
      modifies this, store
      ensures store.Valid() && Sound(store.up, roots, found, order) && Grows(old(found), found)
      ensures l.None? <==> store.up.Find(name).Unparsable?
      ensures l.Some? ==> l.value == store.up.Find(name) && found.Keys == old(found.Keys) + {name} &&
                          Between(store.up, roots, names, found, ancestors + [name])
    {
      var dep := store.Classify(name, ancestors + [name]);
      if dep.None? { return None; }
      Record(name, dep.value, ancestors, roots, names);
      var parsed := store.Parsed(name);
      l := Some(parsed);
    }

    method Record(name: string, dep: Dep, ancestors: seq<string>, ghost roots: seq<string>, ghost names: set<string>)
      requires Sound(store.up, roots, found, order) && Between(store.up, roots, names, found, ancestors)
      requires name !in found && name in names && Path(store.up, roots, ancestors + [name], name)
      requires !store.up.Find(name).Unparsable? && dep == Classified(store.up.Find(name), name, ancestors + [name])
      modifies this
      ensures Sound(store.up, roots, found, order) && Between(store.up, roots, names, found, ancestors + [name])
      ensures found == old(found)[name := dep] && order == old(order) + [name]
    {
      RecordOpensName(store.up, roots, names, found, ancestors, name, dep);
      RecordIsSound(store.up, roots, found, order, ancestors + [name], name, dep);
      found := found[name := dep];
      order := order + [name];
    }

    method VisitDependencies(name: string, l: Lookup, line: seq<string>, ghost roots: seq<string>,
                             ghost names: set<string>)
      returns (ok: bool, ghost bad: seq<string>)
      requires store.Valid() && Universe(store.up, roots, names)
      requires Sound(store.up, roots, found, order) && Between(store.up, roots, names, found, line)
      requires l == store.up.Find(name) && Path(store.up, roots, line, name) && name in names
      modifies this, store
      ensures store.Valid() && Sound(store.up, roots, found, order) && Grows(old(found), found)
      ensures ok ==> Between(store.up, roots, names, found, line) && forall b :: DependsOn(l, b) ==> b in found
      ensures !ok ==> BadPath(store.up, roots, bad)
      decreases names - found.Keys, 4
    {
      ok, bad := true, [];
      if !l.Present? { return; }
      var sections := l.manifest.sections;
      for s := 0 to |sections|
        invariant ok && store.Valid() && Sound(store.up, roots, found, order)
        invariant Between(store.up, roots, names, found, line) && Grows(old(found), found)
        invariant SectionsFound(found, sections, s)
      {
        ghost var before := found;
        if sections[s].family == Dependencies {
          SectionEdges(store.up, name, s);
          ok, bad := VisitSection(name, Keys(sections[s].entries), line, roots, names);
          GrowsTransitive(old(found), before, found);
          if !ok { return; }
        }
        OneMoreSection(before, found, sections, s);
      }
      AllSectionsFound(found, l);
    }

    /** Visits one dependency of `name`. */
    method VisitEntry(name: string, dep: string, line: seq<string>, ghost roots: seq<string>, ghost names: set<string>)
      returns (ok: bool, ghost bad: seq<string>)
      requires store.Valid() && Universe(store.up, roots, names)
      requires Sound(store.up, roots, found, order) && Between(store.up, roots, names, found, line)
      requires Path(store.up, roots, line, name) && name in names && Edge(store.up, name, dep)
      modifies this, store
      ensures store.Valid() && Sound(store.up, roots, found, order) && Grows(old(found), found)
      ensures ok ==> dep in found && Between(store.up, roots, names, found, line)
      ensures !ok ==> BadPath(store.up, roots, bad)
      decreases names - found.Keys, 2
    {
      PathExtends(store.up, roots, line, name, dep);
      ok, bad := Visit(dep, line, roots, names);
    }

    method VisitSection(name: string, deps: seq<string>, line: seq<string>, ghost roots: seq<string>,
                        ghost names: set<string>)
      returns (ok: bool, ghost bad: seq<string>)
      requires store.Valid() && Universe(store.up, roots, names)
      requires Sound(store.up, roots, found, order) && Between(store.up, roots, names, found, line)
      requires Path(store.up, roots, line, name) && name in names
      requires forall b :: b in deps ==> Edge(store.up, name, b)
      modifies this, store
      ensures store.Valid() && Sound(store.up, roots, found, order) && Grows(old(found), found)
      ensures ok ==> Between(store.up, roots, names, found, line) && AllFound(found, deps, |deps|)
      ensures !ok ==> BadPath(store.up, roots, bad)
      decreases names - found.Keys, 3
    {
      ok, bad := true, [];
      for i := 0 to |deps|
        invariant ok && store.Valid() && Sound(store.up, roots, found, order)
        invariant Between(store.up, roots, names, found, line) && Grows(old(found), found)
        invariant AllFound(found, deps, i)
      {
        ghost var before := found;
        ok, bad := VisitEntry(name, deps[i], line, roots, names);
        GrowsTransitive(old(found), before, found);
        if !ok { return; }
        OneMoreFound(before, found, deps, i);
      }
    }
  }

  lemma {:induction false} PathIsFound(up: Upstream, roots: seq<string>, found: map<string, Dep>, p: seq<string>,
                                       name: string)
    requires ClosedExcept(up, found, []) && (forall r :: r in roots ==> r in found)
    requires Path(up, roots, p, name)
    ensures name in found
    decreases |p|
  {
    if |p| > 1 { PathIsFound(up, roots, found, p[..|p| - 1], p[|p| - 2]); }
  }

  /** A closed dictionary holding the roots lists exactly the reachable names. */
  lemma FoundIsReachable(up: Upstream, roots: seq<string>, found: map<string, Dep>, order: seq<string>)
    requires Sound(up, roots, found, order) && ClosedExcept(up, found, []) && forall r :: r in roots ==> r in found
    ensures forall n :: n in found <==> Reachable(up, roots, n)
  {
    forall n ensures n in found <==> Reachable(up, roots, n) {
      if n in found { assert Path(up, roots, found[n].via, n); }
      if Reachable(up, roots, n) {
        var p :| Path(up, roots, p, n);
        PathIsFound(up, roots, found, p, n);
      }
    }
  }

  /** Terminates on every finite graph. It succeeds exactly when no reachable manifest fails to parse, and then
      finds exactly the reachable names, each once, classified from an uncached lookup, each with a simple path. */
  method Walk(store: ManifestStore, roots: seq<string>, ghost names: set<string>)
    returns (ok: bool, found: map<string, Dep>, order: seq<string>)
    requires store.Valid() && Universe(store.up, roots, names)
    modifies store
    ensures store.Valid()
    ensures ok <==> forall n :: Reachable(store.up, roots, n) ==> !store.up.Find(n).Unparsable?
    ensures ok ==> Sound(store.up, roots, found, order) && forall n :: n in found <==> Reachable(store.up, roots, n)
    ensures ok ==> (forall r :: r in roots ==> r in found) && FollowsEntries(store.up, found) &&
                   OnlyListed(store.up, roots, found)
  {
    var w := new Walker(store);
    ok := true;
    for i := 0 to |roots|
      invariant ok && w.store == store && store.Valid() && Sound(store.up, roots, w.found, w.order)
      invariant Between(store.up, roots, names, w.found, []) && AllFound(w.found, roots, i)
      invariant fresh(w)
    {
      ghost var bad;
      ghost var before := w.found;
      assert Path(store.up, roots, [] + [roots[i]], roots[i]);
      ok, bad := w.Visit(roots[i], [], roots, names);
      if !ok {
        assert Reachable(store.up, roots, bad[|bad| - 1]);
        return false, map[], [];
      }
      OneMoreFound(before, w.found, roots, i);
    }
    found, order := w.found, w.order;
    FoundIsReachable(store.up, roots, found, order);
    ParsedEverywhere(store.up, roots, found, order);
    WalkFollowsEntries(store.up, roots, found);
    WalkOnlyListed(store.up, roots, found);
  }

  // ---------- the walk by sections and entries ----------

  /** Whatever a found manifest lists in a dependencies section, under any condition, is found. */
  ghost predicate FollowsEntries(up: Upstream, found: map<string, Dep>) {
    forall a, i, j {:trigger up.Find(a).manifest.sections[i].entries[j]} ::
      a in found && up.Find(a).Present? && 0 <= i < |up.Find(a).manifest.sections| &&
      up.Find(a).manifest.sections[i].family == Dependencies &&
      0 <= j < |up.Find(a).manifest.sections[i].entries| ==>
        up.Find(a).manifest.sections[i].entries[j].key in found
  }

  /** `b` stands in such a section of `a`. */
  ghost predicate ListedBy(up: Upstream, a: string, b: string) {
    up.Find(a).Present? &&
    exists s, e :: s in up.Find(a).manifest.sections && s.family == Dependencies && e in s.entries && e.key == b
  }

  /** Nothing else is found: a target, or listed by something found. */
  ghost predicate OnlyListed(up: Upstream, roots: seq<string>, found: map<string, Dep>) {
    forall b :: b in found ==> b in roots || exists a :: a in found && ListedBy(up, a, b)
  }

  lemma WalkFollowsEntries(up: Upstream, roots: seq<string>, found: map<string, Dep>)
    requires forall n :: n in found <==> Reachable(up, roots, n)
    ensures FollowsEntries(up, found)
  {
    forall a, i, j | a in found && up.Find(a).Present? && 0 <= i < |up.Find(a).manifest.sections| &&
                     up.Find(a).manifest.sections[i].family == Dependencies &&
                     0 <= j < |up.Find(a).manifest.sections[i].entries|
      ensures up.Find(a).manifest.sections[i].entries[j].key in found
    {
      var s := up.Find(a).manifest.sections[i];
      assert Keys(s.entries)[j] in SectionDeps(s);
      var p :| Path(up, roots, p, a);
      PathExtends(up, roots, p, a, s.entries[j].key);
    }
  }

  lemma WalkOnlyListed(up: Upstream, roots: seq<string>, found: map<string, Dep>)
    requires forall n :: n in found <==> Reachable(up, roots, n)
    ensures OnlyListed(up, roots, found)
  {
    forall b | b in found && b !in roots ensures exists a :: a in found && ListedBy(up, a, b) {
      var p :| Path(up, roots, p, b);
      var a := p[|p| - 2];
      assert Path(up, roots, p[..|p| - 1], a) && Edge(up, a, b);
      EdgeIsListed(up, a, b);
    }
  }

  lemma EdgeIsListed(up: Upstream, a: string, b: string)
    requires Edge(up, a, b)
    ensures ListedBy(up, a, b)
  {
    var sections := up.Find(a).manifest.sections;
    var i :| 0 <= i < |sections| && b in SectionDeps(sections[i]);
    var j :| 0 <= j < |sections[i].entries| && Keys(sections[i].entries)[j] == b;
    assert sections[i] in sections && sections[i].entries[j] in sections[i].entries;
  }

  lemma ListedIsEdge(up: Upstream, a: string, b: string)
    ensures Edge(up, a, b) <==> ListedBy(up, a, b)
  {
    if Edge(up, a, b) { EdgeIsListed(up, a, b); }
    if ListedBy(up, a, b) {
      var sections := up.Find(a).manifest.sections;
      var s, e :| s in sections && s.family == Dependencies && e in s.entries && e.key == b;
      var i :| 0 <= i < |sections| && sections[i] == s;
      var j :| 0 <= j < |s.entries| && s.entries[j] == e;
      assert Keys(s.entries)[j] == b;
    }
  }

  /** A path starts at a target, and each of its names lists the next. */
  lemma {:induction false} PathByEntries(up: Upstream, roots: seq<string>, p: seq<string>, name: string)
    ensures Path(up, roots, p, name) <==>
            p != [] && p[0] in roots && p[|p| - 1] == name &&
            forall k :: 0 <= k < |p| - 1 ==> ListedBy(up, p[k], p[k + 1])
    decreases |p|
  {
    if |p| > 1 {
      var q := p[..|p| - 1];
      PathByEntries(up, roots, q, p[|p| - 2]);
      ListedIsEdge(up, p[|p| - 2], p[|p| - 1]);
      assert forall k :: 0 <= k < |q| ==> q[k] == p[k];
    }
  }

  lemma ParsedEverywhere(up: Upstream, roots: seq<string>, found: map<string, Dep>, order: seq<string>)
    requires Sound(up, roots, found, order) && forall n :: n in found <==> Reachable(up, roots, n)
    ensures forall n :: Reachable(up, roots, n) ==> !up.Find(n).Unparsable?
  {
    forall n | Reachable(up, roots, n) ensures !up.Find(n).Unparsable? {
      assert n in found;
      assert found[n] == found[n];
    }
  }
}
