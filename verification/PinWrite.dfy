/** The `--write TAG` mode of the pinning script: planning, writing, and the outcome as a function of the inputs. */
module PinWrite {
  import opened Sequences
  import opened Orders
  import opened Manifests
  import opened DependencyWalk
  import opened InjectRev
  import opened PinModes

  type Fetch = (string, string) -> Option<Text>

  /** `lsRemote(url, tag)` is the tag's commit in that repository; `header` is the generated overlay header. */
  datatype Args =
    Args(tag: string, header: Text, allow: set<string>, allowPartial: bool, dryRun: bool,
         lsRemote: (string, string) -> Option<string>)

  datatype Decision = Leave | HandMaintained | Unpinnable | NoTag | Pin(sha: string, body: Text)

  /** What the plan does with one dependency. */
  function Decide(d: Dep, fetch: Fetch, rev: string, args: Args): (r: Decision) {
    if d.url.None? || d.name in args.allow || (d.kind == Pinned && !d.isOverlay) then Leave
    else match fetch(rev, d.name)
      case None => if d.kind == Floating then Unpinnable else HandMaintained
      case Some(body) =>
        match args.lsRemote(d.url.value, args.tag)
        case None => NoTag
        case Some(sha) => Pin(sha, body)
  }

  datatype Resolution = Resolution(dep: Dep, sha: string, body: Text)

  /** The resolutions of the first `n` dependencies, in order. */
  function Resolutions(deps: seq<Dep>, n: nat, fetch: Fetch, rev: string, args: Args): (r: seq<Resolution>)
    requires n <= |deps|
  {
    if n == 0 then []
    else
      var d := Decide(deps[n - 1], fetch, rev, args);
      Resolutions(deps, n - 1, fetch, rev, args) + if d.Pin? then [Resolution(deps[n - 1], d.sha, d.body)] else []
  }

  /** Every dependency is resolved before anything is written. */
  method ResolveForWrite(deps: seq<Dep>, fetch: Fetch, rev: string, args: Args)
    returns (resolved: seq<Resolution>, skipped: seq<Dep>, unpinnable: seq<Dep>)
    ensures resolved == Resolutions(deps, |deps|, fetch, rev, args)
    ensures forall d :: d in skipped <==> d in deps && Decide(d, fetch, rev, args) == NoTag
    ensures forall d :: d in unpinnable <==> d in deps && Decide(d, fetch, rev, args) == Unpinnable
  {
    resolved, skipped, unpinnable := [], [], [];
    for i := 0 to |deps|
      invariant resolved == Resolutions(deps, i, fetch, rev, args)
      invariant forall d :: d in skipped <==> d in deps[..i] && Decide(d, fetch, rev, args) == NoTag
      invariant forall d :: d in unpinnable <==> d in deps[..i] && Decide(d, fetch, rev, args) == Unpinnable
    {
      var dep := deps[i];
      assert deps[..i + 1] == deps[..i] + [dep];
      if dep.url.None? || dep.name in args.allow { continue; }
      if dep.kind == Pinned && !dep.isOverlay { continue; }
      var body := fetch(rev, dep.name);
      if body.None? {
        if dep.kind == Floating { unpinnable := unpinnable + [dep]; }
        continue;
      }
      var sha := args.lsRemote(dep.url.value, args.tag);
      if sha.None? {
        skipped := skipped + [dep];
      } else {
        resolved := resolved + [Resolution(dep, sha.value, body.value)];
      }
    }
    assert deps[..|deps|] == deps;
  }

  // ---------- writing ----------

  /** The overlays after the first `n` writes. */
  function Applied(overlays: map<string, Text>, header: Text, resolved: seq<Resolution>, n: nat): (r: map<string, Text>)
    requires n <= |resolved| && forall i :: 0 <= i < n ==> Injectable(resolved[i].body)
  {
    if n == 0 then overlays
    else
      var last := resolved[n - 1];
      Applied(overlays, header, resolved, n - 1)[last.dep.name := header + Injected(last.body, last.sha).value]
  }

  /** The first resolution whose body has no place for a rev, or all of them. */
  function FirstStuck(resolved: seq<Resolution>, from: nat): (r: nat)
    requires from <= |resolved|
    ensures from <= r <= |resolved| && (r < |resolved| ==> !Injectable(resolved[r].body))
    ensures forall i :: from <= i < r ==> Injectable(resolved[i].body)
    decreases |resolved| - from
  {
    if from == |resolved| || !Injectable(resolved[from].body) then from else FirstStuck(resolved, from + 1)
  }

  /** Writes one overlay after another and aborts at the first body it cannot rewrite. */
  method WriteOverlays(overlays: map<string, Text>, resolved: seq<Resolution>, args: Args)
    returns (after: map<string, Text>, done: nat)
    ensures done == FirstStuck(resolved, 0)
    ensures after == if args.dryRun then overlays else Applied(overlays, args.header, resolved, done)
  {
    after, done := overlays, 0;
    while done < |resolved|
      invariant done <= FirstStuck(resolved, 0)
      invariant after == if args.dryRun then overlays else Applied(overlays, args.header, resolved, done)
    {
      var lines := Inject(resolved[done].body, resolved[done].sha);
      if lines.None? { return; }
      if !args.dryRun { after := after[resolved[done].dep.name := args.header + lines.value]; }
      done := done + 1;
    }
  }

  ghost predicate DistinctNames(resolved: seq<Resolution>) {
    forall i, j :: 0 <= i < j < |resolved| ==> resolved[i].dep.name != resolved[j].dep.name
  }

  /** A written overlay is final; a name not yet written keeps what it had. */
  lemma {:induction false} AppliedAt(overlays: map<string, Text>, header: Text, resolved: seq<Resolution>, n: nat,
                                     i: nat)
    requires DistinctNames(resolved) && n <= |resolved| && i < n
    requires forall k :: 0 <= k < n ==> Injectable(resolved[k].body)
    ensures var a, name := Applied(overlays, header, resolved, n), resolved[i].dep.name;
            name in a && a[name] == header + Injected(resolved[i].body, resolved[i].sha).value
  {
    if i < n - 1 { AppliedAt(overlays, header, resolved, n - 1, i); }
  }

  /** Same entry, or none, in both maps. */
  ghost predicate SameAt(a: map<string, Text>, b: map<string, Text>, name: string) {
    (name in a <==> name in b) && (name in a ==> a[name] == b[name])
  }

  lemma {:induction false} AppliedElsewhere(overlays: map<string, Text>, header: Text, resolved: seq<Resolution>,
                                            n: nat, name: string)
    requires n <= |resolved| && forall k :: 0 <= k < n ==> Injectable(resolved[k].body) && resolved[k].dep.name != name
    ensures SameAt(Applied(overlays, header, resolved, n), overlays, name)
  {
    if n > 0 { AppliedElsewhere(overlays, header, resolved, n - 1, name); }
  }

  // ---------- the outcome, from the inputs alone ----------

  datatype WriteResult =
    NoParse | NoFbthrift | NoSuchTag | HasUnpinnable | LacksTag | NothingToPin | NoPlaceForRev | Wrote

  const FBTHRIFT := "fbthrift-python"

  /** What a walk records about `name`, up to the path it took. */
  ghost function DepOf(up: Upstream, name: string): (d: Dep) {
    if up.Find(name).Unparsable? then Dep(name, Missing, None, None, false, []) else Classified(up.Find(name), name, [])
  }

  /** The commit of the tag in fbthrift's repository: manifest bodies are read at this revision. */
  ghost function TagRev(up: Upstream, args: Args): (r: Option<string>) {
    var url := DepOf(up, FBTHRIFT).url;
    if url.Some? then args.lsRemote(url.value, args.tag) else None
  }

  /** What the plan does with `name`. */
  ghost function Verdict(up: Upstream, args: Args, name: string): (v: Decision) {
    var rev := TagRev(up, args);
    Decide(DepOf(up, name), up.fetch, if rev.Some? then rev.value else "", args)
  }

  ghost predicate AnyUnpinnable(up: Upstream, live: iset<string>, args: Args) {
    exists n :: n in live && Verdict(up, args, n) == Unpinnable
  }

  ghost predicate AnyUntagged(up: Upstream, live: iset<string>, args: Args) {
    exists n :: n in live && Verdict(up, args, n) == NoTag
  }

  ghost predicate AnyPin(up: Upstream, live: iset<string>, args: Args) {
    exists n :: n in live && Verdict(up, args, n).Pin?
  }

  /** Planned to be pinned, but its body has no place for a rev. */
  ghost predicate Stuck(up: Upstream, live: iset<string>, args: Args, name: string) {
    name in live && Verdict(up, args, name).Pin? && !Injectable(Verdict(up, args, name).body)
  }

  /** The outcome once the revision to read bodies at is known. */
  ghost function PlanOutcome(up: Upstream, live: iset<string>, args: Args): (r: WriteResult) {
    if AnyUnpinnable(up, live, args) then HasUnpinnable
    else if !args.allowPartial && AnyUntagged(up, live, args) then LacksTag
    else if !AnyPin(up, live, args) then NothingToPin
    else if exists m :: Stuck(up, live, args, m) then NoPlaceForRev
    else Wrote
  }

  /** The outcome of a run whose graph consists of the names in `live`. */
  ghost function Outcome(up: Upstream, live: iset<string>, args: Args): (r: WriteResult) {
    if FBTHRIFT !in live || DepOf(up, FBTHRIFT).url.None? then NoFbthrift
    else if TagRev(up, args).None? then NoSuchTag
    else PlanOutcome(up, live, args)
  }

  predicate ReachesWriting(r: WriteResult) { r == Wrote || r == NoPlaceForRev }

  /** The write loop gets to `name`: it is pinned, and no stuck name sorts before it. */
  ghost predicate Reached(up: Upstream, live: iset<string>, args: Args, name: string) {
    name in live && Verdict(up, args, name).Pin? &&
    forall m :: Stuck(up, live, args, m) ==> !LexLe(Codes(m), Codes(name))
  }

  /** Rewritten from the upstream body to its own repository's tag commit. */
  ghost predicate Rewritten(up: Upstream, args: Args, after: map<string, Text>, name: string) {
    var v := Verdict(up, args, name);
    v.Pin? && Injectable(v.body) && name in after && after[name] == args.header + Injected(v.body, v.sha).value
  }

  ghost predicate RewrittenOrKept(up: Upstream, live: iset<string>, args: Args, after: map<string, Text>,
                                  name: string) {
    if Reached(up, live, args, name) then Rewritten(up, args, after, name) else SameAt(after, up.overlays, name)
  }

  /** The overlays after a run with outcome `r`. */
  ghost predicate OverlaysAfter(up: Upstream, live: iset<string>, args: Args, r: WriteResult,
                                after: map<string, Text>) {
    if ReachesWriting(r) && !args.dryRun then forall n :: RewrittenOrKept(up, live, args, after, n)
    else after == up.overlays
  }

  // ---------- the sorted results decide as the inputs do ----------

  ghost predicate DecidesAs(up: Upstream, args: Args, rev: string, deps: seq<Dep>) {
    TagRev(up, args) == Some(rev) && forall d :: d in deps ==>
      Decide(d, up.fetch, rev, args) == Verdict(up, args, d.name)
  }

  ghost function FoundNames(found: map<string, Dep>): (r: iset<string>) { iset n | n in found }

  ghost predicate Lists(live: iset<string>, deps: seq<Dep>) {
    (forall d :: d in deps ==> d.name in live) && forall n :: n in live ==> exists d :: d in deps && d.name == n
  }

  lemma FoundDecides(up: Upstream, roots: seq<string>, found: map<string, Dep>, args: Args, rev: string, n: string)
    requires Recorded(up, roots, found) && n in found && TagRev(up, args) == Some(rev)
    ensures found[n].name == n && Decide(found[n], up.fetch, rev, args) == Verdict(up, args, n)
  {
    assert found[n] == Classified(up.Find(n), n, found[n].via);
  }

  lemma SortedDecides(up: Upstream, roots: seq<string>, found: map<string, Dep>, order: seq<string>, args: Args,
                      rev: string)
    requires Sound(up, roots, found, order) && TagRev(up, args) == Some(rev)
    ensures DecidesAs(up, args, rev, SortedDeps(found, order)) && Lists(FoundNames(found), SortedDeps(found, order))
  {
    var deps := SortedDeps(found, order);
    SortedDepsMembers(up, roots, found, order);
    forall d | d in deps ensures Decide(d, up.fetch, rev, args) == Verdict(up, args, d.name) {
      FoundDecides(up, roots, found, args, rev, d.name);
    }
    forall n | n in found ensures exists d :: d in deps && d.name == n {
      FoundDecides(up, roots, found, args, rev, n);
      assert found[n] in deps;
    }
  }

  /** A verdict occurs among the names exactly when it occurs as a decision in the list. */
  lemma VerdictByList(up: Upstream, live: iset<string>, args: Args, rev: string, deps: seq<Dep>, v: Decision)
    requires DecidesAs(up, args, rev, deps) && Lists(live, deps)
    ensures (exists n :: n in live && Verdict(up, args, n) == v) <==>
            exists d :: d in deps && Decide(d, up.fetch, rev, args) == v
  {
    if n :| n in live && Verdict(up, args, n) == v {
      var d :| d in deps && d.name == n;
      assert Decide(d, up.fetch, rev, args) == v;
    }
    if d :| d in deps && Decide(d, up.fetch, rev, args) == v {
      assert d.name in live && Verdict(up, args, d.name) == v;
    }
  }

  // ---------- resolutions ----------

  /** Where a resolution comes from. */
  lemma {:induction false} ResolutionFrom(deps: seq<Dep>, n: nat, fetch: Fetch, rev: string, args: Args, k: nat)
    returns (i: nat)
    requires n <= |deps| && k < |Resolutions(deps, n, fetch, rev, args)|
    ensures i < n
    ensures var x := Resolutions(deps, n, fetch, rev, args)[k];
            x.dep == deps[i] && Decide(deps[i], fetch, rev, args) == Pin(x.sha, x.body)
  {
    if k < |Resolutions(deps, n - 1, fetch, rev, args)| {
      i := ResolutionFrom(deps, n - 1, fetch, rev, args, k);
    } else {
      i := n - 1;
    }
  }

  lemma {:induction false} ResolutionOf(deps: seq<Dep>, n: nat, fetch: Fetch, rev: string, args: Args, i: nat)
    returns (k: nat)
    requires i < n <= |deps| && Decide(deps[i], fetch, rev, args).Pin?
    ensures k < |Resolutions(deps, n, fetch, rev, args)| && Resolutions(deps, n, fetch, rev, args)[k].dep == deps[i]
  {
    if i == n - 1 {
      k := |Resolutions(deps, n, fetch, rev, args)| - 1;
    } else {
      k := ResolutionOf(deps, n - 1, fetch, rev, args, i);
    }
  }

  ghost predicate ResolvedAscend(resolved: seq<Resolution>) {
    forall i, j :: 0 <= i < j < |resolved| ==> !LexLe(Codes(resolved[j].dep.name), Codes(resolved[i].dep.name))
  }

  lemma {:induction false} ResolutionsAscend(deps: seq<Dep>, n: nat, fetch: Fetch, rev: string, args: Args)
    requires n <= |deps| && NamesAscend(deps)
    ensures ResolvedAscend(Resolutions(deps, n, fetch, rev, args))
  {
    if n > 0 {
      ResolutionsAscend(deps, n - 1, fetch, rev, args);
      var before := Resolutions(deps, n - 1, fetch, rev, args);
      forall k | 0 <= k < |before| ensures !LexLe(Codes(deps[n - 1].name), Codes(before[k].dep.name)) {
        var i := ResolutionFrom(deps, n - 1, fetch, rev, args, k);
      }
    }
  }

  lemma AscendingDiffer(resolved: seq<Resolution>)
    requires ResolvedAscend(resolved)
    ensures DistinctNames(resolved)
  {
    forall i, j | 0 <= i < j < |resolved| ensures resolved[i].dep.name != resolved[j].dep.name {
      LexReflexive(Codes(resolved[i].dep.name));
    }
  }

  /** The resolved list is the pinned names in ascending order, each with its commit and body. */
  ghost predicate Planned(up: Upstream, live: iset<string>, args: Args, resolved: seq<Resolution>) {
    ResolvedAscend(resolved) &&
    (forall k :: 0 <= k < |resolved| ==>
       resolved[k].dep.name in live &&
       Verdict(up, args, resolved[k].dep.name) == Pin(resolved[k].sha, resolved[k].body)) &&
    forall n :: n in live && Verdict(up, args, n).Pin? ==> exists k :: 0 <= k < |resolved| && resolved[k].dep.name == n
  }

  lemma PlanHolds(up: Upstream, live: iset<string>, args: Args, rev: string, deps: seq<Dep>)
    requires DecidesAs(up, args, rev, deps) && Lists(live, deps) && NamesAscend(deps)
    ensures Planned(up, live, args, Resolutions(deps, |deps|, up.fetch, rev, args))
  {
    var resolved := Resolutions(deps, |deps|, up.fetch, rev, args);
    ResolutionsAscend(deps, |deps|, up.fetch, rev, args);
    forall k | 0 <= k < |resolved|
      ensures resolved[k].dep.name in live &&
              Verdict(up, args, resolved[k].dep.name) == Pin(resolved[k].sha, resolved[k].body)
    {
      var i := ResolutionFrom(deps, |deps|, up.fetch, rev, args, k);
      assert deps[i] in deps;
    }
    forall n | n in live && Verdict(up, args, n).Pin?
      ensures exists k :: 0 <= k < |resolved| && resolved[k].dep.name == n
    {
      var d :| d in deps && d.name == n;
      var i :| 0 <= i < |deps| && deps[i] == d;
      var k := ResolutionOf(deps, |deps|, up.fetch, rev, args, i);
    }
  }

  lemma StuckIff(up: Upstream, live: iset<string>, args: Args, resolved: seq<Resolution>)
    requires Planned(up, live, args, resolved)
    ensures (exists m :: Stuck(up, live, args, m)) <==> FirstStuck(resolved, 0) < |resolved|
  {
    var k := FirstStuck(resolved, 0);
    if k < |resolved| { assert Stuck(up, live, args, resolved[k].dep.name); }
    if m :| Stuck(up, live, args, m) {
      var j :| 0 <= j < |resolved| && resolved[j].dep.name == m;
    }
  }

  /** The write loop reaches exactly the names before the first stuck body. */
  lemma ReachedAt(up: Upstream, live: iset<string>, args: Args, resolved: seq<Resolution>, i: nat)
    requires Planned(up, live, args, resolved) && i < |resolved|
    ensures Reached(up, live, args, resolved[i].dep.name) <==> i < FirstStuck(resolved, 0)
  {
    var k, name := FirstStuck(resolved, 0), resolved[i].dep.name;
    if i < k {
      forall m | Stuck(up, live, args, m) ensures !LexLe(Codes(m), Codes(name)) {
        StuckComesLater(up, live, args, resolved, i, m);
      }
    } else {
      assert Stuck(up, live, args, resolved[k].dep.name);
      NameOrder(resolved, k, i);
    }
  }

  lemma NameOrder(resolved: seq<Resolution>, k: nat, i: nat)
    requires ResolvedAscend(resolved) && k <= i < |resolved|
    ensures LexLe(Codes(resolved[k].dep.name), Codes(resolved[i].dep.name))
  {
    if k == i {
      LexReflexive(Codes(resolved[i].dep.name));
    } else {
      LexTotal(Codes(resolved[k].dep.name), Codes(resolved[i].dep.name));
    }
  }

  lemma StuckComesLater(up: Upstream, live: iset<string>, args: Args, resolved: seq<Resolution>, i: nat, m: string)
    requires Planned(up, live, args, resolved) && i < FirstStuck(resolved, 0) && Stuck(up, live, args, m)
    ensures !LexLe(Codes(m), Codes(resolved[i].dep.name))
  {
    var j :| 0 <= j < |resolved| && resolved[j].dep.name == m;
    assert !Injectable(resolved[j].body);
  }

  lemma AppliedAsPlanned(up: Upstream, live: iset<string>, args: Args, resolved: seq<Resolution>, name: string)
    requires Planned(up, live, args, resolved)
    ensures RewrittenOrKept(up, live, args, Applied(up.overlays, args.header, resolved, FirstStuck(resolved, 0)), name)
  {
    var k := FirstStuck(resolved, 0);
    if i :| 0 <= i < |resolved| && resolved[i].dep.name == name {
      ReachedAt(up, live, args, resolved, i);
      AscendingDiffer(resolved);
      if i < k {
        AppliedAt(up.overlays, args.header, resolved, k, i);
      } else {
        AppliedElsewhere(up.overlays, args.header, resolved, k, name);
      }
    } else {
      AppliedElsewhere(up.overlays, args.header, resolved, k, name);
    }
  }

  // ---------- the two levels of the mode ----------

  lemma ResolvedIffPin(up: Upstream, live: iset<string>, args: Args, resolved: seq<Resolution>)
    requires Planned(up, live, args, resolved)
    ensures AnyPin(up, live, args) <==> resolved != []
  {
    if resolved != [] { assert Verdict(up, args, resolved[0].dep.name).Pin?; }
  }

  /** The write loop over a plan. */
  method WriteAll(up: Upstream, ghost live: iset<string>, args: Args, resolved: seq<Resolution>)
    returns (r: WriteResult, after: map<string, Text>)
    requires Planned(up, live, args, resolved)
    ensures r == if exists m :: Stuck(up, live, args, m) then NoPlaceForRev else Wrote
    ensures OverlaysAfter(up, live, args, r, after)
  {
    StuckIff(up, live, args, resolved);
    var done;
    after, done := WriteOverlays(up.overlays, resolved, args);
    r := if done < |resolved| then NoPlaceForRev else Wrote;
    if !args.dryRun {
      forall n ensures RewrittenOrKept(up, live, args, after, n) { AppliedAsPlanned(up, live, args, resolved, n); }
    }
  }

  /** Planning over sorted results: what would be refused, and the resolved list. */
  method MakePlan(up: Upstream, deps: seq<Dep>, args: Args, rev: string, ghost live: iset<string>)
    returns (resolved: seq<Resolution>, untagged: bool, unpinnable: bool)
    requires DecidesAs(up, args, rev, deps) && Lists(live, deps) && NamesAscend(deps)
    ensures Planned(up, live, args, resolved)
    ensures untagged <==> AnyUntagged(up, live, args)
    ensures unpinnable <==> AnyUnpinnable(up, live, args)
  {
    var skipped, stuck;
    resolved, skipped, stuck := ResolveForWrite(deps, up.fetch, rev, args);
    untagged, unpinnable := skipped != [], stuck != [];
    VerdictByList(up, live, args, rev, deps, NoTag);
    VerdictByList(up, live, args, rev, deps, Unpinnable);
    if untagged { assert skipped[0] in skipped; }
    if unpinnable { assert stuck[0] in stuck; }
    PlanHolds(up, live, args, rev, deps);
  }

  /** Refusals come first, and only then anything is written. */
  method WritePlan(up: Upstream, deps: seq<Dep>, args: Args, rev: string, ghost live: iset<string>)
    returns (r: WriteResult, after: map<string, Text>)
    requires DecidesAs(up, args, rev, deps) && Lists(live, deps) && NamesAscend(deps)
    ensures r == PlanOutcome(up, live, args) && OverlaysAfter(up, live, args, r, after)
  {
    after := up.overlays;
    var resolved, untagged, unpinnable := MakePlan(up, deps, args, rev, live);
    ResolvedIffPin(up, live, args, resolved);
    if unpinnable { return HasUnpinnable, after; }
    if untagged && !args.allowPartial { return LacksTag, after; }
    if resolved == [] { return NothingToPin, after; }
    r, after := WriteAll(up, live, args, resolved);
  }

  lemma FbthriftRecorded(up: Upstream, roots: seq<string>, found: map<string, Dep>, args: Args)
    requires Recorded(up, roots, found) && FBTHRIFT in found
    ensures found[FBTHRIFT].url == DepOf(up, FBTHRIFT).url
  {
    assert found[FBTHRIFT] == Classified(up.Find(FBTHRIFT), FBTHRIFT, found[FBTHRIFT].via);
  }

  /** The write mode over a finished walk. */
  method ModeWrite(up: Upstream, found: map<string, Dep>, order: seq<string>, args: Args, ghost roots: seq<string>)
    returns (r: WriteResult, after: map<string, Text>, snapshot: Option<string>)
    requires Sound(up, roots, found, order)
    ensures r == Outcome(up, FoundNames(found), args) && OverlaysAfter(up, FoundNames(found), args, r, after)
    ensures snapshot == if r == Wrote && !args.dryRun then Some(args.tag) else None
  {
    after, snapshot := up.overlays, None;
    if FBTHRIFT !in found { return NoFbthrift, after, snapshot; }
    FbthriftRecorded(up, roots, found, args);
    if found[FBTHRIFT].url.None? { return NoFbthrift, after, snapshot; }
    var rev := args.lsRemote(found[FBTHRIFT].url.value, args.tag);
    if rev.None? { return NoSuchTag, after, snapshot; }
    SortedDecides(up, roots, found, order, args, rev.value);
    SortedAscend(up, roots, found, order);
    r, after := WritePlan(up, SortedDeps(found, order), args, rev.value, FoundNames(found));
    if r == Wrote && !args.dryRun { snapshot := Some(args.tag); }
  }

  /** The names of the dependency graph. */
  ghost function Live(up: Upstream, roots: seq<string>): (r: iset<string>) { iset n | Reachable(up, roots, n) }

  /** Some dependency is unpinnable, or lacks the tag in a run that must be complete. */
  ghost predicate Refused(up: Upstream, live: iset<string>, args: Args) {
    AnyUnpinnable(up, live, args) || (AnyUntagged(up, live, args) && !args.allowPartial)
  }

  // ---------- the outcome by manifests, fetches and tags ----------

  /** `url` is the first non-empty repo_url in the git sections of the manifest. */
  ghost predicate HasUrl(up: Upstream, n: string, url: string) {
    up.Find(n).Present? && FirstOffer(up.Find(n).manifest.sections, Git, "repo_url", Some(url))
  }

  ghost predicate HasRev(up: Upstream, n: string) {
    up.Find(n).Present? && HasGitValue(up.Find(n).manifest, "rev")
  }

  /** A dependency with a repository that is neither allowed to float nor pinned upstream. */
  ghost predicate Candidate(up: Upstream, args: Args, n: string, url: string) {
    HasUrl(up, n, url) && n !in args.allow && (HasRev(up, n) ==> up.Find(n).isOverlay)
  }

  /** `fb` is the tag's commit in fbthrift's repository. */
  ghost predicate TagCommit(up: Upstream, args: Args, fb: string) {
    exists url :: HasUrl(up, FBTHRIFT, url) && args.lsRemote(url, args.tag) == Some(fb)
  }

  /** `sha` is the tag's commit in the dependency's own repository, `body` its manifest at fbthrift's. */
  ghost predicate PinnedTo(up: Upstream, args: Args, fb: string, n: string, sha: string, body: Text) {
    up.fetch(fb, n) == Some(body) &&
    exists url :: Candidate(up, args, n, url) && args.lsRemote(url, args.tag) == Some(sha)
  }

  ghost predicate Untagged(up: Upstream, args: Args, fb: string, n: string) {
    up.fetch(fb, n).Some? && exists url :: Candidate(up, args, n, url) && args.lsRemote(url, args.tag).None?
  }

  /** No upstream manifest to inject a rev into, and no rev yet. */
  ghost predicate Bodiless(up: Upstream, args: Args, fb: string, n: string) {
    up.fetch(fb, n).None? && !HasRev(up, n) && exists url :: Candidate(up, args, n, url)
  }

  lemma UrlOfDep(up: Upstream, n: string, url: string)
    ensures DepOf(up, n).url == Some(url) <==> HasUrl(up, n, url)
  {
    var l := up.Find(n);
    if l.Present? {
      ClassifiedValues(l.manifest, l.isOverlay, n, []);
      if HasUrl(up, n, url) {
        FirstOfferUnique(l.manifest.sections, Git, "repo_url", DepOf(up, n).url, Some(url));
      }
    }
  }

  lemma CandidateOfDep(up: Upstream, args: Args, n: string, url: string)
    ensures Candidate(up, args, n, url) <==>
            var d := DepOf(up, n);
            d.url == Some(url) && n !in args.allow && (d.kind == Pinned ==> d.isOverlay)
  {
    UrlOfDep(up, n, url);
    if up.Find(n).Present? { ClassifiedBySections(up.Find(n).manifest, up.Find(n).isOverlay, n, []); }
  }

  /** Which names are pinned, and to what; which are untagged, unpinnable, kept by hand or left alone. */
  lemma VerdictByInputs(up: Upstream, args: Args, fb: string, n: string)
    requires TagRev(up, args) == Some(fb)
    ensures forall sha, body :: Verdict(up, args, n) == Pin(sha, body) <==> PinnedTo(up, args, fb, n, sha, body)
    ensures Verdict(up, args, n) == NoTag <==> Untagged(up, args, fb, n)
    ensures Verdict(up, args, n) == Unpinnable <==> Bodiless(up, args, fb, n)
    ensures Verdict(up, args, n) == HandMaintained <==>
            up.fetch(fb, n).None? && HasRev(up, n) && exists url :: Candidate(up, args, n, url)
    ensures Verdict(up, args, n) == Leave <==> !exists url :: Candidate(up, args, n, url)
  {
    forall url
      ensures Candidate(up, args, n, url) <==>
              DepOf(up, n).url == Some(url) && n !in args.allow &&
              (DepOf(up, n).kind == Pinned ==> DepOf(up, n).isOverlay)
    {
      CandidateOfDep(up, args, n, url);
    }
    if up.Find(n).Present? { ClassifiedBySections(up.Find(n).manifest, up.Find(n).isOverlay, n, []); }
    var d := DepOf(up, n);
    if d.url.Some? { assert Candidate(up, args, n, d.url.value) || Verdict(up, args, n) == Leave; }
  }

  lemma TagCommitIsRev(up: Upstream, args: Args, fb: string)
    ensures TagRev(up, args) == Some(fb) <==> TagCommit(up, args, fb)
  {
    forall url ensures DepOf(up, FBTHRIFT).url == Some(url) <==> HasUrl(up, FBTHRIFT, url) {
      UrlOfDep(up, FBTHRIFT, url);
    }
    var url := DepOf(up, FBTHRIFT).url;
    if url.Some? { assert HasUrl(up, FBTHRIFT, url.value); }
  }

  ghost predicate SomeBodiless(up: Upstream, live: iset<string>, args: Args, fb: string) {
    exists n :: n in live && Bodiless(up, args, fb, n)
  }

  ghost predicate SomeUntagged(up: Upstream, live: iset<string>, args: Args, fb: string) {
    exists n :: n in live && Untagged(up, args, fb, n)
  }

  ghost predicate SomePinned(up: Upstream, live: iset<string>, args: Args, fb: string) {
    exists n, sha, body :: n in live && PinnedTo(up, args, fb, n, sha, body)
  }

  /** A manifest to be pinned whose body has no place for a rev. */
  ghost predicate Blocks(up: Upstream, live: iset<string>, args: Args, fb: string, n: string) {
    n in live && exists sha, body :: PinnedTo(up, args, fb, n, sha, body) && !Injectable(body)
  }

  /** Outcome by outcome, once fbthrift has a tag commit; the first refusal that applies wins. */
  ghost predicate OutcomeFrom(up: Upstream, live: iset<string>, args: Args, fb: string, r: WriteResult) {
    var incomplete := !args.allowPartial && SomeUntagged(up, live, args, fb);
    if SomeBodiless(up, live, args, fb) then r == HasUnpinnable
    else if incomplete then r == LacksTag
    else if !SomePinned(up, live, args, fb) then r == NothingToPin
    else r == if exists m :: Blocks(up, live, args, fb, m) then NoPlaceForRev else Wrote
  }

  lemma RefusalsByInputs(up: Upstream, live: iset<string>, args: Args, fb: string)
    requires TagRev(up, args) == Some(fb)
    ensures AnyUnpinnable(up, live, args) <==> SomeBodiless(up, live, args, fb)
    ensures AnyUntagged(up, live, args) <==> SomeUntagged(up, live, args, fb)
  {
    forall n
      ensures Verdict(up, args, n) == NoTag <==> Untagged(up, args, fb, n)
      ensures Verdict(up, args, n) == Unpinnable <==> Bodiless(up, args, fb, n)
    {
      VerdictByInputs(up, args, fb, n);
    }
  }

  lemma StuckByInputs(up: Upstream, live: iset<string>, args: Args, fb: string, n: string)
    requires TagRev(up, args) == Some(fb)
    ensures Stuck(up, live, args, n) <==> Blocks(up, live, args, fb, n)
  {
    VerdictByInputs(up, args, fb, n);
    var v := Verdict(up, args, n);
    if v.Pin? { assert v == Pin(v.sha, v.body) && PinnedTo(up, args, fb, n, v.sha, v.body); }
  }

  lemma PinnedByInputs(up: Upstream, live: iset<string>, args: Args, fb: string)
    requires TagRev(up, args) == Some(fb)
    ensures AnyPin(up, live, args) <==> SomePinned(up, live, args, fb)
  {
    if n :| n in live && Verdict(up, args, n).Pin? {
      var v := Verdict(up, args, n);
      VerdictByInputs(up, args, fb, n);
      assert v == Pin(v.sha, v.body);
    }
    if n, sha, body :| n in live && PinnedTo(up, args, fb, n, sha, body) { VerdictByInputs(up, args, fb, n); }
  }

  lemma OutcomeByInputs(up: Upstream, live: iset<string>, args: Args, fb: string)
    requires FBTHRIFT in live && TagCommit(up, args, fb)
    ensures OutcomeFrom(up, live, args, fb, Outcome(up, live, args))
  {
    TagCommitIsRev(up, args, fb);
    RefusalsByInputs(up, live, args, fb);
    PinnedByInputs(up, live, args, fb);
    forall m ensures Stuck(up, live, args, m) <==> Blocks(up, live, args, fb, m) {
      StuckByInputs(up, live, args, fb, m);
    }
  }

  /** The write loop gets to `n`, which is to be pinned. */
  ghost predicate Gets(up: Upstream, live: iset<string>, args: Args, fb: string, n: string, sha: string, body: Text) {
    n in live && PinnedTo(up, args, fb, n, sha, body) &&
    forall m :: Blocks(up, live, args, fb, m) ==> !LexLe(Codes(m), Codes(n))
  }

  /** One overlay after a run that got to writing: header and upstream body with the dependency's own tag commit
      injected, or what it was before. */
  ghost predicate OverlayFrom(up: Upstream, live: iset<string>, args: Args, fb: string, after: map<string, Text>,
                              n: string) {
    (forall sha, body :: Gets(up, live, args, fb, n, sha, body) ==>
       Injectable(body) && n in after && after[n] == args.header + Injected(body, sha).value) &&
    ((forall sha, body :: !Gets(up, live, args, fb, n, sha, body)) ==> SameAt(after, up.overlays, n))
  }

  lemma OverlayByInputs(up: Upstream, live: iset<string>, args: Args, fb: string, after: map<string, Text>, n: string)
    requires TagRev(up, args) == Some(fb) && RewrittenOrKept(up, live, args, after, n)
    ensures OverlayFrom(up, live, args, fb, after, n)
  {
    var v := Verdict(up, args, n);
    VerdictByInputs(up, args, fb, n);
    forall m ensures Stuck(up, live, args, m) <==> Blocks(up, live, args, fb, m) {
      StuckByInputs(up, live, args, fb, m);
    }
    if v.Pin? { assert v == Pin(v.sha, v.body); }
    if Reached(up, live, args, n) {
      assert Gets(up, live, args, fb, n, v.sha, v.body);
    } else {
      forall sha, body ensures !Gets(up, live, args, fb, n, sha, body) {}
    }
  }

  /** The run's outcome and every overlay after it, by what the manifests say, what upstream has and what is tagged. */
  ghost predicate RunFrom(up: Upstream, live: iset<string>, args: Args, r: WriteResult, after: map<string, Text>) {
    (r == NoFbthrift <==> FBTHRIFT !in live || forall url :: !HasUrl(up, FBTHRIFT, url)) &&
    (r != NoFbthrift ==> (r == NoSuchTag <==> forall fb :: !TagCommit(up, args, fb))) &&
    forall fb :: r != NoFbthrift && TagCommit(up, args, fb) ==>
      OutcomeFrom(up, live, args, fb, r) &&
      if args.dryRun || (r != Wrote && r != NoPlaceForRev) then after == up.overlays
      else forall n :: OverlayFrom(up, live, args, fb, after, n)
  }

  lemma RunByInputs(up: Upstream, live: iset<string>, args: Args, after: map<string, Text>)
    requires OverlaysAfter(up, live, args, Outcome(up, live, args), after)
    ensures RunFrom(up, live, args, Outcome(up, live, args), after)
  {
    var url, r := DepOf(up, FBTHRIFT).url, Outcome(up, live, args);
    forall url ensures DepOf(up, FBTHRIFT).url == Some(url) <==> HasUrl(up, FBTHRIFT, url) {
      UrlOfDep(up, FBTHRIFT, url);
    }
    if url.Some? { assert HasUrl(up, FBTHRIFT, url.value); }
    forall fb ensures TagRev(up, args) == Some(fb) <==> TagCommit(up, args, fb) { TagCommitIsRev(up, args, fb); }
    if TagRev(up, args).Some? { assert TagCommit(up, args, TagRev(up, args).value); }
    forall fb | r != NoFbthrift && TagCommit(up, args, fb)
      ensures OutcomeFrom(up, live, args, fb, r)
      ensures ReachesWriting(r) && !args.dryRun ==> forall n :: OverlayFrom(up, live, args, fb, after, n)
    {
      OutcomeByInputs(up, live, args, fb);
      if ReachesWriting(r) && !args.dryRun {
        forall n ensures OverlayFrom(up, live, args, fb, after, n) { OverlayByInputs(up, live, args, fb, after, n); }
      }
    }
  }

  /** `--write` end to end: what happens, and every overlay afterwards, from the inputs alone. */
  method Write(up: Upstream, roots: seq<string>, args: Args, ghost names: set<string>)
    returns (r: WriteResult, after: map<string, Text>, snapshot: Option<string>)
    requires Universe(up, roots, names)
    ensures r == if exists n :: Reachable(up, roots, n) && up.Find(n).Unparsable? then NoParse
                 else Outcome(up, Live(up, roots), args)
    ensures OverlaysAfter(up, Live(up, roots), args, r, after)
    ensures r != NoParse ==> RunFrom(up, Live(up, roots), args, r, after)
    ensures Refused(up, Live(up, roots), args) ==> after == up.overlays
    ensures snapshot == if r == Wrote && !args.dryRun then Some(args.tag) else None
  {
    var store := new ManifestStore(up);
    var ok, found, order := Walk(store, roots, names);
    if !ok { return NoParse, up.overlays, None; }
    assert FoundNames(found) == Live(up, roots);
    r, after, snapshot := ModeWrite(up, found, order, args, roots);
    RunByInputs(up, Live(up, roots), args, after);
    if Refused(up, Live(up, roots), args) { RefusedNeverWrites(up, Live(up, roots), args); }
  }

  lemma RefusedNeverWrites(up: Upstream, live: iset<string>, args: Args)
    requires Refused(up, live, args)
    ensures !ReachesWriting(Outcome(up, live, args))
  {
  }

  // ---------- when a run completes, and what it then leaves ----------

  /** The run has something to write and nothing to refuse. */
  ghost predicate Writable(up: Upstream, live: iset<string>, args: Args) {
    FBTHRIFT in live && DepOf(up, FBTHRIFT).url.Some? && TagRev(up, args).Some? && AnyPin(up, live, args) &&
    !Refused(up, live, args)
  }

  /** A run gets to writing exactly when it is writable, and then completes exactly when every body that is
      pinned has a place for the rev. */
  lemma CompletesIff(up: Upstream, live: iset<string>, args: Args)
    ensures ReachesWriting(Outcome(up, live, args)) <==> Writable(up, live, args)
    ensures Outcome(up, live, args) == Wrote <==>
            Writable(up, live, args) &&
            forall n :: n in live && Verdict(up, args, n).Pin? ==> Injectable(Verdict(up, args, n).body)
  {
    if Refused(up, live, args) { RefusedNeverWrites(up, live, args); }
    if n :| n in live && Verdict(up, args, n).Pin? && !Injectable(Verdict(up, args, n).body) {
      assert Stuck(up, live, args, n);
    }
  }

  ghost predicate FloatsOutside(up: Upstream, name: string, allow: set<string>) {
    up.Find(name).Present? && DepOf(up, name).kind == Floating && name !in allow
  }

  /** A complete run rewrites every floating dependency outside the allow list. */
  lemma FloatingIsRewritten(up: Upstream, live: iset<string>, args: Args, name: string)
    requires Outcome(up, live, args) == Wrote && !args.allowPartial && name in live
    requires FloatsOutside(up, name, args.allow)
    ensures Reached(up, live, args, name)
  {
    assert Verdict(up, args, name) != Unpinnable && Verdict(up, args, name) != NoTag;
    assert Verdict(up, args, name).Pin?;
  }

  // ---------- a run that stops half way ----------

  /** Of two pinned names, the run rewrites one overlay and leaves the other as it was. */
  ghost predicate Splits(up: Upstream, live: iset<string>, args: Args, after: map<string, Text>, a: string, b: string) {
    Reached(up, live, args, a) && Rewritten(up, args, after, a) &&
    b in live && Verdict(up, args, b).Pin? && !Reached(up, live, args, b) && SameAt(after, up.overlays, b)
  }

  ghost predicate HalfMigrates(up: Upstream, live: iset<string>, args: Args, after: map<string, Text>) {
    exists a, b :: Splits(up, live, args, after, a, b)
  }

  /** A run that gets to writing leaves the overlays half migrated exactly when some pinned body has no place for the
      rev and some pinned name sorts before all of those. */
  lemma HalfMigratesIff(up: Upstream, live: iset<string>, args: Args, after: map<string, Text>)
    requires Writable(up, live, args) && !args.dryRun
    requires OverlaysAfter(up, live, args, Outcome(up, live, args), after)
    ensures HalfMigrates(up, live, args, after) <==>
            (exists m :: Stuck(up, live, args, m)) && exists n :: Reached(up, live, args, n)
  {
    CompletesIff(up, live, args);
    if a, b :| Splits(up, live, args, after, a, b) {
      var m :| Stuck(up, live, args, m) && LexLe(Codes(m), Codes(b));
    }
    if m, n :| Stuck(up, live, args, m) && Reached(up, live, args, n) {
      StuckIsKept(up, live, args, m);
      assert RewrittenOrKept(up, live, args, after, m) && RewrittenOrKept(up, live, args, after, n);
      assert Splits(up, live, args, after, n, m);
    }
  }

  lemma StuckIsKept(up: Upstream, live: iset<string>, args: Args, m: string)
    requires Stuck(up, live, args, m)
    ensures !Reached(up, live, args, m)
  {
    LexReflexive(Codes(m));
  }

  /** When no pinned name sorts before the stuck ones, an incomplete run leaves everything as it was. */
  lemma StuckAtOnceKeepsAll(up: Upstream, live: iset<string>, args: Args, after: map<string, Text>)
    requires Outcome(up, live, args) == NoPlaceForRev && OverlaysAfter(up, live, args, NoPlaceForRev, after)
    requires forall n :: !Reached(up, live, args, n)
    ensures after == up.overlays
  {
    if !args.dryRun {
      forall n ensures SameAt(after, up.overlays, n) { assert RewrittenOrKept(up, live, args, after, n); }
      forall n ensures n in after <==> n in up.overlays { assert SameAt(after, up.overlays, n); }
      forall n | n in after ensures after[n] == up.overlays[n] { assert SameAt(after, up.overlays, n); }
    }
  }
}
