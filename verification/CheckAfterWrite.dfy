/** Running `--check` over the overlays that `--write` left behind. */
module CheckAfterWrite {
  import opened Sequences
  import opened Manifests
  import opened DependencyWalk
  import opened InjectRev
  import opened ConfigText
  import opened RewrittenText
  import opened PinModes
  import opened PinWrite

  // ---------- the revision the next run reads manifests at ----------

  /** The leading part without spaces. */
  function Token(s: string): (r: string) {
    if s == [] || IsSpace(s[0]) then [] else [s[0]] + Token(s[1..])
  }

  /** The value of a rev line. */
  function RevValue(line: string): (r: string)
    requires IsRev(line)
  {
    Token(TrimLeft(TrimLeft(line[|REV|..])[1..]))
  }

  predicate HasRevValue(line: string) { IsRev(line) && RevValue(line) != [] }

  function FirstRevValue(text: Text, from: nat): (r: Option<string>)
    requires from <= |text|
    decreases |text| - from
  {
    if from == |text| then None
    else if HasRevValue(text[from]) then Some(RevValue(text[from]))
    else FirstRevValue(text, from + 1)
  }

  const MAIN := "main"

  /** `upstream_rev_for`: the rev of fbthrift's overlay, else the main branch. */
  function UpstreamRev(overlays: map<string, Text>): (r: string) {
    var rev := if FBTHRIFT in overlays then FirstRevValue(overlays[FBTHRIFT], 0) else None;
    if rev.Some? then rev.value else MAIN
  }

  lemma {:induction false} TokenOfCommit(s: string)
    requires forall i :: 0 <= i < |s| ==> !IsSpace(s[i])
    ensures Token(s) == s
  {
    if s != [] { TokenOfCommit(s[1..]); }
  }

  lemma RevLineValue(sha: string)
    requires IsCommit(sha)
    ensures HasRevValue(RevLine(sha)) && RevValue(RevLine(sha)) == sha
  {
    var r := RevLine(sha);
    RevLineIsRev(sha);
    assert r[3] == ' ' && r[4] == '=' && r[5] == ' ' && r[6..] == sha;
    assert r[3..][1..] == r[4..] && TrimLeft(r[3..]) == r[4..];
    assert r[4..][1..] == r[5..] && r[5..][1..] == sha;
    assert TrimLeft(r[5..]) == TrimLeft(sha) == sha;
    TokenOfCommit(sha);
  }

  lemma {:induction false} SkipsRevless(text: Text, from: nat, to: nat)
    requires from <= to < |text| && (forall i :: from <= i < to ==> !IsRev(text[i])) && HasRevValue(text[to])
    ensures FirstRevValue(text, from) == Some(RevValue(text[to]))
    decreases |text| - from
  {
    if from < to { SkipsRevless(text, from + 1, to); }
  }

  /** The first rev line with a value. */
  ghost predicate FirstValued(text: Text, i: nat) {
    i < |text| && IsRev(text[i]) && RevValue(text[i]) != [] &&
    forall j :: 0 <= j < i && IsRev(text[j]) ==> RevValue(text[j]) == []
  }

  /** The revision in force is the value of the first rev line of fbthrift's overlay that has one, else the main
      branch. */
  lemma UpstreamRevIs(overlays: map<string, Text>)
    ensures FBTHRIFT in overlays ==>
              forall i: nat :: FirstValued(overlays[FBTHRIFT], i) ==>
                UpstreamRev(overlays) == RevValue(overlays[FBTHRIFT][i])
    ensures FBTHRIFT !in overlays || (forall i: nat :: !FirstValued(overlays[FBTHRIFT], i)) ==>
              UpstreamRev(overlays) == "main"
  {
    if FBTHRIFT in overlays {
      var k := FirstValueAt(overlays[FBTHRIFT], 0);
      if k < |overlays[FBTHRIFT]| { assert FirstValued(overlays[FBTHRIFT], k); }
    }
  }

  lemma {:induction false} FirstValueAt(text: Text, from: nat) returns (k: nat)
    requires from <= |text|
    ensures from <= k <= |text| && (forall j :: from <= j < k && IsRev(text[j]) ==> RevValue(text[j]) == [])
    ensures k < |text| ==> HasRevValue(text[k]) && IsRev(text[k]) && RevValue(text[k]) != []
    ensures FirstRevValue(text, from) == if k < |text| then Some(RevValue(text[k])) else None
    decreases |text| - from
  {
    if from == |text| || HasRevValue(text[from]) { k := from; } else { k := FirstValueAt(text, from + 1); }
  }

  /** Where the rev line of a rewritten overlay is, and that none precedes it. */
  lemma RewrittenLine(header: Text, body: Text, sha: string)
    requires Comments(header) && Injectable(body)
    ensures var text, t := header + Injected(body, sha).value, |header| + Target(body);
            t < |text| && text[t] == RevLine(sha) && forall i :: 0 <= i < t ==> !IsRev(text[i])
  {
    var out, t := Injected(body, sha).value, Target(body);
    RevLandsInGit(body, sha);
    LastWriterWins(body, sha, sha);
    RevLineIsRev(sha);
    assert FirstRev(out, 0) <= t;
    forall i | 0 <= i < t ensures !IsRev(out[i]) { assert out[i] == body[i]; }
    forall i | 0 <= i < |header| ensures !IsRev(header[i]) { HeadersAgree(header[i]); }
  }

  /** After fbthrift's own overlay is rewritten, the next run reads manifests at the commit this run read bodies at. */
  lemma NextRunReadsTag(up: Upstream, args: Args, after: map<string, Text>)
    requires Rewritten(up, args, after, FBTHRIFT) && Comments(args.header)
    requires TagRev(up, args).Some? && IsCommit(TagRev(up, args).value)
    ensures Some(UpstreamRev(after)) == TagRev(up, args)
  {
    var v := Verdict(up, args, FBTHRIFT);
    assert Some(v.sha) == TagRev(up, args);
    RewrittenLine(args.header, v.body, v.sha);
    RevLineValue(v.sha);
    SkipsRevless(after[FBTHRIFT], 0, |args.header| + Target(v.body));
  }

  // ---------- which rewritten manifests pass ----------

  /** The next run's view: the new overlays, and some upstream revision. */
  function Next(up: Upstream, after: map<string, Text>, rev: string): (r: Upstream) {
    up.(overlays := after, rev := rev)
  }

  /** The body names a repository, but the injected rev does not stick. */
  ghost predicate StaysFloating(body: Text)
    requires Injectable(body)
  {
    GitHas(body, REPO_URL) && !Sticks(body)
  }

  /** A rewritten manifest is readable, and fails the next check exactly when the body names a repository and the
      injected rev does not stick. */
  lemma RewrittenFailsIff(up: Upstream, args: Args, after: map<string, Text>, rev: string, name: string)
    requires Rewritten(up, args, after, name) && Comments(args.header) && ReadsRegular(up.parse)
    requires Regular(Verdict(up, args, name).body) && IsCommit(Verdict(up, args, name).sha)
    ensures !Next(up, after, rev).Find(name).Unparsable?
    ensures Unfixed(Next(up, after, rev), name, args.allow) <==> StaysFloating(Verdict(up, args, name).body)
  {
    var v, text := Verdict(up, args, name), after[name];
    RewrittenIsRegular(args.header, v.body, v.sha);
    assert ReadsGit(up.parse, text, REPO_URL) && ReadsGit(up.parse, text, REV);
    var m := up.parse(text).value;
    assert Next(up, after, rev).Find(name) == Present(m, true);
    ClassifiedBySections(m, true, name, []);
    RevSticks(args.header, v.body, v.sha);
    assert REPO_URL != REV by { assert |REPO_URL| != |REV|; }
    OtherKeysStay(args.header, v.body, v.sha, REPO_URL);
  }

  /** Nothing unusual about the written texts: a commented header, regular bodies, real commits. */
  ghost predicate RegularRewrites(up: Upstream, live: iset<string>, args: Args) {
    Comments(args.header) && ReadsRegular(up.parse) &&
    forall n :: Reached(up, live, args, n) ==>
      Regular(Verdict(up, args, n).body) && IsCommit(Verdict(up, args, n).sha)
  }

  lemma ReachedFailsIff(up: Upstream, live: iset<string>, args: Args, after: map<string, Text>, rev: string, n: string)
    requires OverlaysAfter(up, live, args, Wrote, after) && !args.dryRun && RegularRewrites(up, live, args)
    requires Reached(up, live, args, n)
    ensures Injectable(Verdict(up, args, n).body) && !Next(up, after, rev).Find(n).Unparsable?
    ensures Unfixed(Next(up, after, rev), n, args.allow) <==> StaysFloating(Verdict(up, args, n).body)
  {
    assert RewrittenOrKept(up, live, args, after, n);
    RewrittenFailsIff(up, args, after, rev, n);
  }

  /** `n` was rewritten, and its rev did not stick. */
  ghost predicate LeftFloating(up: Upstream, live: iset<string>, args: Args, n: string) {
    Reached(up, live, args, n) && Injectable(Verdict(up, args, n).body) && StaysFloating(Verdict(up, args, n).body)
  }

  /** A complete write, then a check: it passes exactly when no rewritten manifest of the new graph was left floating,
      and no other manifest of it fails. The new bodies may bring in such manifests. */
  lemma CheckAfterCompleteWrite(up: Upstream, live: iset<string>, roots: seq<string>, args: Args,
                                after: map<string, Text>, rev: string)
    requires Outcome(up, live, args) == Wrote && !args.dryRun && OverlaysAfter(up, live, args, Wrote, after)
    requires RegularRewrites(up, live, args)
    ensures var next := Next(up, after, rev);
            ChecksOut(next, roots, args.allow) <==>
            forall n :: Reachable(next, roots, n) ==>
              if Reached(up, live, args, n) then !LeftFloating(up, live, args, n)
              else !next.Find(n).Unparsable? && !Unfixed(next, n, args.allow)
  {
    var next := Next(up, after, rev);
    forall n | Reached(up, live, args, n)
      ensures !next.Find(n).Unparsable? && (Unfixed(next, n, args.allow) <==> LeftFloating(up, live, args, n))
    {
      ReachedFailsIff(up, live, args, after, rev, n);
    }
  }

  // ---------- when the graph stays the same ----------

  /** The new bodies keep their dependencies, and untouched manifests of the graph look the same. */
  ghost predicate SameGraph(up: Upstream, next: Upstream, live: iset<string>, args: Args) {
    forall n :: n in live ==>
      (!Reached(up, live, args, n) ==> next.Find(n) == up.Find(n)) && forall b :: Edge(up, n, b) <==> Edge(next, n, b)
  }

  lemma {:induction false} PathsStay(up: Upstream, next: Upstream, roots: seq<string>, args: Args, p: seq<string>,
                                     n: string)
    requires SameGraph(up, next, Live(up, roots), args)
    ensures Path(up, roots, p, n) <==> Path(next, roots, p, n)
    decreases |p|
  {
    if |p| > 1 && p[|p| - 1] == n {
      var q, m := p[..|p| - 1], p[|p| - 2];
      PathsStay(up, next, roots, args, q, m);
      if Path(up, roots, q, m) { assert m in Live(up, roots); }
    }
  }

  lemma SameLive(up: Upstream, next: Upstream, roots: seq<string>, args: Args)
    requires SameGraph(up, next, Live(up, roots), args)
    ensures Live(next, roots) == Live(up, roots)
  {
    forall n ensures Reachable(up, roots, n) <==> Reachable(next, roots, n) {
      if p :| Path(up, roots, p, n) { PathsStay(up, next, roots, args, p, n); }
      if p :| Path(next, roots, p, n) { PathsStay(up, next, roots, args, p, n); }
    }
  }

  /** Untouched manifests of a completely written graph fail the check only by being missing. */
  lemma UntouchedFailsIff(up: Upstream, live: iset<string>, args: Args, n: string)
    requires Outcome(up, live, args) == Wrote && !args.allowPartial && n in live && !Reached(up, live, args, n)
    requires !up.Find(n).Unparsable?
    ensures Unfixed(up, n, args.allow) <==> up.Find(n).Absent?
  {
    if FloatsOutside(up, n, args.allow) { FloatingIsRewritten(up, live, args, n); }
  }

  /** If the graph stays the same, a complete write makes the check pass exactly when no manifest is missing and none
      was left floating. */
  lemma CompleteWriteChecksOut(up: Upstream, roots: seq<string>, args: Args, after: map<string, Text>, rev: string)
    requires Outcome(up, Live(up, roots), args) == Wrote && !args.dryRun && !args.allowPartial
    requires OverlaysAfter(up, Live(up, roots), args, Wrote, after) && RegularRewrites(up, Live(up, roots), args)
    requires SameGraph(up, Next(up, after, rev), Live(up, roots), args)
    requires forall n :: Reachable(up, roots, n) ==> !up.Find(n).Unparsable?
    ensures ChecksOut(Next(up, after, rev), roots, args.allow) <==>
            forall n :: Reachable(up, roots, n) ==>
              !up.Find(n).Absent? && !LeftFloating(up, Live(up, roots), args, n)
  {
    var next, live := Next(up, after, rev), Live(up, roots);
    SameLive(up, next, roots, args);
    CheckAfterCompleteWrite(up, live, roots, args, after, rev);
    forall n | n in live && !Reached(up, live, args, n)
      ensures !next.Find(n).Unparsable? && (Unfixed(next, n, args.allow) <==> up.Find(n).Absent?)
    {
      UntouchedFailsIff(up, live, args, n);
    }
    forall n | Reached(up, live, args, n) ensures !up.Find(n).Absent? {
      assert Verdict(up, args, n).Pin?;
    }
    forall n ensures Reachable(next, roots, n) <==> n in live { assert n in Live(next, roots) <==> n in live; }
  }
}
