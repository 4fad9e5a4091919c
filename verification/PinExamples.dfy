/** Two runs of `--write` that end other than one would wish, on texts as they occur. */
module PinExamples {
  import opened Sequences
  import opened Orders
  import opened Manifests
  import opened DependencyWalk
  import opened InjectRev
  import opened ConfigText
  import opened RewrittenText
  import opened PinModes
  import opened PinWrite
  import opened CheckAfterWrite

  ghost function PlainArgs(tag: string, header: Text, sha: string): (args: Args) {
    Args(tag, header, {}, false, false, (url, t) => Some(sha))
  }

  /** A single git section, bare or conditional, with a repository and perhaps a valueless rev. */
  function GitManifest(condition: Option<string>, url: string, emptyRev: bool): (m: Manifest) {
    Manifest([Section(Git, condition, [Entry(REPO_URL, Some(url))] + if emptyRev then [Entry(REV, Some(""))] else [])])
  }

  lemma GitManifestFloats(condition: Option<string>, url: string, emptyRev: bool, name: string)
    requires url != ""
    ensures var d := Classified(Present(GitManifest(condition, url, emptyRev), false), name, []);
            d.kind == Floating && d.url == Some(url) && !d.isOverlay
    ensures forall b :: !DependsOn(Present(GitManifest(condition, url, emptyRev), false), b)
  {
    var m := GitManifest(condition, url, emptyRev);
    var entries := m.sections[0].entries;
    assert REV != REPO_URL by { assert |REV| != |REPO_URL|; }
    assert ValueOf(entries, REPO_URL) == Some(url);
    assert entries[1..] == if emptyRev then [Entry(REV, Some(""))] else [];
    if emptyRev { assert entries[1..][1..] == []; }
    assert ValueOf(entries, REV) == if emptyRev then Some("") else None;
    assert m.sections[1..] == [];
    assert ValueIn(m.sections, Git, REPO_URL) == Some(url) && ValueIn(m.sections, Git, REV) == None;
  }

  // ---------- stopping half way ----------

  const CONDITIONAL_GIT := "[git.os]"

  function BareText(url: string): (r: Text) { [BRACKETED_GIT, OptionLine(REPO_URL, url)] }

  function ConditionalText(url: string): (r: Text) { [CONDITIONAL_GIT, OptionLine(REPO_URL, url)] }

  /** The repo_url line of these texts. */
  lemma UrlLine(url: string)
    requires IsCommit(url)
    ensures var line := OptionLine(REPO_URL, url);
            Strip(line) == line && !IsHeader(line) && !IsRev(line) && IsRepoUrl(line)
    ensures LineOf(OptionLine(REPO_URL, url)) == Assignment(REPO_URL, Some(url))
  {
    var line := OptionLine(REPO_URL, url);
    assert IsKey(REPO_URL) && REPO_URL[0] == 'r' && REPO_URL[2] == 'p' && REV[2] == 'v';
    OptionLineAssigns(REPO_URL, url);
    OptionLineParts(REPO_URL, url);
    assert line[2] == REPO_URL[2] && TrimLeft(line) == line;
  }

  /** The rewriter needs a bare [git] section; the classifier does not. */
  lemma OnlyBareGitHasPlace(url: string)
    requires IsCommit(url)
    ensures Injectable(BareText(url)) && !Injectable(ConditionalText(url))
  {
    var good, bad, h := BareText(url), ConditionalText(url), CONDITIONAL_GIT;
    UrlLine(url);
    assert BRACKETED_GIT[0] == '[' && BRACKETED_GIT[4] == ']' && Strip(BRACKETED_GIT) == BRACKETED_GIT;
    assert InGit(good, 1) && IsAnchor(good, 1);
    assert h[0] == '[' && h[4] == '.' && h[7] == ']' && Strip(h) == h && IsHeader(h) && !IsGitHeader(h);
    assert REV[0] == 'r' && !IsRev(h) && !InGit(bad, 0) && !InGit(bad, 1);
    assert FirstAnchor(bad, 2) == 2 && FirstRev(bad, 2) == 2 && FirstAnchor(bad, 1) == 2 && FirstRev(bad, 1) == 2;
  }

  /** The parser reads the two texts as their one section. */
  ghost predicate ReadsBoth(parse: Text -> Option<Manifest>, url: string) {
    parse(BareText(url)) == Some(GitManifest(None, url, false)) &&
    parse(ConditionalText(url)) == Some(GitManifest(Some("os"), url, false))
  }

  /** fbthrift with a bare git section, and a later dependency with a conditional one. */
  function TwoManifests(url: string, late: string, parse: Text -> Option<Manifest>): (up: Upstream) {
    Upstream(map[], (rev, name) => if name == FBTHRIFT then Some(BareText(url))
                                   else if name == late then Some(ConditionalText(url)) else None, parse, "main")
  }

  lemma TwoManifestsFloat(url: string, late: string, parse: Text -> Option<Manifest>)
    requires url != "" && late != FBTHRIFT && ReadsBoth(parse, url)
    ensures var up := TwoManifests(url, late, parse);
            up.Find(FBTHRIFT) == Present(GitManifest(None, url, false), false) &&
            up.Find(late) == Present(GitManifest(Some("os"), url, false), false) &&
            forall n :: n != FBTHRIFT && n != late ==> up.Find(n) == Absent
  {
  }

  lemma TwoManifestsLive(url: string, late: string, parse: Text -> Option<Manifest>)
    requires url != "" && late != FBTHRIFT && ReadsBoth(parse, url)
    ensures Live(TwoManifests(url, late, parse), [FBTHRIFT, late]) == iset{FBTHRIFT, late}
  {
    var up, roots := TwoManifests(url, late, parse), [FBTHRIFT, late];
    TwoManifestsFloat(url, late, parse);
    GitManifestFloats(None, url, false, FBTHRIFT);
    GitManifestFloats(Some("os"), url, false, late);
    assert Path(up, roots, [FBTHRIFT], FBTHRIFT) && Path(up, roots, [late], late);
    forall n | Reachable(up, roots, n) ensures n in roots {
      var p :| Path(up, roots, p, n);
      assert |p| > 1 ==> Edge(up, p[|p| - 2], n);
    }
  }

  lemma BothPinned(url: string, sha: string, tag: string, header: Text, late: string, parse: Text -> Option<Manifest>)
    requires url != "" && late != FBTHRIFT && ReadsBoth(parse, url)
    ensures var up, args := TwoManifests(url, late, parse), PlainArgs(tag, header, sha);
            TagRev(up, args) == Some(sha) && DepOf(up, FBTHRIFT).url.Some? && DepOf(up, late).kind == Floating &&
            Verdict(up, args, FBTHRIFT) == Pin(sha, BareText(url)) &&
            Verdict(up, args, late) == Pin(sha, ConditionalText(url))
  {
    TwoManifestsFloat(url, late, parse);
    GitManifestFloats(None, url, false, FBTHRIFT);
    GitManifestFloats(Some("os"), url, false, late);
  }

  /** Planning refuses nothing on these two manifests; the first overlay is written, and then the run stops. */
  lemma StopsHalfWay(url: string, sha: string, tag: string, header: Text, late: string, parse: Text -> Option<Manifest>,
                     after: map<string, Text>)
    requires IsCommit(url) && late != [] && late[0] > 'f' && ReadsBoth(parse, url)
    ensures var up, args := TwoManifests(url, late, parse), PlainArgs(tag, header, sha);
            var live := Live(up, [FBTHRIFT, late]);
            DepOf(up, late).kind == Floating && Writable(up, live, args) && Outcome(up, live, args) == NoPlaceForRev &&
            (OverlaysAfter(up, live, args, NoPlaceForRev, after) ==> HalfMigrates(up, live, args, after))
  {
    var up, args := TwoManifests(url, late, parse), PlainArgs(tag, header, sha);
    assert FBTHRIFT[0] == 'f';
    OnlyBareGitHasPlace(url);
    TwoManifestsLive(url, late, parse);
    BothPinned(url, sha, tag, header, late, parse);
    EarlyIsReached(up, args, FBTHRIFT, late);
    TwoPinsNotRefused(up, args, FBTHRIFT, late);
    CompletesIff(up, iset{FBTHRIFT, late}, args);
    if OverlaysAfter(up, iset{FBTHRIFT, late}, args, NoPlaceForRev, after) {
      HalfMigratesIff(up, iset{FBTHRIFT, late}, args, after);
    }
  }

  /** Of two pinned names, the earlier one is written and the later one, without a place for a rev, stops the run. */
  lemma EarlyIsReached(up: Upstream, args: Args, early: string, late: string)
    requires early != [] && late != [] && late[0] > early[0]
    requires Verdict(up, args, early).Pin? && Injectable(Verdict(up, args, early).body)
    requires Verdict(up, args, late).Pin? && !Injectable(Verdict(up, args, late).body)
    ensures var live := iset{early, late};
            Stuck(up, live, args, late) && Reached(up, live, args, early) && !Reached(up, live, args, late)
  {
    var live := iset{early, late};
    assert Codes(late)[0] > Codes(early)[0];
    LexReflexive(Codes(late));
    assert Stuck(up, live, args, late);
    forall m | Stuck(up, live, args, m) ensures !LexLe(Codes(m), Codes(early)) { assert m == late; }
  }

  lemma TwoPinsNotRefused(up: Upstream, args: Args, early: string, late: string)
    requires Verdict(up, args, early).Pin? && Verdict(up, args, late).Pin?
    ensures AnyPin(up, iset{early, late}, args) && !Refused(up, iset{early, late}, args)
  {
  }

  // ---------- a second rev line ----------

  const EMPTY_REV := "rev ="

  /** An upstream body with two rev lines, both empty. */
  function TwoRevs(url: string): (r: Text) { [BRACKETED_GIT, OptionLine(REPO_URL, url), EMPTY_REV, EMPTY_REV] }

  lemma EmptyRevLine()
    ensures IsRev(EMPTY_REV) && LineOf(EMPTY_REV) == Assignment(REV, Some(""))
  {
    var s := EMPTY_REV;
    assert s[0] == 'r' && s[1] == 'e' && s[2] == 'v' && s[3] == ' ' && s[4] == '=' && s[..3] == REV;
    assert s[3..][1..] == s[4..] && TrimLeft(s[3..]) == s[4..];
    assert TrimRight(s) == s && FirstDelimiter(s, 0) == 4;
    TrimRightSpaces(s[..4], 3);
    assert s[..4][..3] == REV && IsKey(REV);
    LowerKeeps(REV);
    assert s[5..] == "" && TrimLeft(s[5..]) == "";
  }

  lemma GitHeaderLine()
    ensures LineOf(BRACKETED_GIT) == Header(GIT) && !IsRev(BRACKETED_GIT)
  {
    var s := BRACKETED_GIT;
    assert s[0] == '[' && s[4] == ']' && REV[0] == 'r' && TrimRight(s) == s;
    assert s[1..4] == GIT && s[..4] == "[git" && DEFAULT[0] == 'D' && GIT[0] == 'g';
  }

  lemma TwoRevsSections(url: string)
    requires IsCommit(url)
    ensures var body := TwoRevs(url);
            SectionAt(body, None, 0) == None && SectionAt(body, None, 1) == Some(GIT) &&
            SectionAt(body, None, 2) == Some(GIT) && SectionAt(body, None, 3) == Some(GIT) &&
            Regular(body) && HeaderNames(body, 4) == [GIT]
  {
    var body := TwoRevs(url);
    GitHeaderLine();
    UrlLine(url);
    EmptyRevLine();
    OneSection(body, GIT, 1);
    OneSection(body, GIT, 2);
    OneSection(body, GIT, 3);
    OneSection(body, GIT, 4);
  }

  lemma TwoRevsAssigns(url: string, name: string, key: string)
    requires IsCommit(url)
    ensures Assigned(TwoRevs(url), None, name, key, 4) ==
            if name != GIT then None
            else if key == REV then Some(Some(""))
            else if key == REPO_URL then Some(Some(url))
            else None
  {
    var body := TwoRevs(url);
    GitHeaderLine();
    UrlLine(url);
    EmptyRevLine();
    TwoRevsSections(url);
    assert REV != REPO_URL by { assert |REV| != |REPO_URL|; }
    assert Assigned(body, None, name, key, 1) == Assigned(body, None, name, key, 0) == None;
    assert Assigned(body, None, name, key, 2) == if name == GIT && key == REPO_URL then Some(Some(url)) else None;
    assert Assigned(body, None, name, key, 3) ==
           if name == GIT && key == REV then Some(Some("")) else Assigned(body, None, name, key, 2);
  }

  /** The rev goes to the [git] section, as documented, and does not stick: only the first of the two lines is
      filled. */
  lemma TwoRevsStayFloating(url: string)
    requires IsCommit(url)
    ensures var body := TwoRevs(url);
            Injectable(body) && Target(body) == 2 && InGit(body, 2) && StaysFloating(body)
  {
    var body := TwoRevs(url);
    GitHeaderLine();
    UrlLine(url);
    EmptyRevLine();
    TwoRevsSections(url);
    assert FirstRev(body, 2) == 2 && FirstRev(body, 1) == 2 && FirstRev(body, 0) == 2;
    InGitIsSection(body, 4, 2);
    TwoRevsAssigns(url, GIT, REPO_URL);
    assert IsGit(GIT) && GitHas(body, REPO_URL);
    assert Post(body) == [EMPTY_REV];
    OneLine([EMPTY_REV], Some(GIT), GIT, REV);
    forall name | Home(body) != Some(name) ensures !NonEmpty(Assigned(body, None, name, REV, |body|)) {
      TwoRevsAssigns(url, name, REV);
    }
  }

  function OneManifest(url: string, parse: Text -> Option<Manifest>): (up: Upstream) {
    Upstream(map[], (rev, name) => if name == FBTHRIFT then Some(TwoRevs(url)) else None, parse, "main")
  }

  lemma OnePinned(url: string, sha: string, tag: string, header: Text, parse: Text -> Option<Manifest>)
    requires IsCommit(url) && parse(TwoRevs(url)) == Some(GitManifest(None, url, true))
    ensures var up, args := OneManifest(url, parse), PlainArgs(tag, header, sha);
            TagRev(up, args) == Some(sha) && DepOf(up, FBTHRIFT).url.Some? && DepOf(up, FBTHRIFT).kind == Floating &&
            Verdict(up, args, FBTHRIFT) == Pin(sha, TwoRevs(url)) && Live(up, [FBTHRIFT]) == iset{FBTHRIFT}
  {
    var up, roots := OneManifest(url, parse), [FBTHRIFT];
    GitManifestFloats(None, url, true, FBTHRIFT);
    assert up.Find(FBTHRIFT) == Present(GitManifest(None, url, true), false);
    assert Path(up, roots, [FBTHRIFT], FBTHRIFT);
    forall n | Reachable(up, roots, n) ensures n in roots {
      var p :| Path(up, roots, p, n);
      assert |p| > 1 ==> Edge(up, p[|p| - 2], n);
    }
  }

  /** The write completes, and the next check still reports the manifest as floating. */
  lemma SecondRevFails(url: string, sha: string, tag: string, header: Text, parse: Text -> Option<Manifest>,
                       after: map<string, Text>, rev: string)
    requires IsCommit(url) && IsCommit(sha) && Comments(header) && ReadsRegular(parse)
    requires parse(TwoRevs(url)) == Some(GitManifest(None, url, true))
    ensures var up, args := OneManifest(url, parse), PlainArgs(tag, header, sha);
            var live := Live(up, [FBTHRIFT]);
            Outcome(up, live, args) == Wrote &&
            (OverlaysAfter(up, live, args, Wrote, after) ==>
               LeftFloating(up, live, args, FBTHRIFT) && !ChecksOut(Next(up, after, rev), [FBTHRIFT], args.allow))
  {
    var up, args, live := OneManifest(url, parse), PlainArgs(tag, header, sha), iset{FBTHRIFT};
    OnePinned(url, sha, tag, header, parse);
    TwoRevsStayFloating(url);
    TwoRevsSections(url);
    assert forall n :: n in live ==> n == FBTHRIFT;
    assert FBTHRIFT in live && AnyPin(up, live, args) && !Refused(up, live, args);
    CompletesIff(up, live, args);
    assert forall m :: !Stuck(up, live, args, m);
    assert Reached(up, live, args, FBTHRIFT);
    if OverlaysAfter(up, live, args, Wrote, after) {
      ReachedFailsIff(up, live, args, after, rev, FBTHRIFT);
      assert Path(Next(up, after, rev), [FBTHRIFT], [FBTHRIFT], FBTHRIFT);
    }
  }

  // ---------- the parser model reads all three texts so ----------

  lemma OneSection(text: Text, name: string, n: nat)
    requires 0 < n <= |text| && LineOf(text[0]) == Header(name)
    requires forall i :: 0 < i < n ==> LineOf(text[i]).Assignment?
    ensures HeaderNames(text, n) == [name] && SectionAt(text, None, n) == Some(name) && RegularFrom(text, None, n)
  {
    if n > 1 {
      OneSection(text, name, n - 1);
    } else {
      assert HeaderNames(text, 0) == [] && RegularFrom(text, None, 0);
    }
  }

  lemma FirstUsesOne(x: string)
    ensures FirstUses([x], 1) == [x]
  {
    assert FirstUses([x], 0) == [];
  }

  /** Parsing a text with a single git section. */
  lemma ParseSingle(text: Text, name: string, keys: seq<string>)
    requires Regular(text) && HeaderNames(text, |text|) == [name] && FirstDot(name, 0) == 3 && name[..3] == GIT
    requires keys == FirstUses(KeysIn(text, name, |text|), |KeysIn(text, name, |text|)|)
    ensures Parse(text) ==
            Some(Manifest([Section(Git, if |name| == 3 then None else Some(name[4..]), EntriesOf(text, name, keys))]))
  {
    FirstUsesOne(name);
    var sections := Parse(text).value.sections;
    assert |sections| == 1 && sections[0] == SectionNamed(text, name);
    assert sections == [sections[0]];
  }

  lemma TwoRevsKeys(url: string)
    requires IsCommit(url)
    ensures KeysIn(TwoRevs(url), GIT, 4) == [REPO_URL, REV, REV]
  {
    var body := TwoRevs(url);
    GitHeaderLine();
    UrlLine(url);
    EmptyRevLine();
    TwoRevsSections(url);
    assert KeysIn(body, GIT, 1) == KeysIn(body, GIT, 0) == [];
    assert KeysIn(body, GIT, 2) == [REPO_URL] && KeysIn(body, GIT, 3) == [REPO_URL, REV];
  }

  lemma TwoRevsEntries(url: string)
    requires IsCommit(url)
    ensures EntriesOf(TwoRevs(url), GIT, [REPO_URL, REV]) == [Entry(REPO_URL, Some(url)), Entry(REV, Some(""))]
  {
    var body := TwoRevs(url);
    TwoRevsAssigns(url, GIT, REPO_URL);
    TwoRevsAssigns(url, GIT, REV);
    assert REV != REPO_URL by { assert |REV| != |REPO_URL|; }
    assert [REPO_URL, REV][1..] == [REV] && [REV][1..] == [] && EntriesOf(body, GIT, []) == [];
    assert EntriesOf(body, GIT, [REV]) == [Entry(REV, Some(""))];
  }

  lemma ParseTwoRevs(url: string)
    requires IsCommit(url)
    ensures Parse(TwoRevs(url)) == Some(GitManifest(None, url, true))
  {
    TwoRevsSections(url);
    TwoRevsKeys(url);
    TwoKeys();
    TwoRevsEntries(url);
    assert FirstDot(GIT, 0) == 3 && GIT[..3] == GIT;
    ParseSingle(TwoRevs(url), GIT, [REPO_URL, REV]);
    assert [Entry(REPO_URL, Some(url))] + [Entry(REV, Some(""))] == [Entry(REPO_URL, Some(url)), Entry(REV, Some(""))];
  }

  lemma TwoKeys()
    ensures FirstUses([REPO_URL, REV, REV], 3) == [REPO_URL, REV]
  {
    var s := [REPO_URL, REV, REV];
    assert REV != REPO_URL by { assert |REV| != |REPO_URL|; }
    assert FirstUses(s, 0) == [] && FirstUses(s, 1) == [REPO_URL] && FirstUses(s, 2) == [REPO_URL, REV];
  }

  lemma ConditionalHeaderLine()
    ensures LineOf(CONDITIONAL_GIT) == Header("git.os")
    ensures FirstDot("git.os", 0) == 3 && "git.os"[..3] == GIT && "git.os"[4..] == "os"
  {
    var s, name := CONDITIONAL_GIT, "git.os";
    assert s[0] == '[' && s[7] == ']' && TrimRight(s) == s && s[1..7] == name && s[..7] == "[" + name;
    assert DEFAULT[0] == 'D' && name[0] == 'g' && name[3] == '.';
  }

  lemma OneUrlText(header: string, name: string, url: string)
    requires IsCommit(url) && LineOf(header) == Header(name)
    ensures var text := [header, OptionLine(REPO_URL, url)];
            HeaderNames(text, 2) == [name] && Regular(text) && KeysIn(text, name, 2) == [REPO_URL] &&
            EntriesOf(text, name, [REPO_URL]) == [Entry(REPO_URL, Some(url))]
  {
    var text := [header, OptionLine(REPO_URL, url)];
    UrlLine(url);
    OneSection(text, name, 1);
    OneSection(text, name, 2);
    assert KeysIn(text, name, 1) == KeysIn(text, name, 0) == [];
    assert AssignsAt(text, None, name, REPO_URL, 1);
    assert [REPO_URL][1..] == [] && EntriesOf(text, name, []) == [];
  }

  /** A text of one header and one repo_url line. */
  lemma ParseOneUrl(header: string, name: string, url: string)
    requires IsCommit(url) && LineOf(header) == Header(name) && FirstDot(name, 0) == 3 && name[..3] == GIT
    ensures Parse([header, OptionLine(REPO_URL, url)]) ==
            Some(GitManifest(if |name| == 3 then None else Some(name[4..]), url, false))
  {
    OneUrlText(header, name, url);
    FirstUsesOne(REPO_URL);
    ParseSingle([header, OptionLine(REPO_URL, url)], name, [REPO_URL]);
    assert [Entry(REPO_URL, Some(url))] + [] == [Entry(REPO_URL, Some(url))];
  }

  /** So every hypothesis that the two examples make about the parser is met. */
  lemma ParseMeetsExamples(url: string)
    requires IsCommit(url)
    ensures ReadsRegular(Parse) && ReadsBoth(Parse, url) && Parse(TwoRevs(url)) == Some(GitManifest(None, url, true))
  {
    ParseReadsRegular();
    GitHeaderLine();
    ConditionalHeaderLine();
    assert FirstDot(GIT, 0) == 3 && GIT[..3] == GIT;
    ParseOneUrl(BRACKETED_GIT, GIT, url);
    ParseOneUrl(CONDITIONAL_GIT, "git.os", url);
    ParseTwoRevs(url);
  }
}
