/** What the configuration parser reads in a manifest body whose rev was injected. */
module RewrittenText {
  import opened Sequences
  import opened Manifests
  import opened InjectRev
  import opened ConfigText

  // ---------- lines the rewriter and the parser both look at ----------

  lemma {:induction false} TrimRightSpaces(s: string, n: nat)
    requires n <= |s| && (forall i :: n <= i < |s| ==> IsSpace(s[i])) && (n > 0 ==> !IsSpace(s[n - 1]))
    ensures TrimRight(s) == s[..n]
  {
    if n < |s| {
      TrimRightSpaces(s[..|s| - 1], n);
      assert s[..|s| - 1][..n] == s[..n];
    } else {
      assert s[..n] == s;
    }
  }

  /** How many spaces lead. */
  function LeadingSpaces(s: string): (n: nat)
    ensures n <= |s| && TrimLeft(s) == s[n..]
    ensures forall i :: 0 <= i < n ==> IsSpace(s[i])
  {
    if s != [] && IsSpace(s[0]) then
      assert s[1..][LeadingSpaces(s[1..])..] == s[1 + LeadingSpaces(s[1..])..];
      1 + LeadingSpaces(s[1..])
    else 0
  }

  /** Where the equals sign of a rev line is. */
  lemma RevShape(line: string) returns (p: nat)
    requires IsRev(line)
    ensures 3 <= p < |line| && line[..3] == REV && line[p] == '=' && forall i :: 3 <= i < p ==> IsSpace(line[i])
  {
    var n := LeadingSpaces(line[3..]);
    p := 3 + n;
    assert line[3..][n..] == line[p..];
    forall i | 3 <= i < p ensures IsSpace(line[i]) { assert line[i] == line[3..][i - 3]; }
  }

  lemma RevKey(s: string, p: nat)
    requires 3 <= p < |s| && s[..3] == REV && s[p] == '=' && forall i :: 3 <= i < p ==> IsSpace(s[i])
    ensures FirstDelimiter(s, 0) == p && Lower(TrimRight(s[..p])) == REV && s[0] == 'r'
  {
    assert REV[0] == 'r' && REV[1] == 'e' && REV[2] == 'v';
    assert s[0] == s[..3][0] && s[1] == s[..3][1] && s[2] == s[..3][2];
    assert forall i :: 0 <= i < p ==> !IsDelimiter(s[i]);
    TrimRightSpaces(s[..p], 3);
    assert s[..p][..3] == REV && Lower(REV) == REV;
  }

  /** A rev line of the rewriter is an assignment of rev for the parser. */
  lemma RevIsAssignment(line: string)
    requires IsRev(line) && !LineOf(line).Irregular?
    ensures LineOf(line).Assignment? && LineOf(line).key == REV
  {
    var p := RevShape(line);
    var s := TrimRight(line);
    TrimRightKeeps(line, p);
    assert s[..3] == line[..3] && s[p] == line[p] && forall i :: 0 <= i < p ==> s[i] == line[i];
    RevKey(s, p);
  }

  lemma TrimRightKeepsLast(s: string)
    requires s != [] && !IsSpace(s[|s| - 1])
    ensures TrimRight(s) == s
  {
  }

  /** A commit id or an address: not empty, no spaces, no interpolation. */
  predicate IsCommit(sha: string) { sha != [] && forall i :: 0 <= i < |sha| ==> !IsSpace(sha[i]) && sha[i] != '%' }

  /** Lower-case letters and underscores. */
  predicate IsKey(key: string) { key != [] && forall i :: 0 <= i < |key| ==> 'a' <= key[i] <= 'z' || key[i] == '_' }

  const EQUALS := " = "

  function OptionLine(key: string, value: string): (r: string) { key + EQUALS + value }

  lemma LowerKeeps(key: string)
    requires IsKey(key)
    ensures Lower(key) == key
  {
  }

  lemma OptionLineParts(key: string, value: string)
    requires IsKey(key) && IsCommit(value)
    ensures var r, n := OptionLine(key, value), |key|;
            |r| > n + 2 && r[..n + 1] == key + " " && r[n + 2..] == " " + value && TrimRight(r) == r &&
            FirstDelimiter(r, 0) == n + 1 && '%' !in r && r[0] == key[0]
  {
    var r, n := OptionLine(key, value), |key|;
    assert EQUALS[0] == ' ' && EQUALS[1] == '=' && EQUALS[2] == ' ';
    assert r[n] == ' ' && r[n + 1] == '=' && r[n + 2] == ' ';
    assert (forall i :: 0 <= i < n ==> r[i] == key[i]) && forall i :: n + 3 <= i < |r| ==> r[i] == value[i - n - 3];
    TrimRightKeepsLast(r);
  }

  /** How the parser reads a plain option line. */
  lemma OptionLineAssigns(key: string, value: string)
    requires IsKey(key) && IsCommit(value)
    ensures LineOf(OptionLine(key, value)) == Assignment(key, Some(value))
  {
    OptionLineParts(key, value);
    TrimRightSpaces(key + " ", |key|);
    assert (key + " ")[..|key|] == key && (" " + value)[1..] == value;
    LowerKeeps(key);
    assert TrimLeft(" " + value) == TrimLeft(value) == value;
  }

  lemma RevLineAssigns(sha: string)
    requires IsCommit(sha)
    ensures LineOf(RevLine(sha)) == Assignment(REV, Some(sha))
  {
    assert REV_ASSIGNMENT == REV + EQUALS;
    assert RevLine(sha) == OptionLine(REV, sha);
    assert IsKey(REV);
    OptionLineAssigns(REV, sha);
  }

  /** On regular lines both agree on what a header is. */
  lemma HeadersAgree(line: string)
    requires !LineOf(line).Irregular?
    ensures IsHeader(line) <==> LineOf(line).Header?
    ensures IsGitHeader(line) <==> LineOf(line) == Header(GIT)
    ensures LineOf(line).Ignored? ==> !IsRev(line)
  {
    var s := TrimRight(line);
    assert BRACKETED_GIT == "[" + GIT + "]" && GIT[0] == 'g' && REV[0] == 'r';
    if s == [] {
      StripBlank(line);
      if IsRev(line) { TrimRightKeeps(line, 0); }
    } else {
      TrimRightPrefix(line);
      assert line[0] == s[0] && TrimLeft(line) == line;
      assert LineOf(line).Header? ==> s == "[" + LineOf(line).name + "]";
      if s == BRACKETED_GIT { assert s[1..4] == GIT && GIT != DEFAULT && ']' !in s[..4]; }
    }
  }

  lemma {:induction false} TrimRightPrefix(s: string)
    ensures TrimRight(s) <= s
  {
    if s != [] && IsSpace(s[|s| - 1]) { TrimRightPrefix(s[..|s| - 1]); }
  }

  lemma {:induction false} AllSpaces(s: string)
    requires TrimRight(s) == []
    ensures forall i :: 0 <= i < |s| ==> IsSpace(s[i])
  {
    if s != [] { AllSpaces(s[..|s| - 1]); }
  }

  lemma {:induction false} TrimLeftAll(s: string)
    requires forall i :: 0 <= i < |s| ==> IsSpace(s[i])
    ensures TrimLeft(s) == []
  {
    if s != [] { TrimLeftAll(s[1..]); }
  }

  lemma StripBlank(line: string)
    requires TrimRight(line) == []
    ensures Strip(line) == []
  {
    AllSpaces(line);
    TrimLeftAll(line);
  }

  lemma {:induction false} RegularLine(text: Text, section: Option<string>, i: nat, n: nat)
    requires i < n <= |text| && RegularFrom(text, section, n)
    ensures !LineOf(text[i]).Irregular? && (LineOf(text[i]).Assignment? ==> SectionAt(text, section, i).Some?)
  {
    if i < n - 1 { RegularLine(text, section, i, n - 1); }
  }

  /** Both agree on what lies under a bare [git] header. */
  lemma {:induction false} InGitIsSection(text: Text, n: nat, i: nat)
    requires i <= n <= |text| && RegularFrom(text, None, n)
    ensures InGit(text, i) <==> SectionAt(text, None, i) == Some(GIT)
  {
    if i > 0 {
      InGitIsSection(text, n, i - 1);
      RegularLine(text, None, i - 1, n);
      HeadersAgree(text[i - 1]);
    }
  }

  // ---------- before, at and after the injected line ----------

  /** Where the lines after the injected one start in the body. */
  function PostStart(body: Text): (r: nat)
    requires Injectable(body)
    ensures Target(body) <= r <= |body| && r <= Target(body) + 1
  {
    if FirstRev(body, 0) < |body| then FirstRev(body, 0) + 1 else FirstAnchor(body, 0) + 1
  }

  function Pre(body: Text): (r: Text)
    requires Injectable(body)
  {
    body[..Target(body)]
  }

  /** The line that gives way, if any. */
  function Old(body: Text): (r: Text)
    requires Injectable(body)
  {
    body[Target(body)..PostStart(body)]
  }

  function Post(body: Text): (r: Text)
    requires Injectable(body)
  {
    body[PostStart(body)..]
  }

  lemma Decomposed(body: Text, sha: string)
    requires Injectable(body)
    ensures body == Pre(body) + Old(body) + Post(body)
    ensures Injected(body, sha).value == Pre(body) + [RevLine(sha)] + Post(body)
    ensures Old(body) == [] || (|Old(body)| == 1 && IsRev(Old(body)[0]))
  {
  }

  /** The section that the injected line belongs to. */
  function Home(body: Text): (r: Option<string>)
    requires Injectable(body)
  {
    SectionAt(body, None, Target(body))
  }

  lemma HomeIsPre(body: Text)
    requires Injectable(body)
    ensures Home(body) == SectionAt(Pre(body), None, |Pre(body)|)
  {
    SectionPrefix(Pre(body), body[Target(body)..], None, |Pre(body)|);
    assert body == Pre(body) + body[Target(body)..];
  }

  /** In a regular body the injected line has a section. */
  lemma HomeExists(body: Text)
    requires Injectable(body) && Regular(body)
    ensures Home(body).Some?
  {
    var first, anchor := FirstRev(body, 0), FirstAnchor(body, 0);
    if first < |body| {
      RegularLine(body, None, first, |body|);
      RevIsAssignment(body[first]);
    } else {
      InGitIsSection(body, |body|, anchor);
      RegularLine(body, None, anchor, |body|);
      HeadersAgree(body[anchor]);
    }
  }

  /** A single assignment, or no line at all, changes no section and assigns at most its own key. */
  lemma OneLine(lines: Text, section: Option<string>, name: string, key: string)
    requires lines == [] || (|lines| == 1 && LineOf(lines[0]).Assignment?)
    ensures SectionAt(lines, section, |lines|) == section
    ensures Assigned(lines, section, name, key, |lines|) ==
            if lines != [] && LineOf(lines[0]).key == key && section == Some(name) then Some(LineOf(lines[0]).value)
            else None
  {
    if lines != [] { assert SectionAt(lines, section, 0) == section && Assigned(lines, section, name, key, 0) == None; }
  }

  /** What three consecutive parts assign, when the middle one is at most one assignment. */
  lemma AroundLine(pre: Text, mid: Text, post: Text, name: string, key: string)
    requires mid == [] || (|mid| == 1 && LineOf(mid[0]).Assignment?)
    ensures var home, text := SectionAt(pre, None, |pre|), pre + mid + post;
            Assigned(text, None, name, key, |text|) ==
            Later(Later(Assigned(pre, None, name, key, |pre|), Assigned(mid, home, name, key, |mid|)),
                  Assigned(post, home, name, key, |post|))
  {
    UpToLine(pre, mid, name, key);
    AssignedAppend(pre + mid, post, None, name, key, |post|);
  }

  lemma UpToLine(pre: Text, mid: Text, name: string, key: string)
    requires mid == [] || (|mid| == 1 && LineOf(mid[0]).Assignment?)
    ensures var home, text := SectionAt(pre, None, |pre|), pre + mid;
            SectionAt(text, None, |text|) == home &&
            Assigned(text, None, name, key, |text|) ==
            Later(Assigned(pre, None, name, key, |pre|), Assigned(mid, home, name, key, |mid|))
  {
    AssignedAppend(pre, mid, None, name, key, |mid|);
    SectionAppend(pre, mid, None, |mid|);
    OneLine(mid, SectionAt(pre, None, |pre|), name, key);
  }

  /** Injection changes only what its own section says about rev. */
  lemma InjectedAssigns(body: Text, sha: string, name: string, key: string)
    requires Injectable(body) && Regular(body) && IsCommit(sha)
    ensures var out := Injected(body, sha).value;
            Assigned(out, None, name, key, |out|) ==
            if key == REV && Home(body) == Some(name) then
              Later(Some(Some(sha)), Assigned(Post(body), Home(body), name, key, |Post(body)|))
            else Assigned(body, None, name, key, |body|)
  {
    var pre, gone, post, line := Pre(body), Old(body), Post(body), [RevLine(sha)];
    Decomposed(body, sha);
    HomeIsPre(body);
    RevLineAssigns(sha);
    OldIsRev(body);
    AroundLine(pre, gone, post, name, key);
    AroundLine(pre, line, post, name, key);
    OneLine(gone, Home(body), name, key);
    OneLine(line, Home(body), name, key);
  }

  lemma OldIsRev(body: Text)
    requires Injectable(body) && Regular(body)
    ensures Old(body) == [] || (|Old(body)| == 1 && LineOf(Old(body)[0]).Assignment? && LineOf(Old(body)[0]).key == REV)
  {
    if FirstRev(body, 0) < |body| {
      RegularLine(body, None, FirstRev(body, 0), |body|);
      RevIsAssignment(body[FirstRev(body, 0)]);
    }
  }

  // ---------- behind the generated header ----------

  /** Comment and blank lines. */
  ghost predicate Comments(header: Text) { forall i :: 0 <= i < |header| ==> LineOf(header[i]).Ignored? }

  lemma {:induction false} CommentsSayNothing(header: Text, name: string, key: string, n: nat)
    requires Comments(header) && n <= |header|
    ensures SectionAt(header, None, n) == None && Assigned(header, None, name, key, n) == None
    ensures RegularFrom(header, None, n)
  {
    if n > 0 { CommentsSayNothing(header, name, key, n - 1); }
  }

  lemma BehindComments(header: Text, text: Text, name: string, key: string)
    requires Comments(header)
    ensures Assigned(header + text, None, name, key, |header + text|) == Assigned(text, None, name, key, |text|)
    ensures Regular(header + text) <==> Regular(text)
  {
    CommentsSayNothing(header, name, key, |header|);
    AssignedAppend(header, text, None, name, key, |text|);
    RegularAppend(header, text, None, |text|);
  }

  lemma {:induction false} RegularAnywhere(text: Text, section: Option<string>, n: nat)
    requires n <= |text| && section.Some?
    ensures RegularFrom(text, section, n) <==> forall i :: 0 <= i < n ==> !LineOf(text[i]).Irregular?
  {
    if n > 0 {
      RegularAnywhere(text, section, n - 1);
      SectionStays(text, section, n - 1);
    }
  }

  lemma {:induction false} SectionStays(text: Text, section: Option<string>, n: nat)
    requires n <= |text| && section.Some?
    ensures SectionAt(text, section, n).Some?
  {
    if n > 0 { SectionStays(text, section, n - 1); }
  }

  /** Rewriting keeps a body regular. */
  lemma InjectedIsRegular(body: Text, sha: string)
    requires Injectable(body) && Regular(body) && IsCommit(sha)
    ensures Regular(Injected(body, sha).value)
  {
    Decomposed(body, sha);
    HomeIsPre(body);
    HomeExists(body);
    RevLineAssigns(sha);
    SwapLine(Pre(body), Old(body), RevLine(sha), Post(body));
  }

  lemma SwapLine(pre: Text, gone: Text, line: string, post: Text)
    requires SectionAt(pre, None, |pre|).Some? && Regular(pre + gone + post) && !LineOf(line).Irregular?
    ensures Regular(pre + [line] + post)
  {
    var home, rest, tail := SectionAt(pre, None, |pre|), gone + post, [line] + post;
    AppendAssociative(pre, gone, post);
    AppendAssociative(pre, [line], post);
    RegularSplit(pre, rest);
    RegularSplit(pre, tail);
    SwapInSection(home, gone, line, post);
  }

  lemma RegularSplit(a: Text, b: Text)
    ensures Regular(a + b) <==> Regular(a) && RegularFrom(b, SectionAt(a, None, |a|), |b|)
  {
    RegularAppend(a, b, None, |b|);
  }

  lemma SwapInSection(home: Option<string>, gone: Text, line: string, post: Text)
    requires home.Some? && RegularFrom(gone + post, home, |gone + post|) && !LineOf(line).Irregular?
    ensures RegularFrom([line] + post, home, |[line] + post|)
  {
    var rest, tail := gone + post, [line] + post;
    RegularAnywhere(rest, home, |rest|);
    RegularAnywhere(tail, home, |tail|);
    forall i | 0 <= i < |tail| ensures !LineOf(tail[i]).Irregular? {
      if i > 0 { assert tail[i] == rest[|gone| + i - 1]; }
    }
  }

  // ---------- what the parser makes of a rewritten body ----------

  /** The injected rev is what a git section ends up with, or another git section has a rev of its own: the injected
      line is in a git section that does not assign rev again, or not to nothing. */
  ghost predicate Sticks(body: Text)
    requires Injectable(body)
  {
    (exists name :: IsGit(name) && Home(body) != Some(name) && NonEmpty(Assigned(body, None, name, REV, |body|))) ||
    (Home(body).Some? && IsGit(Home(body).value) &&
     var later := Assigned(Post(body), Home(body), Home(body).value, REV, |Post(body)|); later.None? || NonEmpty(later))
  }

  lemma RevSticks(header: Text, body: Text, sha: string)
    requires Comments(header) && Injectable(body) && Regular(body) && IsCommit(sha)
    ensures GitHas(header + Injected(body, sha).value, REV) <==> Sticks(body)
  {
    var out := Injected(body, sha).value;
    forall name
      ensures Assigned(header + out, None, name, REV, |header + out|) ==
              if Home(body) == Some(name) then
                Later(Some(Some(sha)), Assigned(Post(body), Home(body), name, REV, |Post(body)|))
              else Assigned(body, None, name, REV, |body|)
    {
      BehindComments(header, out, name, REV);
      InjectedAssigns(body, sha, name, REV);
    }
    if Home(body).Some? { assert Home(body) == Some(Home(body).value); }
  }

  /** Every other key is untouched. */
  lemma OtherKeysStay(header: Text, body: Text, sha: string, key: string)
    requires Comments(header) && Injectable(body) && Regular(body) && IsCommit(sha) && key != REV
    ensures GitHas(header + Injected(body, sha).value, key) <==> GitHas(body, key)
  {
    var out := Injected(body, sha).value;
    forall name
      ensures Assigned(header + out, None, name, key, |header + out|) == Assigned(body, None, name, key, |body|)
    {
      BehindComments(header, out, name, key);
      InjectedAssigns(body, sha, name, key);
    }
  }

  lemma RewrittenIsRegular(header: Text, body: Text, sha: string)
    requires Comments(header) && Injectable(body) && Regular(body) && IsCommit(sha)
    ensures Regular(header + Injected(body, sha).value)
  {
    InjectedIsRegular(body, sha);
    BehindComments(header, Injected(body, sha).value, GIT, REV);
  }
}
