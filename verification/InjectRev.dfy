/** Rewriting a manifest body so that its `rev` names one commit. Bodies are sequences of lines
    without their newline terminators. */
module InjectRev {
  import opened Sequences

  const BRACKETED_GIT := "[git]"
  const REPO_URL := "repo_url"
  const REV := "rev"
  const REV_ASSIGNMENT := "rev = "

  predicate IsSpace(c: char) {
    c == ' ' || '\t' <= c <= '\r'
  }

  function TrimLeft(s: string): (r: string) {
    if s != [] && IsSpace(s[0]) then TrimLeft(s[1..]) else s
  }

  function TrimRight(s: string): (r: string) {
    if s != [] && IsSpace(s[|s| - 1]) then TrimRight(s[..|s| - 1]) else s
  }

  function Strip(s: string): (r: string) { TrimRight(TrimLeft(s)) }

  predicate IsHeader(line: string) { Strip(line) != [] && Strip(line)[0] == '[' }

  predicate IsGitHeader(line: string) { Strip(line) == BRACKETED_GIT }

  predicate IsRepoUrl(line: string) { REPO_URL <= Strip(line) }

  /** Matches `^rev\s*=`. */
  predicate IsRev(line: string) {
    REV <= line && var rest := TrimLeft(line[|REV|..]); rest != [] && rest[0] == '='
  }

  function RevLine(sha: string): (r: string) { REV_ASSIGNMENT + sha }

  lemma RevLineIsRev(sha: string)
    ensures IsRev(RevLine(sha)) && !IsHeader(RevLine(sha))
  {
    var r := RevLine(sha);
    assert r[0] == 'r' && r[1] == 'e' && r[2] == 'v' && r[3] == ' ' && r[4] == '=';
    assert TrimLeft(r) == r;
    TrimRightKeeps(r, 0);
    assert r[3..][1..] == r[4..];
    assert TrimLeft(r[3..]) == r[4..];
  }

  /** Trimming on the right keeps everything up to a non-space. */
  lemma {:induction false} TrimRightKeeps(s: string, i: nat)
    requires i < |s| && !IsSpace(s[i])
    ensures i < |TrimRight(s)| && TrimRight(s) <= s
  {
    if IsSpace(s[|s| - 1]) { TrimRightKeeps(s[..|s| - 1], i); }
  }

  lemma RevIsNoHeader(line: string)
    requires IsRev(line)
    ensures !IsHeader(line)
  {
    assert line[0] == 'r';
    assert TrimLeft(line) == line;
    TrimRightKeeps(line, 0);
  }

  // ---------- sections ----------

  /** Whether line `i` lies under a bare [git] header. */
  predicate InGit(body: seq<string>, i: nat)
    requires i <= |body|
  {
    i > 0 && if IsHeader(body[i - 1]) then IsGitHeader(body[i - 1]) else InGit(body, i - 1)
  }

  /** The first rev line at or after `from`, or |body|. */
  function FirstRev(body: seq<string>, from: nat): (r: nat)
    requires from <= |body|
    ensures from <= r <= |body| && (r < |body| ==> IsRev(body[r]))
    ensures forall i :: from <= i < r ==> !IsRev(body[i])
    decreases |body| - from
  {
    if from == |body| || IsRev(body[from]) then from else FirstRev(body, from + 1)
  }

  /** A line after which a missing rev can be inserted. */
  predicate IsAnchor(body: seq<string>, i: nat)
    requires i < |body|
  {
    !IsHeader(body[i]) && InGit(body, i) && IsRepoUrl(body[i])
  }

  function FirstAnchor(body: seq<string>, from: nat): (r: nat)
    requires from <= |body|
    ensures from <= r <= |body| && (r < |body| ==> IsAnchor(body, r))
    ensures forall i :: from <= i < r ==> !IsAnchor(body, i)
    decreases |body| - from
  {
    if from == |body| || IsAnchor(body, from) then from else FirstAnchor(body, from + 1)
  }

  function Inserted(body: seq<string>, at: nat, line: string): (r: seq<string>)
    requires at <= |body|
    ensures |r| == |body| + 1 && r[at] == line
    ensures forall i :: 0 <= i < at ==> r[i] == body[i]
    ensures forall i :: at <= i < |body| ==> r[i + 1] == body[i]
  {
    body[..at] + [line] + body[at..]
  }

  predicate Injectable(body: seq<string>) {
    FirstRev(body, 0) < |body| || FirstAnchor(body, 0) < |body|
  }

  /** Where the rev line of the result sits. */
  function Target(body: seq<string>): (r: nat)
    requires Injectable(body)
  {
    if FirstRev(body, 0) < |body| then FirstRev(body, 0) else FirstAnchor(body, 0) + 1
  }

  /** The rewritten body: the first rev line replaced, or one line added; None aborts the run. */
  function Injected(body: seq<string>, sha: string): (r: Option<seq<string>>)
    ensures r.Some? <==> Injectable(body)
  {
    if !Injectable(body) then None
    else if FirstRev(body, 0) < |body| then Some(body[FirstRev(body, 0) := RevLine(sha)])
    else Some(Inserted(body, FirstAnchor(body, 0) + 1, RevLine(sha)))
  }

  method Inject(body: seq<string>, sha: string) returns (r: Option<seq<string>>)
    ensures r == Injected(body, sha)
  {
    var first := FirstRev(body, 0);
    if first < |body| { return Some(body[first := RevLine(sha)]); }
    var out: seq<string>, injected, inGit := [], false, false;
    ghost var anchor := FirstAnchor(body, 0);
    for i := 0 to |body|
      invariant inGit == InGit(body, i) && injected == (anchor < i)
      invariant !injected ==> out == body[..i]
      invariant injected ==> out == body[..anchor + 1] + [RevLine(sha)] + body[anchor + 1..i]
    {
      out := out + [body[i]];
      if IsHeader(body[i]) {
        inGit := IsGitHeader(body[i]);
      } else if inGit && !injected && IsRepoUrl(body[i]) {
        assert IsAnchor(body, i) && i == anchor;
        out := out + [RevLine(sha)];
        injected := true;
      }
    }
    assert body[..|body|] == body;
    r := if injected then Some(out) else None;
  }

  // ---------- what injection promises ----------

  /** Injecting again only replaces what the first injection wrote: the last writer wins. */
  lemma LastWriterWins(body: seq<string>, first: string, last: string)
    requires Injectable(body)
    ensures Injected(Injected(body, first).value, last) == Injected(body, last)
    ensures Target(Injected(body, first).value) == Target(body)
  {
    var out, t := Injected(body, first).value, Target(body);
    RevLineIsRev(first);
    forall i | 0 <= i < t ensures !IsRev(out[i]) { assert out[i] == body[i]; }
    assert IsRev(out[t]);
    assert FirstRev(out, 0) == t;
    assert out[t := RevLine(last)] == Injected(body, last).value;
  }

  /** Replacing one non-header by another moves no section boundary. */
  lemma {:induction false} InGitReplaced(body: seq<string>, k: nat, line: string, i: nat)
    requires k < |body| && i <= |body| && !IsHeader(body[k]) && !IsHeader(line)
    ensures InGit(body[k := line], i) == InGit(body, i)
  {
    if i > 0 { InGitReplaced(body, k, line, i - 1); }
  }

  lemma {:induction false} InGitInserted(body: seq<string>, at: nat, line: string, i: nat)
    requires at <= |body| && i <= |body| && !IsHeader(line)
    ensures i <= at ==> InGit(Inserted(body, at, line), i) == InGit(body, i)
    ensures i >= at ==> InGit(Inserted(body, at, line), i + 1) == InGit(body, i)
    decreases i
  {
    if i > 0 { InGitInserted(body, at, line, i - 1); }
  }

  /** The section headers among the first `n` lines. */
  function Headers(body: seq<string>, n: nat): (r: seq<string>)
    requires n <= |body|
  {
    if n == 0 then [] else Headers(body, n - 1) + if IsHeader(body[n - 1]) then [body[n - 1]] else []
  }

  /** Everything among the first `n` lines except the contents of bare [git] sections. */
  function OutsideGit(body: seq<string>, n: nat): (r: seq<string>)
    requires n <= |body|
  {
    if n == 0 then []
    else OutsideGit(body, n - 1) + if !IsHeader(body[n - 1]) && InGit(body, n - 1) then [] else [body[n - 1]]
  }

  lemma {:induction false} ReplacedKeeps(body: seq<string>, k: nat, line: string, n: nat)
    requires k < |body| && n <= |body| && !IsHeader(body[k]) && !IsHeader(line)
    ensures Headers(body[k := line], n) == Headers(body, n)
    ensures k >= n || InGit(body, k) ==> OutsideGit(body[k := line], n) == OutsideGit(body, n)
    ensures k < n && !InGit(body, k) ==>
              && |OutsideGit(body[k := line], n)| == |OutsideGit(body, n)|
              && (OutsideGit(body[k := line], n) == OutsideGit(body, n) <==> body[k] == line)
  {
    if n > 0 {
      ReplacedKeeps(body, k, line, n - 1);
      InGitReplaced(body, k, line, n - 1);
      var a, b := OutsideGit(body[k := line], n - 1), OutsideGit(body, n - 1);
      if k == n - 1 && !InGit(body, k) {
        assert (a + [line])[|b|] == line && (b + [body[k]])[|b|] == body[k];
      } else if k < n - 1 && !InGit(body, k) && a != b {
        var i :| 0 <= i < |a| && a[i] != b[i];
        var x := if !IsHeader(body[n - 1]) && InGit(body, n - 1) then [] else [body[n - 1]];
        assert (a + x)[i] != (b + x)[i];
      }
    }
  }

  lemma {:induction false} InsertedHeaders(body: seq<string>, at: nat, line: string, n: nat)
    requires at <= n <= |body| && !IsHeader(line)
    ensures Headers(Inserted(body, at, line), n + 1) == Headers(body, n)
    decreases n
  {
    var out := Inserted(body, at, line);
    if n == at {
      InsertedPrefix(body, at, line, n);
      assert out[at] == line;
    } else {
      InsertedHeaders(body, at, line, n - 1);
      assert out[n] == body[n - 1];
    }
  }

  lemma {:induction false} InsertedKeeps(body: seq<string>, at: nat, line: string, n: nat)
    requires at <= n <= |body| && !IsHeader(line) && InGit(body, at)
    ensures OutsideGit(Inserted(body, at, line), n + 1) == OutsideGit(body, n)
    decreases n
  {
    if n == at {
      InsertedItself(body, at, line);
    } else {
      InsertedKeeps(body, at, line, n - 1);
      InGitInserted(body, at, line, n - 1);
      assert Inserted(body, at, line)[n] == body[n - 1];
    }
  }

  lemma InsertedItself(body: seq<string>, at: nat, line: string)
    requires at <= |body| && !IsHeader(line) && InGit(body, at)
    ensures OutsideGit(Inserted(body, at, line), at + 1) == OutsideGit(body, at)
  {
    var out := Inserted(body, at, line);
    InGitInserted(body, at, line, at);
    InsertedPrefix(body, at, line, at);
    assert out[at] == line;
  }

  lemma {:induction false} InsertedPrefix(body: seq<string>, at: nat, line: string, n: nat)
    requires n <= at <= |body| && !IsHeader(line)
    ensures Headers(Inserted(body, at, line), n) == Headers(body, n)
    ensures OutsideGit(Inserted(body, at, line), n) == OutsideGit(body, n)
  {
    if n > 0 {
      InsertedPrefix(body, at, line, n - 1);
      InGitInserted(body, at, line, n - 1);
    }
  }

  /** No injection touches a section header, and it leaves everything outside [git] alone exactly when there is
      no rev line yet, or the first one lies in [git] or already says so. */
  lemma InjectionKeepsSections(body: seq<string>, sha: string)
    requires Injectable(body)
    ensures var out := Injected(body, sha).value; var first := FirstRev(body, 0);
            && Headers(out, |out|) == Headers(body, |body|)
            && (OutsideGit(out, |out|) == OutsideGit(body, |body|) <==>
                first == |body| || InGit(body, first) || body[first] == RevLine(sha))
  {
    var first := FirstRev(body, 0);
    RevLineIsRev(sha);
    if first < |body| {
      RevIsNoHeader(body[first]);
      ReplacedKeeps(body, first, RevLine(sha), |body|);
    } else {
      InsertedHeaders(body, FirstAnchor(body, 0) + 1, RevLine(sha), |body|);
      InsertedKeeps(body, FirstAnchor(body, 0) + 1, RevLine(sha), |body|);
    }
  }

  /** The pinned line is in the [git] section exactly when the body had no rev line or its first one was there. */
  lemma RevLandsInGit(body: seq<string>, sha: string)
    requires Injectable(body)
    ensures Target(body) < |Injected(body, sha).value| && Injected(body, sha).value[Target(body)] == RevLine(sha)
    ensures InGit(Injected(body, sha).value, Target(body)) <==>
            FirstRev(body, 0) == |body| || InGit(body, FirstRev(body, 0))
  {
    var first := FirstRev(body, 0);
    RevLineIsRev(sha);
    if first < |body| {
      RevIsNoHeader(body[first]);
      InGitReplaced(body, first, RevLine(sha), first);
    } else {
      InGitInserted(body, Target(body), RevLine(sha), Target(body));
    }
  }

  /** A rev line of an earlier section is rewritten instead of the [git] section's. */
  lemma RevOutsideGitIsRewritten(sha: string)
    ensures var body := ["[cargo]", "rev =", "[git]", "repo_url"];
            Injectable(body) && Target(body) == 1 && !InGit(body, 1) && Injected(body, sha).value[1] == RevLine(sha)
  {
    var body := ["[cargo]", "rev =", "[git]", "repo_url"];
    RevLineIsRev("");
    var rest := body[1][|REV|..];
    assert body[1][3] == ' ' && body[1][4] == '=';
    assert rest == " =" && rest[1..] == "=";
    assert TrimLeft(rest) == "=";
    assert IsRev(body[1]);
    var header := body[0];
    assert header[0] == '[' && header[6] == ']' && header[1] == 'c';
    assert Strip(header) == header;
    assert !IsRev(header);
    assert FirstRev(body, 0) == 1;
    assert header != BRACKETED_GIT by { assert BRACKETED_GIT[1] == 'g'; }
    assert IsHeader(header) && !IsGitHeader(header);
  }

  // ---------- where the line goes, line by line ----------

  /** The white space that stripping removes. */
  lemma SpacesAre(c: char)
    ensures IsSpace(c) <==> c as int in {9, 10, 11, 12, 13, 32}
  {
  }

  /** The last header before line `i` is [git]. */
  lemma {:induction false} InGitMeans(body: seq<string>, i: nat)
    requires i <= |body|
    ensures InGit(body, i) <==>
            exists h :: 0 <= h < i && IsHeader(body[h]) && Strip(body[h]) == "[git]" &&
              forall m :: h < m < i ==> !IsHeader(body[m])
  {
    if i > 0 && !IsHeader(body[i - 1]) { InGitMeans(body, i - 1); }
    if i > 0 && IsGitHeader(body[i - 1]) { assert IsHeader(body[i - 1]); }
  }

  /** A line in a bare [git] section, not a header, that starts with repo_url. */
  ghost predicate UrlLineAt(body: seq<string>, i: nat) {
    i < |body| && !IsHeader(body[i]) && "repo_url" <= Strip(body[i]) &&
    exists h :: 0 <= h < i && IsHeader(body[h]) && Strip(body[h]) == "[git]" &&
      forall m :: h < m < i ==> !IsHeader(body[m])
  }

  ghost predicate FirstUrlLine(body: seq<string>, i: nat) {
    UrlLineAt(body, i) && forall j :: 0 <= j < i ==> !UrlLineAt(body, j)
  }

  lemma AnchorIff(body: seq<string>, i: nat)
    requires i < |body|
    ensures IsAnchor(body, i) <==> UrlLineAt(body, i)
  {
    InGitMeans(body, i);
  }

  /** A rev line gives way to the new one, the first of several; without any the new line follows the first repo_url
      line of a bare [git] section; without that either there is no result. */
  lemma InjectionPlace(body: seq<string>, sha: string)
    ensures forall i :: 0 <= i < |body| && IsRev(body[i]) && (forall j :: 0 <= j < i ==> !IsRev(body[j])) ==>
              Injected(body, sha) == Some(body[i := "rev = " + sha])
    ensures (forall i :: 0 <= i < |body| ==> !IsRev(body[i])) ==>
              forall i: nat :: FirstUrlLine(body, i) ==>
                Injected(body, sha) == Some(body[..i + 1] + ["rev = " + sha] + body[i + 1..])
    ensures (forall i :: 0 <= i < |body| ==> !IsRev(body[i])) && (forall i: nat :: !FirstUrlLine(body, i)) ==>
              Injected(body, sha) == None
  {
    var first, anchor := FirstRev(body, 0), FirstAnchor(body, 0);
    forall i | 0 <= i < |body| ensures IsAnchor(body, i) <==> UrlLineAt(body, i) { AnchorIff(body, i); }
    forall i | 0 <= i < |body| && IsRev(body[i]) && forall j :: 0 <= j < i ==> !IsRev(body[j]) ensures i == first {}
    forall i: nat | FirstUrlLine(body, i) ensures i == anchor {
      assert anchor <= i;
      assert anchor < |body| ==> UrlLineAt(body, anchor);
    }
    if anchor < |body| { assert FirstUrlLine(body, anchor); }
  }

  /** The bare key counts as a repo_url line. */
  lemma BareKeyIsRepoUrl()
    ensures IsRepoUrl("repo_url")
  {
    var s := "repo_url";
    assert s[0] == 'r' && s[7] == 'l';
  }
}
