/** Manifest texts as the script's configuration parser reads them: repeated headers are one section, repeated keys
    keep their last value, a key may stand without a value. */
module ConfigText {
  import opened Sequences
  import opened Manifests
  import opened InjectRev

  // ---------- single lines ----------

  datatype Line = Ignored | Header(name: string) | Assignment(key: string, value: Option<string>) | Irregular

  predicate IsDelimiter(c: char) { c == '=' || c == ':' }

  /** The position of the first delimiter at or after `i`, or |s|. */
  function FirstDelimiter(s: string, i: nat): (r: nat)
    requires i <= |s|
    ensures i <= r <= |s| && (r < |s| ==> IsDelimiter(s[r]))
    ensures forall k :: i <= k < r ==> !IsDelimiter(s[k])
    decreases |s| - i
  {
    if i == |s| || IsDelimiter(s[i]) then i else FirstDelimiter(s, i + 1)
  }

  function LowerChar(c: char): (r: char) {
    if 'A' <= c <= 'Z' then (c as int + 32) as char else c
  }

  function Lower(s: string): (r: string)
    ensures |r| == |s|
  {
    seq(|s|, i requires 0 <= i < |s| => LowerChar(s[i]))
  }

  /** An option line, already stripped. */
  function AssignmentOf(s: string): (r: Line)
    ensures r.Assignment? || r.Irregular?
  {
    var d := FirstDelimiter(s, 0);
    var key := Lower(TrimRight(s[..d]));
    if key == [] || '%' in s then Irregular
    else Assignment(key, if d == |s| then None else Some(TrimLeft(s[d + 1..])))
  }

  const DEFAULT := "DEFAULT"

  /** Irregular lines are those with more to them: continuations, odd brackets, the default section, interpolation. */
  function LineOf(line: string): (r: Line) {
    var s := TrimRight(line);
    if s == [] then Ignored
    else if IsSpace(s[0]) then Irregular
    else if s[0] == '#' || s[0] == ';' then Ignored
    else if s[0] == '[' then
      if |s| > 2 && s[|s| - 1] == ']' && ']' !in s[..|s| - 1] && s[1..|s| - 1] != DEFAULT then Header(s[1..|s| - 1])
      else Irregular
    else AssignmentOf(s)
  }

  // ---------- whole texts ----------

  /** The section in force after the first `n` lines, starting in `section`. */
  function SectionAt(text: Text, section: Option<string>, n: nat): (r: Option<string>)
    requires n <= |text|
  {
    if n == 0 then section
    else if LineOf(text[n - 1]).Header? then Some(LineOf(text[n - 1]).name)
    else SectionAt(text, section, n - 1)
  }

  /** A text without irregular lines, and without assignments before the first header. */
  predicate RegularFrom(text: Text, section: Option<string>, n: nat)
    requires n <= |text|
  {
    n == 0 ||
    (RegularFrom(text, section, n - 1) && !LineOf(text[n - 1]).Irregular? &&
     (LineOf(text[n - 1]).Assignment? ==> SectionAt(text, section, n - 1).Some?))
  }

  predicate Regular(text: Text) { RegularFrom(text, None, |text|) }

  /** Line `i` assigns `key` in section `name`. */
  predicate AssignsAt(text: Text, section: Option<string>, name: string, key: string, i: nat)
    requires i < |text|
  {
    LineOf(text[i]).Assignment? && LineOf(text[i]).key == key && SectionAt(text, section, i) == Some(name)
  }

  /** The last assignment of `key` in section `name` among the first `n` lines, if any. */
  function Assigned(text: Text, section: Option<string>, name: string, key: string, n: nat): (r: Option<Option<string>>)
    requires n <= |text|
  {
    if n == 0 then None
    else if AssignsAt(text, section, name, key, n - 1) then Some(LineOf(text[n - 1]).value)
    else Assigned(text, section, name, key, n - 1)
  }

  predicate NonEmpty(v: Option<Option<string>>) { v.Some? && v.value.Some? && v.value.value != "" }

  const GIT := "git"
  const GIT_DOT := "git."

  /** `git` itself or a conditional variant. */
  predicate IsGit(name: string) { name == GIT || GIT_DOT <= name }

  /** Some git section ends up with a non-empty value for `key`. */
  ghost predicate GitHas(text: Text, key: string) {
    exists name :: IsGit(name) && NonEmpty(Assigned(text, None, name, key, |text|))
  }

  /** The parser accepts the text and finds a git value exactly when the text ends up with one. */
  ghost predicate ReadsGit(parse: Text -> Option<Manifest>, text: Text, key: string) {
    parse(text).Some? && (HasGitValue(parse(text).value, key) <==> GitHas(text, key))
  }

  /** What the script's parser does with regular texts, as far as git sections go. */
  ghost predicate ReadsRegular(parse: Text -> Option<Manifest>) {
    forall text, key :: Regular(text) ==> ReadsGit(parse, text, key)
  }

  // ---------- concatenation ----------

  lemma {:induction false} SectionAppend(a: Text, b: Text, section: Option<string>, n: nat)
    requires n <= |b|
    ensures SectionAt(a + b, section, |a| + n) == SectionAt(b, SectionAt(a, section, |a|), n)
  {
    if n > 0 { SectionAppend(a, b, section, n - 1); } else { SectionPrefix(a, b, section, |a|); }
  }

  lemma {:induction false} SectionPrefix(a: Text, b: Text, section: Option<string>, n: nat)
    requires n <= |a|
    ensures SectionAt(a + b, section, n) == SectionAt(a, section, n)
  {
    if n > 0 { SectionPrefix(a, b, section, n - 1); }
  }

  function Later<T>(a: Option<T>, b: Option<T>): (r: Option<T>) { if b.Some? then b else a }

  lemma {:induction false} AssignedPrefix(a: Text, b: Text, section: Option<string>, name: string, key: string, n: nat)
    requires n <= |a|
    ensures Assigned(a + b, section, name, key, n) == Assigned(a, section, name, key, n)
  {
    if n > 0 {
      AssignedPrefix(a, b, section, name, key, n - 1);
      SectionPrefix(a, b, section, n - 1);
    }
  }

  /** The later text's assignment wins. */
  lemma {:induction false} AssignedAppend(a: Text, b: Text, section: Option<string>, name: string, key: string, n: nat)
    requires n <= |b|
    ensures Assigned(a + b, section, name, key, |a| + n) ==
            Later(Assigned(a, section, name, key, |a|), Assigned(b, SectionAt(a, section, |a|), name, key, n))
  {
    if n > 0 {
      AssignedAppend(a, b, section, name, key, n - 1);
      SectionAppend(a, b, section, n - 1);
      assert (a + b)[|a| + n - 1] == b[n - 1];
    } else {
      AssignedPrefix(a, b, section, name, key, |a|);
    }
  }

  lemma {:induction false} RegularPrefix(a: Text, b: Text, section: Option<string>, n: nat)
    requires n <= |a|
    ensures RegularFrom(a + b, section, n) <==> RegularFrom(a, section, n)
  {
    if n > 0 {
      RegularPrefix(a, b, section, n - 1);
      SectionPrefix(a, b, section, n - 1);
    }
  }

  lemma {:induction false} RegularAppend(a: Text, b: Text, section: Option<string>, n: nat)
    requires n <= |b|
    ensures RegularFrom(a + b, section, |a| + n) <==>
            RegularFrom(a, section, |a|) && RegularFrom(b, SectionAt(a, section, |a|), n)
  {
    if n > 0 {
      RegularAppend(a, b, section, n - 1);
      SectionAppend(a, b, section, n - 1);
    } else {
      RegularPrefix(a, b, section, |a|);
    }
  }

  // ---------- a parser of this kind ----------

  /** The position of the first dot, or |s|. */
  function FirstDot(s: string, i: nat): (r: nat)
    requires i <= |s|
    ensures i <= r <= |s| && (r < |s| ==> s[r] == '.')
    ensures forall k :: i <= k < r ==> s[k] != '.'
    decreases |s| - i
  {
    if i == |s| || s[i] == '.' then i else FirstDot(s, i + 1)
  }

  const DOWNLOAD := "download"
  const DEPENDENCIES := "dependencies"

  function FamilyNamed(name: string): (f: Family) {
    if name == GIT then Git
    else if name == DOWNLOAD then Download
    else if name == DEPENDENCIES then Dependencies
    else Other(name)
  }

  lemma IsGitFamily(name: string)
    ensures FamilyNamed(name[..FirstDot(name, 0)]) == Git <==> IsGit(name)
  {
    var d := FirstDot(name, 0);
    assert GIT_DOT == GIT + "." && |GIT| == 3 && forall i :: 0 <= i < 3 ==> GIT[i] != '.';
    if GIT_DOT <= name {
      assert name[3] == '.' && name[..3] == GIT;
      assert forall i :: 0 <= i < 3 ==> name[i] == name[..3][i];
      assert d == 3;
    }
    if name[..d] == GIT && d < |name| { assert name[..4] == GIT + "."; }
  }

  /** The names of the headers among the first `n` lines, repeats included. */
  function HeaderNames(text: Text, n: nat): (r: seq<string>)
    requires n <= |text|
  {
    if n == 0 then []
    else HeaderNames(text, n - 1) + if LineOf(text[n - 1]).Header? then [LineOf(text[n - 1]).name] else []
  }

  /** The keys assigned in one section, repeats included. */
  function KeysIn(text: Text, name: string, n: nat): (r: seq<string>)
    requires n <= |text|
  {
    if n == 0 then []
    else
      var line := LineOf(text[n - 1]);
      KeysIn(text, name, n - 1) +
      if line.Assignment? && SectionAt(text, None, n - 1) == Some(name) then [line.key] else []
  }

  /** The value that the last assignment gives. */
  function FinalValue(text: Text, name: string, key: string): (r: Option<string>) {
    var v := Assigned(text, None, name, key, |text|);
    if v.Some? then v.value else None
  }

  function EntriesOf(text: Text, name: string, keys: seq<string>): (r: seq<Entry>) {
    if keys == [] then []
    else [Entry(keys[0], FinalValue(text, name, keys[0]))] + EntriesOf(text, name, keys[1..])
  }

  function SectionNamed(text: Text, name: string): (s: Section) {
    var d := FirstDot(name, 0);
    Section(FamilyNamed(name[..d]), if d == |name| then None else Some(name[d + 1..]),
            EntriesOf(text, name, FirstUses(KeysIn(text, name, |text|), |KeysIn(text, name, |text|)|)))
  }

  /** One section per header name and one entry per key, both in order of first use. */
  function Parse(text: Text): (r: Option<Manifest>) {
    if Regular(text) then
      var names := HeaderNames(text, |text|);
      var distinct := FirstUses(names, |names|);
      Some(Manifest(seq(|distinct|, i requires 0 <= i < |distinct| => SectionNamed(text, distinct[i]))))
    else None
  }

  lemma {:induction false} EntryValue(text: Text, name: string, keys: seq<string>, key: string)
    ensures ValueOf(EntriesOf(text, name, keys), key) == if key in keys then FinalValue(text, name, key) else None
  {
    if keys != [] {
      EntryValue(text, name, keys[1..], key);
      var rest := EntriesOf(text, name, keys[1..]);
      assert ([Entry(keys[0], FinalValue(text, name, keys[0]))] + rest)[1..] == rest;
    }
  }

  lemma {:induction false} KeyIsAssigned(text: Text, name: string, key: string, n: nat)
    requires n <= |text|
    ensures key in KeysIn(text, name, n) <==> Assigned(text, None, name, key, n).Some?
  {
    if n > 0 {
      KeyIsAssigned(text, name, key, n - 1);
      var before, line := KeysIn(text, name, n - 1), LineOf(text[n - 1]);
      if line.Assignment? && SectionAt(text, None, n - 1) == Some(name) {
        assert KeysIn(text, name, n) == before + [line.key];
      } else {
        assert KeysIn(text, name, n) == before + [] == before;
      }
    }
  }

  lemma {:induction false} SectionHasHeader(text: Text, name: string, n: nat)
    requires n <= |text| && SectionAt(text, None, n) == Some(name)
    ensures name in HeaderNames(text, n)
  {
    if n > 0 && !LineOf(text[n - 1]).Header? { SectionHasHeader(text, name, n - 1); }
  }

  lemma {:induction false} AssignedHasHeader(text: Text, name: string, key: string, n: nat)
    requires n <= |text| && Assigned(text, None, name, key, n).Some?
    ensures name in HeaderNames(text, n)
  {
    if AssignsAt(text, None, name, key, n - 1) {
      SectionHasHeader(text, name, n - 1);
    } else {
      AssignedHasHeader(text, name, key, n - 1);
    }
  }

  lemma SectionValue(text: Text, name: string, key: string)
    ensures ValueOf(SectionNamed(text, name).entries, key) == FinalValue(text, name, key)
    ensures SectionNamed(text, name).family == Git <==> IsGit(name)
  {
    var keys := KeysIn(text, name, |text|);
    EntryValue(text, name, FirstUses(keys, |keys|), key);
    FirstUsesMembers(keys, |keys|, key);
    assert keys[..|keys|] == keys;
    KeyIsAssigned(text, name, key, |text|);
    IsGitFamily(name);
  }

  /** So a parser that reads regular texts this way exists. */
  lemma ParseReadsRegular()
    ensures ReadsRegular(Parse)
  {
    forall text, key | Regular(text) ensures ReadsGit(Parse, text, key) { ParsedGitValue(text, key); }
  }

  lemma ParsedGitValue(text: Text, key: string)
    requires Regular(text)
    ensures HasGitValue(Parse(text).value, key) <==> GitHas(text, key)
  {
    var names := HeaderNames(text, |text|);
    var distinct, m := FirstUses(names, |names|), Parse(text).value;
    assert names[..|names|] == names;
    if HasGitValue(m, key) {
      var i :| 0 <= i < |m.sections| && Offers(m.sections, i, Git, key);
      SectionValue(text, distinct[i], key);
      assert NonEmpty(Assigned(text, None, distinct[i], key, |text|));
    }
    if name :| IsGit(name) && NonEmpty(Assigned(text, None, name, key, |text|)) {
      AssignedHasHeader(text, name, key, |text|);
      FirstUsesMembers(names, |names|, name);
      var i :| 0 <= i < |distinct| && distinct[i] == name;
      SectionValue(text, name, key);
      assert Offers(m.sections, i, Git, key);
    }
  }
}
