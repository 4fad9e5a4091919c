/** getdeps manifests: where they come from, how they classify, and the memoised store. */
module Manifests {
  import opened Sequences

  type Text = seq<string>

  datatype Entry = Entry(key: string, value: Option<string>)

  /** The part of a section header before its first dot. */
  datatype Family = Git | Download | Dependencies | Other(name: string)

  /** `condition` is what follows the first dot, as in [dependencies.os=linux]; None for the bare header. */
  datatype Section = Section(family: Family, condition: Option<string>, entries: seq<Entry>)

  /** A parsed manifest; `parse` in `Upstream` is the configuration parser. */
  datatype Manifest = Manifest(sections: seq<Section>)

  datatype Lookup = Absent | Unparsable | Present(manifest: Manifest, isOverlay: bool)

  datatype Kind = Floating | Pinned | Immutable | System | Missing

  /** `via` is the chain of names from a build target down to `name`. */
  datatype Dep =
    Dep(name: string, kind: Kind, url: Option<string>, rev: Option<string>, isOverlay: bool, via: seq<string>)

  function ValueOf(entries: seq<Entry>, key: string): (r: Option<string>) {
    if entries == [] then None
    else if entries[0].key == key then entries[0].value
    else ValueOf(entries[1..], key)
  }

  /** The first non-empty value of `key` in the sections of a family, conditional variants included. */
  function ValueIn(sections: seq<Section>, family: Family, key: string): (r: Option<string>)
    ensures r.Some? ==> r.value != ""
  {
    if sections == [] then None
    else
      var v := if sections[0].family == family then ValueOf(sections[0].entries, key) else None;
      if v.Some? && v.value != "" then v else ValueIn(sections[1..], family, key)
  }

  /** What section `i` offers for `key`: a non-empty value in a section of the family. */
  predicate Offers(sections: seq<Section>, i: nat, family: Family, key: string)
    requires i < |sections|
  {
    sections[i].family == family && ValueOf(sections[i].entries, key).Some? &&
    ValueOf(sections[i].entries, key).value != ""
  }

  /** `v` is what the first offering section says; None means that no section offers anything. */
  ghost predicate FirstOffer(sections: seq<Section>, family: Family, key: string, v: Option<string>) {
    if v.None? then forall i :: 0 <= i < |sections| ==> !Offers(sections, i, family, key)
    else exists i ::
      0 <= i < |sections| && Offers(sections, i, family, key) && ValueOf(sections[i].entries, key) == v &&
      forall j :: 0 <= j < i ==> !Offers(sections, j, family, key)
  }

  lemma {:induction false} FirstOfferWins(sections: seq<Section>, family: Family, key: string)
    ensures FirstOffer(sections, family, key, ValueIn(sections, family, key))
  {
    if sections != [] && !Offers(sections, 0, family, key) {
      FirstOfferWins(sections[1..], family, key);
      FirstOfferShift(sections, family, key, ValueIn(sections, family, key));
    }
  }

  lemma FirstOfferShift(sections: seq<Section>, family: Family, key: string, v: Option<string>)
    requires sections != [] && !Offers(sections, 0, family, key) && FirstOffer(sections[1..], family, key, v)
    ensures FirstOffer(sections, family, key, v)
  {
    var rest := sections[1..];
    forall j | 0 < j < |sections| ensures Offers(sections, j, family, key) == Offers(rest, j - 1, family, key) {}
    if v.Some? {
      var i :| 0 <= i < |rest| && Offers(rest, i, family, key) && ValueOf(rest[i].entries, key) == v &&
               forall j :: 0 <= j < i ==> !Offers(rest, j, family, key);
      assert Offers(sections, i + 1, family, key) && ValueOf(sections[i + 1].entries, key) == v;
    }
  }

  lemma FirstOfferUnique(sections: seq<Section>, family: Family, key: string, v: Option<string>, w: Option<string>)
    requires FirstOffer(sections, family, key, v) && FirstOffer(sections, family, key, w)
    ensures v == w
  {
  }

  function Keys(entries: seq<Entry>): (r: seq<string>)
    ensures |r| == |entries|
    ensures forall i :: 0 <= i < |r| ==> r[i] == entries[i].key
  {
    seq(|entries|, i requires 0 <= i < |entries| => entries[i].key)
  }

  /** The dependency names a single section contributes. */
  function SectionDeps(s: Section): (r: seq<string>) {
    if s.family == Dependencies then Keys(s.entries) else []
  }

  ghost predicate DependsOn(l: Lookup, name: string) {
    l.Present? && exists i :: 0 <= i < |l.manifest.sections| && name in SectionDeps(l.manifest.sections[i])
  }

  /** The overlays, the upstream repository, the parser, and the upstream revision in force. */
  datatype Upstream =
    Upstream(overlays: map<string, Text>, fetch: (string, string) -> Option<Text>, parse: Text -> Option<Manifest>,
             rev: string)
  {
    function Raw(name: string): (r: Option<(Text, bool)>) {
      if name in overlays then Some((overlays[name], true))
      else match fetch(rev, name)
        case None => None
        case Some(text) => Some((text, false))
    }

    /** An overlay shadows the upstream file; whichever it is has to parse. */
    function Find(name: string): (r: Lookup)
      ensures r.Absent? <==> name !in overlays && fetch(rev, name).None?
      ensures r.Present? && name in overlays ==> r.isOverlay && parse(overlays[name]) == Some(r.manifest)
      ensures r.Present? && name !in overlays ==>
                !r.isOverlay && fetch(rev, name).Some? && parse(fetch(rev, name).value) == Some(r.manifest)
      ensures r.Unparsable? ==>
                if name in overlays then parse(overlays[name]).None?
                else fetch(rev, name).Some? && parse(fetch(rev, name).value).None?
    {
      match Raw(name)
      case None => Absent
      case Some((text, isOverlay)) =>
        match parse(text)
        case None => Unparsable
        case Some(m) => Present(m, isOverlay)
    }
  }

  predicate HasBareDownload(m: Manifest) {
    exists i :: 0 <= i < |m.sections| && m.sections[i].family == Download && m.sections[i].condition.None?
  }

  /** Classification of a manifest that parsed or does not exist. */
  function Classified(l: Lookup, name: string, via: seq<string>): (d: Dep)
    requires !l.Unparsable?
    ensures d.name == name && d.via == via && d.isOverlay == (l.Present? && l.isOverlay)
    ensures d.kind == Missing <==> l.Absent?
    ensures d.kind == Floating ==> d.url.Some? && d.rev.None?
    ensures d.kind == Pinned ==> d.url.Some? && d.rev.Some?
    ensures d.url.Some? ==> d.kind == Floating || d.kind == Pinned
  {
    match l
    case Absent => Dep(name, Missing, None, None, false, via)
    case Present(m, isOverlay) =>
      var url := ValueIn(m.sections, Git, "repo_url");
      if url.Some? then
        var rev := ValueIn(m.sections, Git, "rev");
        Dep(name, if rev.Some? then Pinned else Floating, url, rev, isOverlay, via)
      else if HasBareDownload(m) then
        Dep(name, Immutable, None, None, isOverlay, via)
      else
        Dep(name, System, None, None, isOverlay, via)
  }

  ghost predicate HasGitValue(m: Manifest, key: string) {
    exists i :: 0 <= i < |m.sections| && Offers(m.sections, i, Git, key)
  }

  /** The kind of a manifest that exists, by what its sections offer. */
  lemma ClassifiedBySections(m: Manifest, isOverlay: bool, name: string, via: seq<string>)
    ensures var d := Classified(Present(m, isOverlay), name, via);
            d.isOverlay == isOverlay &&
            (d.kind == Pinned <==> HasGitValue(m, "repo_url") && HasGitValue(m, "rev")) &&
            (d.kind == Floating <==> HasGitValue(m, "repo_url") && !HasGitValue(m, "rev")) &&
            (d.kind == Immutable <==>
               !HasGitValue(m, "repo_url") &&
               exists s :: s in m.sections && s.family == Download && s.condition == None) &&
            (d.kind == System <==>
               !HasGitValue(m, "repo_url") &&
               forall s :: s in m.sections && s.family == Download ==> s.condition != None)
  {
    FirstOfferWins(m.sections, Git, "repo_url");
    FirstOfferWins(m.sections, Git, "rev");
  }

  /** Url and rev of a dependency are the first non-empty values in its git sections; without a url neither is
      recorded. */
  lemma ClassifiedValues(m: Manifest, isOverlay: bool, name: string, via: seq<string>)
    ensures var d := Classified(Present(m, isOverlay), name, via);
            FirstOffer(m.sections, Git, "repo_url", d.url) &&
            if d.url.Some? then FirstOffer(m.sections, Git, "rev", d.rev) else d.rev.None?
  {
    FirstOfferWins(m.sections, Git, "repo_url");
    FirstOfferWins(m.sections, Git, "rev");
  }

  /** Caches every lookup that did not abort the run. */
  class ManifestStore {
    const up: Upstream
    var parsed: map<string, Option<(Manifest, bool)>>

    /** The cache never disagrees with an uncached lookup. */
    ghost predicate Valid()
      reads this
    {
      forall n :: n in parsed ==>
        up.Find(n) == match parsed[n] case None => Absent case Some((m, isOverlay)) => Present(m, isOverlay)
    }

    constructor (up: Upstream)
      ensures Valid() && this.up == up && parsed == map[]
    {
      this.up := up;
      parsed := map[];
    }

    /** `Unparsable` stands for the aborted run; nothing is cached then. */
    method Parsed(name: string) returns (r: Lookup)
      requires Valid()
      modifies this
      ensures Valid() && r == up.Find(name)
      ensures parsed.Keys == if r.Unparsable? then old(parsed.Keys) else old(parsed.Keys) + {name}
      ensures forall n :: n in old(parsed) ==> n in parsed && parsed[n] == old(parsed)[n]
    {
      if name !in parsed {
        match up.Raw(name)
        case None =>
          parsed := parsed[name := None];
        case Some((text, isOverlay)) =>
          match up.parse(text) {
            case None => return Unparsable;
            case Some(m) => parsed := parsed[name := Some((m, isOverlay))];
          }
      }
      match parsed[name]
      case None => r := Absent;
      case Some((m, isOverlay)) => r := Present(m, isOverlay);
    }

    method Classify(name: string, via: seq<string>) returns (r: Option<Dep>)
      requires Valid()
      modifies this
      ensures Valid()
      ensures r == if up.Find(name).Unparsable? then None else Some(Classified(up.Find(name), name, via))
    {
      var l := Parsed(name);
      r := if l.Unparsable? then None else Some(Classified(l, name, via));
    }
  }
}
