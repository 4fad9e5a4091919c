/** Bound device groups as the EOS/BGP++ projections read them. Addresses are integers. */
module Topology {
  import opened Sequences

  datatype Afi = V4 | V6

  /** A role as its prefix decides its BGP family. */
  datatype Role = Uplink | Ebgp(suffix: string) | Ibgp(suffix: string) | Bgpmon | OtherRole(name: string)

  datatype RoleFamily = EbgpFamily | IbgpFamily | BgpmonFamily | OtherFamily(name: string)

  function Family(r: Role): (f: RoleFamily) {
    match r
    case Uplink => EbgpFamily
    case Ebgp(_) => EbgpFamily
    case Ibgp(_) => IbgpFamily
    case Bgpmon => BgpmonFamily
    case OtherRole(name) => OtherFamily(name)
  }

  /** Sort rank of a family; unknown families come last. */
  function FamilyRank(f: RoleFamily): (r: int) {
    match f case EbgpFamily => 0 case IbgpFamily => 1 case BgpmonFamily => 2 case OtherFamily(_) => 3
  }

  predicate IsEbgp(r: Role) { r.Uplink? || r.Ebgp? }

  /** EBGP, then IBGP, then the monitor, then everything else. */
  predicate RoleBefore(r: Role, s: Role) {
    (IsEbgp(r) && !IsEbgp(s)) || (r.Ibgp? && (s.Bgpmon? || s.OtherRole?)) || (r.Bgpmon? && s.OtherRole?)
  }

  lemma RanksByRole(r: Role, s: Role)
    ensures FamilyRank(Family(r)) < FamilyRank(Family(s)) <==> RoleBefore(r, s)
  {
  }

  /** `base` is the parsed network address, None when it does not parse. */
  datatype Parent = Parent(text: string, base: Option<int>)

  datatype Group =
    Group(name: string, role: Role, afi: Afi, aInterface: Option<string>, zInterface: Option<string>,
          aIps: seq<int>, zIps: seq<int>, cidrLengths: seq<Option<int>>, stride: Option<int>, parent: Option<Parent>,
          neighborAbsent: bool, remoteAsn: Option<int>, peerGroup: Option<string>)

  predicate SameParentText(g: Group, h: Group) {
    g.afi == h.afi && g.parent.Some? && h.parent.Some? && g.parent.value.text == h.parent.value.text
  }

  /** A parent's base is parsed from its text and family, so equal texts of one family have equal bases. */
  ghost predicate BasesAgree(gs: seq<Group>) {
    forall i, j :: 0 <= i < |gs| && 0 <= j < |gs| && SameParentText(gs[i], gs[j]) ==> gs[i].parent == gs[j].parent
  }

  /** The device under test must sit on one side of the link only. */
  predicate Ambiguous(g: Group) { g.aInterface.Some? && g.zInterface.Some? }

  function DutInterface(g: Group): (r: Option<string>) {
    if g.aInterface.Some? then g.aInterface else g.zInterface
  }

  function Locals(g: Group): (r: seq<int>) {
    if g.aInterface.Some? then g.aIps else if g.zInterface.Some? then g.zIps else []
  }

  function Peers(g: Group): (r: seq<int>) {
    if g.aInterface.Some? then g.zIps else if g.zInterface.Some? then g.aIps else []
  }

  /** Neither projection accepts a group without these. */
  predicate Projectable(g: Group) { !Ambiguous(g) && |Locals(g)| == |Peers(g)| }
}
