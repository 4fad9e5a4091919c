/** The checks of the interface aggregation, stated over the fields of the device groups. */
module InterfaceChecks {
  import opened Sequences
  import opened Topology
  import opened InterfacePlan

  /** The addresses on the device's side of the link. */
  function DeviceIps(g: Group): (r: seq<int>) { if g.aInterface.Some? then g.aIps else g.zIps }

  /** Bound to an interface of the device, with addresses, inside a named parent network. */
  predicate Counted(g: Group) {
    (g.aInterface.Some? || g.zInterface.Some?) && DeviceIps(g) != [] && g.parent.Some? && g.parent.value.text != []
  }

  /** Both groups go to one block: the same interface, address family and parent network. */
  predicate SameBlock(g: Group, h: Group) {
    Counted(g) && Counted(h) && g.afi == h.afi && g.parent.value.text == h.parent.value.text &&
    (if g.aInterface.Some? then g.aInterface else g.zInterface) ==
    (if h.aInterface.Some? then h.aInterface else h.zInterface)
  }

  /** `length` is the one prefix length that occurs among the group's CIDRs, which pair up with its addresses. */
  ghost predicate HasLength(g: Group, length: int) {
    |g.aIps| == |g.zIps| && (g.cidrLengths == [] || |g.cidrLengths| == |g.aIps|) &&
    Some(length) in g.cidrLengths && forall l :: l in g.cidrLengths && l.Some? ==> l == Some(length)
  }

  /** Distance of the first address from the parent's base. */
  function Distance(g: Group): (r: int)
    requires Counted(g) && g.parent.value.base.Some?
  {
    DeviceIps(g)[0] - g.parent.value.base.value
  }

  /** The addresses that the block of `g` has from the first `n` groups. */
  function CountTo(gs: seq<Group>, g: Group, n: nat): (r: nat)
    requires n <= |gs|
  {
    if n == 0 then 0 else CountTo(gs, g, n - 1) + if SameBlock(gs[n - 1], g) then |DeviceIps(gs[n - 1])| else 0
  }

  /** The first group of the block of `g`. */
  ghost predicate Starts(gs: seq<Group>, g: Group, f: nat) {
    f < |gs| && SameBlock(gs[f], g) && forall m :: 0 <= m < f ==> !SameBlock(gs[m], g)
  }

  /** What a group needs on its own. */
  ghost predicate StandsAlone(g: Group) {
    (g.aInterface.None? || g.zInterface.None?) &&
    (g.aInterface.Some? || g.zInterface.Some? ==> |g.aIps| == |g.zIps|) &&
    (Counted(g) ==>
       (exists length :: HasLength(g, length)) && g.stride.Some? && g.stride.value > 0 &&
       g.parent.value.base.Some? && Distance(g) >= 0)
  }

  /** What it needs to go on with the block that `first` starts, after `count` addresses. */
  ghost predicate GoesOn(first: Group, g: Group, count: nat)
    requires Counted(first) && Counted(g) && first.parent.value.base.Some? && g.parent.value.base.Some?
  {
    Family(g.role) == Family(first.role) && (forall length :: HasLength(g, length) <==> HasLength(first, length)) &&
    g.stride == first.stride && Distance(g) == Distance(first) + (if g.stride.Some? then g.stride.value else 0) * count
  }

  // ---------- the model's checks are these ----------

  lemma CountedIff(g: Group)
    ensures Included(g) <==> Counted(g)
    ensures Counted(g) ==> Locals(g) == DeviceIps(g)
  {
  }

  lemma {:induction false} CommonLengthIff(ls: seq<Option<int>>, n: nat, length: int)
    requires n <= |ls|
    ensures CommonLength(ls, n) == Some(length) <==>
            Some(length) in ls[..n] && forall l :: l in ls[..n] && l.Some? ==> l == Some(length)
  {
    if n > 0 {
      CommonLengthIff(ls, n - 1, length);
      assert ls[..n] == ls[..n - 1] + [ls[n - 1]];
      assert forall i :: 0 <= i < n - 1 ==> ls[..n - 1][i] == ls[i];
      assert (forall i :: 0 <= i < n - 1 ==> ls[i].None?) <==> forall l :: l in ls[..n - 1] ==> l.None?;
    }
  }

  lemma LengthIff(g: Group, length: int)
    ensures PrefixLength(g) == Some(length) <==> HasLength(g, length)
  {
    CommonLengthIff(g.cidrLengths, |g.cidrLengths|, length);
    assert g.cidrLengths[..|g.cidrLengths|] == g.cidrLengths;
  }

  lemma StandsAloneIff(g: Group)
    ensures Projectable(g) && (Included(g) ==> Resolvable(g)) <==> StandsAlone(g)
  {
    CountedIff(g);
    if PrefixLength(g).Some? { LengthIff(g, PrefixLength(g).value); }
    if length :| HasLength(g, length) { LengthIff(g, length); }
  }

  lemma SameBlockIff(g: Group, h: Group)
    requires Included(h)
    ensures Included(g) && KeyOf(g) == KeyOf(h) <==> SameBlock(g, h)
  {
  }

  /** The first member of a key is the first group of its block, and the members hold that many addresses. */
  lemma {:induction false} MembersStart(gs: seq<Group>, g: Group, n: nat)
    requires n <= |gs| && Included(g)
    ensures Members(gs, KeyOf(g), n) == [] <==> forall m :: 0 <= m < n ==> !SameBlock(gs[m], g)
    ensures Members(gs, KeyOf(g), n) != [] ==>
              exists f: nat :: f < n && Starts(gs, g, f) && gs[f] == Members(gs, KeyOf(g), n)[0]
    ensures |LocalsOf(Members(gs, KeyOf(g), n))| == CountTo(gs, g, n)
  {
    if n > 0 {
      MembersStart(gs, g, n - 1);
      SameBlockIff(gs[n - 1], g);
      var before := Members(gs, KeyOf(g), n - 1);
      if SameBlock(gs[n - 1], g) {
        LocalsOfAppend(before, gs[n - 1]);
        if before == [] { assert Starts(gs, g, n - 1); }
      } else {
        assert before + [] == before;
      }
    }
  }

  /** Group `n` passes: on its own, and after the first group of its block. */
  ghost predicate Passes(gs: seq<Group>, n: nat)
    requires n < |gs|
  {
    StandsAlone(gs[n]) &&
    (Counted(gs[n]) ==>
       forall f: nat :: f < n && Starts(gs, gs[n], f) ==>
         gs[f].parent.value.base.Some? && GoesOn(gs[f], gs[n], CountTo(gs, gs[n], n)))
  }

  lemma GoesOnIff(first: Group, g: Group, count: nat)
    requires Included(first) && Resolvable(first) && Included(g) && Resolvable(g)
    ensures GoesOn(first, g, count) <==>
            Family(g.role) == Family(first.role) && PrefixLength(g) == PrefixLength(first) &&
            Stride(g) == Stride(first) && Offset(g) == Offset(first) + Stride(first) * count
  {
    CountedIff(g);
    CountedIff(first);
    forall length ensures PrefixLength(g) == Some(length) <==> HasLength(g, length) { LengthIff(g, length); }
    forall length ensures PrefixLength(first) == Some(length) <==> HasLength(first, length) {
      LengthIff(first, length);
    }
    assert HasLength(g, PrefixLength(g).value);
  }

  lemma StartsOnce(gs: seq<Group>, g: Group, e: nat, f: nat)
    requires Starts(gs, g, e) && Starts(gs, g, f)
    ensures e == f
  {
  }

  /** After accepted groups the model's check of the next one is the check by fields. */
  lemma FitsIff(gs: seq<Group>, n: nat)
    requires n < |gs| && forall m :: 0 <= m < n ==> Fits(gs, m)
    ensures Fits(gs, n) <==> Passes(gs, n)
  {
    var g := gs[n];
    StandsAloneIff(g);
    CountedIff(g);
    if StandsAlone(g) && Included(g) { ContinuesIff(gs, n, Members(gs, KeyOf(g), n)); }
  }

  lemma ContinuesIff(gs: seq<Group>, n: nat, ms: seq<Group>)
    requires n < |gs| && (forall m :: 0 <= m < n ==> Fits(gs, m)) && Included(gs[n]) && Resolvable(gs[n])
    requires ms == Members(gs, KeyOf(gs[n]), n)
    ensures Continues(ms, gs[n]) <==>
            forall f: nat :: f < n && Starts(gs, gs[n], f) ==>
              gs[f].parent.value.base.Some? && GoesOn(gs[f], gs[n], CountTo(gs, gs[n], n))
  {
    MembersStart(gs, gs[n], n);
    if ms != [] {
      FirstMemberResolvable(gs, KeyOf(gs[n]), n);
      var f: nat :| f < n && Starts(gs, gs[n], f) && gs[f] == ms[0];
      GoesOnIff(gs[f], gs[n], CountTo(gs, gs[n], n));
      forall e: nat | e < n && Starts(gs, gs[n], e) ensures e == f { StartsOnce(gs, gs[n], e, f); }
    }
  }

  /** The aggregation accepts exactly the lists whose groups all pass, one after the other. */
  lemma AcceptedIff(gs: seq<Group>)
    ensures (forall n :: 0 <= n < |gs| ==> Fits(gs, n)) <==> forall n :: 0 <= n < |gs| ==> Passes(gs, n)
  {
    AcceptedTo(gs, |gs|);
  }

  lemma {:induction false} AcceptedTo(gs: seq<Group>, n: nat)
    requires n <= |gs|
    ensures (forall m :: 0 <= m < n ==> Fits(gs, m)) <==> forall m :: 0 <= m < n ==> Passes(gs, m)
  {
    if n > 0 {
      AcceptedTo(gs, n - 1);
      if forall m :: 0 <= m < n - 1 ==> Fits(gs, m) { FitsIff(gs, n - 1); }
    }
  }
}
