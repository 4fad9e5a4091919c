/** Sparse formulaic prefixes. A source lists `start + c * step` for every candidate index c
    outside its excluded indices. Prefixes are integers. The compiler lowers a window of retained
    prefixes to (start, step, count, relative exclusions); the IXIA runtime expands it again. */
module PrefixWindows {
  import opened Sequences
  import opened Orders

  datatype Source = Source(start: int, step: int, count: int, excluded: seq<int>)

  ghost predicate Increasing(e: seq<int>) {
    forall i, j :: 0 <= i < j < |e| ==> e[i] < e[j]
  }

  ghost predicate Exclusions(e: seq<int>) {
    Increasing(e) && forall i :: 0 <= i < |e| ==> 0 <= e[i]
  }

  /** What the prefix sequence's constructor accepts. */
  ghost predicate ValidSource(s: Source) {
    s.count > 0 && Exclusions(s.excluded) &&
    forall i :: 0 <= i < |s.excluded| ==> s.excluded[i] < s.count + |s.excluded|
  }

  // ---------- the reference meaning: keep every candidate that is not excluded ----------

  /** The retained candidates below `n`, ascending. */
  function Retained(e: seq<int>, n: nat): (r: seq<int>)
    ensures |r| <= n
  {
    if n == 0 then [] else Retained(e, n - 1) + if n - 1 in e then [] else [n - 1]
  }

  /** Candidate indices as addresses. */
  function Spread(start: int, step: int, candidates: seq<int>): (r: seq<int>)
    ensures |r| == |candidates|
  {
    seq(|candidates|, i requires 0 <= i < |candidates| => start + candidates[i] * step)
  }

  function ShiftBy(candidates: seq<int>, lo: int): (r: seq<int>)
    ensures |r| == |candidates|
    ensures forall i :: 0 <= i < |r| ==> r[i] == candidates[i] + lo
  {
    seq(|candidates|, i requires 0 <= i < |candidates| => candidates[i] + lo)
  }

  lemma {:induction false} RetainedPrefix(e: seq<int>, m: nat, n: nat)
    requires m <= n
    ensures Retained(e, m) <= Retained(e, n)
  {
    if m < n { RetainedPrefix(e, m, n - 1); }
  }

  lemma {:induction false} RetainedCount(e: seq<int>, n: nat, below: nat)
    requires Exclusions(e) && below <= |e|
    requires forall i :: 0 <= i < below ==> e[i] < n
    requires forall i :: below <= i < |e| ==> n <= e[i]
    ensures |Retained(e, n)| == n - below
    decreases n
  {
    if n == 0 {
      assert below == 0;
    } else if n - 1 in e {
      var i :| 0 <= i < |e| && e[i] == n - 1;
      assert e[i] <= e[below - 1];
      RetainedCount(e, n - 1, below - 1);
    } else {
      RetainedCount(e, n - 1, below);
    }
  }

  // ---------- random access: the logical index plus a bisection ----------

  /** How many leading elements are at most x. */
  function BisectRight(s: seq<int>, x: int): (r: nat)
    ensures r <= |s|
    ensures forall i :: 0 <= i < r ==> s[i] <= x
    ensures r < |s| ==> x < s[r]
  {
    BisectFrom(s, x, 0)
  }

  function BisectFrom(s: seq<int>, x: int, from: nat): (r: nat)
    requires from <= |s| && forall i :: 0 <= i < from ==> s[i] <= x
    ensures from <= r <= |s|
    ensures forall i :: 0 <= i < r ==> s[i] <= x
    ensures r < |s| ==> x < s[r]
    decreases |s| - from
  {
    if from == |s| || x < s[from] then from else BisectFrom(s, x, from + 1)
  }

  ghost predicate Ascending(s: seq<int>) { forall i, j :: 0 <= i < j < |s| ==> s[i] <= s[j] }

  /** `bisect.bisect_right`, a binary search, on any list. */
  function Bisect(s: seq<int>, x: int, lo: nat, hi: nat): (r: nat)
    requires lo <= hi <= |s|
    ensures lo <= r <= hi
    decreases hi - lo
  {
    if lo == hi then lo
    else
      var mid := Middle(lo, hi);
      if x < s[mid] then Bisect(s, x, lo, mid) else Bisect(s, x, mid + 1, hi)
  }

  function Middle(lo: nat, hi: nat): (mid: nat)
    requires lo < hi
    ensures lo <= mid < hi
  {
    (lo + hi) / 2
  }

  /** The search ends between an element up to x and one above. */
  lemma {:induction false} BisectFinds(s: seq<int>, x: int, lo: nat, hi: nat)
    requires lo <= hi <= |s|
    requires (lo > 0 ==> s[lo - 1] <= x) && (hi < |s| ==> x < s[hi])
    ensures var r := Bisect(s, x, lo, hi); (r > 0 ==> s[r - 1] <= x) && (r < |s| ==> x < s[r])
    decreases hi - lo
  {
    if lo < hi {
      var mid := Middle(lo, hi);
      if x < s[mid] { BisectFinds(s, x, lo, mid); } else { BisectFinds(s, x, mid + 1, hi); }
    }
  }

  lemma BisectIsBoundary(s: seq<int>, x: int, b: nat)
    requires Ascending(s) && b <= |s| && (b > 0 ==> s[b - 1] <= x) && (b < |s| ==> x < s[b])
    ensures Bisect(s, x, 0, |s|) == b
  {
    var r := Bisect(s, x, 0, |s|);
    BisectFinds(s, x, 0, |s|);
  }

  lemma BisectMonotone(s: seq<int>, x: int, y: int)
    requires Ascending(s) && x <= y
    ensures Bisect(s, x, 0, |s|) <= Bisect(s, y, 0, |s|)
  {
    var a, b := Bisect(s, x, 0, |s|), Bisect(s, y, 0, |s|);
    BisectFinds(s, x, 0, |s|);
    BisectFinds(s, y, 0, |s|);
  }

  /** Excluded indices shifted down by the exclusions before them. */
  function Logical(e: seq<int>): (r: seq<int>)
    ensures |r| == |e|
    ensures forall j :: 0 <= j < |e| ==> r[j] == e[j] - j
  {
    seq(|e|, j requires 0 <= j < |e| => e[j] - j)
  }

  function CandidateIndex(e: seq<int>, k: nat): (r: nat)
    ensures k <= r <= k + |e|
  {
    k + BisectRight(Logical(e), k)
  }

  lemma {:induction false} LogicalOrder(e: seq<int>, i: nat, j: nat)
    requires Increasing(e) && i <= j < |e|
    ensures Logical(e)[i] <= Logical(e)[j]
    decreases j
  {
    if i < j {
      LogicalOrder(e, i, j - 1);
      assert e[j - 1] < e[j];
    }
  }

  /** The sequence's own lookup: a binary search over the shifted exclusions. */
  lemma LookupBisects(e: seq<int>, k: nat)
    requires Exclusions(e)
    ensures k + Bisect(Logical(e), k, 0, |e|) == CandidateIndex(e, k)
  {
    var l := Logical(e);
    forall i, j | 0 <= i < j < |l| ensures l[i] <= l[j] { LogicalOrder(e, i, j); }
    BisectIsBoundary(l, k, BisectRight(l, k));
  }

  /** The selected candidate is retained, and exactly the found boundary lies below it. */
  lemma CandidateBoundary(e: seq<int>, k: nat)
    requires Exclusions(e)
    ensures var m, c := BisectRight(Logical(e), k), CandidateIndex(e, k);
            (forall i :: 0 <= i < m ==> e[i] < c) && (forall i :: m <= i < |e| ==> c < e[i])
  {
    var m, c := BisectRight(Logical(e), k), CandidateIndex(e, k);
    forall i | 0 <= i < m ensures e[i] < c { assert e[i] <= e[m - 1]; }
    forall i | m <= i < |e| ensures c < e[i] { assert e[m] <= e[i]; }
  }

  /** Selecting by bisection is selecting the k-th retained candidate. */
  lemma CandidateIsKthRetained(e: seq<int>, k: nat, n: nat)
    requires Exclusions(e) && CandidateIndex(e, k) < n
    ensures k < |Retained(e, n)| && Retained(e, n)[k] == CandidateIndex(e, k)
    ensures |Retained(e, CandidateIndex(e, k))| == k
  {
    var m, c := BisectRight(Logical(e), k), CandidateIndex(e, k);
    CandidateBoundary(e, k);
    RetainedCount(e, c, m);
    assert c !in e;
    assert Retained(e, c + 1) == Retained(e, c) + [c];
    RetainedPrefix(e, c + 1, n);
  }

  /** Random access reads exactly the list that filtering would build. */
  lemma SequenceIsFilteredCandidates(s: Source)
    requires ValidSource(s)
    ensures |Retained(s.excluded, s.count + |s.excluded|)| == s.count
    ensures forall k: nat :: k < s.count ==>
              Retained(s.excluded, s.count + |s.excluded|)[k] == CandidateIndex(s.excluded, k)
  {
    var e, span := s.excluded, s.count + |s.excluded|;
    RetainedCount(e, span, |e|);
    forall k: nat | k < s.count
      ensures Retained(e, span)[k] == CandidateIndex(e, k)
    {
      CandidateIsKthRetained(e, k, span);
    }
  }

  // ---------- two loops elsewhere that answer the same question ----------

  function IntKey(x: int): (k: Key) { [x] }

  lemma IntKeyOrder(x: int, y: int)
    ensures LexLe(IntKey(x), IntKey(y)) <==> x <= y
  {
  }

  /** The renderer's scan over the sorted exclusions, repeated and negative ones included. */
  method RetainedCandidateIndex(logicalIndex: nat, excluded: seq<int>) returns (candidate: int)
    ensures candidate == CandidateIndex(SortBy(IntKey, excluded), logicalIndex)
    ensures Exclusions(excluded) ==> candidate == CandidateIndex(excluded, logicalIndex)
  {
    candidate := ScanExclusions(logicalIndex, SortBy(IntKey, excluded));
    if Exclusions(excluded) {
      IntsSorted(excluded);
      SortBySortedIsIdentity(IntKey, excluded);
    }
  }

  lemma IntsSorted(e: seq<int>)
    requires Increasing(e)
    ensures SortedBy(IntKey, e)
  {
    forall i, j | 0 <= i < j < |e| ensures LexLe(IntKey(e[i]), IntKey(e[j])) { IntKeyOrder(e[i], e[j]); }
  }

  method ScanExclusions(logicalIndex: nat, e: seq<int>) returns (candidate: int)
    ensures candidate == CandidateIndex(e, logicalIndex)
  {
    candidate := logicalIndex;
    var i := 0;
    while i < |e|
      invariant 0 <= i <= |e|
      invariant candidate == logicalIndex + i
      invariant i <= BisectRight(Logical(e), logicalIndex)
    {
      if e[i] > candidate { break; }
      candidate := candidate + 1;
      i := i + 1;
    }
  }

  datatype Row = Row(prefix: int) | InvalidRow | NotConverged

  /** The candidate that excluding moves nowhere else. */
  predicate Settled(excluded: seq<int>, row: int, c: int) { c == row + Bisect(excluded, c, 0, |excluded|) }

  ghost predicate LeastSettled(excluded: seq<int>, row: int, c: int) {
    Settled(excluded, row, c) && NoneBelow(excluded, row, c)
  }

  /** On validated exclusions the least settled candidate is the retained one. */
  lemma SettledIsCandidate(e: seq<int>, row: nat, c: int)
    requires Exclusions(e) && LeastSettled(e, row, c)
    ensures c == CandidateIndex(e, row)
  {
    var m, target := BisectRight(Logical(e), row), CandidateIndex(e, row);
    var b := Bisect(e, c, 0, |e|);
    CandidateBoundary(e, row);
    BisectIsBoundary(e, target, m);
    assert Settled(e, row, target);
    BisectFinds(e, c, 0, |e|);
  }

  /** No settled candidate lies below `c`. */
  ghost predicate NoneBelow(e: seq<int>, row: int, c: int) { forall d :: Settled(e, row, d) ==> c <= d }

  /** After `attempt` steps without settling. */
  ghost predicate Approaches(e: seq<int>, row: int, c: int, attempt: nat) {
    row + attempt <= c <= row + |e| && c <= row + Bisect(e, c, 0, |e|) && NoneBelow(e, row, c)
  }

  /** One step of the iteration never passes a settled candidate, and goes on if it has not settled. */
  lemma SettlingStep(e: seq<int>, row: int, c: int, next: int, attempt: nat)
    requires Ascending(e) && Approaches(e, row, c, attempt) && next == row + Bisect(e, c, 0, |e|) && next != c
    ensures Approaches(e, row, next, attempt + 1)
  {
    BisectMonotone(e, c, next);
    forall d | Settled(e, row, d) ensures next <= d { BisectMonotone(e, c, d); }
  }

  /** The churn helper's fixed-point iteration. On every ascending list it converges, to the least settled candidate;
      on validated exclusions that is the retained candidate. */
  method TopologyPrefixAt(start: int, step: int, count: int, excluded: seq<int>, row: int) returns (r: Row)
    ensures r.InvalidRow? <==> !(0 <= row < count)
    ensures r.Row? ==> exists c :: Settled(excluded, row, c) && r.prefix == start + c * step
    ensures Ascending(excluded) && 0 <= row < count ==>
              exists c :: LeastSettled(excluded, row, c) && r == Row(start + c * step)
    ensures Exclusions(excluded) && 0 <= row < count ==> r == Row(start + CandidateIndex(excluded, row) * step)
  {
    if row < 0 || row >= count { return InvalidRow; }
    var candidate := row;
    for attempt := 0 to |excluded| + 2
      invariant Ascending(excluded) ==> Approaches(excluded, row, candidate, attempt)
    {
      var adjusted := row + Bisect(excluded, candidate, 0, |excluded|);
      if adjusted == candidate {
        assert Settled(excluded, row, candidate);
        if Ascending(excluded) { assert LeastSettled(excluded, row, candidate); }
        if Exclusions(excluded) { SettledIsCandidate(excluded, row, candidate); }
        return Row(start + candidate * step);
      }
      if Ascending(excluded) { SettlingStep(excluded, row, candidate, adjusted, attempt); }
      candidate := adjusted;
    }
    return NotConverged;
  }

  // ---------- lowering a window ----------

  datatype Distribution = Shared | Disjoint

  /** One peer's view of the advertisement it was resolved from. */
  datatype PeerPaths = PeerPaths(memberStart: int, distribution: Distribution, perPeer: int, peerIndex: int)

  /** `start` and `count` are the membership window over the retained prefixes. */
  datatype Advertisement =
    Advertisement(source: Source, start: int, count: int, distribution: Distribution, perPeer: int,
                  peers: seq<PeerPaths>)

  datatype Mutation = Mutation(start: int, step: int, count: int, excluded: seq<int>, distribution: Distribution)

  datatype LoweringError =
    | OutOfRange
    | NonPositiveStep
    | BeforeSource
    | Misaligned
    | EndMisaligned
    | InconsistentGeometry

  datatype Lowered = Lowered(mutation: Mutation) | Rejected(error: LoweringError)

  /** Indexing the retained prefixes; a negative index counts from the end. */
  function ItemAt(s: Source, index: int): (r: Option<int>) {
    var k := if index < 0 then index + s.count else index;
    if k < 0 || k >= s.count then None else Some(s.start + CandidateIndex(s.excluded, k) * s.step)
  }

  function RelativeIndex(p: PeerPaths, slot: int): (r: int) {
    if p.distribution == Shared then slot else p.peerIndex * p.perPeer + slot
  }

  function PathAt(ad: Advertisement, peer: nat, slot: nat): (r: Option<int>) {
    if peer >= |ad.peers| || slot >= ad.peers[peer].perPeer then None
    else
      var index := ad.peers[peer].memberStart + RelativeIndex(ad.peers[peer], slot);
      if index < 0 then None else ItemAt(ad.source, index)
  }

  /** The excluded indices inside [lo, hi], relative to `lo`. */
  function Relative(e: seq<int>, lo: int, hi: int): (r: seq<int>) {
    RelativeUpTo(e, |e|, lo, hi)
  }

  function RelativeUpTo(e: seq<int>, n: nat, lo: int, hi: int): (r: seq<int>)
    requires n <= |e|
  {
    if n == 0 then []
    else RelativeUpTo(e, n - 1, lo, hi) + if lo <= e[n - 1] <= hi then [e[n - 1] - lo] else []
  }

  /** The quotient of an exact `divmod`, None when a remainder is left. */
  function ExactQuotient(delta: int, step: int): (r: Option<nat>)
    requires step > 0
    decreases delta
  {
    if delta < 0 then None
    else if delta == 0 then Some(0)
    else match ExactQuotient(delta - step, step)
      case None => None
      case Some(q) => Some(q + 1)
  }

  lemma {:induction false} ExactQuotientSteps(q: nat, r: nat, step: int)
    requires r < step
    ensures 0 <= q * step
    ensures ExactQuotient(q * step + r, step) == if r == 0 then Some(q) else None
  {
    if q > 0 {
      ExactQuotientSteps(q - 1, r, step);
      assert q * step == (q - 1) * step + step;
    } else {
      assert q * step == 0;
    }
  }

  /** It is what `divmod` computes. */
  lemma ExactQuotientIsDivmod(delta: nat, step: int)
    requires step > 0
    ensures ExactQuotient(delta, step) == if delta % step == 0 then Some(delta / step) else None
  {
    assert delta == (delta / step) * step + delta % step;
    ExactQuotientSteps(delta / step, delta % step, step);
  }

  function FormulaicPrefixMutation(ad: Advertisement): (r: Lowered) {
    var s := ad.source;
    match PathAt(ad, 0, 0)
    case None => Rejected(OutOfRange)
    case Some(first) =>
      if s.step <= 0 then Rejected(NonPositiveStep)
      else if first < s.start then Rejected(BeforeSource)
      else match ExactQuotient(first - s.start, s.step)
        case None => Rejected(Misaligned)
        case Some(rawStart) =>
          match ItemAt(s, ad.start + ad.count - 1)
          case None => Rejected(OutOfRange)
          case Some(last) =>
            match ExactQuotient(last - s.start, s.step)
            case None => Rejected(EndMisaligned)
            case Some(rawEnd) =>
              var excluded := Relative(s.excluded, rawStart, rawEnd);
              if rawEnd - rawStart + 1 != ad.count + |excluded| then Rejected(InconsistentGeometry)
              else Lowered(Mutation(first, s.step, ad.count, excluded, ad.distribution))
  }

  function MutationBetween(ad: Advertisement, lo: int, hi: int): (m: Mutation) {
    var s := ad.source;
    Mutation(s.start + lo * s.step, s.step, ad.count, Relative(s.excluded, lo, hi), ad.distribution)
  }

  /** The mutation that both lowerings emit for a valid window, stated by candidate indices. */
  function WindowMutation(ad: Advertisement): (m: Mutation)
    requires 0 <= ad.start && 1 <= ad.count
  {
    MutationBetween(ad, CandidateIndex(ad.source.excluded, ad.start),
                    CandidateIndex(ad.source.excluded, ad.start + ad.count - 1))
  }

  lemma ExclusionsDistinct(e: seq<int>)
    requires Exclusions(e)
    ensures Distinct(e)
  {
    forall i, j | 0 <= i < j < |e| ensures e[i] != e[j] { assert e[i] < e[j]; }
  }

  method WindowBounds(excluded: seq<int>, start: nat, count: nat) returns (lo: int, hi: int)
    requires Exclusions(excluded) && 1 <= count
    ensures lo == CandidateIndex(excluded, start) && hi == CandidateIndex(excluded, start + count - 1)
  {
    lo := RetainedCandidateIndex(start, excluded);
    hi := RetainedCandidateIndex(start + count - 1, excluded);
  }

  /** Validation of the partitioned renderer: the window's own starting prefix is its first retained prefix. */
  method StartsAtWindow(ad: Advertisement, starting: int) returns (ok: bool)
    requires Exclusions(ad.source.excluded) && 0 <= ad.start && 1 <= ad.count
    ensures ok <==> starting == WindowMutation(ad).start
  {
    var lo := RetainedCandidateIndex(ad.start, ad.source.excluded);
    ok := starting == ad.source.start + lo * ad.source.step;
  }

  /** The newer renderer lowers the window from indices and carries the starting prefix along; it emits the same
      mutation as the address-based lowering exactly when validation accepts that prefix. */
  method PartitionedPrefixMutation(ad: Advertisement, starting: int) returns (m: Mutation)
    requires Exclusions(ad.source.excluded) && 0 <= ad.start && 1 <= ad.count
    ensures m == WindowMutation(ad).(start := starting)
    ensures m == WindowMutation(ad) <==> starting == WindowMutation(ad).start
  {
    var lo, hi := WindowBounds(ad.source.excluded, ad.start, ad.count);
    m := MutationBetween(ad, lo, hi).(start := starting);
  }

  // ---------- the runtime's expansion ----------

  datatype Expanded = Expanded(values: seq<int>) | WrongCount

  /** What a mutation stands for: the retained raw candidates of its span. */
  ghost function Expansion(m: Mutation): (r: Expanded) {
    var span := m.count + |Elements(m.excluded)|;
    var kept := if span < 0 then [] else Retained(m.excluded, span);
    if |kept| != m.count then WrongCount else Expanded(Spread(m.start, m.step, kept))
  }

  method FormulaicPrefixValues(m: Mutation) returns (r: Expanded)
    ensures r == Expansion(m)
  {
    var excluded := Elements(m.excluded);
    var values := [];
    var span := m.count + |excluded|;
    var candidate := 0;
    while candidate < span
      invariant 0 <= candidate && (candidate <= span || (span < 0 && candidate == 0))
      invariant values == Spread(m.start, m.step, Retained(m.excluded, candidate))
    {
      if candidate !in excluded {
        values := values + [m.start + candidate * m.step];
      }
      candidate := candidate + 1;
    }
    r := if |values| != m.count then WrongCount else Expanded(values);
  }

  // ---------- round trip ----------

  lemma {:induction false} RelativeMembers(e: seq<int>, n: nat, lo: int, hi: int, x: int)
    requires n <= |e|
    ensures x in RelativeUpTo(e, n, lo, hi) <==> lo <= x + lo <= hi && exists i :: 0 <= i < n && e[i] == x + lo
  {
    if n > 0 { RelativeMembers(e, n - 1, lo, hi, x); }
  }

  lemma {:induction false} RelativeRange(e: seq<int>, n: nat, lo: int, hi: int, i: nat)
    requires Increasing(e) && n <= |e| && i < |RelativeUpTo(e, n, lo, hi)|
    ensures 0 <= RelativeUpTo(e, n, lo, hi)[i] <= hi - lo && RelativeUpTo(e, n, lo, hi)[i] <= e[n - 1] - lo
  {
    if i < |RelativeUpTo(e, n - 1, lo, hi)| {
      RelativeRange(e, n - 1, lo, hi, i);
      assert e[n - 2] < e[n - 1];
    }
  }

  lemma {:induction false} RelativeIncreasing(e: seq<int>, n: nat, lo: int, hi: int, i: nat, j: nat)
    requires Increasing(e) && n <= |e| && i < j < |RelativeUpTo(e, n, lo, hi)|
    ensures RelativeUpTo(e, n, lo, hi)[i] < RelativeUpTo(e, n, lo, hi)[j]
  {
    if j < |RelativeUpTo(e, n - 1, lo, hi)| {
      RelativeIncreasing(e, n - 1, lo, hi, i, j);
    } else {
      RelativeRange(e, n - 1, lo, hi, i);
      assert e[n - 2] < e[n - 1];
    }
  }

  lemma RelativeExclusions(e: seq<int>, n: nat, lo: int, hi: int)
    requires Increasing(e) && n <= |e|
    ensures Exclusions(RelativeUpTo(e, n, lo, hi))
    ensures forall i :: 0 <= i < |RelativeUpTo(e, n, lo, hi)| ==> RelativeUpTo(e, n, lo, hi)[i] <= hi - lo
  {
    var r := RelativeUpTo(e, n, lo, hi);
    forall i, j | 0 <= i < j < |r| ensures r[i] < r[j] { RelativeIncreasing(e, n, lo, hi, i, j); }
    forall i | 0 <= i < |r| ensures 0 <= r[i] <= hi - lo { RelativeRange(e, n, lo, hi, i); }
  }

  /** Restricting to a window and shifting it to zero keeps the retained candidates. */
  lemma {:induction false} RetainedWindow(e: seq<int>, lo: nat, n: nat, hi: int)
    requires lo + n <= hi + 1
    ensures Retained(e, lo + n) == Retained(e, lo) + ShiftBy(Retained(Relative(e, lo, hi), n), lo)
    decreases n
  {
    var rel := Relative(e, lo, hi);
    if n > 0 {
      RetainedWindow(e, lo, n - 1, hi);
      RelativeMembers(e, |e|, lo, hi, n - 1);
      ShiftRetained(rel, lo, n);
    }
  }

  lemma ShiftRetained(e: seq<int>, lo: nat, n: nat)
    requires n > 0
    ensures ShiftBy(Retained(e, n), lo) == ShiftBy(Retained(e, n - 1), lo) + if n - 1 in e then [] else [n - 1 + lo]
  {
  }

  function Candidates(e: seq<int>, start: nat, count: nat): (r: seq<int>)
    ensures |r| == count
  {
    seq(count, i requires 0 <= i < count => CandidateIndex(e, start + i))
  }

  /** The retained prefixes a membership names. */
  function Window(s: Source, start: nat, count: nat): (r: seq<int>)
    ensures |r| == count
  {
    Spread(s.start, s.step, Candidates(s.excluded, start, count))
  }

  ghost predicate ValidWindow(ad: Advertisement) {
    ValidSource(ad.source) && 0 <= ad.start && 1 <= ad.count && ad.start + ad.count <= ad.source.count
  }

  lemma CandidateMonotone(e: seq<int>, i: nat, j: nat)
    requires Exclusions(e) && i <= j
    ensures CandidateIndex(e, i) <= CandidateIndex(e, j)
  {
    var a, b := BisectRight(Logical(e), i), BisectRight(Logical(e), j);
    if b < a { assert false; }
  }

  /** Cutting a raw window out of the retained candidates cuts a slice out of their list. */
  lemma RetainedSlice(e: seq<int>, lo: nat, hi: nat, start: nat, count: nat)
    requires Exclusions(e) && lo <= hi
    requires |Retained(e, lo)| == start && |Retained(e, hi + 1)| == start + count
    ensures hi - lo + 1 == count + |Relative(e, lo, hi)|
    ensures |Retained(Relative(e, lo, hi), hi - lo + 1)| == count
    ensures ShiftBy(Retained(Relative(e, lo, hi), hi - lo + 1), lo) == Retained(e, hi + 1)[start..]
  {
    var rel := Relative(e, lo, hi);
    RetainedWindow(e, lo, hi - lo + 1, hi);
    RelativeExclusions(e, |e|, lo, hi);
    RetainedCount(rel, hi - lo + 1, |rel|);
  }

  lemma CandidateIsRetainedAt(e: seq<int>, k: nat, top: nat, hi: nat)
    requires Exclusions(e) && k <= top && hi == CandidateIndex(e, top)
    ensures |Retained(e, hi + 1)| == top + 1 && Retained(e, hi + 1)[k] == CandidateIndex(e, k)
  {
    CandidateMonotone(e, k, top);
    CandidateIsKthRetained(e, k, hi + 1);
    CandidateIsKthRetained(e, top, hi + 1);
  }

  /** Logical indices start .. start + count name the last retained candidates of the raw window. */
  lemma CandidatesAreRetained(e: seq<int>, start: nat, count: nat, hi: nat)
    requires Exclusions(e) && count >= 1 && hi == CandidateIndex(e, start + count - 1)
    ensures |Retained(e, hi + 1)| == start + count
    ensures Retained(e, hi + 1)[start..] == Candidates(e, start, count)
  {
    var r, c := Retained(e, hi + 1), Candidates(e, start, count);
    CandidateIsRetainedAt(e, start, start + count - 1, hi);
    forall i | 0 <= i < count ensures r[start..][i] == c[i] {
      CandidateIsRetainedAt(e, start + i, start + count - 1, hi);
    }
  }

  /** The raw window of a membership, shifted to zero, holds exactly the named candidates. */
  lemma WindowGeometry(e: seq<int>, start: nat, count: nat, lo: nat, hi: nat)
    requires Exclusions(e) && count >= 1
    requires lo == CandidateIndex(e, start) && hi == CandidateIndex(e, start + count - 1)
    ensures lo <= hi && hi - lo + 1 == count + |Relative(e, lo, hi)|
    ensures ShiftBy(Retained(Relative(e, lo, hi), hi - lo + 1), lo) == Candidates(e, start, count)
  {
    CandidateMonotone(e, start, start + count - 1);
    CandidateIsKthRetained(e, start, lo + 1);
    CandidatesAreRetained(e, start, count, hi);
    RetainedSlice(e, lo, hi, start, count);
  }

  lemma ExpansionOf(m: Mutation)
    requires Exclusions(m.excluded) && m.count >= 0
    requires |Retained(m.excluded, m.count + |m.excluded|)| == m.count
    ensures Expansion(m) == Expanded(Spread(m.start, m.step, Retained(m.excluded, m.count + |m.excluded|)))
  {
    ExclusionsDistinct(m.excluded);
    DistinctLength(m.excluded);
  }

  lemma ShiftedPrefixes(s: Source, kept: seq<int>, lo: int)
    ensures Spread(s.start + lo * s.step, s.step, kept) == Spread(s.start, s.step, ShiftBy(kept, lo))
  {
    var a, b := Spread(s.start + lo * s.step, s.step, kept), Spread(s.start, s.step, ShiftBy(kept, lo));
    forall i | 0 <= i < |kept| ensures a[i] == b[i] {
      assert lo * s.step + kept[i] * s.step == (kept[i] + lo) * s.step;
    }
  }

  lemma ExpansionBetween(ad: Advertisement, lo: nat, hi: nat, candidates: seq<int>)
    requires lo <= hi && 0 <= ad.count && Exclusions(Relative(ad.source.excluded, lo, hi))
    requires hi - lo + 1 == ad.count + |Relative(ad.source.excluded, lo, hi)|
    requires |candidates| == ad.count
    requires ShiftBy(Retained(Relative(ad.source.excluded, lo, hi), hi - lo + 1), lo) == candidates
    ensures Expansion(MutationBetween(ad, lo, hi)) == Expanded(Spread(ad.source.start, ad.source.step, candidates))
  {
    var m := MutationBetween(ad, lo, hi);
    ExpansionOf(m);
    ShiftedPrefixes(ad.source, Retained(m.excluded, hi - lo + 1), lo);
  }

  lemma ExpansionOfBounds(ad: Advertisement, lo: nat, hi: nat)
    requires Exclusions(ad.source.excluded) && 0 <= ad.start && 1 <= ad.count
    requires lo == CandidateIndex(ad.source.excluded, ad.start)
    requires hi == CandidateIndex(ad.source.excluded, ad.start + ad.count - 1)
    ensures Expansion(MutationBetween(ad, lo, hi)) == Expanded(Window(ad.source, ad.start, ad.count))
  {
    var e := ad.source.excluded;
    WindowGeometry(e, ad.start, ad.count, lo, hi);
    RelativeExclusions(e, |e|, lo, hi);
    ExpansionBetween(ad, lo, hi, Candidates(e, ad.start, ad.count));
  }

  /** Expanding the window mutation yields exactly the named prefixes. */
  lemma ExpansionIsWindow(ad: Advertisement)
    requires Exclusions(ad.source.excluded) && 0 <= ad.start && 1 <= ad.count
    ensures Expansion(WindowMutation(ad)) == Expanded(Window(ad.source, ad.start, ad.count))
  {
    ExpansionOfBounds(ad, CandidateIndex(ad.source.excluded, ad.start),
                      CandidateIndex(ad.source.excluded, ad.start + ad.count - 1));
  }

  // ---------- where windows come from: resolution and child slicing ----------

  /** Every peer's paths start where the advertisement's own window says they do. */
  ghost predicate WellBound(ad: Advertisement) {
    forall i :: 0 <= i < |ad.peers| ==>
      ad.peers[i].perPeer == ad.perPeer && ad.peers[i].distribution == ad.distribution &&
      ad.peers[i].memberStart + RelativeIndex(ad.peers[i], 0) ==
      ad.start + (if ad.distribution == Shared then 0 else i * ad.perPeer)
  }

  function Resolve(s: Source, start: int, count: int, d: Distribution, perPeer: int,
                   peerCount: nat): (ad: Advertisement)
    ensures WellBound(ad) && |ad.peers| == peerCount
  {
    Advertisement(s, start, count, d, perPeer,
                  seq(peerCount, i requires 0 <= i < peerCount => PeerPaths(start, d, perPeer, i)))
  }

  /** An IXIA child owns the peers [from, from + size) and, when disjoint, their share of the window. */
  function Slice(ad: Advertisement, from: nat, size: nat): (r: Advertisement)
    requires from + size <= |ad.peers|
    ensures |r.peers| == size
  {
    var peers := ad.peers[from..from + size];
    if ad.distribution == Shared then ad.(peers := peers)
    else ad.(start := ad.start + from * ad.perPeer, count := size * ad.perPeer, peers := peers)
  }

  lemma SliceWellBound(ad: Advertisement, from: nat, size: nat)
    requires WellBound(ad) && from + size <= |ad.peers|
    ensures WellBound(Slice(ad, from, size))
  {
    var r := Slice(ad, from, size);
    forall i | 0 <= i < size
      ensures r.peers[i].perPeer == r.perPeer && r.peers[i].distribution == r.distribution
      ensures r.peers[i].memberStart + RelativeIndex(r.peers[i], 0) ==
              r.start + (if r.distribution == Shared then 0 else i * r.perPeer)
    {
      assert r.peers[i] == ad.peers[from + i];
      assert (from + i) * ad.perPeer == from * ad.perPeer + i * ad.perPeer;
    }
  }

  // ---------- main theorems ----------

  lemma LoweringSucceeds(ad: Advertisement)
    requires ValidWindow(ad) && ad.source.step > 0 && PathAt(ad, 0, 0) == ItemAt(ad.source, ad.start)
    ensures FormulaicPrefixMutation(ad) == Lowered(WindowMutation(ad))
  {
    var lo, hi := WindowHasBounds(ad);
    LoweringBetween(ad, lo, hi);
  }

  /** The raw bounds of the window as both ends are looked up. */
  ghost predicate HasBounds(ad: Advertisement, lo: nat, hi: nat) {
    PathAt(ad, 0, 0) == Some(ad.source.start + lo * ad.source.step) &&
    ItemAt(ad.source, ad.start + ad.count - 1) == Some(ad.source.start + hi * ad.source.step)
  }

  lemma {:induction false} WindowHasBounds(ad: Advertisement) returns (lo: nat, hi: nat)
    requires ValidWindow(ad) && PathAt(ad, 0, 0) == ItemAt(ad.source, ad.start)
    ensures HasBounds(ad, lo, hi) && hi - lo + 1 == ad.count + |Relative(ad.source.excluded, lo, hi)|
    ensures MutationBetween(ad, lo, hi) == WindowMutation(ad)
  {
    lo, hi := CandidateIndex(ad.source.excluded, ad.start), CandidateIndex(ad.source.excluded, ad.start + ad.count - 1);
    BoundsAt(ad, lo, hi);
  }

  lemma BoundsAt(ad: Advertisement, lo: nat, hi: nat)
    requires ValidWindow(ad) && PathAt(ad, 0, 0) == ItemAt(ad.source, ad.start)
    requires lo == CandidateIndex(ad.source.excluded, ad.start)
    requires hi == CandidateIndex(ad.source.excluded, ad.start + ad.count - 1)
    ensures HasBounds(ad, lo, hi) && hi - lo + 1 == ad.count + |Relative(ad.source.excluded, lo, hi)|
  {
    WindowItems(ad.source, ad.start, ad.count, lo, hi);
  }

  lemma WindowItems(s: Source, start: nat, count: nat, lo: nat, hi: nat)
    requires ValidSource(s) && 1 <= count && start + count <= s.count
    requires lo == CandidateIndex(s.excluded, start) && hi == CandidateIndex(s.excluded, start + count - 1)
    ensures ItemAt(s, start) == Some(s.start + lo * s.step)
    ensures ItemAt(s, start + count - 1) == Some(s.start + hi * s.step)
    ensures hi - lo + 1 == count + |Relative(s.excluded, lo, hi)|
  {
    WindowGeometry(s.excluded, start, count, lo, hi);
    ItemAtCandidate(s, start, lo);
    ItemAtCandidate(s, start + count - 1, hi);
  }

  lemma ItemAtCandidate(s: Source, k: nat, c: nat)
    requires k < s.count && c == CandidateIndex(s.excluded, k)
    ensures ItemAt(s, k) == Some(s.start + c * s.step)
  {
  }

  lemma LoweringFails(ad: Advertisement)
    requires 0 <= ad.start && 1 <= ad.count && PathAt(ad, 0, 0) == ItemAt(ad.source, ad.start)
    requires ad.source.step <= 0 || ad.start + ad.count > ad.source.count
    ensures FormulaicPrefixMutation(ad) ==
            Rejected(if ad.start < ad.source.count && ad.source.step <= 0 then NonPositiveStep else OutOfRange)
  {
    if ad.start < ad.source.count && ad.source.step > 0 {
      ExactQuotientSteps(CandidateIndex(ad.source.excluded, ad.start), 0, ad.source.step);
    }
  }

  /** Lowering by addresses: exactly when it succeeds, what it emits, and which errors can occur at all.
      In particular no window that passes validation trips the alignment or sparse-geometry checks. */
  lemma LoweringIsExact(ad: Advertisement)
    requires ValidSource(ad.source) && WellBound(ad) && ad.peers != [] && ad.perPeer > 0
    requires 0 <= ad.start && 1 <= ad.count
    ensures FormulaicPrefixMutation(ad) ==
            if ad.source.step > 0 && ad.start + ad.count <= ad.source.count then Lowered(WindowMutation(ad))
            else Rejected(if ad.start < ad.source.count && ad.source.step <= 0 then NonPositiveStep else OutOfRange)
  {
    FirstPath(ad);
    if ad.source.step > 0 && ad.start + ad.count <= ad.source.count {
      LoweringSucceeds(ad);
    } else {
      LoweringFails(ad);
    }
  }

  lemma FirstPath(ad: Advertisement)
    requires WellBound(ad) && ad.peers != [] && ad.perPeer > 0 && 0 <= ad.start
    ensures PathAt(ad, 0, 0) == ItemAt(ad.source, ad.start)
  {
    assert 0 * ad.perPeer == 0;
    assert ad.peers[0].perPeer == ad.perPeer;
  }

  lemma LoweringBetween(ad: Advertisement, lo: nat, hi: nat)
    requires ad.source.step > 0 && HasBounds(ad, lo, hi)
    requires hi - lo + 1 == ad.count + |Relative(ad.source.excluded, lo, hi)|
    ensures FormulaicPrefixMutation(ad) == Lowered(MutationBetween(ad, lo, hi))
  {
    ExactQuotientSteps(lo, 0, ad.source.step);
    ExactQuotientSteps(hi, 0, ad.source.step);
  }

  /** Round trip: what the runtime expands from a lowered window is the window itself. */
  lemma WindowRoundTrip(ad: Advertisement)
    requires ValidWindow(ad) && WellBound(ad) && ad.peers != [] && ad.perPeer > 0 && ad.source.step > 0
    ensures FormulaicPrefixMutation(ad).Lowered?
    ensures Expansion(FormulaicPrefixMutation(ad).mutation) == Expanded(Window(ad.source, ad.start, ad.count))
  {
    LoweringIsExact(ad);
    ExpansionIsWindow(ad);
  }

  /** Windows laid end to end. */
  lemma WindowsJoin(s: Source, start: nat, m: nat, n: nat)
    ensures Window(s, start, m) + Window(s, start + m, n) == Window(s, start, m + n)
  {
    assert Candidates(s.excluded, start, m) + Candidates(s.excluded, start + m, n)
        == Candidates(s.excluded, start, m + n);
  }

  /** What one child's lowered window expands to at run time. */
  ghost function ChildValues(ad: Advertisement, from: nat, size: nat): (r: seq<int>)
    requires from + size <= |ad.peers|
  {
    var lowered := FormulaicPrefixMutation(Slice(ad, from, size));
    if lowered.Lowered? && Expansion(lowered.mutation).Expanded? then Expansion(lowered.mutation).values else []
  }

  ghost predicate Cuts(cuts: seq<nat>, total: nat) {
    (forall i :: 0 <= i < |cuts| ==> cuts[i] <= total) && forall i, j :: 0 <= i < j < |cuts| ==> cuts[i] < cuts[j]
  }

  /** Values of the interval [a, b) of peers. */
  type Piece = (int, int) -> seq<int>

  /** The pieces between the first `n` + 1 cuts, in order. */
  ghost function Pieces(piece: Piece, cuts: seq<nat>, n: nat): (r: seq<int>)
    requires n < |cuts|
  {
    if n == 0 then [] else Pieces(piece, cuts, n - 1) + piece(cuts[n - 1], cuts[n])
  }

  ghost function ChildPiece(ad: Advertisement): (piece: Piece) {
    (a, b) => if 0 <= a <= b <= |ad.peers| then ChildValues(ad, a, b - a) else []
  }

  /** Children cut the peer list at `cuts`; the expansions of the first `n` of them, in order. */
  ghost function ChildrenValues(ad: Advertisement, cuts: seq<nat>, n: nat): (r: seq<int>)
    requires n < |cuts|
  {
    Pieces(ChildPiece(ad), cuts, n)
  }

  /** A disjoint advertisement whose window lies inside its source. */
  ghost predicate DisjointParent(ad: Advertisement) {
    ValidSource(ad.source) && WellBound(ad) && ad.distribution == Disjoint &&
    ad.source.step > 0 && ad.perPeer > 0 && 0 <= ad.start &&
    ad.start + |ad.peers| * ad.perPeer <= ad.source.count
  }

  /** The parent's prefixes that belong to the peers [a, b). */
  ghost function PeerWindow(ad: Advertisement, a: nat, b: nat): (r: seq<int>)
    requires 0 <= ad.start && 0 <= ad.perPeer && a <= b
  {
    PeerWindowBounds(a, b, ad.perPeer);
    Window(ad.source, ad.start + a * ad.perPeer, (b - a) * ad.perPeer)
  }

  lemma PeerWindowBounds(a: nat, b: nat, p: nat)
    requires a <= b
    ensures 0 <= a * p <= b * p && 0 <= (b - a) * p == b * p - a * p
  {
    assert 0 <= (b - a) * p;
  }

  lemma PeerWindowsJoin(ad: Advertisement, a: nat, b: nat, c: nat)
    requires 0 <= ad.start && 0 <= ad.perPeer && a <= b <= c
    ensures PeerWindow(ad, a, b) + PeerWindow(ad, b, c) == PeerWindow(ad, a, c)
  {
    var p := ad.perPeer;
    PeerWindowBounds(a, b, p);
    PeerWindowBounds(b, c, p);
    PeerWindowBounds(a, c, p);
    WindowsJoin(ad.source, ad.start + a * p, (b - a) * p, (c - b) * p);
  }

  lemma ChildBounds(a: nat, b: nat, total: nat, p: nat)
    requires 0 < p && a < b <= total
    ensures 0 < (b - a) * p && a * p + (b - a) * p <= total * p
  {
    assert (b - a) * p + (total - b) * p + a * p == total * p;
    assert 0 <= (total - b) * p;
  }

  lemma ChildCarriesItsPeers(ad: Advertisement, a: nat, b: nat)
    requires DisjointParent(ad) && a < b <= |ad.peers|
    ensures ChildValues(ad, a, b - a) == PeerWindow(ad, a, b)
  {
    ChildIsValid(ad, a, b);
    WindowRoundTrip(Slice(ad, a, b - a));
  }

  lemma ChildIsValid(ad: Advertisement, a: nat, b: nat)
    requires DisjointParent(ad) && a < b <= |ad.peers|
    ensures var child := Slice(ad, a, b - a);
            ValidWindow(child) && WellBound(child) && child.peers != [] && child.source == ad.source &&
            child.perPeer == ad.perPeer &&
            child.start == ad.start + a * ad.perPeer && child.count == (b - a) * ad.perPeer
  {
    ChildBounds(a, b, |ad.peers|, ad.perPeer);
    SliceWellBound(ad, a, b - a);
  }

  ghost function WholePiece(ad: Advertisement): (piece: Piece) {
    (a, b) => if 0 <= ad.start && 0 <= ad.perPeer && 0 <= a <= b then PeerWindow(ad, a, b) else []
  }

  /** Each piece extends a whole. */
  ghost predicate Extends(piece: Piece, whole: Piece, total: nat) {
    (forall a: nat :: whole(a, a) == []) &&
    forall a: nat, b: nat, c: nat :: a <= b < c <= total ==> whole(a, b) + piece(b, c) == whole(a, c)
  }

  lemma {:induction false} PiecesTile(piece: Piece, whole: Piece, total: nat, cuts: seq<nat>, n: nat)
    requires Extends(piece, whole, total) && Cuts(cuts, total) && n < |cuts|
    ensures Pieces(piece, cuts, n) == whole(cuts[0], cuts[n])
  {
    if n > 0 {
      PiecesTile(piece, whole, total, cuts, n - 1);
      assert cuts[0] <= cuts[n - 1] < cuts[n] <= total;
      assert whole(cuts[0], cuts[n - 1]) + piece(cuts[n - 1], cuts[n]) == whole(cuts[0], cuts[n]);
    }
  }

  lemma {:induction false} ChildrenExtend(ad: Advertisement)
    requires DisjointParent(ad)
    ensures Extends(ChildPiece(ad), WholePiece(ad), |ad.peers|)
  {
    var piece, whole := ChildPiece(ad), WholePiece(ad);
    forall a: nat ensures whole(a, a) == [] { PeerWindowEmpty(ad, a); }
    forall a: nat, b: nat, c: nat | a <= b < c <= |ad.peers| ensures whole(a, b) + piece(b, c) == whole(a, c) {
      NextChild(ad, a, b, c);
    }
  }

  /** The children of a disjoint advertisement, lowered and expanded one by one, together carry
      exactly the parent's prefixes between the first and the last cut, wherever the cuts are. */
  lemma ChildrenTileParent(ad: Advertisement, cuts: seq<nat>, n: nat)
    requires DisjointParent(ad) && Cuts(cuts, |ad.peers|) && n < |cuts|
    ensures cuts[0] <= cuts[n] && ChildrenValues(ad, cuts, n) == PeerWindow(ad, cuts[0], cuts[n])
  {
    ChildrenExtend(ad);
    PiecesTile(ChildPiece(ad), WholePiece(ad), |ad.peers|, cuts, n);
  }

  lemma PeerWindowEmpty(ad: Advertisement, a: nat)
    requires 0 <= ad.start && 0 <= ad.perPeer
    ensures PeerWindow(ad, a, a) == []
  {
    assert (a - a) * ad.perPeer == 0;
  }

  lemma NextChild(ad: Advertisement, a: nat, b: nat, c: nat)
    requires DisjointParent(ad) && a <= b < c <= |ad.peers|
    ensures PeerWindow(ad, a, b) + ChildValues(ad, b, c - b) == PeerWindow(ad, a, c)
  {
    ChildCarriesItsPeers(ad, b, c);
    PeerWindowsJoin(ad, a, b, c);
  }

  // ---------- what peers announce ----------

  /** The place of a peer's path among the prefixes of the window. */
  function PathPlace(ad: Advertisement, peer: nat, slot: nat): (r: int) {
    if ad.distribution == Shared then slot else peer * ad.perPeer + slot
  }

  /** Every path of every peer is the prefix of the window at its place. */
  lemma PathInWindow(ad: Advertisement, peer: nat, slot: nat)
    requires ValidWindow(ad) && WellBound(ad) && peer < |ad.peers| && slot < ad.perPeer
    requires 0 <= PathPlace(ad, peer, slot) < ad.count
    ensures PathAt(ad, peer, slot) == Some(Window(ad.source, ad.start, ad.count)[PathPlace(ad, peer, slot)])
  {
    var p := ad.peers[peer];
    assert p.memberStart + RelativeIndex(p, slot) == ad.start + PathPlace(ad, peer, slot);
  }

  /** Every child of a shared advertisement announces the whole window: each of its peers' paths, in order. */
  lemma SharedChildrenShare(ad: Advertisement, from: nat, size: nat)
    requires ValidWindow(ad) && WellBound(ad) && ad.distribution == Shared && ad.source.step > 0 && ad.perPeer > 0
    requires 0 < size && from + size <= |ad.peers|
    ensures ChildValues(ad, from, size) == Window(ad.source, ad.start, ad.count)
    ensures forall i, j :: from <= i < from + size && 0 <= j < ad.perPeer && j < ad.count ==>
              PathAt(ad, i, j) == Some(ChildValues(ad, from, size)[j])
  {
    SliceWellBound(ad, from, size);
    WindowRoundTrip(Slice(ad, from, size));
    forall i, j | from <= i < from + size && 0 <= j < ad.perPeer && j < ad.count
      ensures PathAt(ad, i, j) == Some(Window(ad.source, ad.start, ad.count)[j])
    {
      PathInWindow(ad, i, j);
    }
  }

  /** A child of a disjoint advertisement announces its own peers' paths, peer by peer. */
  lemma DisjointChildAnnounces(ad: Advertisement, a: nat, b: nat, i: nat, j: nat)
    requires DisjointParent(ad) && ad.count == |ad.peers| * ad.perPeer && a <= i < b <= |ad.peers| && j < ad.perPeer
    ensures 0 <= (i - a) * ad.perPeer + j < |ChildValues(ad, a, b - a)|
    ensures PathAt(ad, i, j) == Some(ChildValues(ad, a, b - a)[(i - a) * ad.perPeer + j])
  {
    ChildCarriesItsPeers(ad, a, b);
    PathInPeerWindow(ad, a, b, i, j);
  }

  lemma PathInPeerWindow(ad: Advertisement, a: nat, b: nat, i: nat, j: nat)
    requires DisjointParent(ad) && ad.count == |ad.peers| * ad.perPeer && a <= i < b <= |ad.peers| && j < ad.perPeer
    ensures 0 <= (i - a) * ad.perPeer + j < |PeerWindow(ad, a, b)|
    ensures PathAt(ad, i, j) == Some(PeerWindow(ad, a, b)[(i - a) * ad.perPeer + j])
  {
    Spaces(i - a, b - i, ad.perPeer);
    Spaces(i, |ad.peers| - i, ad.perPeer);
    WholeIsValid(ad);
    PathInWindow(ad, i, j);
    PeerWindowAt(ad, a, i, b, j);
  }

  lemma WholeIsValid(ad: Advertisement)
    requires DisjointParent(ad) && ad.count == |ad.peers| * ad.perPeer && ad.peers != []
    ensures ValidWindow(ad)
  {
    Spaces(0, |ad.peers|, ad.perPeer);
  }

  lemma Spaces(k: nat, m: nat, p: nat)
    requires m > 0
    ensures 0 <= k * p && k * p + p <= (k + m) * p
  {
    assert (k + m) * p == k * p + m * p;
    assert m * p == (m - 1) * p + p && 0 <= (m - 1) * p;
  }

  lemma PeerWindowAt(ad: Advertisement, a: nat, i: nat, b: nat, j: nat)
    requires 0 <= ad.start && j < ad.perPeer && a <= i < b && 0 <= ad.count
    requires 0 <= (i - a) * ad.perPeer + j < |PeerWindow(ad, a, b)|
    requires 0 <= i * ad.perPeer + j < ad.count
    ensures PeerWindow(ad, a, b)[(i - a) * ad.perPeer + j] ==
            Window(ad.source, ad.start, ad.count)[i * ad.perPeer + j]
  {
    assert a * ad.perPeer + (i - a) * ad.perPeer == i * ad.perPeer;
  }

  /** A lowered window keeps its distribution, count and step. */
  lemma LoweringCarries(ad: Advertisement)
    ensures var r := FormulaicPrefixMutation(ad);
            r.Lowered? ==> r.mutation.distribution == ad.distribution && r.mutation.count == ad.count &&
                           r.mutation.step == ad.source.step
  {
  }

  lemma LoweringRejects(ad: Advertisement, lo: nat, hi: nat)
    requires ad.source.step > 0 && HasBounds(ad, lo, hi)
    requires hi - lo + 1 != ad.count + |Relative(ad.source.excluded, lo, hi)|
    ensures FormulaicPrefixMutation(ad) == Rejected(InconsistentGeometry)
  {
    ExactQuotientSteps(lo, 0, ad.source.step);
    ExactQuotientSteps(hi, 0, ad.source.step);
  }

  /** The sparse-geometry check is not dead code: an empty leading window always trips it, because the end
      index -1 wraps around to the last prefix. */
  lemma EmptyWindowIsRejected(ad: Advertisement)
    requires ValidSource(ad.source) && WellBound(ad) && ad.peers != [] && ad.perPeer > 0 && ad.source.step > 0
    requires ad.start == 0 && ad.count == 0
    ensures FormulaicPrefixMutation(ad) == Rejected(InconsistentGeometry)
  {
    var s := ad.source;
    EmptyAt(ad, CandidateIndex(s.excluded, 0), CandidateIndex(s.excluded, s.count - 1));
  }

  lemma EmptyAt(ad: Advertisement, lo: nat, hi: nat)
    requires ValidSource(ad.source) && WellBound(ad) && ad.peers != [] && ad.perPeer > 0 && ad.source.step > 0
    requires ad.start == 0 && ad.count == 0
    requires lo == CandidateIndex(ad.source.excluded, 0)
    requires hi == CandidateIndex(ad.source.excluded, ad.source.count - 1)
    ensures FormulaicPrefixMutation(ad) == Rejected(InconsistentGeometry)
  {
    FirstPath(ad);
    WrappedItems(ad.source, lo, hi);
    LoweringRejects(ad, lo, hi);
  }

  lemma WrappedItems(s: Source, lo: nat, hi: nat)
    requires ValidSource(s) && lo == CandidateIndex(s.excluded, 0) && hi == CandidateIndex(s.excluded, s.count - 1)
    ensures ItemAt(s, 0) == Some(s.start + lo * s.step) && ItemAt(s, -1) == Some(s.start + hi * s.step)
    ensures hi - lo + 1 == s.count + |Relative(s.excluded, lo, hi)|
  {
    WindowItems(s, 0, s.count, lo, hi);
    assert ItemAt(s, -1) == ItemAt(s, s.count - 1);
  }
}
