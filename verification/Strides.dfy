/** Arithmetic address sequences and their concatenation. */
module Strides {
  import opened Sequences

  /** The address `k` strides after `first`. */
  function StepAddress(first: int, stride: int, k: nat): (r: int) {
    if k == 0 then first else StepAddress(first, stride, k - 1) + stride
  }

  lemma {:induction false} StepAddressIsProduct(first: int, stride: int, k: nat)
    ensures StepAddress(first, stride, k) == first + k * stride
  {
    if k > 0 {
      StepAddressIsProduct(first, stride, k - 1);
      assert k * stride == (k - 1) * stride + stride;
    }
  }

  lemma {:induction false} StepAddressSplit(first: int, stride: int, j: nat, k: nat)
    ensures StepAddress(first, stride, j + k) == StepAddress(StepAddress(first, stride, j), stride, k)
  {
    if k > 0 { StepAddressSplit(first, stride, j, k - 1); }
  }

  lemma {:induction false} StepAddressIncreases(first: int, stride: int, i: nat, j: nat)
    requires stride > 0 && i < j
    ensures StepAddress(first, stride, i) < StepAddress(first, stride, j)
    decreases j
  {
    if i < j - 1 { StepAddressIncreases(first, stride, i, j - 1); }
  }

  lemma {:induction false} StepsDiffer(origin: int, s: int, t: int, k: nat)
    requires s < t && k > 0
    ensures StepAddress(origin, s, k) < StepAddress(origin, t, k)
  {
    if k > 1 { StepsDiffer(origin, s, t, k - 1); }
  }

  /** The first `n` elements are `first`, `first + stride`, ... */
  ghost predicate Follows(s: seq<int>, first: int, stride: int, n: nat)
    requires n <= |s|
  {
    n == 0 || (Follows(s, first, stride, n - 1) && s[n - 1] == StepAddress(first, stride, n - 1))
  }

  ghost predicate Progression(s: seq<int>, first: int, stride: int) { Follows(s, first, stride, |s|) }

  lemma {:induction false} FollowsAt(s: seq<int>, first: int, stride: int, n: nat)
    requires n <= |s|
    ensures Follows(s, first, stride, n) <==> forall k :: 0 <= k < n ==> s[k] == StepAddress(first, stride, k)
  {
    if n > 0 { FollowsAt(s, first, stride, n - 1); }
  }

  lemma ProgressionDistinct(s: seq<int>, first: int, stride: int)
    requires Progression(s, first, stride) && stride > 0
    ensures Distinct(s)
  {
    FollowsAt(s, first, stride, |s|);
    forall i, j | 0 <= i < j < |s| ensures s[i] != s[j] { StepAddressIncreases(first, stride, i, j); }
  }

  lemma {:induction false} FollowsAppend(a: seq<int>, b: seq<int>, first: int, stride: int, n: nat)
    requires n <= |b|
    ensures Follows(a + b, first, stride, |a| + n) <==>
            Progression(a, first, stride) && Follows(b, StepAddress(first, stride, |a|), stride, n)
  {
    if n > 0 {
      FollowsAppend(a, b, first, stride, n - 1);
      StepAddressSplit(first, stride, |a|, n - 1);
    } else {
      FollowsPrefix(a, b, first, stride, |a|);
    }
  }

  lemma {:induction false} FollowsPrefix(a: seq<int>, b: seq<int>, first: int, stride: int, n: nat)
    requires n <= |a|
    ensures Follows(a + b, first, stride, n) <==> Follows(a, first, stride, n)
  {
    if n > 0 { FollowsPrefix(a, b, first, stride, n - 1); }
  }

  /** Splitting a progression: the second part starts where the first one stops. */
  lemma ProgressionAppend(a: seq<int>, b: seq<int>, first: int, stride: int)
    ensures Progression(a + b, first, stride) <==>
            Progression(a, first, stride) && Progression(b, StepAddress(first, stride, |a|), stride)
  {
    FollowsAppend(a, b, first, stride, |b|);
  }

  /** The first `n` parts, concatenated. */
  function Joined(parts: seq<seq<int>>, n: nat): (r: seq<int>)
    requires n <= |parts|
  {
    if n == 0 then [] else Joined(parts, n - 1) + parts[n - 1]
  }

  lemma {:induction false} JoinedAt(parts: seq<seq<int>>, m: nat, n: nat)
    requires m < n <= |parts| && parts[m] != []
    ensures |Joined(parts, m)| < |Joined(parts, n)| && Joined(parts, n)[|Joined(parts, m)|] == parts[m][0]
  {
    if m < n - 1 { JoinedAt(parts, m, n - 1); }
  }

  /** Each of the first `n` parts starts exactly where the parts before it stop. */
  ghost predicate Contiguous(parts: seq<seq<int>>, first: int, stride: int, n: nat)
    requires n <= |parts|
  {
    n == 0 ||
    (Contiguous(parts, first, stride, n - 1) && parts[n - 1] != [] &&
     parts[n - 1][0] == StepAddress(first, stride, |Joined(parts, n - 1)|))
  }

  /** A part that steps on its own. */
  ghost predicate OwnProgression(part: seq<int>, stride: int) {
    part != [] && Progression(part, part[0], stride)
  }

  ghost predicate EachOwn(parts: seq<seq<int>>, stride: int, n: nat)
    requires n <= |parts|
  {
    n == 0 || (EachOwn(parts, stride, n - 1) && OwnProgression(parts[n - 1], stride))
  }

  lemma {:induction false} EachOwnAt(parts: seq<seq<int>>, stride: int, n: nat)
    requires n <= |parts|
    ensures EachOwn(parts, stride, n) <==> forall i :: 0 <= i < n ==> OwnProgression(parts[i], stride)
  {
    if n > 0 { EachOwnAt(parts, stride, n - 1); }
  }

  lemma JoinOne(a: seq<int>, b: seq<int>, first: int, stride: int)
    requires b != [] && b[0] == StepAddress(first, stride, |a|)
    ensures Progression(a + b, first, stride) <==> Progression(a, first, stride) && OwnProgression(b, stride)
  {
    ProgressionAppend(a, b, first, stride);
  }

  /** The concatenation is one progression exactly when every part is one of its own. */
  lemma {:induction false} JoinedProgression(parts: seq<seq<int>>, first: int, stride: int, n: nat)
    requires n <= |parts| && Contiguous(parts, first, stride, n)
    ensures Progression(Joined(parts, n), first, stride) <==> EachOwn(parts, stride, n)
  {
    if n > 0 {
      JoinedProgression(parts, first, stride, n - 1);
      JoinOne(Joined(parts, n - 1), parts[n - 1], first, stride);
    }
  }
}
