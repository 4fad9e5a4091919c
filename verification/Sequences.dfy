/** Finite-sequence vocabulary shared by the models: filters, maps,
    reversal, and the few algebraic laws the proofs below rely on. */
module Sequences {

  datatype Option<+T> = None | Some(value: T)

  predicate Distinct<T(==)>(s: seq<T>) {
    forall i, j :: 0 <= i < j < |s| ==> s[i] != s[j]
  }

  function Filter<T>(p: T -> bool, s: seq<T>): (r: seq<T>)
    ensures forall x :: x in r ==> x in s && p(x)
    ensures forall x :: x in s && p(x) ==> x in r
    ensures |r| <= |s|
  {
    if s == [] then []
    else if p(s[0]) then [s[0]] + Filter(p, s[1..])
    else Filter(p, s[1..])
  }

  function Map<T, U>(f: T -> U, s: seq<T>): (r: seq<U>)
    ensures |r| == |s|
    ensures forall i :: 0 <= i < |s| ==> r[i] == f(s[i])
  {
    seq(|s|, i requires 0 <= i < |s| => f(s[i]))
  }

  function Reverse<T>(s: seq<T>): (r: seq<T>)
    ensures |r| == |s|
    ensures forall i :: 0 <= i < |s| ==> r[i] == s[|s| - 1 - i]
  {
    seq(|s|, i requires 0 <= i < |s| => s[|s| - 1 - i])
  }

  lemma {:induction false} FilterAppend<T>(p: T -> bool, a: seq<T>, b: seq<T>)
    ensures Filter(p, a + b) == Filter(p, a) + Filter(p, b)
  {
    if a == [] {
      assert a + b == b;
    } else {
      assert (a + b)[1..] == a[1..] + b;
      FilterAppend(p, a[1..], b);
    }
  }

  lemma {:induction false} FilterAll<T>(p: T -> bool, s: seq<T>)
    requires forall x :: x in s ==> p(x)
    ensures Filter(p, s) == s
  {
    if s != [] {
      assert forall x :: x in s[1..] ==> x in s;
      FilterAll(p, s[1..]);
    }
  }

  lemma {:induction false} FilterNone<T>(p: T -> bool, s: seq<T>)
    requires forall x :: x in s ==> !p(x)
    ensures Filter(p, s) == []
  {
    if s != [] {
      assert forall x :: x in s[1..] ==> x in s;
      FilterNone(p, s[1..]);
    }
  }

  lemma {:induction false} FilterMultiset<T>(p: T -> bool, s: seq<T>, x: T)
    ensures multiset(Filter(p, s))[x] == if p(x) then multiset(s)[x] else 0
  {
    if s != [] {
      FilterMultiset(p, s[1..], x);
      assert s == [s[0]] + s[1..];
      if p(s[0]) {
        assert multiset(Filter(p, s)) == multiset{s[0]} + multiset(Filter(p, s[1..]));
      }
    }
  }

  lemma {:induction false} FilterDistinct<T>(p: T -> bool, s: seq<T>)
    requires Distinct(s)
    ensures Distinct(Filter(p, s))
  {
    if s != [] {
      FilterDistinct(p, s[1..]);
      assert s[0] !in Filter(p, s[1..]);
    }
  }

  lemma FilterOne<T>(p: T -> bool, x: T)
    ensures Filter(p, [x]) == if p(x) then [x] else []
  {
  }

  lemma {:induction false} FilterReverse<T>(p: T -> bool, s: seq<T>)
    ensures Filter(p, Reverse(s)) == Reverse(Filter(p, s))
  {
    if s == [] {
      assert Reverse(s) == [];
    } else {
      var x, rest := s[0], s[1..];
      assert s == [x] + rest;
      FilterAppend(p, [x], rest);
      FilterAppend(p, Reverse(rest), [x]);
      FilterOne(p, x);
      ReverseAppend([x], rest);
      ReverseAppend(Filter(p, [x]), Filter(p, rest));
      assert Reverse([x]) == [x] && Reverse(Filter(p, [x])) == Filter(p, [x]);
      FilterReverse(p, rest);
    }
  }

  lemma MapAppend<T, U>(f: T -> U, a: seq<T>, b: seq<T>)
    ensures Map(f, a + b) == Map(f, a) + Map(f, b)
  {
  }

  lemma AppendAssociative<U>(a: seq<U>, b: seq<U>, c: seq<U>)
    ensures (a + b) + c == a + (b + c)
  {
  }

  /** A way of counting that adds up over concatenation. */
  ghost predicate Additive<T(!new)>(count: seq<T> -> int) {
    count([]) == 0 && forall a, b :: count(a + b) == count(a) + count(b)
  }

  /** How often one element occurs. */
  ghost function Multiplicity<T>(x: T): (count: seq<T> -> int) { s => multiset(s)[x] }

  lemma MultiplicityAdditive<T(!new)>(x: T)
    ensures Additive(Multiplicity(x))
  {
  }

  function Elements<T(==)>(s: seq<T>): (r: set<T>)
    ensures forall x :: x in r ==> x in s
    ensures forall x :: x in s ==> x in r
  {
    set x | x in s
  }

  /** A repetition-free sequence has as many elements as the set it lists. */
  lemma {:induction false} DistinctLength<T>(s: seq<T>)
    ensures |Elements(s)| <= |s|
    ensures Distinct(s) <==> |Elements(s)| == |s|
  {
    if s != [] {
      var tail := Elements(s[1..]);
      assert Elements(s) == {s[0]} + tail;
      DistinctLength(s[1..]);
      if Distinct(s) {
        assert s[0] !in tail;
      } else if Distinct(s[1..]) {
        var i, j :| 0 <= i < j < |s| && s[i] == s[j];
        assert s[1..][j - 1] == s[j];
      }
    }
  }

  /** Two repetition-free listings of one set are permutations of each other. */
  lemma SameElementsPermutation<T>(a: seq<T>, b: seq<T>)
    requires Distinct(a) && Distinct(b)
    requires forall x :: x in a <==> x in b
    ensures multiset(a) == multiset(b)
  {
    forall x ensures multiset(a)[x] == multiset(b)[x] {
      DistinctMultiplicity(a, x);
      DistinctMultiplicity(b, x);
    }
  }

  lemma {:induction false} DistinctMultiplicity<T>(s: seq<T>, x: T)
    requires Distinct(s)
    ensures multiset(s)[x] == if x in s then 1 else 0
  {
    if s != [] {
      assert s == [s[0]] + s[1..];
      DistinctMultiplicity(s[1..], x);
    }
  }

  lemma RepeatMultiplicity<T>(s: seq<T>, i: nat, j: nat)
    requires i < j < |s| && s[i] == s[j]
    ensures multiset(s)[s[i]] >= 2
  {
    assert s == s[..j] + s[j..];
    assert s[i] == s[..j][i] && s[i] == s[j..][0];
  }

  /** Permuting a sequence neither creates nor removes repetitions. */
  lemma PermutationDistinct<T>(a: seq<T>, b: seq<T>)
    requires multiset(a) == multiset(b) && Distinct(a)
    ensures Distinct(b)
  {
    forall i, j | 0 <= i < j < |b| ensures b[i] != b[j] {
      if b[i] == b[j] {
        RepeatMultiplicity(b, i, j);
        DistinctMultiplicity(a, b[i]);
        assert false;
      }
    }
  }

  lemma PermutationMembers<T>(a: seq<T>, b: seq<T>)
    requires multiset(a) == multiset(b)
    ensures forall x :: x in a ==> x in b
    ensures forall x :: x in b ==> x in a
  {
    forall x | x in a ensures x in b { assert x in multiset(b); }
    forall x | x in b ensures x in a { assert x in multiset(a); }
  }

  ghost predicate Before<T>(s: seq<T>, x: T, y: T) {
    exists i, j :: 0 <= i < j < |s| && s[i] == x && s[j] == y
  }

  lemma {:induction false} FilterKeepsBefore<T>(p: T -> bool, s: seq<T>, x: T, y: T)
    requires Before(s, x, y) && p(x) && p(y)
    ensures Before(Filter(p, s), x, y)
  {
    var i, j :| 0 <= i < j < |s| && s[i] == x && s[j] == y;
    var f, tail := Filter(p, s), s[1..];
    if i == 0 {
      assert y in tail by { assert tail[j - 1] == y; }
      var k :| 0 <= k < |Filter(p, tail)| && Filter(p, tail)[k] == y;
      assert f[0] == x && f[k + 1] == y;
    } else {
      assert tail[i - 1] == x && tail[j - 1] == y;
      FilterKeepsBefore(p, tail, x, y);
      var a, b :| 0 <= a < b < |Filter(p, tail)| && Filter(p, tail)[a] == x && Filter(p, tail)[b] == y;
      var shift := |f| - |Filter(p, tail)|;
      assert f[a + shift] == x && f[b + shift] == y;
    }
  }

  /** A filter that keeps exactly one element of a repetition-free sequence. */
  lemma {:induction false} FilterSingleton<T>(p: T -> bool, s: seq<T>, x: T)
    requires Distinct(s) && x in s && p(x) && forall y :: y in s && p(y) ==> y == x
    ensures Filter(p, s) == [x]
  {
    if s[0] == x {
      assert forall y :: y in s[1..] ==> y in s && y != x;
      FilterNone(p, s[1..]);
    } else {
      FilterSingleton(p, s[1..], x);
    }
  }

  lemma ReverseReverse<T>(s: seq<T>)
    ensures Reverse(Reverse(s)) == s
  {
  }

  lemma ReverseDistinct<T>(s: seq<T>)
    requires Distinct(s)
    ensures Distinct(Reverse(s)) && forall x :: x in Reverse(s) <==> x in s
  {
    var r := Reverse(s);
    forall x | x in s ensures x in r {
      var i :| 0 <= i < |s| && s[i] == x;
      assert r[|s| - 1 - i] == x;
    }
  }

  lemma ReverseAppend<T>(a: seq<T>, b: seq<T>)
    ensures Reverse(a + b) == Reverse(b) + Reverse(a)
  {
  }

  lemma {:induction false} FilterRedundant<T>(p: T -> bool, q: T -> bool, s: seq<T>)
    requires forall x :: x in s && p(x) ==> q(x)
    ensures Filter(p, Filter(q, s)) == Filter(p, s)
  {
    if s != [] {
      assert forall x :: x in s[1..] ==> x in s;
      FilterRedundant(p, q, s[1..]);
    }
  }

  lemma MapReverse<T, U>(f: T -> U, s: seq<T>)
    ensures Map(f, Reverse(s)) == Reverse(Map(f, s))
  {
  }

  /** The elements of the first `n`, each at its first use. */
  function FirstUses<T(==)>(s: seq<T>, n: nat): (r: seq<T>)
    requires n <= |s|
    ensures Distinct(r)
  {
    if n == 0 then []
    else if s[n - 1] in FirstUses(s, n - 1) then FirstUses(s, n - 1)
    else FirstUses(s, n - 1) + [s[n - 1]]
  }

  lemma {:induction false} FirstUsesMembers<T>(s: seq<T>, n: nat, x: T)
    requires n <= |s|
    ensures x in FirstUses(s, n) <==> x in s[..n]
  {
    if n > 0 {
      FirstUsesMembers(s, n - 1, x);
      assert s[..n] == s[..n - 1] + [s[n - 1]];
    }
  }
}
