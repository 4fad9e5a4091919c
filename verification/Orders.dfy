/** Python's tuple order on integer keys and the stable `sorted(..., key=...)` built on it. */
module Orders {
  import opened Sequences

  type Key = seq<int>

  /** Lexicographic order; a proper prefix comes first. */
  predicate LexLe(a: Key, b: Key) {
    a == [] || (b != [] && (a[0] < b[0] || (a[0] == b[0] && LexLe(a[1..], b[1..]))))
  }

  lemma {:induction false} LexReflexive(a: Key)
    ensures LexLe(a, a)
  {
    if a != [] { LexReflexive(a[1..]); }
  }

  lemma {:induction false} LexTotal(a: Key, b: Key)
    ensures LexLe(a, b) || LexLe(b, a)
  {
    if a != [] && b != [] && a[0] == b[0] { LexTotal(a[1..], b[1..]); }
  }

  lemma {:induction false} LexAntisymmetric(a: Key, b: Key)
    requires LexLe(a, b) && LexLe(b, a)
    ensures a == b
  {
    if a != [] {
      LexAntisymmetric(a[1..], b[1..]);
      assert a == [a[0]] + a[1..] && b == [b[0]] + b[1..];
    }
  }

  lemma LexTriple(a: Key, b: Key)
    requires |a| == |b| == 3
    ensures LexLe(a, b) <==> a[0] < b[0] || (a[0] == b[0] && (a[1] < b[1] || (a[1] == b[1] && a[2] <= b[2])))
  {
    var s, t := a[1..], b[1..];
    assert s[1..] == [a[2]] && t[1..] == [b[2]] && s[0] == a[1] && t[0] == b[1];
    assert LexLe([a[2]], [b[2]]) <==> a[2] <= b[2] by { assert [a[2]][1..] == []; }
  }

  lemma {:induction false} LexTransitive(a: Key, b: Key, c: Key)
    requires LexLe(a, b) && LexLe(b, c)
    ensures LexLe(a, c)
  {
    if a != [] && a[0] == b[0] == c[0] { LexTransitive(a[1..], b[1..], c[1..]); }
  }

  ghost predicate SortedBy<T>(key: T -> Key, s: seq<T>) {
    forall i, j :: 0 <= i < j < |s| ==> LexLe(key(s[i]), key(s[j]))
  }

  function Insert<T>(key: T -> Key, x: T, s: seq<T>): (r: seq<T>)
    ensures multiset(r) == multiset{x} + multiset(s)
  {
    if s == [] then [x]
    else if LexLe(key(x), key(s[0])) then [x] + s
    else
      assert s == [s[0]] + s[1..];
      [s[0]] + Insert(key, x, s[1..])
  }

  /** `sorted(s, key=key)`: a stable sort. */
  function SortBy<T>(key: T -> Key, s: seq<T>): (r: seq<T>)
    ensures multiset(r) == multiset(s)
    ensures |r| == |s|
  {
    if s == [] then []
    else
      assert s == [s[0]] + s[1..];
      var r := Insert(key, s[0], SortBy(key, s[1..]));
      assert |r| == |multiset(r)| == |multiset(s)| == |s|;
      r
  }

  lemma {:induction false} InsertSorted<T>(key: T -> Key, x: T, s: seq<T>)
    requires SortedBy(key, s)
    ensures SortedBy(key, Insert(key, x, s))
  {
    var r := Insert(key, x, s);
    if s == [] {
    } else if LexLe(key(x), key(s[0])) {
      forall i | 0 <= i < |s| ensures LexLe(key(x), key(s[i])) {
        if i > 0 { LexTransitive(key(x), key(s[0]), key(s[i])); }
      }
    } else {
      LexTotal(key(x), key(s[0]));
      InsertSorted(key, x, s[1..]);
      forall y | y in r[1..] ensures LexLe(key(s[0]), key(y)) {
        assert y in multiset(r[1..]);
      }
    }
  }

  lemma {:induction false} SortBySorts<T>(key: T -> Key, s: seq<T>)
    ensures SortedBy(key, SortBy(key, s))
  {
    if s != [] {
      SortBySorts(key, s[1..]);
      InsertSorted(key, s[0], SortBy(key, s[1..]));
    }
  }

  /** The elements of `s` carrying one key, in order. */
  function Class<T>(key: T -> Key, k: Key, s: seq<T>): (r: seq<T>) {
    Filter(x => key(x) == k, s)
  }

  lemma ClassAppend<T>(key: T -> Key, k: Key, a: seq<T>, x: T)
    ensures Class(key, k, a + [x]) == Class(key, k, a) + if key(x) == k then [x] else []
  {
    var p := (y: T) => key(y) == k;
    FilterAppend(p, a, [x]);
    assert Filter(p, [x]) == if key(x) == k then [x] else [];
  }

  lemma ClassConcat<T>(key: T -> Key, k: Key, a: seq<T>, b: seq<T>)
    ensures Class(key, k, a + b) == Class(key, k, a) + Class(key, k, b)
  {
    FilterAppend((y: T) => key(y) == k, a, b);
  }

  /** A class of one key that lies within a single class of another. */
  lemma ClassWithin<T>(key: T -> Key, rank: T -> Key, s: seq<T>, k: Key, outer: Key, other: Key)
    requires forall x :: x in s && rank(x) == k ==> key(x) == outer
    ensures Class(rank, k, Class(key, other, s)) == if other == outer then Class(rank, k, s) else []
  {
    var p, q := (y: T) => rank(y) == k, (y: T) => key(y) == other;
    if other == outer {
      FilterRedundant(p, q, s);
    } else {
      forall x | x in Filter(q, s) ensures !p(x) { assert x in s && q(x); }
      FilterNone(p, Filter(q, s));
    }
  }

  lemma ClassMultiset<T>(key: T -> Key, k: Key, s: seq<T>, x: T)
    ensures multiset(Class(key, k, s))[x] == if key(x) == k then multiset(s)[x] else 0
  {
    FilterMultiset((y: T) => key(y) == k, s, x);
  }

  lemma ClassMembers<T>(key: T -> Key, k: Key, s: seq<T>)
    ensures forall x :: x in Class(key, k, s) <==> x in s && key(x) == k
  {
  }

  lemma {:induction false} FilterSorted<T>(key: T -> Key, p: T -> bool, s: seq<T>)
    requires SortedBy(key, s)
    ensures SortedBy(key, Filter(p, s))
  {
    if s != [] {
      FilterSorted(key, p, s[1..]);
      forall y | y in Filter(p, s[1..]) ensures LexLe(key(s[0]), key(y)) {
        assert y in s[1..];
      }
    }
  }

  /** One class of a sorted sequence, sorted by the same or another key. */
  lemma ClassSorted<T>(key: T -> Key, rank: T -> Key, k: Key, s: seq<T>)
    requires SortedBy(rank, s)
    ensures SortedBy(rank, Class(key, k, s))
  {
    FilterSorted(rank, (y: T) => key(y) == k, s);
  }

  lemma SortedConcat<T>(key: T -> Key, a: seq<T>, b: seq<T>)
    requires SortedBy(key, a) && SortedBy(key, b) && forall x, y :: x in a && y in b ==> LexLe(key(x), key(y))
    ensures SortedBy(key, a + b)
  {
  }

  lemma {:induction false} InsertStable<T>(key: T -> Key, k: Key, x: T, s: seq<T>)
    requires SortedBy(key, s)
    ensures Class(key, k, Insert(key, x, s)) == Class(key, k, [x] + s)
  {
    if s != [] && !LexLe(key(x), key(s[0])) {
      var p := (y: T) => key(y) == k;
      InsertStable(key, k, x, s[1..]);
      FilterAppend(p, [x], s[1..]);
      FilterAppend(p, [x], s);
      assert s == [s[0]] + s[1..];
      FilterAppend(p, [s[0]], s[1..]);
      FilterAppend(p, [s[0]], Insert(key, x, s[1..]));
      LexReflexive(key(x));
      if key(x) == k { assert key(s[0]) != k; }
    }
  }

  /** Equal keys keep their authored order. */
  lemma {:induction false} SortByStable<T>(key: T -> Key, k: Key, s: seq<T>)
    ensures Class(key, k, SortBy(key, s)) == Class(key, k, s)
  {
    if s != [] {
      var tail := SortBy(key, s[1..]);
      SortBySorts(key, s[1..]);
      InsertStable(key, k, s[0], tail);
      var p := (y: T) => key(y) == k;
      FilterAppend(p, [s[0]], tail);
      SortByStable(key, k, s[1..]);
    }
  }

  lemma BeforeOnce<T>(s: seq<T>, x: T, y: T)
    requires Distinct(s) && Before(s, x, y)
    ensures !Before(s, y, x)
  {
  }

  /** Elements with one key keep their order. */
  lemma SortKeepsTies<T>(key: T -> Key, s: seq<T>, x: T, y: T)
    requires Distinct(s) && key(x) == key(y) && Before(s, x, y)
    ensures !Before(SortBy(key, s), y, x)
  {
    var k := key(x);
    var p := (z: T) => key(z) == k;
    SortByStable(key, k, s);
    FilterKeepsBefore(p, s, x, y);
    FilterDistinct(p, s);
    BeforeOnce(Filter(p, s), x, y);
    if Before(SortBy(key, s), y, x) { FilterKeepsBefore(p, SortBy(key, s), y, x); }
  }

  lemma LeastFirst<T>(key: T -> Key, s: seq<T>, x: T)
    requires SortedBy(key, s) && x in s
    ensures LexLe(key(s[0]), key(x))
  {
    LexReflexive(key(x));
  }

  lemma SameFirst<T>(key: T -> Key, a: seq<T>, b: seq<T>)
    requires SortedBy(key, a) && SortedBy(key, b) && a != [] && b != [] && a[0] in b && b[0] in a
    requires forall x, y :: x in a && y in a && key(x) == key(y) ==> x == y
    ensures a[0] == b[0]
  {
    LeastFirst(key, a, b[0]);
    LeastFirst(key, b, a[0]);
    LexAntisymmetric(key(a[0]), key(b[0]));
  }

  lemma TailsPermute<T>(a: seq<T>, b: seq<T>)
    requires a != [] && b != [] && a[0] == b[0] && multiset(a) == multiset(b)
    ensures multiset(a[1..]) == multiset(b[1..])
  {
    assert a == [a[0]] + a[1..] && b == [b[0]] + b[1..];
    assert multiset(a[1..]) == multiset(a) - multiset{a[0]};
    assert multiset(b[1..]) == multiset(b) - multiset{b[0]};
  }

  /** Sorted sequences with pairwise distinct keys are determined by their elements. */
  lemma {:induction false} SortedUnique<T>(key: T -> Key, a: seq<T>, b: seq<T>)
    requires SortedBy(key, a) && SortedBy(key, b)
    requires multiset(a) == multiset(b)
    requires forall x, y :: x in a && y in a && key(x) == key(y) ==> x == y
    ensures a == b
  {
    assert |multiset(a)| == |a| && |multiset(b)| == |b|;
    if a != [] {
      assert a[0] in multiset(b) && b[0] in multiset(a);
      SameFirst(key, a, b);
      TailsPermute(a, b);
      SortedUnique(key, a[1..], b[1..]);
      assert a == [a[0]] + a[1..] && b == [b[0]] + b[1..];
    }
  }

  /** Sorting something already sorted changes nothing. */
  lemma {:induction false} SortBySortedIsIdentity<T>(key: T -> Key, s: seq<T>)
    requires SortedBy(key, s)
    ensures SortBy(key, s) == s
  {
    if s != [] {
      SortBySortedIsIdentity(key, s[1..]);
      if |s| > 1 { assert LexLe(key(s[0]), key(s[1])); }
    }
  }
}
