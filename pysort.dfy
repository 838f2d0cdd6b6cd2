/**
  * The library routines the counters lean on, over the values they sort:
  * dates that are either NULL or an integer timestamp, ordered as Python 2
  * orders them (None below every number). `sorted` is a stable sort,
  * written here as an insertion sort; `bisect` is the right-biased binary
  * search of Python's bisect module.
  */
module PySort {

  import opened Wrappers

  /** A date column as the database returns it: NULL or a timestamp. */
  datatype Stamp = Null | At(time: int)

  /** Python 2 `a <= b` on None and numbers. */
  predicate Le(a: Stamp, b: Stamp) {
    a.Null? || (b.At? && a.time <= b.time)
  }

  function Itself(d: Stamp): Stamp { d }

  ghost predicate SortedBy<T>(s: seq<T>, key: T -> Stamp) {
    forall i, j :: 0 <= i < j < |s| ==> Le(key(s[i]), key(s[j]))
  }

  /** Inserts x before the first element whose key is not below x's. */
  function Insert<T>(x: T, s: seq<T>, key: T -> Stamp): (r: seq<T>)
    ensures |r| == |s| + 1
    ensures multiset(r) == multiset(s) + multiset{x}
  {
    if s == [] then [x]
    else if Le(key(x), key(s[0])) then [x] + s
    else
      assert s == [s[0]] + s[1..];
      [s[0]] + Insert(x, s[1..], key)
  }

  lemma {:induction false} InsertSorted<T>(x: T, s: seq<T>, key: T -> Stamp)
    requires SortedBy(s, key)
    ensures SortedBy(Insert(x, s, key), key)
  {
    if s != [] && !Le(key(x), key(s[0])) {
      var rest := Insert(x, s[1..], key);
      InsertSorted(x, s[1..], key);
      forall y | y in rest
        ensures Le(key(s[0]), key(y))
      {
        assert y in multiset(rest);
        if y != x {
          assert y in s[1..];
        }
      }
    }
  }

  /** Python's `sorted(s, key=key)`: ordered by key, a permutation of s, stable. */
  function SortBy<T>(s: seq<T>, key: T -> Stamp): (r: seq<T>)
    ensures |r| == |s|
    ensures multiset(r) == multiset(s)
    ensures SortedBy(r, key)
  {
    if s == [] then []
    else
      var rest := SortBy(s[1..], key);
      SortByStep(s, rest, key);
      Insert(s[0], rest, key)
  }

  /** Inserting the head into the sorted tail sorts the whole list. */
  lemma SortByStep<T>(s: seq<T>, rest: seq<T>, key: T -> Stamp)
    requires s != [] && multiset(rest) == multiset(s[1..]) && SortedBy(rest, key)
    ensures multiset(Insert(s[0], rest, key)) == multiset(s)
    ensures SortedBy(Insert(s[0], rest, key), key)
  {
    InsertSorted(s[0], rest, key);
    assert s == [s[0]] + s[1..];
  }

  /** The index of the first element of s whose key is least. */
  function FirstMin<T>(s: seq<T>, key: T -> Stamp): (i: nat)
    requires s != []
    ensures i < |s|
    ensures forall j :: 0 <= j < |s| ==> Le(key(s[i]), key(s[j]))
    ensures forall j :: 0 <= j < i ==> !Le(key(s[j]), key(s[i]))
  {
    if |s| == 1 then 0
    else
      var k := FirstMin(s[1..], key) + 1;
      if Le(key(s[0]), key(s[k])) then 0 else k
  }

  /** The index of the last element of s whose key is greatest. */
  function LastMax<T>(s: seq<T>, key: T -> Stamp): (i: nat)
    requires s != []
    ensures i < |s|
    ensures forall j :: 0 <= j < |s| ==> Le(key(s[j]), key(s[i]))
    ensures forall j :: i < j < |s| ==> !Le(key(s[i]), key(s[j]))
  {
    if |s| == 1 then 0
    else
      var k := LastMax(s[1..], key) + 1;
      if Le(key(s[0]), key(s[k])) then k else 0
  }

  /** Stability at the front: `sorted(s)[0]` is the first element of least key. */
  lemma {:induction false} SortByHead<T>(s: seq<T>, key: T -> Stamp)
    requires s != []
    ensures SortBy(s, key)[0] == s[FirstMin(s, key)]
  {
    if |s| > 1 {
      SortByHead(s[1..], key);
    }
  }

  lemma {:induction false} InsertLast<T>(x: T, s: seq<T>, key: T -> Stamp)
    requires s != [] && SortedBy(s, key)
    ensures var r := Insert(x, s, key);
      r[|r| - 1] == if Le(key(x), key(s[|s| - 1])) then s[|s| - 1] else x
  {
    if !Le(key(x), key(s[0])) && |s| > 1 {
      InsertLast(x, s[1..], key);
    }
  }

  /** Stability at the back: `sorted(s)[-1]` is the last element of greatest key. */
  lemma {:induction false} SortByLast<T>(s: seq<T>, key: T -> Stamp)
    requires s != []
    ensures SortBy(s, key)[|s| - 1] == s[LastMax(s, key)]
  {
    if |s| > 1 {
      SortByLast(s[1..], key);
      InsertLast(s[0], SortBy(s[1..], key), key);
    }
  }

  /** The number of elements of a that are <= x. */
  function CountLe(a: seq<Stamp>, x: Stamp): (n: nat)
    ensures n <= |a|
  {
    if a == [] then 0 else (if Le(a[0], x) then 1 else 0) + CountLe(a[1..], x)
  }

  lemma {:induction false} CountLeAppend(a: seq<Stamp>, b: seq<Stamp>, x: Stamp)
    ensures CountLe(a + b, x) == CountLe(a, x) + CountLe(b, x)
  {
    if a == [] {
      assert a + b == b;
    } else {
      assert (a + b)[1..] == a[1..] + b;
      CountLeAppend(a[1..], b, x);
    }
  }

  lemma {:induction false} CountLeInsert(y: Stamp, a: seq<Stamp>, x: Stamp)
    ensures CountLe(Insert(y, a, Itself), x) == CountLe([y] + a, x)
  {
    if a != [] && !Le(y, a[0]) {
      CountLeInsert(y, a[1..], x);
      assert ([y] + a[1..])[1..] == a[1..];
      assert ([y] + a)[1..] == a;
    }
  }

  /** Sorting does not change how many elements are at or below x. */
  lemma {:induction false} CountLeSorted(a: seq<Stamp>, x: Stamp)
    ensures CountLe(SortBy(a, Itself), x) == CountLe(a, x)
  {
    if a != [] {
      CountLeSorted(a[1..], x);
      CountLeInsert(a[0], SortBy(a[1..], Itself), x);
      CountLeAppend([a[0]], SortBy(a[1..], Itself), x);
      CountLeAppend([a[0]], a[1..], x);
      assert a == [a[0]] + a[1..];
    }
  }

  /** Python 2 `x < a[mid]`. */
  predicate Lt(a: Stamp, b: Stamp) {
    !Le(b, a)
  }

  /**
    * `bisect.bisect_right(a, x, lo, hi)`: the library's loop
    * (`mid = (lo+hi)//2; if x < a[mid]: hi = mid else: lo = mid+1`)
    * written as recursion on hi - lo.
    */
  function BisectFrom(a: seq<Stamp>, x: Stamp, lo: nat, hi: nat): (r: nat)
    requires lo <= hi <= |a|
    requires SortedBy(a, Itself)
    ensures lo <= r <= hi
    ensures forall j :: lo <= j < r ==> Le(a[j], x)
    ensures forall j :: r <= j < hi ==> Lt(x, a[j])
    decreases hi - lo
  {
    if lo < hi then
      var mid := (lo + hi) / 2;
      assert Itself(a[mid]) == a[mid];
      if Lt(x, a[mid]) then
        assert forall j :: mid <= j < hi ==> Itself(a[mid]) == a[mid] && Itself(a[j]) == a[j];
        BisectFrom(a, x, lo, mid)
      else
        assert forall j :: lo <= j < mid ==> Itself(a[mid]) == a[mid] && Itself(a[j]) == a[j];
        BisectFrom(a, x, mid + 1, hi)
    else lo
  }

  /** `bisect(a, x)` */
  function Bisect(a: seq<Stamp>, x: Stamp): (r: nat)
    requires SortedBy(a, Itself)
    ensures r <= |a|
    ensures forall j :: 0 <= j < r ==> Le(a[j], x)
    ensures forall j :: r <= j < |a| ==> Lt(x, a[j])
  {
    BisectFrom(a, x, 0, |a|)
  }

  lemma {:induction false} CountLeAll(a: seq<Stamp>, x: Stamp, yes: bool)
    requires forall j :: 0 <= j < |a| ==> Le(a[j], x) == yes
    ensures CountLe(a, x) == if yes then |a| else 0
  {
    if a != [] {
      CountLeAll(a[1..], x, yes);
    }
  }

  /** On a sorted list, the right bisection point is the count of elements <= x. */
  lemma BisectCounts(a: seq<Stamp>, x: Stamp)
    requires SortedBy(a, Itself)
    ensures Bisect(a, x) == CountLe(a, x)
  {
    var r := Bisect(a, x);
    assert a == a[..r] + a[r..];
    CountLeAppend(a[..r], a[r..], x);
    CountLeAll(a[..r], x, true);
    CountLeAll(a[r..], x, false);
  }

  /** Bisecting the sorted copy of any list counts the list's elements <= x. */
  lemma BisectSortedCounts(a: seq<Stamp>, x: Stamp)
    ensures Bisect(SortBy(a, Itself), x) == CountLe(a, x)
  {
    BisectCounts(SortBy(a, Itself), x);
    CountLeSorted(a, x);
  }

  /** Moving x up never lowers its bisection point. */
  lemma {:induction false} CountLeMonotone(a: seq<Stamp>, x: Stamp, y: Stamp)
    requires Le(x, y)
    ensures CountLe(a, x) <= CountLe(a, y)
  {
    if a != [] {
      CountLeMonotone(a[1..], x, y);
    }
  }

  /** The first element of s whose key is above x. */
  function FirstAbove<T>(s: seq<T>, key: T -> Stamp, x: Stamp): (r: Option<T>)
    ensures r.None? <==> forall j :: 0 <= j < |s| ==> Le(key(s[j]), x)
    ensures r.Some? ==> r.value in s && Lt(x, key(r.value))
    ensures r.Some? && SortedBy(s, key) ==>
      forall j :: 0 <= j < |s| && Lt(x, key(s[j])) ==> Le(key(r.value), key(s[j]))
  {
    if s == [] then None
    else if Lt(x, key(s[0])) then Some(s[0])
    else
      var r := FirstAbove(s[1..], key, x);
      assert forall j :: 1 <= j < |s| ==> s[j] == s[1..][j - 1];
      r
  }

  // ----- Filtering and the stable sort ---------------------------------------

  /** `[e for e in s if p(e)]` */
  function Filter<T>(s: seq<T>, p: T -> bool): (r: seq<T>)
    ensures |r| <= |s|
  {
    if s == [] then [] else (if p(s[0]) then [s[0]] else []) + Filter(s[1..], p)
  }

  /** The filtered list holds exactly the elements that pass. */
  lemma {:induction false} FilterMembers<T(!new)>(s: seq<T>, p: T -> bool)
    ensures forall e :: e in Filter(s, p) <==> e in s && p(e)
  {
    if s != [] {
      FilterMembers(s[1..], p);
      assert forall e :: e in s <==> e == s[0] || e in s[1..];
    }
  }

  /** Filtering twice is filtering once by both conditions. */
  lemma {:induction false} FilterFilter<T>(s: seq<T>, p: T -> bool, q: T -> bool, pq: T -> bool)
    requires forall e :: pq(e) == (p(e) && q(e))
    ensures Filter(Filter(s, p), q) == Filter(s, pq)
  {
    if s != [] {
      FilterFilter(s[1..], p, q, pq);
      var f := Filter(s, p);
      if p(s[0]) {
        assert f == [s[0]] + Filter(s[1..], p);
        assert f[0] == s[0] && f[1..] == Filter(s[1..], p);
        assert Filter(f, q) == (if q(s[0]) then [s[0]] else []) + Filter(f[1..], q);
      } else {
        assert f == Filter(s[1..], p);
      }
      assert Filter(s, pq) == (if pq(s[0]) then [s[0]] else []) + Filter(s[1..], pq);
    }
  }

  lemma FilterCons<T>(a: T, r: seq<T>, p: T -> bool)
    ensures Filter([a] + r, p) == (if p(a) then [a] else []) + Filter(r, p)
  {
    assert ([a] + r)[0] == a && ([a] + r)[1..] == r;
  }

  /** Filtering commutes with inserting into a sorted list. */
  lemma {:induction false} FilterInsert<T(!new)>(y: T, t: seq<T>, key: T -> Stamp, p: T -> bool)
    requires SortedBy(t, key)
    ensures Filter(Insert(y, t, key), p) == if p(y) then Insert(y, Filter(t, p), key) else Filter(t, p)
  {
    if t == [] || Le(key(y), key(t[0])) {
      FilterInsertFront(y, t, key, p);
    } else {
      FilterInsert(y, t[1..], key, p);
      FilterInsertBehind(y, t, key, p);
    }
  }

  /** Inserting before the head. */
  lemma FilterInsertFront<T(!new)>(y: T, t: seq<T>, key: T -> Stamp, p: T -> bool)
    requires SortedBy(t, key) && (t == [] || Le(key(y), key(t[0])))
    ensures Filter(Insert(y, t, key), p) == if p(y) then Insert(y, Filter(t, p), key) else Filter(t, p)
  {
    var f := Filter(t, p);
    assert Insert(y, t, key) == [y] + t;
    FilterCons(y, t, p);
    if p(y) {
      InsertBeforeFilter(y, t, key, p);
    } else {
      assert [] + f == f;
    }
  }

  /** What goes before the head of a sorted list goes before the head of any filter of it. */
  lemma InsertBeforeFilter<T(!new)>(y: T, t: seq<T>, key: T -> Stamp, p: T -> bool)
    requires SortedBy(t, key) && (t == [] || Le(key(y), key(t[0])))
    ensures Insert(y, Filter(t, p), key) == [y] + Filter(t, p)
  {
    var f := Filter(t, p);
    if f != [] {
      FilterMembers(t, p);
      assert f[0] in t;
      var j :| 0 <= j < |t| && t[j] == f[0];
      assert Le(key(t[0]), key(t[j]));
    }
  }

  /** Inserting behind the head, given the result for the tail. */
  lemma FilterInsertBehind<T>(y: T, t: seq<T>, key: T -> Stamp, p: T -> bool)
    requires t != [] && !Le(key(y), key(t[0]))
    requires Filter(Insert(y, t[1..], key), p)
          == if p(y) then Insert(y, Filter(t[1..], p), key) else Filter(t[1..], p)
    ensures Filter(Insert(y, t, key), p) == if p(y) then Insert(y, Filter(t, p), key) else Filter(t, p)
  {
    var f := Filter(t, p);
    var f1 := Filter(t[1..], p);
    assert t == [t[0]] + t[1..];
    FilterCons(t[0], t[1..], p);
    var i1 := Insert(y, t[1..], key);
    assert Insert(y, t, key) == [t[0]] + i1;
    FilterCons(t[0], i1, p);
    if p(t[0]) {
      assert f == [t[0]] + f1;
      if p(y) {
        assert f[0] == t[0] && f[1..] == f1;
        assert Insert(y, f, key) == [t[0]] + Insert(y, f1, key);
      }
    } else {
      assert f == [] + f1 == f1;
      assert Filter(Insert(y, t, key), p) == [] + Filter(i1, p) == Filter(i1, p);
    }
  }

  /** Filtering commutes with the stable sort. */
  lemma {:induction false} FilterSortBy<T(!new)>(s: seq<T>, key: T -> Stamp, p: T -> bool)
    ensures Filter(SortBy(s, key), p) == SortBy(Filter(s, p), key)
  {
    if s != [] {
      var rest := SortBy(s[1..], key);
      assert SortBy(s, key) == Insert(s[0], rest, key);
      FilterSortBy(s[1..], key, p);
      FilterInsert(s[0], rest, key, p);
      var f := Filter(s, p);
      var f1 := Filter(s[1..], p);
      if p(s[0]) {
        assert f == [s[0]] + f1;
        assert f[0] == s[0] && f[1..] == f1;
        assert SortBy(f, key) == Insert(s[0], SortBy(f1, key), key);
      } else {
        assert f == f1;
      }
    }
  }

  /** The first element above x is the head of the elements above x. */
  lemma {:induction false} FirstAboveFilter<T>(s: seq<T>, key: T -> Stamp, x: Stamp, above: T -> bool)
    requires forall e :: above(e) == Lt(x, key(e))
    ensures FirstAbove(s, key, x) == if Filter(s, above) == [] then None else Some(Filter(s, above)[0])
  {
    if s != [] && !Lt(x, key(s[0])) {
      FirstAboveFilter(s[1..], key, x, above);
    }
  }

  /**
    * Element k of a filtered list sits at some index i of s, and every
    * earlier element of s that passes the filter is among the first k.
    */
  lemma {:induction false} FilterIndex<T>(s: seq<T>, p: T -> bool, k: nat) returns (i: nat)
    requires k < |Filter(s, p)|
    ensures i < |s| && s[i] == Filter(s, p)[k] && p(s[i])
    ensures forall j :: 0 <= j < i && p(s[j]) ==> s[j] in Filter(s, p)[..k]
  {
    var f := Filter(s, p);
    var rest := Filter(s[1..], p);
    if p(s[0]) {
      assert f == [s[0]] + rest;
      if k == 0 {
        i := 0;
      } else {
        var i' := FilterIndex(s[1..], p, k - 1);
        i := i' + 1;
        assert s[i] == f[k];
        forall j | 0 <= j < i && p(s[j]) ensures s[j] in f[..k] {
          if j == 0 {
            assert f[..k][0] == s[0];
          } else {
            assert s[j] == s[1..][j - 1];
            assert s[j] in rest[..k - 1];
            assert f[..k] == [s[0]] + rest[..k - 1];
          }
        }
      }
    } else {
      assert f == rest;
      var i' := FilterIndex(s[1..], p, k);
      i := i' + 1;
      assert s[i] == f[k];
      forall j | 0 <= j < i && p(s[j]) ensures s[j] in f[..k] {
        assert s[j] == s[1..][j - 1];
      }
    }
  }

  /**
    * `sorted(filter(p, s), key)[0]`, located in s: an element of s that
    * passes the filter, of least key among those, and strictly below every
    * earlier one that passes.
    */
  lemma FilterSortHead<T(!new)>(s: seq<T>, key: T -> Stamp, p: T -> bool) returns (i: nat)
    requires Filter(s, p) != []
    ensures i < |s| && SortBy(Filter(s, p), key)[0] == s[i] && p(s[i])
    ensures forall j :: 0 <= j < |s| && p(s[j]) ==> Le(key(s[i]), key(s[j]))
    ensures forall j :: 0 <= j < i && p(s[j]) ==> !Le(key(s[j]), key(s[i]))
  {
    var f := Filter(s, p);
    var m := FirstMin(f, key);
    SortByHead(f, key);
    i := FilterIndex(s, p, m);
    FilterHeadLeast(s, key, p, m, i);
    FilterHeadFirst(s, key, p, f, m, i);
    assert SortBy(f, key)[0] == s[i];
  }

  lemma FilterHeadLeast<T(!new)>(s: seq<T>, key: T -> Stamp, p: T -> bool, m: nat, i: nat)
    requires Filter(s, p) != [] && m == FirstMin(Filter(s, p), key)
    requires i < |s| && s[i] == Filter(s, p)[m]
    ensures forall j :: 0 <= j < |s| && p(s[j]) ==> Le(key(s[i]), key(s[j]))
  {
    var f := Filter(s, p);
    FilterMembers(s, p);
    forall j | 0 <= j < |s| && p(s[j]) ensures Le(key(s[i]), key(s[j])) {
      assert s[j] in f;
      var j' :| 0 <= j' < |f| && f[j'] == s[j];
    }
  }

  lemma FilterHeadFirst<T>(s: seq<T>, key: T -> Stamp, p: T -> bool, f: seq<T>, m: nat, i: nat)
    requires f != [] && m == FirstMin(f, key)
    requires i < |s| && s[i] == f[m]
    requires forall j :: 0 <= j < i && p(s[j]) ==> s[j] in f[..m]
    ensures forall j :: 0 <= j < i && p(s[j]) ==> !Le(key(s[j]), key(s[i]))
  {
    forall j | 0 <= j < i && p(s[j]) ensures !Le(key(s[j]), key(s[i])) {
      var j' :| 0 <= j' < |f[..m]| && f[..m][j'] == s[j];
      assert f[..m][j'] == f[j'];
    }
  }
}
