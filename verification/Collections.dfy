/** Finite sets, lists without repetition, and sorting with a comparator. */
module Collections {

  /** The numbers below n, in order. */
  function UpTo(n: nat): seq<nat> { seq(n, i => i) }

  ghost predicate Distinct<T>(q: seq<T>) { forall i, j :: 0 <= i < j < |q| ==> q[i] != q[j] }

  lemma DistinctCount<T>(q: seq<T>, elements: set<T>)
    requires Distinct(q) && forall t :: t in q ==> t in elements
    ensures |q| <= |elements|
  {
    if q != [] {
      var rest := q[1..];
      assert forall t :: t in rest ==> t in elements - {q[0]};
      DistinctCount(rest, elements - {q[0]});
    }
  }

  lemma SubsetSize<T>(a: set<T>, b: set<T>)
    requires a <= b
    ensures |a| <= |b|
  {
    assert b == a + (b - a);
  }

  lemma Choose<T>(elements: set<T>, n: nat) returns (order: seq<T>)
    requires n <= |elements|
    ensures |order| == n && Distinct(order) && forall t :: t in order ==> t in elements
  {
    if n == 0 {
      order := [];
    } else {
      var t :| t in elements;
      var rest := Choose(elements - {t}, n - 1);
      order := [t] + rest;
      assert forall u :: u in order <==> u == t || u in rest;
    }
  }

  // ----- sorting

  /** A comparator in the style of qsort(3) that never contradicts an order by keys. Between
      elements with the same key it may answer anything. */
  ghost predicate Follows<T(!new)>(cmp: (T, T) -> int, key: T -> int) {
    forall a, b :: (cmp(a, b) > 0 ==> key(b) <= key(a)) && (cmp(a, b) <= 0 ==> key(a) <= key(b))
  }

  ghost predicate Sorted<T>(key: T -> int, s: seq<T>) {
    forall i, j :: 0 <= i < j < |s| ==> key(s[i]) <= key(s[j])
  }

  function Insert<T(==)>(cmp: (T, T) -> int, x: T, s: seq<T>): (r: seq<T>)
    ensures multiset(r) == multiset(s) + multiset{x}
  {
    if s == [] then [x]
    else if cmp(s[0], x) > 0 then [x] + s
    else
      assert s == [s[0]] + s[1..];
      [s[0]] + Insert(cmp, x, s[1..])
  }

  /** Insertion sort: a function with the contract of qsort(3). */
  function Sort<T(==)>(cmp: (T, T) -> int, s: seq<T>): (r: seq<T>)
    ensures multiset(r) == multiset(s)
  {
    if s == [] then []
    else
      assert s == [s[0]] + s[1..];
      Insert(cmp, s[0], Sort(cmp, s[1..]))
  }

  lemma {:induction false} InsertSorted<T(!new)>(cmp: (T, T) -> int, key: T -> int, x: T, s: seq<T>)
    requires Follows(cmp, key) && Sorted(key, s)
    ensures Sorted(key, Insert(cmp, x, s))
  {
    if s != [] {
      if cmp(s[0], x) > 0 {
        assert key(x) <= key(s[0]);
      } else {
        var rest := Insert(cmp, x, s[1..]);
        InsertSorted(cmp, key, x, s[1..]);
        forall j | 0 <= j < |rest|
          ensures key(s[0]) <= key(rest[j])
        {
          assert rest[j] in multiset(rest);
          assert rest[j] in multiset(s[1..]) || rest[j] == x;
        }
      }
    }
  }

  lemma {:induction false} SortSorted<T(!new)>(cmp: (T, T) -> int, key: T -> int, s: seq<T>)
    requires Follows(cmp, key)
    ensures Sorted(key, Sort(cmp, s))
  {
    if s != [] {
      SortSorted(cmp, key, s[1..]);
      InsertSorted(cmp, key, s[0], Sort(cmp, s[1..]));
    }
  }
}
