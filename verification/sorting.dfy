/** A stable insertion sort over a comparator, standing for `Array.prototype.sort`, which is
    stable: elements the comparator ties keep their input order. */
module Sorting {

  /** The comparator is total and transitive, so "sorts at or before" is a total preorder. */
  ghost predicate TotalPreorder<T(!new)>(le: (T, T) -> bool) {
    && (forall x, y :: le(x, y) || le(y, x))
    && (forall x, y, z :: le(x, y) && le(y, z) ==> le(x, z))
  }

  /** A total preorder that ties only equal elements, as the filename order is taken to be. */
  ghost predicate TotalOrder<T(!new)>(le: (T, T) -> bool) {
    && TotalPreorder(le)
    && (forall x, y :: le(x, y) && le(y, x) ==> x == y)
  }

  predicate SortedBy<T>(le: (T, T) -> bool, s: seq<T>) {
    forall i, j :: 0 <= i < j < |s| ==> le(s[i], s[j])
  }

  /** Places x in front of the first element it may precede, so it stays ahead of its ties. */
  function Insert<T(==)>(le: (T, T) -> bool, x: T, s: seq<T>): (r: seq<T>)
    ensures |r| == |s| + 1
    ensures multiset(r) == multiset(s) + multiset{x}
  {
    if s == [] then [x]
    else if le(x, s[0]) then [x] + s
    else
      assert s == [s[0]] + s[1..];
      [s[0]] + Insert(le, x, s[1..])
  }

  /** Inserting splices x in at one place and leaves the rest in order. */
  lemma {:induction false} InsertAt<T>(le: (T, T) -> bool, x: T, s: seq<T>) returns (k: nat)
    ensures k <= |s| && Insert(le, x, s) == s[..k] + [x] + s[k..]
  {
    if s == [] || le(x, s[0]) {
      k := 0;
    } else {
      var k' := InsertAt(le, x, s[1..]);
      k := k' + 1;
      assert s[..k] == [s[0]] + s[1..][..k'];
      assert s[k..] == s[1..][k'..];
    }
  }

  function InsertionSort<T(==)>(le: (T, T) -> bool, s: seq<T>): (r: seq<T>)
    ensures |r| == |s|
    ensures multiset(r) == multiset(s)
  {
    if s == [] then []
    else
      assert s == [s[0]] + s[1..];
      Insert(le, s[0], InsertionSort(le, s[1..]))
  }

  lemma {:induction false} InsertSorted<T(!new)>(le: (T, T) -> bool, x: T, s: seq<T>)
    requires TotalPreorder(le) && SortedBy(le, s)
    ensures SortedBy(le, Insert(le, x, s))
  {
    if s != [] && !le(x, s[0]) {
      var t := Insert(le, x, s[1..]);
      InsertSorted(le, x, s[1..]);
      var k := InsertAt(le, x, s[1..]);
      assert le(s[0], x);
      forall j | 0 <= j < |t| ensures le(s[0], t[j]) {
        if j < k {
          assert t[j] == s[j + 1];
        } else if j > k {
          assert t[j] == s[j];
        }
      }
      var r := [s[0]] + t;
      forall i, j | 0 <= i < j < |r| ensures le(r[i], r[j]) {
        if i == 0 {
          assert r[j] == t[j - 1];
        } else {
          assert r[i] == t[i - 1] && r[j] == t[j - 1];
        }
      }
    }
  }

  /** The sort returns a permutation of its input ordered by the comparator. */
  lemma {:induction false} InsertionSortSorted<T(!new)>(le: (T, T) -> bool, s: seq<T>)
    requires TotalPreorder(le)
    ensures SortedBy(le, InsertionSort(le, s))
  {
    if s != [] {
      InsertionSortSorted(le, s[1..]);
      InsertSorted(le, s[0], InsertionSort(le, s[1..]));
    }
  }

  /** Sorting an already sorted sequence leaves it as it is. */
  lemma {:induction false} InsertionSortOfSorted<T>(le: (T, T) -> bool, s: seq<T>)
    requires SortedBy(le, s)
    ensures InsertionSort(le, s) == s
  {
    if s != [] {
      assert SortedBy(le, s[1..]) by {
        forall i, j | 0 <= i < j < |s[1..]| ensures le(s[1..][i], s[1..][j]) {
          assert s[1..][i] == s[i + 1] && s[1..][j] == s[j + 1];
        }
      }
      InsertionSortOfSorted(le, s[1..]);
      if |s| > 1 {
        assert le(s[0], s[1..][0]);
      }
      assert [s[0]] + s[1..] == s;
    }
  }

  /** The images under f of the elements that satisfy keep, in order. */
  function Collect<A, B>(f: A -> B, keep: A -> bool, s: seq<A>): (r: seq<B>)
    ensures |r| <= |s|
    ensures (forall i :: 0 <= i < |s| ==> !keep(s[i])) ==> r == []
  {
    if s == [] then []
    else
      assert forall i :: 0 <= i < |s[1..]| ==> s[1..][i] == s[i + 1];
      (if keep(s[0]) then [f(s[0])] else []) + Collect(f, keep, s[1..])
  }

  lemma {:induction false} CollectMembers<A, B>(f: A -> B, keep: A -> bool, s: seq<A>)
    ensures forall y :: y in Collect(f, keep, s) ==> exists i :: 0 <= i < |s| && keep(s[i]) && y == f(s[i])
    ensures forall i :: 0 <= i < |s| && keep(s[i]) ==> f(s[i]) in Collect(f, keep, s)
  {
    if s != [] {
      var head := if keep(s[0]) then [f(s[0])] else [];
      var rest := Collect(f, keep, s[1..]);
      assert Collect(f, keep, s) == head + rest;
      CollectMembers(f, keep, s[1..]);
      forall y | y in Collect(f, keep, s) ensures exists i :: 0 <= i < |s| && keep(s[i]) && y == f(s[i]) {
        if y !in head {
          var i :| 0 <= i < |s[1..]| && keep(s[1..][i]) && y == f(s[1..][i]);
          assert s[1..][i] == s[i + 1];
        }
      }
      forall i | 0 <= i < |s| && keep(s[i]) ensures f(s[i]) in Collect(f, keep, s) {
        if i > 0 {
          assert s[1..][i - 1] == s[i];
        }
      }
    }
  }

  function Filter<T(==)>(p: T -> bool, s: seq<T>): (r: seq<T>)
    ensures |r| <= |s|
    ensures forall i :: 0 <= i < |r| ==> p(r[i]) && r[i] in s
  {
    if s == [] then []
    else if p(s[0]) then [s[0]] + Filter(p, s[1..])
    else Filter(p, s[1..])
  }

  lemma {:induction false} FilterConcat<T>(p: T -> bool, a: seq<T>, b: seq<T>)
    ensures Filter(p, a + b) == Filter(p, a) + Filter(p, b)
  {
    if a == [] {
      assert a + b == b;
    } else {
      FilterConcat(p, a[1..], b);
      FilterConcatStep(p, a, b);
    }
  }

  lemma FilterConcatStep<T>(p: T -> bool, a: seq<T>, b: seq<T>)
    requires a != []
    requires Filter(p, a[1..] + b) == Filter(p, a[1..]) + Filter(p, b)
    ensures Filter(p, a + b) == Filter(p, a) + Filter(p, b)
  {
    var c, x := a + b, a[0];
    assert c[0] == x && c[1..] == a[1..] + b;
    if p(x) {
      ConsAssoc(x, Filter(p, a[1..]), Filter(p, b));
    }
  }

  lemma ConsAssoc<T>(x: T, u: seq<T>, v: seq<T>)
    ensures [x] + (u + v) == ([x] + u) + v
  {
  }

  /** The filter keeps exactly the elements that pass, each as often as it occurs. */
  lemma {:induction false} FilterCount<T>(p: T -> bool, s: seq<T>, x: T)
    ensures multiset(Filter(p, s))[x] == if p(x) then multiset(s)[x] else 0
    ensures x in Filter(p, s) <==> x in s && p(x)
  {
    if s != [] {
      FilterCount(p, s[1..], x);
      assert s == [s[0]] + s[1..];
      assert multiset(s) == multiset{s[0]} + multiset(s[1..]);
      if p(s[0]) {
        assert multiset(Filter(p, s)) == multiset{s[0]} + multiset(Filter(p, s[1..]));
      }
    }
  }

  /** A filter that keeps every element keeps the sequence; one that keeps none leaves nothing. */
  lemma {:induction false} FilterAllOrNone<T>(p: T -> bool, s: seq<T>)
    ensures (forall x :: x in s ==> p(x)) ==> Filter(p, s) == s
    ensures (forall x :: x in s ==> !p(x)) ==> Filter(p, s) == []
  {
    if s != [] {
      FilterAllOrNone(p, s[1..]);
      assert s == [s[0]] + s[1..];
      assert forall x :: x in s[1..] ==> x in s;
    }
  }

  /** Filtering a sequence without repetitions gives one without repetitions. */
  lemma FilterDistinct<T>(p: T -> bool, s: seq<T>)
    requires Distinct(s)
    ensures Distinct(Filter(p, s))
  {
    DistinctCounts(s);
    forall x ensures multiset(Filter(p, s))[x] <= 1 {
      FilterCount(p, s, x);
    }
    DistinctCounts(Filter(p, s));
  }

  lemma {:induction false} InsertFilter<T(!new)>(le: (T, T) -> bool, p: T -> bool, x: T, s: seq<T>)
    requires forall y, z :: p(y) && p(z) ==> le(y, z)
    ensures Filter(p, Insert(le, x, s)) == (if p(x) then [x] else []) + Filter(p, s)
  {
    if s == [] {
    } else if le(x, s[0]) {
      assert Insert(le, x, s) == [x] + s;
      assert ([x] + s)[1..] == s;
    } else {
      var t := Insert(le, x, s[1..]);
      InsertFilter(le, p, x, s[1..]);
      assert Insert(le, x, s) == [s[0]] + t;
      assert ([s[0]] + t)[1..] == t;
      if p(x) {
        assert !p(s[0]);
        assert Filter(p, [s[0]] + t) == Filter(p, t);
        assert Filter(p, s) == Filter(p, s[1..]);
      }
    }
  }

  /** Stability: among elements that all tie with one another, the sort keeps the input order. */
  lemma {:induction false} InsertionSortStable<T(!new)>(le: (T, T) -> bool, p: T -> bool, s: seq<T>)
    requires forall y, z :: p(y) && p(z) ==> le(y, z)
    ensures Filter(p, InsertionSort(le, s)) == Filter(p, s)
  {
    if s != [] {
      InsertionSortStable(le, p, s[1..]);
      InsertFilter(le, p, s[0], InsertionSort(le, s[1..]));
    }
  }

  lemma SortedHeads<T>(le: (T, T) -> bool, a: seq<T>, b: seq<T>)
    requires a != [] && multiset(a) == multiset(b) && SortedBy(le, a) && SortedBy(le, b)
    requires forall x, y :: x in a && y in a && le(x, y) && le(y, x) ==> x == y
    ensures b != [] && a[0] == b[0]
  {
    assert a[0] in multiset(b);
    assert b[0] in multiset(a);
    var k :| 0 <= k < |b| && b[k] == a[0];
    var m :| 0 <= m < |a| && a[m] == b[0];
  }

  lemma TailMultiset<T>(a: seq<T>, b: seq<T>)
    requires a != [] && b != [] && a[0] == b[0] && multiset(a) == multiset(b)
    ensures multiset(a[1..]) == multiset(b[1..])
  {
    assert a == [a[0]] + a[1..] && b == [b[0]] + b[1..];
    assert multiset(a[1..]) == multiset(a) - multiset{a[0]};
    assert multiset(b[1..]) == multiset(b) - multiset{b[0]};
  }

  /** Two sorted arrangements of the same elements coincide when the comparator ties no two
      distinct elements among them. */
  lemma {:induction false} SortedUnique<T>(le: (T, T) -> bool, a: seq<T>, b: seq<T>)
    requires multiset(a) == multiset(b) && SortedBy(le, a) && SortedBy(le, b)
    requires forall x, y :: x in a && y in a && le(x, y) && le(y, x) ==> x == y
    ensures a == b
    decreases |a|
  {
    assert |a| == |multiset(a)| == |multiset(b)| == |b|;
    if a != [] {
      SortedHeads(le, a, b);
      TailMultiset(a, b);
      forall x, y | x in a[1..] && y in a[1..] && le(x, y) && le(y, x) ensures x == y {
        assert x in a && y in a;
      }
      assert SortedBy(le, a[1..]) && SortedBy(le, b[1..]);
      SortedUnique(le, a[1..], b[1..]);
      assert a == [a[0]] + a[1..] && b == [b[0]] + b[1..];
    }
  }

  function MapSeq<T>(f: T -> T, s: seq<T>): (r: seq<T>)
    ensures |r| == |s|
    ensures forall i :: 0 <= i < |s| ==> r[i] == f(s[i])
  {
    if s == [] then [] else [f(s[0])] + MapSeq(f, s[1..])
  }

  lemma {:induction false} InsertMap<T>(le: (T, T) -> bool, f: T -> T, x: T, s: seq<T>)
    requires forall y :: y in s ==> le(f(x), f(y)) == le(x, y)
    ensures Insert(le, f(x), MapSeq(f, s)) == MapSeq(f, Insert(le, x, s))
  {
    if s != [] {
      assert MapSeq(f, s)[0] == f(s[0]);
      assert MapSeq(f, s)[1..] == MapSeq(f, s[1..]);
      if !le(x, s[0]) {
        InsertMap(le, f, x, s[1..]);
      }
    }
  }

  /** Rewriting every element in a way that the comparator cannot see commutes with sorting. */
  lemma {:induction false} InsertionSortMap<T>(le: (T, T) -> bool, f: T -> T, s: seq<T>)
    requires forall x, y :: x in s && y in s ==> le(f(x), f(y)) == le(x, y)
    ensures InsertionSort(le, MapSeq(f, s)) == MapSeq(f, InsertionSort(le, s))
  {
    if s != [] {
      var t := InsertionSort(le, s[1..]);
      assert MapSeq(f, s)[0] == f(s[0]);
      assert MapSeq(f, s)[1..] == MapSeq(f, s[1..]);
      InsertionSortMap(le, f, s[1..]);
      forall y | y in t ensures le(f(s[0]), f(y)) == le(s[0], y) {
        assert y in multiset(s[1..]);
        assert y in s;
      }
      InsertMap(le, f, s[0], t);
    }
  }

  /** No element occurs twice. */
  ghost predicate Distinct<T>(s: seq<T>) {
    forall i, j :: 0 <= i < j < |s| ==> s[i] != s[j]
  }

  lemma {:induction false} DistinctCounts<T>(s: seq<T>)
    ensures Distinct(s) <==> forall x :: multiset(s)[x] <= 1
  {
    if Distinct(s) {
      DistinctAtMostOnce(s);
    } else {
      var i, j :| 0 <= i < j < |s| && s[i] == s[j];
      DuplicateCounted(s, i, j);
    }
  }

  lemma {:induction false} DistinctAtMostOnce<T>(s: seq<T>)
    requires Distinct(s)
    ensures forall x :: multiset(s)[x] <= 1
  {
    if s != [] {
      var t := s[1..];
      assert Distinct(t) by {
        forall i, j | 0 <= i < j < |t| ensures t[i] != t[j] {
          assert t[i] == s[i + 1] && t[j] == s[j + 1];
        }
      }
      DistinctAtMostOnce(t);
      assert s[0] !in t by {
        forall k | 0 <= k < |t| ensures t[k] != s[0] {
          assert t[k] == s[k + 1];
        }
      }
      assert s == [s[0]] + t;
      assert multiset(s) == multiset{s[0]} + multiset(t);
    }
  }

  lemma DuplicateCounted<T>(s: seq<T>, i: nat, j: nat)
    requires i < j < |s| && s[i] == s[j]
    ensures multiset(s)[s[i]] >= 2
  {
    assert s == s[..j] + s[j..];
    assert s[i] in s[..j];
    assert s[j] in s[j..];
    assert multiset(s) == multiset(s[..j]) + multiset(s[j..]);
  }

  lemma DistinctPermutation<T>(a: seq<T>, b: seq<T>)
    requires multiset(a) == multiset(b) && Distinct(a)
    ensures Distinct(b)
  {
    DistinctCounts(a);
    DistinctCounts(b);
  }
}
