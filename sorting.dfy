/**
 * Insertion into sorted sequences and insertion sort, over any strict total
 * order. The library sorts twice: label keys (`Object.keys(obj).sort()` in
 * hashObj) and histogram boundaries (`buckets.sort` in addBuckets). Both are
 * modelled by `Sort` below with the order they use.
 */
module Sorting {

  ghost predicate IsStrictTotalOrder<T(!new)>(lt: (T, T) -> bool) {
    && (forall a :: !lt(a, a))
    && (forall a, b, c :: lt(a, b) && lt(b, c) ==> lt(a, c))
    && (forall a, b :: a == b || lt(a, b) || lt(b, a))
  }

  /** Strictly ascending, hence duplicate-free. */
  predicate Sorted<T>(s: seq<T>, lt: (T, T) -> bool) {
    forall i, j :: 0 <= i < j < |s| ==> lt(s[i], s[j])
  }

  predicate Distinct<T(==,!new)>(s: seq<T>) {
    forall i, j :: 0 <= i < j < |s| ==> s[i] != s[j]
  }

  /** Inserts `x` before the first element it is smaller than. */
  function Insert<T(==,!new)>(s: seq<T>, x: T, lt: (T, T) -> bool): (r: seq<T>)
    ensures |r| == |s| + 1
  {
    if s == [] then [x]
    else if lt(x, s[0]) then [x] + s
    else [s[0]] + Insert(s[1..], x, lt)
  }

  /** Inserts the elements of `xs`, first to last, into `acc`. */
  function InsertAll<T(==,!new)>(acc: seq<T>, xs: seq<T>, lt: (T, T) -> bool): (r: seq<T>)
    ensures |r| == |acc| + |xs|
    decreases |xs|
  {
    if xs == [] then acc
    else InsertAll(Insert(acc, xs[0], lt), xs[1..], lt)
  }

  /** Insertion sort. */
  function Sort<T(==,!new)>(s: seq<T>, lt: (T, T) -> bool): (r: seq<T>)
    ensures |r| == |s|
  {
    InsertAll([], s, lt)
  }

  /** Insertion adds `x` and keeps every element of `s`. */
  lemma {:induction false} InsertMembers<T(!new)>(s: seq<T>, x: T, lt: (T, T) -> bool)
    ensures forall y :: y in Insert(s, x, lt) <==> y == x || y in s
  {
    if s != [] && !lt(x, s[0]) {
      InsertMembers(s[1..], x, lt);
      assert s == [s[0]] + s[1..];
    }
  }

  lemma {:induction false} InsertAllMembers<T(!new)>(acc: seq<T>, xs: seq<T>, lt: (T, T) -> bool)
    ensures forall y :: y in InsertAll(acc, xs, lt) <==> y in acc || y in xs
    decreases |xs|
  {
    if xs != [] {
      InsertMembers(acc, xs[0], lt);
      InsertAllMembers(Insert(acc, xs[0], lt), xs[1..], lt);
      assert xs == [xs[0]] + xs[1..];
    }
  }

  /** Sorting neither loses nor invents elements. */
  lemma SortMembers<T(!new)>(s: seq<T>, lt: (T, T) -> bool)
    ensures forall y :: y in Sort(s, lt) <==> y in s
  {
    InsertAllMembers([], s, lt);
  }

  lemma {:induction false} InsertSorted<T(!new)>(s: seq<T>, x: T, lt: (T, T) -> bool)
    requires IsStrictTotalOrder(lt)
    requires Sorted(s, lt) && x !in s
    ensures Sorted(Insert(s, x, lt), lt)
  {
    if s != [] && !lt(x, s[0]) {
      var tail := s[1..];
      assert x !in tail;
      InsertSorted(tail, x, lt);
      InsertMembers(tail, x, lt);
      var r := Insert(tail, x, lt);
      assert lt(s[0], x);
      forall y | y in r ensures lt(s[0], y) {
        if y != x {
          var k :| 0 <= k < |tail| && tail[k] == y;
          assert s[k + 1] == y;
        }
      }
      var whole := [s[0]] + r;
      forall i, j | 0 <= i < j < |whole| ensures lt(whole[i], whole[j]) {
        if i == 0 {
          assert whole[j] == r[j - 1];
          assert r[j - 1] in r;
        } else {
          assert whole[i] == r[i - 1] && whole[j] == r[j - 1];
        }
      }
    }
  }

  lemma {:induction false} InsertAllSorted<T(!new)>(acc: seq<T>, xs: seq<T>, lt: (T, T) -> bool)
    requires IsStrictTotalOrder(lt)
    requires Sorted(acc, lt) && Distinct(xs)
    requires forall y :: y in xs ==> y !in acc
    ensures Sorted(InsertAll(acc, xs, lt), lt)
    decreases |xs|
  {
    if xs != [] {
      InsertSorted(acc, xs[0], lt);
      InsertMembers(acc, xs[0], lt);
      var acc' := Insert(acc, xs[0], lt);
      var tail := xs[1..];
      forall y | y in tail ensures y !in acc' {
        var k :| 0 <= k < |tail| && tail[k] == y;
        assert xs[k + 1] == y && xs[0] != y;
      }
      forall i, j | 0 <= i < j < |tail| ensures tail[i] != tail[j] {
        assert tail[i] == xs[i + 1] && tail[j] == xs[j + 1];
      }
      InsertAllSorted(acc', tail, lt);
    }
  }

  lemma SortSorted<T(!new)>(s: seq<T>, lt: (T, T) -> bool)
    requires IsStrictTotalOrder(lt) && Distinct(s)
    ensures Sorted(Sort(s, lt), lt)
  {
    InsertAllSorted([], s, lt);
  }

  /** Two strictly sorted sequences with the same elements are equal. */
  lemma {:induction false} SortedUnique<T(!new)>(a: seq<T>, b: seq<T>, lt: (T, T) -> bool)
    requires IsStrictTotalOrder(lt)
    requires Sorted(a, lt) && Sorted(b, lt)
    requires forall y :: y in a <==> y in b
    ensures a == b
  {
    SameElementsEmpty(a, b);
    if a != [] {
      assert a[0] in a && b[0] in b;
      SortedHeadLeast(b, a[0], lt);
      SortedHeadLeast(a, b[0], lt);
      forall y ensures y in a[1..] <==> y in b[1..] {
        if y in a[1..] {
          var k :| 0 <= k < |a| - 1 && a[1..][k] == y;
          assert lt(a[0], a[k + 1]);
          assert y in b;
          var m :| 0 <= m < |b| && b[m] == y;
          assert m != 0;
          assert b[1..][m - 1] == y;
        }
        if y in b[1..] {
          var k :| 0 <= k < |b| - 1 && b[1..][k] == y;
          assert lt(b[0], b[k + 1]);
          assert y in a;
          var m :| 0 <= m < |a| && a[m] == y;
          assert m != 0;
          assert a[1..][m - 1] == y;
        }
      }
      SortedUnique(a[1..], b[1..], lt);
      assert a == [a[0]] + a[1..] && b == [b[0]] + b[1..];
    }
  }

  lemma SameElementsEmpty<T(!new)>(a: seq<T>, b: seq<T>)
    requires forall y :: y in a <==> y in b
    ensures a == [] <==> b == []
  {
    if a != [] { assert a[0] in a; }
    if b != [] { assert b[0] in b; }
  }

  /** The head of a strictly sorted sequence is below every other element. */
  lemma SortedHeadLeast<T(!new)>(s: seq<T>, y: T, lt: (T, T) -> bool)
    requires Sorted(s, lt) && y in s
    ensures y == s[0] || lt(s[0], y)
  {
    var k :| 0 <= k < |s| && s[k] == y;
  }

  /** Inserting an element above s[j] leaves s[..j + 1] in place. */
  lemma {:induction false} InsertKeepsPrefix<T(!new)>(s: seq<T>, x: T, j: nat, lt: (T, T) -> bool)
    requires IsStrictTotalOrder(lt)
    requires Sorted(s, lt) && j < |s| && lt(s[j], x)
    ensures Insert(s, x, lt)[..j + 1] == s[..j + 1]
  {
    assert !lt(x, s[0]) by {
      if j > 0 { assert lt(s[0], s[j]); }
    }
    if j > 0 {
      InsertKeepsPrefix(s[1..], x, j - 1, lt);
    }
  }

  lemma {:induction false} InsertAllKeepsPrefix<T(!new)>(acc: seq<T>, xs: seq<T>, j: nat, lt: (T, T) -> bool)
    requires IsStrictTotalOrder(lt)
    requires Sorted(acc, lt) && Distinct(xs) && j < |acc|
    requires forall y :: y in xs ==> y !in acc && lt(acc[j], y)
    ensures InsertAll(acc, xs, lt)[..j + 1] == acc[..j + 1]
    decreases |xs|
  {
    if xs != [] {
      InsertKeepsPrefix(acc, xs[0], j, lt);
      InsertSorted(acc, xs[0], lt);
      InsertMembers(acc, xs[0], lt);
      var acc' := Insert(acc, xs[0], lt);
      assert acc'[j] == acc[j] by {
        assert acc'[..j + 1][j] == acc[..j + 1][j];
      }
      var tail := xs[1..];
      forall y | y in tail ensures y !in acc' && lt(acc'[j], y) {
        var k :| 0 <= k < |tail| && tail[k] == y;
        assert xs[k + 1] == y && xs[0] != y;
      }
      forall i, k | 0 <= i < k < |tail| ensures tail[i] != tail[k] {
        assert tail[i] == xs[i + 1] && tail[k] == xs[k + 1];
      }
      InsertAllKeepsPrefix(acc', tail, j, lt);
    }
  }

  /** Inserting a + b is inserting a, then b. */
  lemma {:induction false} InsertAllConcat<T(!new)>(acc: seq<T>, a: seq<T>, b: seq<T>, lt: (T, T) -> bool)
    ensures InsertAll(acc, a + b, lt) == InsertAll(InsertAll(acc, a, lt), b, lt)
    decreases |a|
  {
    if a == [] {
      assert a + b == b;
    } else {
      assert (a + b)[0] == a[0] && (a + b)[1..] == a[1..] + b;
      InsertAllConcat(Insert(acc, a[0], lt), a[1..], b, lt);
    }
  }

  /** Sorting an already sorted sequence leaves it as it is. */
  lemma SortOfSorted<T(!new)>(s: seq<T>, lt: (T, T) -> bool)
    requires IsStrictTotalOrder(lt) && Sorted(s, lt)
    ensures Sort(s, lt) == s
  {
    assert Distinct(s) by {
      forall i, j | 0 <= i < j < |s| ensures s[i] != s[j] {
        assert lt(s[i], s[j]);
      }
    }
    SortSorted(s, lt);
    SortMembers(s, lt);
    SortedUnique(Sort(s, lt), s, lt);
  }
}
