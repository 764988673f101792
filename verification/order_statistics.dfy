/** Order statistics of a window of integers: the value at a given rank once the
    window is sorted ascending (rank 0 is the smallest), and an independent
    characterization of that value by counting the window's elements. */
module OrderStatistics {

  predicate Sorted(s: seq<int>) {
    forall i, j :: 0 <= i < j < |s| ==> s[i] <= s[j]
  }

  /** Number of elements of s strictly below v; the number at most v is
      CountLess(s, v + 1). */
  function CountLess(s: seq<int>, v: int): (n: nat)
    ensures n <= |s|
  {
    if |s| == 0 then 0 else (if s[0] < v then 1 else 0) + CountLess(s[1..], v)
  }

  /** v sits at position rank of s sorted ascending: at most rank elements are
      strictly below v, and more than rank elements are at most v. */
  predicate IsOrderStatistic(s: seq<int>, rank: int, v: int) {
    CountLess(s, v) <= rank < CountLess(s, v + 1)
  }

  /** v is a median of s: no more than half of s lies strictly below v and no
      more than half lies strictly above it. */
  predicate IsMedian(s: seq<int>, v: int) {
    CountLess(s, v) <= |s| / 2 && |s| - CountLess(s, v + 1) <= |s| / 2
  }

  /** Inserts x into a sorted sequence, keeping it sorted. */
  function Insert(x: int, s: seq<int>): (r: seq<int>)
    requires Sorted(s)
    ensures Sorted(r) && multiset(r) == multiset(s) + multiset{x}
  {
    if |s| == 0 || x <= s[0] then [x] + s
    else
      var rest := Insert(x, s[1..]);
      assert s == [s[0]] + s[1..];
      InsertLowerBound(s[0], x, s[1..], rest);
      SortedCons(s[0], rest);
      [s[0]] + rest
  }

  lemma InsertLowerBound(y: int, x: int, s: seq<int>, rest: seq<int>)
    requires y <= x && forall k :: 0 <= k < |s| ==> y <= s[k]
    requires multiset(rest) == multiset(s) + multiset{x}
    ensures forall k :: 0 <= k < |rest| ==> y <= rest[k]
  {
    forall k | 0 <= k < |rest| ensures y <= rest[k] {
      assert rest[k] in multiset(rest);
      if rest[k] != x {
        assert rest[k] in s;
      }
    }
  }

  lemma SortedCons(y: int, t: seq<int>)
    requires Sorted(t) && forall k :: 0 <= k < |t| ==> y <= t[k]
    ensures Sorted([y] + t)
  {
  }

  /** Insertion sort: an ascending permutation of s. */
  function Sort(s: seq<int>): (r: seq<int>)
    ensures Sorted(r) && multiset(r) == multiset(s) && |r| == |s|
  {
    if |s| == 0 then []
    else
      assert s == [s[0]] + s[1..];
      Insert(s[0], Sort(s[1..]))
  }

  /** The element at position rank of the ascending sort of s. */
  function Select(s: seq<int>, rank: int): (v: int)
    requires 0 <= rank < |s|
    ensures v in s
    ensures IsOrderStatistic(s, rank, v)
  {
    var sorted := Sort(s);
    assert sorted[rank] in multiset(sorted);
    SortedCount(sorted, rank);
    CountLessSort(s, sorted[rank]);
    CountLessSort(s, sorted[rank] + 1);
    sorted[rank]
  }

  lemma {:induction false} CountLessAppend(a: seq<int>, b: seq<int>, v: int)
    ensures CountLess(a + b, v) == CountLess(a, v) + CountLess(b, v)
  {
    if |a| > 0 {
      assert (a + b)[1..] == a[1..] + b;
      CountLessAppend(a[1..], b, v);
    } else {
      assert a + b == b;
    }
  }

  lemma {:induction false} CountLessInsert(x: int, s: seq<int>, v: int)
    requires Sorted(s)
    ensures CountLess(Insert(x, s), v) == CountLess([x], v) + CountLess(s, v)
  {
    if |s| > 0 && x > s[0] {
      CountLessInsert(x, s[1..], v);
      assert ([s[0]] + Insert(x, s[1..]))[1..] == Insert(x, s[1..]);
    }
  }

  /** Sorting does not change how many elements lie below a bound. */
  lemma {:induction false} CountLessSort(s: seq<int>, v: int)
    ensures CountLess(Sort(s), v) == CountLess(s, v)
  {
    if |s| > 0 {
      CountLessSort(s[1..], v);
      CountLessInsert(s[0], Sort(s[1..]), v);
    }
  }

  /** Every element of s is at least v exactly when none is below v. */
  lemma {:induction false} CountLessZero(s: seq<int>, v: int)
    ensures CountLess(s, v) == 0 <==> forall k :: 0 <= k < |s| ==> v <= s[k]
  {
    if |s| > 0 {
      CountLessZero(s[1..], v);
      assert forall k :: 1 <= k < |s| ==> s[k] == s[1..][k - 1];
    }
  }

  /** Every element of s is below v exactly when all of them are counted. */
  lemma {:induction false} CountLessAll(s: seq<int>, v: int)
    ensures CountLess(s, v) == |s| <==> forall k :: 0 <= k < |s| ==> s[k] < v
  {
    if |s| > 0 {
      CountLessAll(s[1..], v);
      assert forall k :: 1 <= k < |s| ==> s[k] == s[1..][k - 1];
    }
  }

  /** In a sorted sequence the element at position k has at most k elements
      below it and at least k + 1 elements at most it. */
  lemma SortedCount(r: seq<int>, k: int)
    requires Sorted(r) && 0 <= k < |r|
    ensures CountLess(r, r[k]) <= k < CountLess(r, r[k] + 1)
  {
    SortedCountBelow(r, k);
    SortedCountAtMost(r, k);
  }

  lemma SortedCountBelow(r: seq<int>, k: int)
    requires Sorted(r) && 0 <= k < |r|
    ensures CountLess(r, r[k]) <= k
  {
    var lo, hi := r[..k], r[k..];
    assert r == lo + hi;
    CountLessAppend(lo, hi, r[k]);
    assert forall j :: 0 <= j < |hi| ==> r[k] <= hi[j] by {
      forall j | 0 <= j < |hi| ensures r[k] <= hi[j] {
        assert hi[j] == r[k + j];
      }
    }
    CountLessZero(hi, r[k]);
  }

  lemma SortedCountAtMost(r: seq<int>, k: int)
    requires Sorted(r) && 0 <= k < |r|
    ensures k < CountLess(r, r[k] + 1)
  {
    var lo, hi := r[..k + 1], r[k + 1..];
    assert r == lo + hi;
    CountLessAppend(lo, hi, r[k] + 1);
    assert forall j :: 0 <= j < |lo| ==> lo[j] < r[k] + 1 by {
      forall j | 0 <= j < |lo| ensures lo[j] < r[k] + 1 {
        assert lo[j] == r[j];
      }
    }
    CountLessAll(lo, r[k] + 1);
  }

  /** Fewer elements lie below a smaller bound. */
  lemma {:induction false} CountLessMonotone(s: seq<int>, v: int, w: int)
    requires v <= w
    ensures CountLess(s, v) <= CountLess(s, w)
  {
    if |s| > 0 {
      CountLessMonotone(s[1..], v, w);
    }
  }

  /** At most one value is the order statistic of a given rank. */
  lemma OrderStatisticUnique(s: seq<int>, rank: int, v: int, w: int)
    requires IsOrderStatistic(s, rank, v) && IsOrderStatistic(s, rank, w)
    ensures v == w
  {
    if v < w {
      CountLessMonotone(s, v + 1, w);
    } else if w < v {
      CountLessMonotone(s, w + 1, v);
    }
  }

  /** Select is exactly the counting characterization of the rank-th smallest
      element: it satisfies it, and it is the only value that does. */
  lemma SelectCharacterization(s: seq<int>, rank: int, v: int)
    requires 0 <= rank < |s|
    ensures Select(s, rank) == v <==> IsOrderStatistic(s, rank, v)
  {
    if IsOrderStatistic(s, rank, v) {
      OrderStatisticUnique(s, rank, v, Select(s, rank));
    }
  }

  /** Rank 0 selects the smallest element of the window. */
  lemma SelectMinimum(s: seq<int>)
    requires |s| > 0
    ensures forall k :: 0 <= k < |s| ==> Select(s, 0) <= s[k]
  {
    CountLessZero(s, Select(s, 0));
  }

  /** The last rank selects the largest element of the window. */
  lemma SelectMaximum(s: seq<int>)
    requires |s| > 0
    ensures forall k :: 0 <= k < |s| ==> s[k] <= Select(s, |s| - 1)
  {
    CountLessAll(s, Select(s, |s| - 1) + 1);
  }

  /** For a window of odd length the middle rank |s| / 2 selects exactly the
      median, and the median is unique. */
  lemma SelectMedian(s: seq<int>, v: int)
    requires |s| % 2 == 1
    ensures Select(s, |s| / 2) == v <==> IsMedian(s, v)
  {
    SelectCharacterization(s, |s| / 2, v);
  }
}
