/** `np.sort` of a vector of cluster labels in which a missing label (NaN)
    sorts after every number, and `np.nanmax` over labels. */
module RankSort {
  import opened Common

  /** NumPy's order on labels: numbers by value, NaN after every number. */
  predicate RankLe(x: Option<int>, y: Option<int>)
  {
    match (x, y)
    case (Some(a), Some(b)) => a <= b
    case (Some(_), None) => true
    case (None, Some(_)) => false
    case (None, None) => true
  }

  predicate Sorted(s: seq<Option<int>>)
  {
    forall p, q :: 0 <= p < q < |s| ==> RankLe(s[p], s[q])
  }

  /** Places `x` in a sorted vector, before the first element it does not exceed. */
  function Insert(x: Option<int>, s: seq<Option<int>>): (r: seq<Option<int>>)
    ensures |r| == |s| + 1
    ensures multiset(r) == multiset(s) + multiset{x}
  {
    if |s| == 0 then [x]
    else if RankLe(x, s[0]) then
      assert s == [s[0]] + s[1..];
      [x] + s
    else
      assert s == [s[0]] + s[1..];
      [s[0]] + Insert(x, s[1..])
  }

  /** A label no greater than any element of a sorted vector can lead it. */
  lemma PrependSorted(y: Option<int>, t: seq<Option<int>>)
    requires Sorted(t)
    requires forall q :: 0 <= q < |t| ==> RankLe(y, t[q])
    ensures Sorted([y] + t)
  {
    var r := [y] + t;
    forall p, q | 0 <= p < q < |r|
      ensures RankLe(r[p], r[q])
    {
      assert r[q] == t[q - 1];
      if p > 0 {
        assert r[p] == t[p - 1];
      }
    }
  }

  lemma {:induction false} InsertSorted(x: Option<int>, s: seq<Option<int>>)
    requires Sorted(s)
    ensures Sorted(Insert(x, s))
  {
    if |s| == 0 {
    } else if RankLe(x, s[0]) {
      PrependSorted(x, s);
    } else {
      var rest := Insert(x, s[1..]);
      assert Sorted(s[1..]);
      InsertSorted(x, s[1..]);
      forall q | 0 <= q < |rest|
        ensures RankLe(s[0], rest[q])
      {
        assert rest[q] in multiset(s[1..]) + multiset{x};
        if rest[q] != x {
          assert rest[q] in s[1..];
        }
      }
      PrependSorted(s[0], rest);
    }
  }

  /** `np.sort` of one label vector. */
  function SortRanks(s: seq<Option<int>>): (r: seq<Option<int>>)
    ensures |r| == |s|
    ensures Sorted(r)
    ensures multiset(r) == multiset(s)
  {
    if |s| == 0 then []
    else
      assert s == [s[0]] + s[1..];
      InsertSorted(s[0], SortRanks(s[1..]));
      Insert(s[0], SortRanks(s[1..]))
  }

  /** A sorted vector is determined by its elements: two sorted vectors with
      the same multiset of labels are equal. */
  lemma {:induction false} SortedUnique(a: seq<Option<int>>, b: seq<Option<int>>)
    requires Sorted(a) && Sorted(b) && multiset(a) == multiset(b)
    ensures a == b
    decreases |a|
  {
    assert |a| == |multiset(a)| == |multiset(b)| == |b|;
    if |a| > 0 {
      assert a[0] == b[0] by {
        assert a[0] in multiset(b) && b[0] in multiset(a);
        SortedHeadLeast(b, a[0]);
        SortedHeadLeast(a, b[0]);
      }
      assert Sorted(a[1..]) && Sorted(b[1..]) && multiset(a[1..]) == multiset(b[1..]) by {
        TailMultiset(a);
        TailMultiset(b);
      }
      SortedUnique(a[1..], b[1..]);
      assert a == [a[0]] + a[1..];
      assert b == [b[0]] + b[1..];
    }
  }

  /** The head of a sorted vector is no greater than any of its elements. */
  lemma SortedHeadLeast(a: seq<Option<int>>, y: Option<int>)
    requires Sorted(a) && y in a
    ensures RankLe(a[0], y)
  {
    var q :| 0 <= q < |a| && a[q] == y;
  }

  /** Dropping the head removes one copy of it, and keeps the rest sorted. */
  lemma TailMultiset(a: seq<Option<int>>)
    requires |a| > 0
    ensures multiset(a[1..]) == multiset(a) - multiset{a[0]}
    ensures Sorted(a) ==> Sorted(a[1..])
  {
    assert a == [a[0]] + a[1..];
  }

  /** The sorted labels depend only on which labels occur, not on their
      order: (3, 1) and (1, 3) sort alike. */
  lemma SortRanksOrderFree(s: seq<Option<int>>, t: seq<Option<int>>)
    requires multiset(s) == multiset(t)
    ensures SortRanks(s) == SortRanks(t)
  {
    SortedUnique(SortRanks(s), SortRanks(t));
  }

  /** Sorting a sorted vector changes nothing. */
  lemma SortRanksIdempotent(s: seq<Option<int>>)
    ensures SortRanks(SortRanks(s)) == SortRanks(s)
  {
    SortedUnique(SortRanks(SortRanks(s)), SortRanks(s));
  }

  /** A two-label vector sorts to (smaller, larger), whatever its order; a
      missing label goes last. */
  lemma SortRanksPair(x: Option<int>, y: Option<int>)
    ensures SortRanks([x, y]) == if RankLe(x, y) then [x, y] else [y, x]
  {
    var s := if RankLe(x, y) then [x, y] else [y, x];
    assert Sorted(s);
    assert multiset(s) == multiset([x, y]);
    SortedUnique(SortRanks([x, y]), s);
  }

  /** `np.nanmax` over labels: the largest label present, or nothing when
      every label is missing (or there are none). */
  function NanMax(s: seq<Option<int>>): (m: Option<int>)
    ensures m.None? <==> forall p :: 0 <= p < |s| ==> s[p].None?
    ensures m.Some? ==> Some(m.value) in s
    ensures m.Some? ==> forall p :: 0 <= p < |s| && s[p].Some? ==> s[p].value <= m.value
  {
    if |s| == 0 then None
    else
      var rest := NanMax(s[..|s| - 1]);
      var last := s[|s| - 1];
      if last.None? then rest
      else if rest.None? || rest.value < last.value then last
      else rest
  }
}
