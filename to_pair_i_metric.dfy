/** Splitting the I-metric by the pair of clusters a location sits between:
    for every pair (a, b) of cluster labels, a (time, Y, X) grid that holds
    the I-metric where the location's two sorted labels are exactly (a, b) and
    the metric reaches the threshold, and NaN elsewhere; grids in which
    nothing is written are dropped, and the rest are stacked along a `pair`
    axis labelled "a+1 to b+1". */
module ToPairIMetric {
  import opened Common
  import opened Decimal
  import opened Tensors
  import opened RankSort
  import opened XrValuesLoader
  import opened Constants

  /** The default I-metric threshold of `pair_i_metric`. */
  const DEFAULT_THRESHOLD: real := 0.05

  /** Request handed to `order_indexes` for the label array. */
  const RANK_ORDER: seq<string> := [T_COORD, "rank", Y_COORD, X_COORD]
  /** Request handed to `order_indexes` for the I-metric array. */
  const GRID_ORDER: seq<string> := [T_COORD, Y_COORD, X_COORD]

  /** A pair of cluster labels (a, b), counted from 0. */
  type Pair = (nat, nat)

  // ---------------------------------------------------------------------------
  // Candidate pairs

  /** `list_no`: `range(int(nanmax) + 1)`, empty when the largest label is negative. */
  function ListNo(maxLabel: int): (r: seq<nat>)
    ensures |r| == if maxLabel >= 0 then maxLabel + 1 else 0
    ensures forall k :: 0 <= k < |r| ==> r[k] == k
  {
    Range(if maxLabel >= 0 then maxLabel + 1 else 0)
  }

  /** One outer step of the `cart_prod` comprehension: `(a, b)` for each `b`
      of `bs` with `a <= b and a != b`, in the order of `bs`. */
  function RowPairs(a: nat, bs: seq<nat>): (r: seq<Pair>)
    ensures forall q :: 0 <= q < |r| ==> r[q].0 == a < r[q].1
  {
    if |bs| == 0 then []
    else
      var b := bs[|bs| - 1];
      RowPairs(a, bs[..|bs| - 1]) + (if a <= b && a != b then [(a, b)] else [])
  }

  /** The comprehension `cart_prod`: `a` runs over `as_` in the outer loop and
      `b` over `bs` in the inner one. */
  function CartProd(as_: seq<nat>, bs: seq<nat>): (r: seq<Pair>)
    ensures forall q :: 0 <= q < |r| ==> r[q].0 < r[q].1
  {
    if |as_| == 0 then []
    else CartProd(as_[..|as_| - 1], bs) + RowPairs(as_[|as_| - 1], bs)
  }

  /** The candidate pairs for a largest label `maxLabel`: labels `a < b`,
      neither above `maxLabel`. */
  function CandidatePairs(maxLabel: int): (r: seq<Pair>)
    ensures forall x: Pair :: x in r <==> x.0 < x.1 <= maxLabel
  {
    var n := if maxLabel >= 0 then maxLabel + 1 else 0;
    assert ListNo(maxLabel) == Range(n);
    CartProdMembers(n, n);
    CartProd(ListNo(maxLabel), ListNo(maxLabel))
  }

  /** Lexicographic order on pairs, `a` first. */
  predicate LexLess(x: Pair, y: Pair)
  {
    x.0 < y.0 || (x.0 == y.0 && x.1 < y.1)
  }

  predicate StrictlyIncreasing(s: seq<Pair>)
  {
    forall p, q :: 0 <= p < q < |s| ==> LexLess(s[p], s[q])
  }

  /** One row is `(a, a+1), (a, a+2), ..., (a, n-1)`. */
  lemma {:induction false} RowPairsRange(a: nat, n: nat)
    ensures |RowPairs(a, Range(n))| == if n > a then n - a - 1 else 0
    ensures forall q :: 0 <= q < |RowPairs(a, Range(n))| ==> RowPairs(a, Range(n))[q] == (a, a + 1 + q)
  {
    if n > 0 {
      assert Range(n)[..n - 1] == Range(n - 1);
      RowPairsRange(a, n - 1);
    }
  }

  /** The length of one row. */
  lemma RowPairsCount(a: nat, n: nat)
    ensures |RowPairs(a, Range(n))| == if n > a then n - a - 1 else 0
  {
    RowPairsRange(a, n);
  }

  lemma CartProdStep(m: nat, n: nat)
    requires m > 0
    ensures CartProd(Range(m), Range(n)) == CartProd(Range(m - 1), Range(n)) + RowPairs(m - 1, Range(n))
  {
    assert Range(m)[..m - 1] == Range(m - 1);
  }

  /** Row `a` over `range(n)` holds exactly the pairs `(a, b)` with `a < b < n`. */
  lemma RowMembers(a: nat, n: nat)
    ensures forall x: Pair :: x in RowPairs(a, Range(n)) <==> x.0 == a && a < x.1 < n
  {
    RowPairsRange(a, n);
    var row := RowPairs(a, Range(n));
    forall x: Pair | x.0 == a && a < x.1 < n
      ensures x in row
    {
      var q := x.1 - a - 1;
      assert row[q] == (a, x.1);
    }
  }

  /** Rows `0 .. m-1` of the candidates over `range(n)` are exactly the pairs
      `a < b < n` with `a < m`. */
  lemma {:induction false} CartProdMembers(m: nat, n: nat)
    ensures forall x: Pair :: x in CartProd(Range(m), Range(n)) <==> x.0 < m && x.0 < x.1 < n
  {
    if m > 0 {
      CartProdStep(m, n);
      CartProdMembers(m - 1, n);
      RowMembers(m - 1, n);
    }
  }

  /** The rows come out in strictly increasing lexicographic order. */
  lemma {:induction false} CartProdIncreasing(m: nat, n: nat)
    ensures StrictlyIncreasing(CartProd(Range(m), Range(n)))
  {
    if m > 0 {
      CartProdStep(m, n);
      CartProdIncreasing(m - 1, n);
      CartProdMembers(m - 1, n);
      RowPairsRange(m - 1, n);
      var before := CartProd(Range(m - 1), Range(n));
      var row := RowPairs(m - 1, Range(n));
      var all := before + row;
      forall p, q | 0 <= p < q < |all|
        ensures LexLess(all[p], all[q])
      {
        if p < |before| && q >= |before| {
          assert before[p] in before;
        }
      }
    }
  }

  /** Rows `0 .. m-1` hold `m(2n - m - 1)/2` pairs when `m <= n`. */
  lemma {:induction false} CartProdCount(m: nat, n: nat)
    requires m <= n
    ensures 2 * |CartProd(Range(m), Range(n))| == m * (2 * n - m - 1)
  {
    if m > 0 {
      CartProdStep(m, n);
      CartProdCount(m - 1, n);
      RowPairsCount(m - 1, n);
      var before := |CartProd(Range(m - 1), Range(n))|;
      var row := |RowPairs(m - 1, Range(n))|;
      assert |CartProd(Range(m), Range(n))| == before + row;
      RowCountStep(m, n, before, row);
    }
  }

  /** The arithmetic of one more row. */
  lemma RowCountStep(m: nat, n: nat, before: nat, row: nat)
    requires 0 < m <= n && 2 * before == (m - 1) * (2 * n - (m - 1) - 1) && row == n - m
    ensures 2 * (before + row) == m * (2 * n - m - 1)
  {
  }

  /** The candidates are exactly the pairs `0 <= a < b <= M`, in increasing
      lexicographic order (a outer, b inner), `M(M+1)/2` of them. */
  lemma CandidatePairsFacts(maxLabel: int)
    ensures forall x: Pair :: x in CandidatePairs(maxLabel) <==> x.0 < x.1 <= maxLabel
    ensures StrictlyIncreasing(CandidatePairs(maxLabel))
    ensures maxLabel >= 0 ==> 2 * |CandidatePairs(maxLabel)| == maxLabel * (maxLabel + 1)
  {
    var n := if maxLabel >= 0 then maxLabel + 1 else 0;
    assert ListNo(maxLabel) == Range(n);
    CartProdMembers(n, n);
    CartProdIncreasing(n, n);
    if maxLabel >= 0 {
      CandidatePairsCount(maxLabel);
    }
  }

  lemma CandidatePairsCount(maxLabel: nat)
    ensures 2 * |CartProd(Range(maxLabel + 1), Range(maxLabel + 1))| == maxLabel * (maxLabel + 1)
  {
    var n := maxLabel + 1;
    CartProdCount(n, n);
    assert n * (2 * n - n - 1) == maxLabel * (maxLabel + 1);
  }

  // ---------------------------------------------------------------------------
  // Sorting the labels along the rank axis

  /** `idx` with its rank-axis entry replaced by `r`. */
  function WithRank(idx: seq<nat>, r: nat): (jdx: seq<nat>)
    requires |idx| >= 2
    ensures |jdx| == |idx| && jdx[1] == r
    ensures forall m :: 0 <= m < |idx| && m != 1 ==> jdx[m] == idx[m]
  {
    idx[1 := r]
  }

  /** The vector along axis 1 through `idx`, `t[idx[0], :, idx[2], ...]`;
      `idx[1]` itself is ignored. */
  function Fiber<T>(t: Tensor<T>, idx: seq<nat>): (v: seq<T>)
    requires t.Valid() && |t.shape| >= 2 && InBounds(t.shape, idx)
    ensures |v| == t.shape[1]
    ensures forall r :: 0 <= r < t.shape[1] ==> InBounds(t.shape, WithRank(idx, r)) && v[r] == t.At(WithRank(idx, r))
  {
    seq(t.shape[1], r requires 0 <= r < t.shape[1] => t.At(WithRank(idx, r)))
  }

  /** `np.sort(t, axis=1)`: every vector along axis 1 sorted, NaN last. */
  function SortRankAxis(t: Tensor<Option<int>>): (s: Tensor<Option<int>>)
    requires t.Valid() && |t.shape| >= 2
    ensures s.Valid() && s.shape == t.shape
  {
    Tensor(t.shape, seq(Prod(t.shape), p requires 0 <= p < Prod(t.shape) =>
      var idx := Unflatten(t.shape, p);
      SortRanks(Fiber(t, idx))[idx[1]]))
  }

  /** One element of the sorted array: entry `r` of the sorted vector. */
  lemma SortRankAxisElement(t: Tensor<Option<int>>, idx: seq<nat>, r: nat)
    requires t.Valid() && |t.shape| >= 2 && InBounds(t.shape, idx) && r < t.shape[1]
    ensures InBounds(t.shape, WithRank(idx, r))
    ensures SortRankAxis(t).At(WithRank(idx, r)) == SortRanks(Fiber(t, idx))[r]
  {
    var jdx := WithRank(idx, r);
    UnflattenOffset(t.shape, jdx);
    forall r' | 0 <= r' < t.shape[1]
      ensures Fiber(t, jdx)[r'] == Fiber(t, idx)[r']
    {
      assert WithRank(jdx, r') == WithRank(idx, r');
    }
    assert Fiber(t, jdx) == Fiber(t, idx);
  }

  /** After the sort, each vector along axis 1 is the sorted form of the
      original one: ordered, NaN last, and a rearrangement of its labels. */
  lemma SortRankAxisAt(t: Tensor<Option<int>>, idx: seq<nat>)
    requires t.Valid() && |t.shape| >= 2 && InBounds(t.shape, idx)
    ensures Fiber(SortRankAxis(t), idx) == SortRanks(Fiber(t, idx))
    ensures Sorted(Fiber(SortRankAxis(t), idx))
    ensures multiset(Fiber(SortRankAxis(t), idx)) == multiset(Fiber(t, idx))
  {
    forall r | 0 <= r < t.shape[1]
      ensures Fiber(SortRankAxis(t), idx)[r] == SortRanks(Fiber(t, idx))[r]
    {
      SortRankAxisElement(t, idx, r);
    }
  }

  // ---------------------------------------------------------------------------
  // One pair's grid

  /** Whether (time i, Y j, X k) is a location of a (time, rank, Y, X) shape. */
  predicate Location(shape: seq<nat>, i: nat, j: nat, k: nat)
  {
    |shape| == 4 && i < shape[0] && j < shape[2] && k < shape[3]
  }

  /** The label vector `sorted_version[i, :, j, k]`. */
  function RankVector(a: Array4<Option<int>>, shape: seq<nat>, i: nat, j: nat, k: nat): (v: seq<Option<int>>)
    requires Box4(a, shape) && Location(shape, i, j, k)
    ensures |v| == shape[1]
    ensures forall r :: 0 <= r < shape[1] ==> v[r] == a[i][r][j][k]
  {
    seq(shape[1], r requires 0 <= r < shape[1] => a[i][r][j][k])
  }

  /** A (time, Y, X) I-metric array matching a (time, rank, Y, X) label array. */
  predicate Compatible(iMetric: Array3<Option<real>>, sorted: Array4<Option<int>>, shape: seq<nat>)
  {
    Box4(sorted, shape) && Box3(iMetric, [shape[0], shape[2], shape[3]])
  }

  /** `x >= threshold`, false for NaN. */
  predicate AtLeast(x: Option<real>, threshold: real)
  {
    x.Some? && x.value >= threshold
  }

  /** `np.array_equal(pair, v)`: `v` is exactly the two labels of the pair. */
  predicate Matches(pair: Pair, v: seq<Option<int>>)
  {
    v == [Some(pair.0 as int), Some(pair.1 as int)]
  }

  /** What the pair's grid gets at a location whose sorted labels are `v` and
      whose I-metric is `m`: `m` when the labels are the pair and `m` reaches
      the threshold, NaN otherwise. */
  function Cell(pair: Pair, v: seq<Option<int>>, m: Option<real>, threshold: real): (c: Option<real>)
    ensures c.Some? <==> Matches(pair, v) && AtLeast(m, threshold)
    ensures c.Some? ==> c == m
  {
    if Matches(pair, v) && AtLeast(m, threshold) then m else None
  }

  /** The pair's grid value at location (i, j, k). */
  function CellValue(pair: Pair, iMetric: Array3<Option<real>>, sorted: Array4<Option<int>>, shape: seq<nat>,
                     threshold: real, i: nat, j: nat, k: nat): Option<real>
    requires Compatible(iMetric, sorted, shape) && Location(shape, i, j, k)
  {
    Cell(pair, RankVector(sorted, shape, i, j, k), iMetric[i][j][k], threshold)
  }

  /** The pair's grid is written at this location. */
  predicate Fires(pair: Pair, iMetric: Array3<Option<real>>, sorted: Array4<Option<int>>, shape: seq<nat>,
                  threshold: real, i: nat, j: nat, k: nat)
    requires Compatible(iMetric, sorted, shape) && Location(shape, i, j, k)
  {
    CellValue(pair, iMetric, sorted, shape, threshold, i, j, k).Some?
  }

  /** The pair fires somewhere. */
  ghost predicate AnyFires(pair: Pair, iMetric: Array3<Option<real>>, sorted: Array4<Option<int>>, shape: seq<nat>,
                           threshold: real)
    requires Compatible(iMetric, sorted, shape)
  {
    exists i: nat, j: nat, k: nat :: Location(shape, i, j, k) && Fires(pair, iMetric, sorted, shape, threshold, i, j, k)
  }

  /** The grid is shaped (time, Y, X) and holds the pair's cell values. */
  ghost predicate GridHolds(grid: array3<Option<real>>, pair: Pair, iMetric: Array3<Option<real>>,
                            sorted: Array4<Option<int>>, shape: seq<nat>, threshold: real)
    requires Compatible(iMetric, sorted, shape)
    reads grid
  {
    && grid.Length0 == shape[0] && grid.Length1 == shape[2] && grid.Length2 == shape[3]
    && forall i, j, k :: 0 <= i < grid.Length0 && 0 <= j < grid.Length1 && 0 <= k < grid.Length2 ==>
         grid[i, j, k] == CellValue(pair, iMetric, sorted, shape, threshold, i, j, k)
  }

  /** `make_one_pair_i_metric`: a grid of zeros overwritten with NaN, then
      written location by location with the I-metric wherever the pair fires;
      also whether anything was written. */
  method MakeOnePairIMetric(pair: Pair, iMetric: Array3<Option<real>>, sorted: Array4<Option<int>>, shape: seq<nat>,
                            threshold: real)
    returns (grid: array3<Option<real>>, atLeastOnePoint: bool)
    requires Compatible(iMetric, sorted, shape)
    ensures fresh(grid)
    ensures GridHolds(grid, pair, iMetric, sorted, shape, threshold)
    ensures atLeastOnePoint <==> AnyFires(pair, iMetric, sorted, shape, threshold)
  {
    atLeastOnePoint := false;
    ghost var w: (nat, nat, nat) := (0, 0, 0);
    grid := new Option<real>[shape[0], shape[2], shape[3]]((i, j, k) => Some(0.0));
    forall i, j, k | 0 <= i < shape[0] && 0 <= j < shape[2] && 0 <= k < shape[3] {
      grid[i, j, k] := None;
    }
    for i := 0 to shape[0]
      invariant forall i', j', k' :: 0 <= i' < shape[0] && 0 <= j' < shape[2] && 0 <= k' < shape[3] ==>
        grid[i', j', k'] == if i' < i then CellValue(pair, iMetric, sorted, shape, threshold, i', j', k') else None
      invariant atLeastOnePoint ==> Location(shape, w.0, w.1, w.2) && Fires(pair, iMetric, sorted, shape, threshold, w.0, w.1, w.2)
      invariant !atLeastOnePoint ==> forall i', j', k' :: 0 <= i' < i && 0 <= j' < shape[2] && 0 <= k' < shape[3] ==>
        !Fires(pair, iMetric, sorted, shape, threshold, i', j', k')
    {
      atLeastOnePoint, w := FillPlane(grid, pair, iMetric, sorted, shape, threshold, i, atLeastOnePoint, w);
    }
  }

  /** The two inner loops of `make_one_pair_i_metric`, for time `i`. */
  method FillPlane(grid: array3<Option<real>>, pair: Pair, iMetric: Array3<Option<real>>, sorted: Array4<Option<int>>,
                   shape: seq<nat>, threshold: real, i: nat, atLeastOnePoint: bool, ghost w: (nat, nat, nat))
    returns (fired: bool, ghost w': (nat, nat, nat))
    requires Compatible(iMetric, sorted, shape) && i < shape[0]
    requires grid.Length0 == shape[0] && grid.Length1 == shape[2] && grid.Length2 == shape[3]
    requires forall j, k :: 0 <= j < shape[2] && 0 <= k < shape[3] ==> grid[i, j, k] == None
    requires atLeastOnePoint ==> Location(shape, w.0, w.1, w.2) && Fires(pair, iMetric, sorted, shape, threshold, w.0, w.1, w.2)
    modifies grid
    ensures forall i', j', k' :: 0 <= i' < shape[0] && 0 <= j' < shape[2] && 0 <= k' < shape[3] ==>
      grid[i', j', k'] == if i' == i then CellValue(pair, iMetric, sorted, shape, threshold, i', j', k')
                          else old(grid[i', j', k'])
    ensures fired ==> Location(shape, w'.0, w'.1, w'.2) && Fires(pair, iMetric, sorted, shape, threshold, w'.0, w'.1, w'.2)
    ensures !fired ==> !atLeastOnePoint && forall j', k' :: 0 <= j' < shape[2] && 0 <= k' < shape[3] ==>
      !Fires(pair, iMetric, sorted, shape, threshold, i, j', k')
  {
    fired, w' := atLeastOnePoint, w;
    for j := 0 to shape[2]
      invariant forall i', j', k' :: 0 <= i' < shape[0] && 0 <= j' < shape[2] && 0 <= k' < shape[3] ==>
        grid[i', j', k'] == if i' == i && j' < j then CellValue(pair, iMetric, sorted, shape, threshold, i', j', k')
                            else old(grid[i', j', k'])
      invariant fired ==> Location(shape, w'.0, w'.1, w'.2) && Fires(pair, iMetric, sorted, shape, threshold, w'.0, w'.1, w'.2)
      invariant !fired ==> !atLeastOnePoint && forall j', k' :: 0 <= j' < j && 0 <= k' < shape[3] ==>
        !Fires(pair, iMetric, sorted, shape, threshold, i, j', k')
    {
      fired, w' := FillRow(grid, pair, iMetric, sorted, shape, threshold, i, j, fired, w');
    }
  }

  /** The innermost loop of `make_one_pair_i_metric`: the locations of time
      `i` and row `j`, X by X. */
  method FillRow(grid: array3<Option<real>>, pair: Pair, iMetric: Array3<Option<real>>, sorted: Array4<Option<int>>,
                 shape: seq<nat>, threshold: real, i: nat, j: nat, atLeastOnePoint: bool, ghost w: (nat, nat, nat))
    returns (fired: bool, ghost w': (nat, nat, nat))
    requires Compatible(iMetric, sorted, shape) && i < shape[0] && j < shape[2]
    requires grid.Length0 == shape[0] && grid.Length1 == shape[2] && grid.Length2 == shape[3]
    requires forall k :: 0 <= k < shape[3] ==> grid[i, j, k] == None
    requires atLeastOnePoint ==> Location(shape, w.0, w.1, w.2) && Fires(pair, iMetric, sorted, shape, threshold, w.0, w.1, w.2)
    modifies grid
    ensures forall i', j', k' :: 0 <= i' < shape[0] && 0 <= j' < shape[2] && 0 <= k' < shape[3] ==>
      grid[i', j', k'] == if i' == i && j' == j then CellValue(pair, iMetric, sorted, shape, threshold, i', j', k')
                          else old(grid[i', j', k'])
    ensures fired ==> Location(shape, w'.0, w'.1, w'.2) && Fires(pair, iMetric, sorted, shape, threshold, w'.0, w'.1, w'.2)
    ensures !fired ==> !atLeastOnePoint && forall k' :: 0 <= k' < shape[3] ==> !Fires(pair, iMetric, sorted, shape, threshold, i, j, k')
  {
    fired, w' := atLeastOnePoint, w;
    for k := 0 to shape[3]
      invariant forall i', j', k' :: 0 <= i' < shape[0] && 0 <= j' < shape[2] && 0 <= k' < shape[3] ==>
        grid[i', j', k'] == if i' == i && j' == j && k' < k then CellValue(pair, iMetric, sorted, shape, threshold, i', j', k')
                            else old(grid[i', j', k'])
      invariant fired ==> Location(shape, w'.0, w'.1, w'.2) && Fires(pair, iMetric, sorted, shape, threshold, w'.0, w'.1, w'.2)
      invariant !fired ==> !atLeastOnePoint && forall k' :: 0 <= k' < k ==> !Fires(pair, iMetric, sorted, shape, threshold, i, j, k')
    {
      if RankVector(sorted, shape, i, j, k) == [Some(pair.0 as int), Some(pair.1 as int)] {
        if iMetric[i][j][k].Some? && iMetric[i][j][k].value >= threshold {
          grid[i, j, k] := iMetric[i][j][k];
          fired := true;
          w' := (i, j, k);
        }
      }
    }
  }

  // ---------------------------------------------------------------------------
  // Pruning the pairs that never fire

  /** The candidates that fire somewhere, in candidate order. */
  ghost function KeptPairs(cands: seq<Pair>, iMetric: Array3<Option<real>>, sorted: Array4<Option<int>>,
                           shape: seq<nat>, threshold: real): (r: seq<Pair>)
    requires Compatible(iMetric, sorted, shape)
    ensures |r| <= |cands|
    ensures forall x :: x in r ==> x in cands
  {
    if |cands| == 0 then []
    else
      var last := cands[|cands| - 1];
      KeptPairs(cands[..|cands| - 1], iMetric, sorted, shape, threshold)
        + if AnyFires(last, iMetric, sorted, shape, threshold) then [last] else []
  }

  /** `make_all_pair_i_metric`: each candidate's grid, kept with its pair when
      the pair fires somewhere. */
  method MakeAllPairIMetric(cartProd: seq<Pair>, iMetric: Array3<Option<real>>, sorted: Array4<Option<int>>,
                            shape: seq<nat>, threshold: real)
    returns (grids: seq<array3<Option<real>>>, pairs: seq<Pair>)
    requires Compatible(iMetric, sorted, shape)
    ensures pairs == KeptPairs(cartProd, iMetric, sorted, shape, threshold)
    ensures |grids| == |pairs|
    ensures forall n :: 0 <= n < |grids| ==> fresh(grids[n]) && GridHolds(grids[n], pairs[n], iMetric, sorted, shape, threshold)
  {
    grids, pairs := [], [];
    for c := 0 to |cartProd|
      invariant pairs == KeptPairs(cartProd[..c], iMetric, sorted, shape, threshold)
      invariant |grids| == |pairs|
      invariant forall n :: 0 <= n < |grids| ==> fresh(grids[n]) && GridHolds(grids[n], pairs[n], iMetric, sorted, shape, threshold)
    {
      var grid, atLeastOnePoint := MakeOnePairIMetric(cartProd[c], iMetric, sorted, shape, threshold);
      if atLeastOnePoint {
        pairs := pairs + [cartProd[c]];
        grids := grids + [grid];
      }
      assert cartProd[..c + 1][..c] == cartProd[..c];
    }
    assert cartProd[..|cartProd|] == cartProd;
  }

  // ---------------------------------------------------------------------------
  // What the grids mean

  /** A candidate is kept exactly when its grid gets written somewhere. */
  lemma {:induction false} KeptPairsMembers(cands: seq<Pair>, iMetric: Array3<Option<real>>, sorted: Array4<Option<int>>,
                                            shape: seq<nat>, threshold: real)
    requires Compatible(iMetric, sorted, shape)
    ensures forall x: Pair :: x in KeptPairs(cands, iMetric, sorted, shape, threshold) <==>
      x in cands && AnyFires(x, iMetric, sorted, shape, threshold)
  {
    if |cands| > 0 {
      var init := cands[..|cands| - 1];
      KeptPairsMembers(init, iMetric, sorted, shape, threshold);
      assert cands == init + [cands[|cands| - 1]];
    }
  }

  /** Pruning keeps the candidates' order, so the kept pairs stay strictly
      increasing (and hence distinct). */
  lemma {:induction false} KeptPairsIncreasing(cands: seq<Pair>, iMetric: Array3<Option<real>>, sorted: Array4<Option<int>>,
                                               shape: seq<nat>, threshold: real)
    requires Compatible(iMetric, sorted, shape) && StrictlyIncreasing(cands)
    ensures StrictlyIncreasing(KeptPairs(cands, iMetric, sorted, shape, threshold))
  {
    if |cands| > 0 {
      var init := cands[..|cands| - 1];
      var last := cands[|cands| - 1];
      KeptPairsIncreasing(init, iMetric, sorted, shape, threshold);
      KeptPairsMembers(init, iMetric, sorted, shape, threshold);
      var kept := KeptPairs(init, iMetric, sorted, shape, threshold);
      var all := kept + if AnyFires(last, iMetric, sorted, shape, threshold) then [last] else [];
      forall p, q | 0 <= p < q < |all|
        ensures LexLess(all[p], all[q])
      {
        if q == |kept| {
          assert kept[p] in init;
          var m :| 0 <= m < |init| && init[m] == kept[p];
        }
      }
    }
  }

  /** At one location at most one pair's grid is written: the grids of
      different pairs never overlap. */
  lemma FiresForOnePair(x: Pair, y: Pair, iMetric: Array3<Option<real>>, sorted: Array4<Option<int>>, shape: seq<nat>,
                        threshold: real, i: nat, j: nat, k: nat)
    requires Compatible(iMetric, sorted, shape) && Location(shape, i, j, k)
    requires Fires(x, iMetric, sorted, shape, threshold, i, j, k) && Fires(y, iMetric, sorted, shape, threshold, i, j, k)
    ensures x == y
  {
    var v := RankVector(sorted, shape, i, j, k);
    assert v[0] == Some(x.0 as int) == Some(y.0 as int);
    assert v[1] == Some(x.1 as int) == Some(y.1 as int);
  }

  /** A location whose sorted labels are exactly (a, b), with a < b no larger
      than the largest label, and whose I-metric reaches the threshold, makes
      (a, b) a kept pair and puts its I-metric into that pair's grid. */
  lemma PairCoverage(iMetric: Array3<Option<real>>, sorted: Array4<Option<int>>, shape: seq<nat>, threshold: real,
                     maxLabel: int, i: nat, j: nat, k: nat, a: nat, b: nat)
    requires Compatible(iMetric, sorted, shape) && Location(shape, i, j, k)
    requires RankVector(sorted, shape, i, j, k) == [Some(a as int), Some(b as int)] && a < b <= maxLabel
    requires AtLeast(iMetric[i][j][k], threshold)
    ensures (a, b) in KeptPairs(CandidatePairs(maxLabel), iMetric, sorted, shape, threshold)
    ensures CellValue((a, b), iMetric, sorted, shape, threshold, i, j, k) == iMetric[i][j][k]
  {
    CandidatePairsFacts(maxLabel);
    KeptPairsMembers(CandidatePairs(maxLabel), iMetric, sorted, shape, threshold);
    assert Fires((a, b), iMetric, sorted, shape, threshold, i, j, k);
  }

  /** `np.array_equal` needs equal shapes: unless every location has exactly
      two labels, no pair is ever kept. */
  lemma {:induction false} OnlyTwoLabelsFire(cands: seq<Pair>, iMetric: Array3<Option<real>>, sorted: Array4<Option<int>>,
                                             shape: seq<nat>, threshold: real)
    requires Compatible(iMetric, sorted, shape) && shape[1] != 2
    ensures KeptPairs(cands, iMetric, sorted, shape, threshold) == []
  {
    if |cands| > 0 {
      OnlyTwoLabelsFire(cands[..|cands| - 1], iMetric, sorted, shape, threshold);
      assert !AnyFires(cands[|cands| - 1], iMetric, sorted, shape, threshold);
    }
  }

  // ---------------------------------------------------------------------------
  // Labels of the pair coordinate

  /** `str(a + 1) + " to " + str(b + 1)`: pairs are shown counting from 1. */
  function Label(pair: Pair): string
  {
    IntToString(pair.0 + 1) + " to " + IntToString(pair.1 + 1)
  }

  /** Different pairs get different labels, so the `pair` coordinate has no
      repeated value. */
  lemma LabelInjective(x: Pair, y: Pair)
    requires Label(x) == Label(y)
    ensures x == y
  {
    JoinedIntsInjective(x.0 + 1, x.1 + 1, y.0 + 1, y.1 + 1, " to ");
  }

  /** The first candidate's label. */
  lemma LabelExample()
    ensures Label((0, 1)) == "1 to 2"
  {
    assert NatToString(1) == "1";
    assert NatToString(2) == "2";
  }

  function Labels(pairs: seq<Pair>): (r: seq<string>)
    ensures |r| == |pairs| && forall n :: 0 <= n < |pairs| ==> r[n] == Label(pairs[n])
  {
    seq(|pairs|, n requires 0 <= n < |pairs| => Label(pairs[n]))
  }

  /** Distinct pairs give distinct labels. */
  lemma LabelsDistinct(pairs: seq<Pair>)
    requires Distinct(pairs)
    ensures Distinct(Labels(pairs))
  {
    forall p, q | 0 <= p < q < |pairs|
      ensures Labels(pairs)[p] != Labels(pairs)[q]
    {
      if Label(pairs[p]) == Label(pairs[q]) {
        LabelInjective(pairs[p], pairs[q]);
      }
    }
  }

  /** The loop that builds `pair_str_list`, one label per kept pair. */
  method PairLabels(pairList: seq<Pair>) returns (pairStrList: seq<string>)
    ensures pairStrList == Labels(pairList)
  {
    pairStrList := [];
    for i := 0 to |pairList|
      invariant pairStrList == Labels(pairList[..i])
    {
      pairStrList := pairStrList + [Label(pairList[i])];
    }
    assert pairList[..|pairList|] == pairList;
  }

  // ---------------------------------------------------------------------------
  // Stacking the kept grids

  /** A (pair, time, Y, X) array of zeros into which grid `n` is copied as
      slab `n`. */
  method StackGrids(grids: seq<array3<Option<real>>>, shape: seq<nat>) returns (stacked: array4<Option<real>>)
    requires |shape| == 4
    requires forall n :: 0 <= n < |grids| ==>
      grids[n].Length0 == shape[0] && grids[n].Length1 == shape[2] && grids[n].Length2 == shape[3]
    ensures fresh(stacked)
    ensures stacked.Length0 == |grids| && stacked.Length1 == shape[0]
    ensures stacked.Length2 == shape[2] && stacked.Length3 == shape[3]
    ensures forall n, i, j, k :: 0 <= n < |grids| && 0 <= i < shape[0] && 0 <= j < shape[2] && 0 <= k < shape[3] ==>
      stacked[n, i, j, k] == grids[n][i, j, k]
  {
    stacked := new Option<real>[|grids|, shape[0], shape[2], shape[3]]((n, i, j, k) => Some(0.0));
    for n := 0 to |grids|
      invariant forall n', i, j, k :: 0 <= n' < n && 0 <= i < shape[0] && 0 <= j < shape[2] && 0 <= k < shape[3] ==>
        stacked[n', i, j, k] == grids[n'][i, j, k]
    {
      forall i, j, k | 0 <= i < shape[0] && 0 <= j < shape[2] && 0 <= k < shape[3] {
        stacked[n, i, j, k] := grids[n][i, j, k];
      }
    }
  }

  /** Slab `n` of the stacked array holds the cells of pair `n`. */
  lemma StackedCells(stacked: array4<Option<real>>, grids: seq<array3<Option<real>>>, pairs: seq<Pair>,
                     iMetric: Array3<Option<real>>, sorted: Array4<Option<int>>, shape: seq<nat>, threshold: real)
    requires |shape| == 4 && Compatible(iMetric, sorted, shape) && |grids| == |pairs|
    requires stacked.Length0 == |grids| && stacked.Length1 == shape[0]
    requires stacked.Length2 == shape[2] && stacked.Length3 == shape[3]
    requires forall n :: 0 <= n < |grids| ==>
      grids[n].Length0 == shape[0] && grids[n].Length1 == shape[2] && grids[n].Length2 == shape[3]
    requires forall n :: 0 <= n < |grids| ==> GridHolds(grids[n], pairs[n], iMetric, sorted, shape, threshold)
    requires forall n, i, j, k :: 0 <= n < |grids| && 0 <= i < shape[0] && 0 <= j < shape[2] && 0 <= k < shape[3] ==>
      stacked[n, i, j, k] == grids[n][i, j, k]
    ensures forall n, i, j, k :: 0 <= n < |grids| && 0 <= i < shape[0] && 0 <= j < shape[2] && 0 <= k < shape[3] ==>
      stacked[n, i, j, k] == CellValue(pairs[n], iMetric, sorted, shape, threshold, i, j, k)
  {
    forall n, i, j, k | 0 <= n < |grids| && 0 <= i < shape[0] && 0 <= j < shape[2] && 0 <= k < shape[3]
      ensures stacked[n, i, j, k] == CellValue(pairs[n], iMetric, sorted, shape, threshold, i, j, k)
    {
      assert GridHolds(grids[n], pairs[n], iMetric, sorted, shape, threshold);
    }
  }

  // ---------------------------------------------------------------------------
  // isel(Imetric=0)

  /** The dimension that `isel(Imetric=0)` removes. */
  const IMETRIC_DIM: string := "Imetric"

  function DropAt<T>(s: seq<T>, a: nat): (r: seq<T>)
    requires a < |s|
    ensures |r| == |s| - 1
    ensures forall m :: 0 <= m < |r| ==> r[m] == if m < a then s[m] else s[m + 1]
  {
    s[..a] + s[a + 1..]
  }

  function InsertAt(idx: seq<nat>, a: nat, x: nat): (r: seq<nat>)
    requires a <= |idx|
    ensures |r| == |idx| + 1 && r[a] == x
    ensures forall m :: 0 <= m < |r| && m != a ==> r[m] == if m < a then idx[m] else idx[m - 1]
  {
    idx[..a] + [x] + idx[a..]
  }

  lemma InsertAtInBounds(shape: seq<nat>, a: nat)
    requires a < |shape| && shape[a] > 0
    ensures forall idx :: InBounds(DropAt(shape, a), idx) ==> InBounds(shape, InsertAt(idx, a, 0))
  {
    forall idx | InBounds(DropAt(shape, a), idx)
      ensures InBounds(shape, InsertAt(idx, a, 0))
    {
      var jdx := InsertAt(idx, a, 0);
      forall m | 0 <= m < |jdx|
        ensures jdx[m] < shape[m]
      {
        if m > a {
          assert idx[m - 1] < DropAt(shape, a)[m - 1];
        } else if m < a {
          assert idx[m] < DropAt(shape, a)[m];
        }
      }
    }
  }

  /** `t[..., 0, ...]` with the 0 on axis `a`: the slice at position 0 of
      that axis, which is dropped. */
  function SliceFirst<T>(t: Tensor<T>, a: nat): (u: Tensor<T>)
    requires t.Valid() && a < |t.shape| && t.shape[a] > 0
    ensures u.Valid() && u.shape == DropAt(t.shape, a)
    ensures forall idx :: InBounds(u.shape, idx) ==>
      InBounds(t.shape, InsertAt(idx, a, 0)) && u.At(idx) == t.At(InsertAt(idx, a, 0))
  {
    var shape := DropAt(t.shape, a);
    InsertAtInBounds(t.shape, a);
    UnflattenOffsetAll(shape);
    Tensor(shape, seq(Prod(shape), p requires 0 <= p < Prod(shape) => t.At(InsertAt(Unflatten(shape, p), a, 0))))
  }

  lemma UnflattenOffsetAll(shape: seq<nat>)
    ensures forall idx :: InBounds(shape, idx) ==> Unflatten(shape, Offset(shape, idx)) == idx
  {
    forall idx | InBounds(shape, idx)
      ensures Unflatten(shape, Offset(shape, idx)) == idx
    {
      UnflattenOffset(shape, idx);
    }
  }

  /** `da.isel({name: 0})`: the slice at position 0 of the named axis, which
      is dropped, together with its coordinate. A missing dimension raises
      `ValueError`, an empty axis `IndexError`. */
  function SelectFirst<T>(da: DataArray<T>, name: string): (r: Result<DataArray<T>>)
    requires da.Valid()
    ensures r == Err(ValueError) <==> name !in da.dims
    ensures r == Err(IndexError) <==> name in da.dims && SizeOf(da, name) == 0
    ensures r.Ok? ==> name in da.dims && SizeOf(da, name) > 0 && r.value.Valid()
    ensures r.Ok? ==>
      && r.value.dims == DropAt(da.dims, IndexOf(da.dims, name).value)
      && r.value.values == SliceFirst(da.values, IndexOf(da.dims, name).value)
  {
    match IndexOf(da.dims, name)
    case None => Err(ValueError)
    case Some(a) =>
      if da.values.shape[a] == 0 then Err(IndexError)
      else
        SelectFirstValid(da, a);
        Ok(DataArray(DropAt(da.dims, a), da.coords - {name}, SliceFirst(da.values, a)))
  }

  lemma SelectFirstValid<T>(da: DataArray<T>, a: nat)
    requires da.Valid() && a < |da.dims|
    ensures Distinct(DropAt(da.dims, a))
    ensures forall m :: 0 <= m < |da.dims| - 1 && DropAt(da.dims, a)[m] in da.coords - {da.dims[a]} ==>
      (da.coords - {da.dims[a]})[DropAt(da.dims, a)[m]] == DropAt(da.values.shape, a)[m]
  {
    var d := DropAt(da.dims, a);
    forall p, q | 0 <= p < q < |d|
      ensures d[p] != d[q]
    {
      var p' := if p < a then p else p + 1;
      var q' := if q < a then q else q + 1;
      assert d[p] == da.dims[p'] && d[q] == da.dims[q'];
    }
    forall m | 0 <= m < |d| && d[m] in da.coords - {da.dims[a]}
      ensures (da.coords - {da.dims[a]})[d[m]] == DropAt(da.values.shape, a)[m]
    {
      var m' := if m < a then m else m + 1;
      assert d[m] == da.dims[m'];
    }
  }

  /** After `isel`, the dimensions left are those of the array minus the
      dropped one, with their lengths unchanged. */
  lemma SelectFirstSizes<T>(da: DataArray<T>, name: string)
    requires da.Valid() && SelectFirst(da, name).Ok?
    ensures forall n :: n in SelectFirst(da, name).value.dims ==>
      n in da.dims && n != name && SizeOf(SelectFirst(da, name).value, n) == SizeOf(da, n)
  {
    var sel := SelectFirst(da, name).value;
    var a := IndexOf(da.dims, name).value;
    forall n | n in sel.dims
      ensures n in da.dims && n != name && SizeOf(sel, n) == SizeOf(da, n)
    {
      var m := IndexOf(sel.dims, n).value;
      var m' := if m < a then m else m + 1;
      assert sel.dims[m] == da.dims[m'];
      IndexOfDistinct(da.dims, m');
      IndexOfDistinct(da.dims, a);
    }
  }

  // ---------------------------------------------------------------------------
  // pair_i_metric

  /** The dataset `pair_i_metric` reads: the cluster-label array `A_B`, the
      I-metric array `IMETRIC`, and the length of each dataset coordinate.
      xarray gives a dimension name one length throughout a dataset. */
  datatype Dataset = Dataset(ab: DataArray<Option<int>>, imetric: DataArray<Option<real>>, coords: map<string, nat>)
  {
    predicate Valid()
    {
      && ab.Valid() && imetric.Valid()
      && (forall n :: n in ab.dims && n in imetric.dims ==> SizeOf(ab, n) == SizeOf(imetric, n))
      && (forall n :: n in ab.dims && n in coords ==> coords[n] == SizeOf(ab, n))
      && (forall n :: n in imetric.dims && n in coords ==> coords[n] == SizeOf(imetric, n))
    }
  }

  /** The returned DataArray: dimension names, the `pair` coordinate's labels,
      coordinate lengths, and the (pair, time, Y, X) values. */
  datatype PairArray = PairArray(dims: seq<string>, labels: seq<string>, coords: map<string, nat>,
                                 values: array4<Option<real>>)

  /** `A_B_values`: the label array reordered to (time, rank, Y, X). */
  function RankArray(ds: Dataset): (t: Tensor<Option<int>>)
    requires ds.Valid() && Reorderable(ds.ab.dims, RANK_ORDER)
    ensures t.Valid() && |t.shape| == |ds.ab.dims| && |t.shape| <= |RANK_ORDER|
    ensures forall k :: 0 <= k < |t.shape| ==> RANK_ORDER[k] in ds.ab.dims && t.shape[k] == SizeOf(ds.ab, RANK_ORDER[k])
  {
    OrderIndexesCorrectedShape(ds.ab, RANK_ORDER);
    Transpose(ds.ab.values, Inverse(Positions(ds.ab.dims, RANK_ORDER)))
  }

  /** `sorted_version`: the reordered labels sorted along the rank axis. */
  function SortedVersion(ds: Dataset): (t: Tensor<Option<int>>)
    requires ds.Valid() && Reorderable(ds.ab.dims, RANK_ORDER) && |ds.ab.dims| >= 2
    ensures t.Valid() && |t.shape| == |ds.ab.dims|
  {
    SortRankAxis(RankArray(ds))
  }

  /** `IMETRIC.isel(Imetric=0)` succeeds and reorders by name. */
  predicate GridReorderable(ds: Dataset)
    requires ds.Valid()
  {
    SelectFirst(ds.imetric, IMETRIC_DIM).Ok? && Reorderable(SelectFirst(ds.imetric, IMETRIC_DIM).value.dims, GRID_ORDER)
  }

  /** `i_metric`: the first I-metric reordered to (time, Y, X). */
  function GridArray(ds: Dataset): (t: Tensor<Option<real>>)
    requires ds.Valid() && GridReorderable(ds)
    ensures t.Valid() && |t.shape| == |SelectFirst(ds.imetric, IMETRIC_DIM).value.dims| && |t.shape| <= |GRID_ORDER|
    ensures forall k :: 0 <= k < |t.shape| ==>
      GRID_ORDER[k] in ds.imetric.dims && t.shape[k] == SizeOf(ds.imetric, GRID_ORDER[k])
  {
    var sel := SelectFirst(ds.imetric, IMETRIC_DIM).value;
    OrderIndexesCorrectedShape(sel, GRID_ORDER);
    SelectFirstSizes(ds.imetric, IMETRIC_DIM);
    Transpose(sel.values, Inverse(Positions(sel.dims, GRID_ORDER)))
  }

  /** Every step before the coordinate lookup gets through: both arrays
      reorder to the full requested axes and some label is present. */
  predicate Computable(ds: Dataset)
    requires ds.Valid()
  {
    && Reorderable(ds.ab.dims, RANK_ORDER) && |ds.ab.dims| == 4
    && GridReorderable(ds) && |SelectFirst(ds.imetric, IMETRIC_DIM).value.dims| == 3
    && NanMax(SortedVersion(ds).data).Some?
  }

  /** The label and I-metric arrays line up: (time, rank, Y, X) against
      (time, Y, X) with the same time, Y and X lengths. */
  lemma ComputableShapes(ds: Dataset)
    requires ds.Valid() && Reorderable(ds.ab.dims, RANK_ORDER) && |ds.ab.dims| == 4
    requires GridReorderable(ds) && |SelectFirst(ds.imetric, IMETRIC_DIM).value.dims| == 3
    ensures var s := RankArray(ds).shape;
      GridArray(ds).shape == [s[0], s[2], s[3]]
  {
    NamedLengthsAgree(ds.ab, ds.imetric, RankArray(ds).shape, GridArray(ds).shape);
  }

  /** Axes named alike in the two arrays of a dataset have equal lengths. */
  lemma NamedLengthsAgree(ab: DataArray<Option<int>>, im: DataArray<Option<real>>, s: seq<nat>, g: seq<nat>)
    requires ab.Valid() && im.Valid()
    requires forall n :: n in ab.dims && n in im.dims ==> SizeOf(ab, n) == SizeOf(im, n)
    requires |s| == 4 && |g| == 3
    requires forall k :: 0 <= k < |s| ==> RANK_ORDER[k] in ab.dims && s[k] == SizeOf(ab, RANK_ORDER[k])
    requires forall k :: 0 <= k < |g| ==> GRID_ORDER[k] in im.dims && g[k] == SizeOf(im, GRID_ORDER[k])
    ensures g == [s[0], s[2], s[3]]
  {
    assert GRID_ORDER[0] == RANK_ORDER[0] && GRID_ORDER[1] == RANK_ORDER[2] && GRID_ORDER[2] == RANK_ORDER[3];
    assert s[0] == SizeOf(ab, RANK_ORDER[0]) && g[0] == SizeOf(im, GRID_ORDER[0]);
    assert s[2] == SizeOf(ab, RANK_ORDER[2]) && g[1] == SizeOf(im, GRID_ORDER[1]);
    assert s[3] == SizeOf(ab, RANK_ORDER[3]) && g[2] == SizeOf(im, GRID_ORDER[2]);
  }

  /** What lines 80-121 of `pair_i_metric` build from the sorted labels,
      the I-metric and the largest label: dimensions (pair, time, Y, X), one
      label and one grid per kept pair, the dataset's time, Y and X
      coordinates, and every value the pair's cell value. */
  ghost predicate Holds(sorted: Tensor<Option<int>>, grid: Tensor<Option<real>>, maxLabel: int, threshold: real,
                        coords: map<string, nat>, p: PairArray)
    requires sorted.Valid() && |sorted.shape| == 4
    requires grid.Valid() && grid.shape == [sorted.shape[0], sorted.shape[2], sorted.shape[3]]
    requires T_COORD in coords && Y_COORD in coords && X_COORD in coords
    reads p.values
  {
    var shape := sorted.shape;
    var pairs := KeptPairs(CandidatePairs(maxLabel), Nest3(grid), Nest4(sorted), shape, threshold);
    && p.dims == [P_COORD, T_COORD, Y_COORD, X_COORD]
    && p.labels == Labels(pairs)
    && p.coords.Keys == {P_COORD, T_COORD, Y_COORD, X_COORD}
    && p.coords[P_COORD] == |pairs| && p.coords[T_COORD] == coords[T_COORD]
    && p.coords[Y_COORD] == coords[Y_COORD] && p.coords[X_COORD] == coords[X_COORD]
    && p.values.Length0 == |pairs| && p.values.Length1 == shape[0]
    && p.values.Length2 == shape[2] && p.values.Length3 == shape[3]
    && forall n, i, j, k :: 0 <= n < |pairs| && 0 <= i < shape[0] && 0 <= j < shape[2] && 0 <= k < shape[3] ==>
         p.values[n, i, j, k] == CellValue(pairs[n], Nest3(grid), Nest4(sorted), shape, threshold, i, j, k)
  }

  /** The `coords` argument of the returned DataArray: the dataset's X, Y and
      time coordinates and the pair labels. */
  function OutputCoords(coords: map<string, nat>, pairCount: nat): (c: map<string, nat>)
    requires T_COORD in coords && Y_COORD in coords && X_COORD in coords
    ensures c.Keys == {P_COORD, T_COORD, Y_COORD, X_COORD}
    ensures c[P_COORD] == pairCount && c[T_COORD] == coords[T_COORD]
    ensures c[Y_COORD] == coords[Y_COORD] && c[X_COORD] == coords[X_COORD]
  {
    map[X_COORD := coords[X_COORD], Y_COORD := coords[Y_COORD], T_COORD := coords[T_COORD], P_COORD := pairCount]
  }

  /** Lines 80-116 of `pair_i_metric`: the candidate pairs, the grid of
      each kept pair, and the grids stacked along a new leading axis. */
  method PairGrids(sortedVersion: Tensor<Option<int>>, iMetricValues: Tensor<Option<real>>, maxLabel: int,
                   threshold: real)
    returns (pairList: seq<Pair>, stacked: array4<Option<real>>)
    requires sortedVersion.Valid() && |sortedVersion.shape| == 4
    requires iMetricValues.Valid()
    requires iMetricValues.shape == [sortedVersion.shape[0], sortedVersion.shape[2], sortedVersion.shape[3]]
    ensures fresh(stacked)
    ensures pairList == KeptPairs(CandidatePairs(maxLabel), Nest3(iMetricValues), Nest4(sortedVersion),
                                  sortedVersion.shape, threshold)
    ensures stacked.Length0 == |pairList| && stacked.Length1 == sortedVersion.shape[0]
    ensures stacked.Length2 == sortedVersion.shape[2] && stacked.Length3 == sortedVersion.shape[3]
    ensures forall n, i, j, k ::
      (0 <= n < |pairList| && 0 <= i < sortedVersion.shape[0] &&
       0 <= j < sortedVersion.shape[2] && 0 <= k < sortedVersion.shape[3]) ==>
      stacked[n, i, j, k] == CellValue(pairList[n], Nest3(iMetricValues), Nest4(sortedVersion),
                                       sortedVersion.shape, threshold, i, j, k)
  {
    var cartProd := CandidatePairs(maxLabel);
    var shape := sortedVersion.shape;
    var sorted := Nest4(sortedVersion);
    var iMetric := Nest3(iMetricValues);
    var pairIMetricList;
    pairIMetricList, pairList := MakeAllPairIMetric(cartProd, iMetric, sorted, shape, threshold);
    stacked := StackGrids(pairIMetricList, shape);
    StackedCells(stacked, pairIMetricList, pairList, iMetric, sorted, shape, threshold);
  }

  /** Lines 80-121 of `pair_i_metric`, once the arrays are in place: the
      stacked grids, their labels, and the coordinate lookup, which raises
      `KeyError` for a missing coordinate. */
  method SplitByPair(sortedVersion: Tensor<Option<int>>, iMetricValues: Tensor<Option<real>>, maxLabel: int,
                     threshold: real, coords: map<string, nat>)
    returns (r: Result<PairArray>)
    requires sortedVersion.Valid() && |sortedVersion.shape| == 4
    requires iMetricValues.Valid()
    requires iMetricValues.shape == [sortedVersion.shape[0], sortedVersion.shape[2], sortedVersion.shape[3]]
    ensures r.Ok? <==> T_COORD in coords && Y_COORD in coords && X_COORD in coords
    ensures r.Err? ==> r.error == KeyError
    ensures r.Ok? ==> fresh(r.value.values) && Holds(sortedVersion, iMetricValues, maxLabel, threshold, coords, r.value)
  {
    var pairList, stacked := PairGrids(sortedVersion, iMetricValues, maxLabel, threshold);
    var pairStrList := PairLabels(pairList);
    if !(T_COORD in coords && Y_COORD in coords && X_COORD in coords) {
      return Err(KeyError);
    }
    r := Ok(PairArray([P_COORD, T_COORD, Y_COORD, X_COORD], pairStrList, OutputCoords(coords, |pairStrList|), stacked));
  }

  /** The result describes the dataset, and each coordinate is as long as
      its axis (so building the DataArray raises nothing). */
  ghost predicate Describes(ds: Dataset, threshold: real, p: PairArray)
    requires ds.Valid() && Computable(ds)
    requires T_COORD in ds.coords && Y_COORD in ds.coords && X_COORD in ds.coords
    reads p.values
  {
    ComputableShapes(ds);
    var sorted := SortedVersion(ds);
    && Holds(sorted, GridArray(ds), NanMax(sorted.data).value, threshold, ds.coords, p)
    && p.coords[P_COORD] == p.values.Length0 && p.coords[T_COORD] == p.values.Length1
    && p.coords[Y_COORD] == p.values.Length2 && p.coords[X_COORD] == p.values.Length3
  }

  /** `pair_i_metric`: the I-metric split by the pair of clusters each
      location sits between. Errors, in the order the code meets them:
      reordering `A_B` (`ValueError`, `AxisError`), sorting along a missing
      axis 1 (`AxisError`), `isel` (`ValueError`, `IndexError`), reordering
      the I-metric, `int(nanmax(...))` when no label is present
      (`ValueError`), indexing a shape with fewer than four axes
      (`IndexError`), and a missing dataset coordinate (`KeyError`). */
  method PairIMetric(ds: Dataset, threshold: real := DEFAULT_THRESHOLD) returns (r: Result<PairArray>)
    requires ds.Valid()
    ensures !AllListed(ds.ab.dims, RANK_ORDER) ==> r == Err(ValueError)
    ensures AllListed(ds.ab.dims, RANK_ORDER) && !Reorderable(ds.ab.dims, RANK_ORDER) ==> r == Err(AxisError)
    ensures Reorderable(ds.ab.dims, RANK_ORDER) && |ds.ab.dims| < 2 ==> r == Err(AxisError)
    ensures Reorderable(ds.ab.dims, RANK_ORDER) && |ds.ab.dims| >= 2 && SelectFirst(ds.imetric, IMETRIC_DIM).Err?
      ==> r == Err(SelectFirst(ds.imetric, IMETRIC_DIM).error)
    ensures Reorderable(ds.ab.dims, RANK_ORDER) && |ds.ab.dims| >= 2 && SelectFirst(ds.imetric, IMETRIC_DIM).Ok?
      && !AllListed(SelectFirst(ds.imetric, IMETRIC_DIM).value.dims, GRID_ORDER)
      ==> r == Err(ValueError)
    ensures Reorderable(ds.ab.dims, RANK_ORDER) && |ds.ab.dims| >= 2 && SelectFirst(ds.imetric, IMETRIC_DIM).Ok?
      && AllListed(SelectFirst(ds.imetric, IMETRIC_DIM).value.dims, GRID_ORDER) && !GridReorderable(ds)
      ==> r == Err(AxisError)
    ensures Reorderable(ds.ab.dims, RANK_ORDER) && |ds.ab.dims| >= 2 && GridReorderable(ds)
      && NanMax(SortedVersion(ds).data).None?
      ==> r == Err(ValueError)
    ensures Reorderable(ds.ab.dims, RANK_ORDER) && |ds.ab.dims| >= 2 && GridReorderable(ds)
      && NanMax(SortedVersion(ds).data).Some? && !Computable(ds)
      ==> r == Err(IndexError)
    ensures Computable(ds) && !(T_COORD in ds.coords && Y_COORD in ds.coords && X_COORD in ds.coords)
      ==> r == Err(KeyError)
    ensures r.Ok? <==> Computable(ds) && T_COORD in ds.coords && Y_COORD in ds.coords && X_COORD in ds.coords
    ensures r.Ok? ==> fresh(r.value.values) && Describes(ds, threshold, r.value)
  {
    var abValues := OrderIndexesCorrected(ds.ab, RANK_ORDER);
    if abValues.Err? {
      return Err(abValues.error);
    }
    if |abValues.value.shape| < 2 {
      return Err(AxisError);
    }
    var sortedVersion := SortRankAxis(abValues.value);
    assert sortedVersion == SortedVersion(ds);
    var selected := SelectFirst(ds.imetric, IMETRIC_DIM);
    if selected.Err? {
      return Err(selected.error);
    }
    var iMetricValues := OrderIndexesCorrected(selected.value, GRID_ORDER);
    if iMetricValues.Err? {
      return Err(iMetricValues.error);
    }
    assert iMetricValues.value == GridArray(ds);
    var maxLabel := NanMax(sortedVersion.data);
    if maxLabel.None? {
      return Err(ValueError);
    }
    if |sortedVersion.shape| != 4 || |iMetricValues.value.shape| != 3 {
      return Err(IndexError);
    }
    assert Computable(ds);
    ComputableShapes(ds);
    r := SplitByPair(sortedVersion, iMetricValues.value, maxLabel.value, threshold, ds.coords);
    if r.Ok? {
      CoordLengths(ds);
    }
  }

  /** The dataset's time, Y and X coordinates are as long as the reordered
      label array's axes 0, 2 and 3. */
  lemma CoordLengths(ds: Dataset)
    requires ds.Valid() && Reorderable(ds.ab.dims, RANK_ORDER) && |ds.ab.dims| == 4
    requires T_COORD in ds.coords && Y_COORD in ds.coords && X_COORD in ds.coords
    ensures var s := RankArray(ds).shape;
      ds.coords[T_COORD] == s[0] && ds.coords[Y_COORD] == s[2] && ds.coords[X_COORD] == s[3]
  {
    OrderIndexesCorrectedShape(ds.ab, RANK_ORDER);
  }

  /** Where both requested orders undo themselves, the two arrays above are
      exactly what `order_indexes` as written returns (result axis k taken
      from input axis `init_list[k]`). */
  lemma ArraysAsWrittenOnInvolution(ds: Dataset)
    requires ds.Valid() && Reorderable(ds.ab.dims, RANK_ORDER) && GridReorderable(ds)
    requires IsInvolution(Positions(ds.ab.dims, RANK_ORDER))
    requires IsInvolution(Positions(SelectFirst(ds.imetric, IMETRIC_DIM).value.dims, GRID_ORDER))
    ensures RankArray(ds) == Transpose(ds.ab.values, Positions(ds.ab.dims, RANK_ORDER))
    ensures var sel := SelectFirst(ds.imetric, IMETRIC_DIM).value;
      GridArray(ds) == Transpose(sel.values, Positions(sel.dims, GRID_ORDER))
  {
    OrderIndexesAgreeOnInvolution(ds.ab, RANK_ORDER);
    OrderIndexesAgreeOnInvolution(SelectFirst(ds.imetric, IMETRIC_DIM).value, GRID_ORDER);
  }

  /** The layout the docstring of `pair_i_metric` documents, labels on
      (rank, time, Y, X) and the first I-metric on (time, Y, X): the labels
      swap their first two axes and the I-metric stays as it is, by the code
      as written and by the arrays above alike. */
  lemma DocumentedLayoutAsWritten(ds: Dataset)
    requires ds.Valid() && ds.ab.dims == ["rank", T_COORD, Y_COORD, X_COORD]
    requires SelectFirst(ds.imetric, IMETRIC_DIM).Ok? && SelectFirst(ds.imetric, IMETRIC_DIM).value.dims == GRID_ORDER
    ensures Reorderable(ds.ab.dims, RANK_ORDER) && GridReorderable(ds)
    ensures Positions(ds.ab.dims, RANK_ORDER) == [1, 0, 2, 3]
    ensures RankArray(ds) == Transpose(ds.ab.values, [1, 0, 2, 3])
    ensures var sel := SelectFirst(ds.imetric, IMETRIC_DIM).value;
      GridArray(ds) == Transpose(sel.values, Positions(sel.dims, GRID_ORDER)) == sel.values
  {
    RankSwapIsInvolution();
    var sel := SelectFirst(ds.imetric, IMETRIC_DIM).value;
    OrderIndexesIdentity(sel);
    ArraysAsWrittenOnInvolution(ds);
  }
}
