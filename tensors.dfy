/** A NumPy ndarray as a value: a shape and its elements in row-major (C)
    order, with the axis permutation that `np.transpose` / `np.moveaxis`
    perform on it. */
module Tensors {
  import opened Common

  /** Number of elements of an array of this shape (`np.prod(shape)`). */
  function Prod(shape: seq<nat>): nat
    decreases |shape|
  {
    if |shape| == 0 then 1 else shape[0] * Prod(shape[1..])
  }

  /** `idx` is a valid full index tuple for an array of this shape. */
  predicate InBounds(shape: seq<nat>, idx: seq<nat>)
  {
    |idx| == |shape| && forall k :: 0 <= k < |idx| ==> idx[k] < shape[k]
  }

  lemma MulBound(i: nat, n: nat, r: nat, m: nat)
    requires i < n && r < m
    ensures i * m + r < n * m
  {
    assert n * m == (i + 1) * m + (n - i - 1) * m;
  }

  lemma DivBound(p: nat, n: nat, m: nat)
    requires p < n * m
    ensures m > 0 && p / m < n && p % m < m && (p / m) * m + p % m == p
  {
    if p / m >= n {
      MulMono(n, p / m, m);
      assert false;
    }
  }

  lemma MulMono(a: nat, b: nat, m: nat)
    requires a <= b
    ensures a * m <= b * m
  {
    assert b * m == a * m + (b - a) * m;
  }

  lemma DivModOf(i: nat, m: nat, r: nat)
    requires r < m
    ensures (i * m + r) / m == i && (i * m + r) % m == r
  {
    var x := i * m + r;
    var q, s := x / m, x % m;
    assert q * m + s == i * m + r;
    if q < i {
      MulMono(q + 1, i, m);
      assert false;
    } else if q > i {
      MulMono(i + 1, q, m);
      assert false;
    }
  }

  /** Row-major position of an element in the flat data. */
  function Offset(shape: seq<nat>, idx: seq<nat>): (p: nat)
    requires InBounds(shape, idx)
    ensures p < Prod(shape)
    decreases |shape|
  {
    if |shape| == 0 then 0
    else
      assert InBounds(shape[1..], idx[1..]);
      var rest := Offset(shape[1..], idx[1..]);
      MulBound(idx[0], shape[0], rest, Prod(shape[1..]));
      idx[0] * Prod(shape[1..]) + rest
  }

  /** The index tuple of a row-major position: the inverse of `Offset`. */
  function Unflatten(shape: seq<nat>, p: nat): (idx: seq<nat>)
    requires p < Prod(shape)
    ensures InBounds(shape, idx) && Offset(shape, idx) == p
    decreases |shape|
  {
    if |shape| == 0 then []
    else
      var m := Prod(shape[1..]);
      DivBound(p, shape[0], m);
      var rest := Unflatten(shape[1..], p % m);
      OffsetCons(shape, p / m, rest);
      [p / m] + rest
  }

  /** The offset of an index tuple splits at its first axis. */
  lemma OffsetCons(shape: seq<nat>, q: nat, rest: seq<nat>)
    requires |shape| > 0 && q < shape[0] && InBounds(shape[1..], rest)
    ensures InBounds(shape, [q] + rest)
    ensures Offset(shape, [q] + rest) == q * Prod(shape[1..]) + Offset(shape[1..], rest)
  {
    var idx := [q] + rest;
    assert idx[0] == q && idx[1..] == rest;
  }

  lemma {:induction false} UnflattenOffset(shape: seq<nat>, idx: seq<nat>)
    requires InBounds(shape, idx)
    ensures Unflatten(shape, Offset(shape, idx)) == idx
    decreases |shape|
  {
    if |shape| > 0 {
      assert InBounds(shape[1..], idx[1..]);
      UnflattenOffset(shape[1..], idx[1..]);
      DivModOf(idx[0], Prod(shape[1..]), Offset(shape[1..], idx[1..]));
      assert idx == [idx[0]] + idx[1..];
    }
  }

  /** A dense array: its shape and its elements in row-major order. */
  datatype Tensor<T> = Tensor(shape: seq<nat>, data: seq<T>)
  {
    predicate Valid()
    {
      |data| == Prod(shape)
    }

    /** `a[idx]` for a full index tuple. */
    function At(idx: seq<nat>): T
      requires Valid() && InBounds(shape, idx)
    {
      data[Offset(shape, idx)]
    }
  }

  /** Two arrays with the same shape and the same element at every index are equal. */
  lemma {:induction false} TensorExt<T>(a: Tensor<T>, b: Tensor<T>)
    requires a.Valid() && b.Valid() && a.shape == b.shape
    requires forall idx :: InBounds(a.shape, idx) ==> a.At(idx) == b.At(idx)
    ensures a == b
  {
    forall p | 0 <= p < |a.data|
      ensures a.data[p] == b.data[p]
    {
      var idx := Unflatten(a.shape, p);
      assert a.At(idx) == b.At(idx);
    }
  }

  // ---------------------------------------------------------------------------
  // Permutations of axis numbers 0 .. n-1

  /** Every entry is an axis number below the length, and none repeats. */
  predicate IsPermutation(p: seq<nat>)
  {
    (forall k :: 0 <= k < |p| ==> p[k] < |p|) && Distinct(p)
  }

  function RangeSet(n: nat): (r: set<nat>)
    ensures forall m: nat :: m in r <==> m < n
  {
    if n == 0 then {} else RangeSet(n - 1) + {n - 1}
  }

  lemma {:induction false} RangeSetCard(n: nat)
    ensures |RangeSet(n)| == n
  {
    if n > 0 {
      RangeSetCard(n - 1);
    }
  }

  lemma {:induction false} DistinctCard<T>(s: seq<T>)
    requires Distinct(s)
    ensures |Elements(s)| == |s|
  {
    if |s| > 0 {
      var init := s[..|s| - 1];
      DistinctCard(init);
      assert Elements(s) == Elements(init) + {s[|s| - 1]};
      assert s[|s| - 1] !in Elements(init);
    }
  }

  lemma SubsetCard<T>(a: set<T>, b: set<T>)
    requires a <= b
    ensures |a| <= |b|
    ensures |a| == |b| ==> a == b
  {
    assert b == a + (b - a);
    assert a * (b - a) == {};
  }

  /** Pigeonhole: a sequence of `n` distinct axis numbers below `n` names every axis. */
  lemma PermutationCovers(p: seq<nat>)
    requires IsPermutation(p)
    ensures forall m :: 0 <= m < |p| ==> m in p
  {
    DistinctCard(p);
    RangeSetCard(|p|);
    SubsetCard(Elements(p), RangeSet(|p|));
    forall m | 0 <= m < |p|
      ensures m in p
    {
      assert m in RangeSet(|p|);
    }
  }

  /** Distinct axis numbers below `n`, covering all of them, are exactly `n` of them. */
  lemma CoveringDistinctIsPermutation(p: seq<nat>, n: nat)
    requires Distinct(p)
    requires forall k :: 0 <= k < |p| ==> p[k] < n
    requires forall m :: 0 <= m < n ==> m in p
    ensures |p| == n && IsPermutation(p)
  {
    DistinctCard(p);
    RangeSetCard(n);
    assert Elements(p) == RangeSet(n);
  }

  /** The inverse permutation: `q[m]` is the position of `m` in `p`. */
  function Inverse(p: seq<nat>): (q: seq<nat>)
    requires IsPermutation(p)
    ensures |q| == |p|
    ensures forall m :: 0 <= m < |p| ==> q[m] < |p| && p[q[m]] == m
  {
    PermutationCovers(p);
    seq(|p|, m requires 0 <= m < |p| => IndexOf(p, m).value)
  }

  lemma InverseFacts(p: seq<nat>)
    requires IsPermutation(p)
    ensures IsPermutation(Inverse(p))
    ensures forall k :: 0 <= k < |p| ==> Inverse(p)[p[k]] == k
    ensures Inverse(Inverse(p)) == p
  {
    var q := Inverse(p);
    forall k | 0 <= k < |p|
      ensures q[p[k]] == k
    {
      IndexOfDistinct(p, k);
    }
    assert IsPermutation(q);
    var qq := Inverse(q);
    forall k | 0 <= k < |p|
      ensures qq[k] == p[k]
    {
      IndexOfDistinct(q, p[k]);
    }
  }

  // ---------------------------------------------------------------------------
  // Transposition

  /** Shape after taking result axis `k` from input axis `order[k]`. */
  function PermutedShape(shape: seq<nat>, order: seq<nat>): (r: seq<nat>)
    requires IsPermutation(order) && |order| == |shape|
    ensures |r| == |shape|
    ensures forall k :: 0 <= k < |r| ==> r[k] == shape[order[k]]
  {
    seq(|order|, k requires 0 <= k < |order| => shape[order[k]])
  }

  /** The input index that feeds result index `idx`: `j[order[k]] == idx[k]`. */
  function SourceIndex(order: seq<nat>, idx: seq<nat>): (j: seq<nat>)
    requires IsPermutation(order) && |idx| == |order|
    ensures |j| == |order|
  {
    seq(|order|, m requires 0 <= m < |order| => idx[Inverse(order)[m]])
  }

  lemma SourceIndexFacts(shape: seq<nat>, order: seq<nat>, idx: seq<nat>)
    requires IsPermutation(order) && |order| == |shape|
    requires InBounds(PermutedShape(shape, order), idx)
    ensures InBounds(shape, SourceIndex(order, idx))
    ensures forall k :: 0 <= k < |order| ==> SourceIndex(order, idx)[order[k]] == idx[k]
  {
    InverseFacts(order);
  }

  /** `np.transpose(t, order)`: result axis `k` is input axis `order[k]`. */
  function Transpose<T>(t: Tensor<T>, order: seq<nat>): (r: Tensor<T>)
    requires t.Valid() && IsPermutation(order) && |order| == |t.shape|
    ensures r.Valid() && r.shape == PermutedShape(t.shape, order)
  {
    var shape := PermutedShape(t.shape, order);
    Tensor(shape, seq(Prod(shape), p requires 0 <= p < Prod(shape) =>
      var idx := Unflatten(shape, p);
      SourceIndexFacts(t.shape, order, idx);
      t.At(SourceIndex(order, idx))))
  }

  /** Elements are only moved: the element at result index `idx` is the input
      element whose index has `idx[k]` on axis `order[k]`. */
  lemma TransposeAt<T>(t: Tensor<T>, order: seq<nat>, idx: seq<nat>)
    requires t.Valid() && IsPermutation(order) && |order| == |t.shape|
    requires InBounds(PermutedShape(t.shape, order), idx)
    ensures InBounds(t.shape, SourceIndex(order, idx))
    ensures forall k :: 0 <= k < |order| ==> SourceIndex(order, idx)[order[k]] == idx[k]
    ensures Transpose(t, order).At(idx) == t.At(SourceIndex(order, idx))
  {
    SourceIndexFacts(t.shape, order, idx);
    UnflattenOffset(PermutedShape(t.shape, order), idx);
  }

  /** Transposing by the identity order changes nothing. */
  lemma TransposeIdentity<T>(t: Tensor<T>)
    requires t.Valid()
    ensures IsPermutation(Range(|t.shape|))
    ensures Transpose(t, Range(|t.shape|)) == t
  {
    var id := Range(|t.shape|);
    var r := Transpose(t, id);
    assert r.shape == t.shape;
    forall idx | InBounds(t.shape, idx)
      ensures r.At(idx) == t.At(idx)
    {
      TransposeAt(t, id, idx);
      assert SourceIndex(id, idx) == idx;
    }
    TensorExt(r, t);
  }

  /** Transposing back by the inverse order restores the array exactly. */
  lemma TransposeRoundTrip<T>(t: Tensor<T>, order: seq<nat>)
    requires t.Valid() && IsPermutation(order) && |order| == |t.shape|
    ensures IsPermutation(Inverse(order))
    ensures Transpose(Transpose(t, order), Inverse(order)) == t
  {
    InverseFacts(order);
    var inv := Inverse(order);
    var u := Transpose(t, order);
    var r := Transpose(u, inv);
    assert r.shape == t.shape;
    forall idx | InBounds(t.shape, idx)
      ensures r.At(idx) == t.At(idx)
    {
      TransposeAt(u, inv, idx);
      var j := SourceIndex(inv, idx);
      TransposeAt(t, order, j);
      assert SourceIndex(order, j) == idx;
    }
    TensorExt(r, t);
  }

  /** `order[k]` is where `order[order[k]]` came from: the permutation undoes itself. */
  predicate IsInvolution(p: seq<nat>)
    requires forall k :: 0 <= k < |p| ==> p[k] < |p|
  {
    forall k :: 0 <= k < |p| ==> p[p[k]] == k
  }

  /** Exchanging the first two of four axes undoes itself. */
  lemma SwapIsInvolution(p: seq<nat>)
    requires p == [1, 0, 2, 3]
    ensures forall k :: 0 <= k < |p| ==> p[k] < |p|
    ensures IsInvolution(p)
  {
    assert p[p[0]] == 0 && p[p[1]] == 1 && p[p[2]] == 2 && p[p[3]] == 3;
  }

  /** Moving the last of three axes to the front is undone by moving the
      first to the back. */
  lemma ThreeCycleInverse(p: seq<nat>)
    requires p == [1, 2, 0]
    ensures IsPermutation(p)
    ensures Inverse(p) == [2, 0, 1]
  {
    var q := Inverse(p);
    assert p[q[0]] == 0 && p[q[1]] == 1 && p[q[2]] == 2;
  }

  /** The axis names after moving axis 1 to the front of three, and after
      moving it back. */
  lemma ThreeCycleNames<N>(names: seq<N>, p: seq<nat>)
    requires |names| == 3 && p == [1, 2, 0]
    ensures IsPermutation(p)
    ensures AxisNames(names, p) == [names[1], names[2], names[0]]
    ensures AxisNames(names, Inverse(p)) == [names[2], names[0], names[1]]
  {
    ThreeCycleInverse(p);
  }

  /** A permutation that undoes itself is its own inverse. */
  lemma InverseOfInvolution(p: seq<nat>)
    requires IsPermutation(p) && IsInvolution(p)
    ensures Inverse(p) == p
  {
    InverseFacts(p);
    forall m | 0 <= m < |p|
      ensures Inverse(p)[m] == p[m]
    {
      assert Inverse(p)[p[p[m]]] == p[m];
    }
  }

  /** The names of the axes after result axis `k` is taken from axis `order[k]`. */
  function AxisNames<N>(dims: seq<N>, order: seq<nat>): (r: seq<N>)
    requires forall k :: 0 <= k < |order| ==> order[k] < |dims|
    ensures |r| == |order|
    ensures forall k :: 0 <= k < |order| ==> r[k] == dims[order[k]]
  {
    seq(|order|, k requires 0 <= k < |order| => dims[order[k]])
  }

  // ---------------------------------------------------------------------------
  // np.moveaxis, in the two forms the loaders call it

  /** `[m for m in range(n) if m not in source]`: the axes `moveaxis` leaves in place. */
  function Unmoved(source: seq<nat>, n: nat): (r: seq<nat>)
    ensures Distinct(r)
    ensures forall k :: 0 <= k < |r| ==> r[k] < n && r[k] !in source
    ensures forall m :: 0 <= m < n && m !in source ==> m in r
  {
    if n == 0 then []
    else if n - 1 in source then Unmoved(source, n - 1)
    else Unmoved(source, n - 1) + [n - 1]
  }

  /** When the source list already names every axis, none is left in place. */
  lemma UnmovedOfPermutation(p: seq<nat>)
    requires IsPermutation(p)
    ensures Unmoved(p, |p|) == []
  {
    PermutationCovers(p);
    var u := Unmoved(p, |p|);
    assert Elements(u) == {};
    DistinctCard(u);
  }

  /** `np.moveaxis(t, source, range(len(source)))`: the listed axes go to the
      front in the listed order and the others follow in their old order. An
      axis number out of range raises `AxisError`, a repeated one `ValueError`. */
  function MoveAxisToFront<T>(t: Tensor<T>, source: seq<nat>): (r: Result<Tensor<T>>)
    requires t.Valid()
    ensures r == Err(AxisError) <==> !(forall k :: 0 <= k < |source| ==> source[k] < |t.shape|)
    ensures r == Err(ValueError) <==>
      (forall k :: 0 <= k < |source| ==> source[k] < |t.shape|) && !Distinct(source)
    ensures r.Ok? <==> (forall k :: 0 <= k < |source| ==> source[k] < |t.shape|) && Distinct(source)
    ensures r.Ok? ==>
      (IsPermutation(source + Unmoved(source, |t.shape|))
       && |source + Unmoved(source, |t.shape|)| == |t.shape|
       && r.value == Transpose(t, source + Unmoved(source, |t.shape|)))
  {
    if exists k :: 0 <= k < |source| && source[k] >= |t.shape| then Err(AxisError)
    else if !Distinct(source) then Err(ValueError)
    else
      var order := source + Unmoved(source, |t.shape|);
      CoveringDistinctIsPermutation(order, |t.shape|);
      Ok(Transpose(t, order))
  }

  /** Moving a full permutation of the axes to the front is transposing by it. */
  lemma MoveAxisToFrontPermutation<T>(t: Tensor<T>, order: seq<nat>)
    requires t.Valid() && IsPermutation(order) && |order| == |t.shape|
    ensures MoveAxisToFront(t, order) == Ok(Transpose(t, order))
  {
    UnmovedOfPermutation(order);
    assert order + Unmoved(order, |t.shape|) == order;
  }

  /** `np.moveaxis(t, range(n), destination)` for a full list of destinations:
      axis `k` goes to position `destination[k]`. */
  function MoveAxisFromFront<T>(t: Tensor<T>, destination: seq<nat>): (r: Result<Tensor<T>>)
    requires t.Valid() && |destination| == |t.shape|
    ensures r == Err(AxisError) <==> !(forall k :: 0 <= k < |destination| ==> destination[k] < |t.shape|)
    ensures r == Err(ValueError) <==>
      (forall k :: 0 <= k < |destination| ==> destination[k] < |t.shape|) && !Distinct(destination)
    ensures r.Ok? <==> IsPermutation(destination)
    ensures r.Ok? ==> r.value == Transpose(t, Inverse(destination))
  {
    if exists k :: 0 <= k < |destination| && destination[k] >= |t.shape| then Err(AxisError)
    else if !Distinct(destination) then Err(ValueError)
    else
      InverseFacts(destination);
      Ok(Transpose(t, Inverse(destination)))
  }

  // ---------------------------------------------------------------------------
  // Nested views of three- and four-axis arrays, indexed a[i][j][k]

  type Array3<T> = seq<seq<seq<T>>>
  type Array4<T> = seq<seq<seq<seq<T>>>>

  /** The nested sequence is a full block of the given three-axis shape. */
  predicate Box3<T>(a: Array3<T>, shape: seq<nat>)
  {
    && |shape| == 3 && |a| == shape[0]
    && (forall i :: 0 <= i < |a| ==> |a[i]| == shape[1])
    && (forall i, j :: 0 <= i < |a| && 0 <= j < |a[i]| ==> |a[i][j]| == shape[2])
  }

  /** The nested sequence is a full block of the given four-axis shape. */
  predicate Box4<T>(a: Array4<T>, shape: seq<nat>)
  {
    && |shape| == 4 && |a| == shape[0]
    && (forall i :: 0 <= i < |a| ==> |a[i]| == shape[1])
    && (forall i, r :: 0 <= i < |a| && 0 <= r < |a[i]| ==> |a[i][r]| == shape[2])
    && (forall i, r, j :: 0 <= i < |a| && 0 <= r < |a[i]| && 0 <= j < |a[i][r]| ==> |a[i][r][j]| == shape[3])
  }

  /** A three-axis array seen as nested sequences. */
  function Nest3<T>(t: Tensor<T>): (a: Array3<T>)
    requires t.Valid() && |t.shape| == 3
    ensures Box3(a, t.shape)
  {
    seq(t.shape[0], i requires 0 <= i < t.shape[0] =>
      seq(t.shape[1], j requires 0 <= j < t.shape[1] =>
        seq(t.shape[2], k requires 0 <= k < t.shape[2] => t.At([i, j, k]))))
  }

  lemma Nest3At<T>(t: Tensor<T>, i: nat, j: nat, k: nat)
    requires t.Valid() && InBounds(t.shape, [i, j, k])
    ensures Nest3(t)[i][j][k] == t.At([i, j, k])
  {
  }

  /** The block `t[i, :, :, :]` of a four-axis array, as nested sequences. */
  function Slab<T>(t: Tensor<T>, i: nat): (a: Array3<T>)
    requires t.Valid() && |t.shape| == 4 && i < t.shape[0]
    ensures Box3(a, t.shape[1..])
  {
    seq(t.shape[1], r requires 0 <= r < t.shape[1] =>
      seq(t.shape[2], j requires 0 <= j < t.shape[2] =>
        seq(t.shape[3], k requires 0 <= k < t.shape[3] => t.At([i, r, j, k]))))
  }

  /** A four-axis array seen as nested sequences. */
  function Nest4<T>(t: Tensor<T>): (a: Array4<T>)
    requires t.Valid() && |t.shape| == 4
    ensures Box4(a, t.shape)
  {
    seq(t.shape[0], i requires 0 <= i < t.shape[0] => Slab(t, i))
  }

  lemma Nest4At<T>(t: Tensor<T>, i: nat, r: nat, j: nat, k: nat)
    requires t.Valid() && InBounds(t.shape, [i, r, j, k])
    ensures Nest4(t)[i][r][j][k] == t.At([i, r, j, k])
  {
  }
}
