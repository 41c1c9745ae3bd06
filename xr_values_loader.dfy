/** Turning a labelled array into a bare array whose axes follow a requested
    list of dimension names: `order_indexes` (by name) and the earlier
    `_old_order_indexes` (by coordinate length). */
module XrValuesLoader {
  import opened Common
  import opened Tensors

  /** The part of an xarray DataArray the loaders read: dimension names in
      storage order, the length of each named coordinate, and the values. */
  datatype DataArray<T> = DataArray(dims: seq<string>, coords: map<string, nat>, values: Tensor<T>)
  {
    /** xarray's own invariants: one distinct name per axis, and a coordinate
        named after a dimension is as long as that axis. */
    predicate Valid()
    {
      && values.Valid()
      && |dims| == |values.shape|
      && Distinct(dims)
      && forall k :: 0 <= k < |dims| && dims[k] in coords ==> coords[dims[k]] == values.shape[k]
    }
  }

  // ---------------------------------------------------------------------------
  // order_indexes

  /** Every dimension of the array occurs in the requested list. */
  predicate AllListed(dims: seq<string>, indexList: seq<string>)
  {
    forall k :: 0 <= k < |dims| ==> dims[k] in indexList
  }

  /** `init_list`: the position of each dimension, in storage order, within the
      requested list. Distinct dimensions get distinct positions. */
  function Positions(dims: seq<string>, indexList: seq<string>): (p: seq<nat>)
    requires AllListed(dims, indexList)
    ensures |p| == |dims|
    ensures forall k :: 0 <= k < |dims| ==> p[k] < |indexList| && indexList[p[k]] == dims[k]
    ensures forall k :: 0 <= k < |dims| ==> forall j :: 0 <= j < p[k] ==> indexList[j] != dims[k]
    ensures Distinct(dims) ==> Distinct(p)
  {
    seq(|dims|, k requires 0 <= k < |dims| => IndexOf(indexList, dims[k]).value)
  }

  /** Every dimension is found among the first `ndim` requested names, so every
      position is a valid axis number for `moveaxis`. */
  predicate Reorderable(dims: seq<string>, indexList: seq<string>)
  {
    AllListed(dims, indexList) && forall k :: 0 <= k < |dims| ==> Positions(dims, indexList)[k] < |dims|
  }

  /** What a reorderable request implies: the positions form a permutation,
      the first `ndim` requested names are the dimensions without repeats, and
      requested name `m` is the dimension at inverse position `m`. */
  lemma ReorderableFacts(dims: seq<string>, indexList: seq<string>)
    requires Distinct(dims) && Reorderable(dims, indexList)
    ensures IsPermutation(Positions(dims, indexList))
    ensures |dims| <= |indexList|
    ensures forall m :: 0 <= m < |dims| ==> indexList[m] == dims[Inverse(Positions(dims, indexList))[m]]
    ensures Distinct(indexList[..|dims|])
  {
    var p := Positions(dims, indexList);
    var inv := Inverse(p);
    if |dims| > 0 {
      assert p[inv[|dims| - 1]] == |dims| - 1;
    }
    forall m | 0 <= m < |dims|
      ensures indexList[m] == dims[inv[m]]
    {
      assert p[inv[m]] == m;
    }
  }

  /** The loop building `init_list`; `list.index` raises ValueError on a
      dimension missing from the requested list. */
  method InitList(dims: seq<string>, indexList: seq<string>) returns (r: Result<seq<nat>>)
    ensures r.Err? <==> !AllListed(dims, indexList)
    ensures r.Err? ==> r.error == ValueError
    ensures r.Ok? ==> r.value == Positions(dims, indexList)
  {
    var initList: seq<nat> := [];
    for k := 0 to |dims|
      invariant |initList| == k
      invariant forall m :: 0 <= m < k ==> dims[m] in indexList && initList[m] == IndexOf(indexList, dims[m]).value
    {
      var pos := IndexOf(indexList, dims[k]);
      if pos.None? {
        return Err(ValueError);
      }
      initList := initList + [pos.value];
    }
    return Ok(initList);
  }

  /** `order_indexes` as written: `moveaxis(values, init_list, range(ndim))`,
      so result axis `k` is input axis `init_list[k]`. */
  method OrderIndexes<T>(da: DataArray<T>, indexList: seq<string>) returns (r: Result<Tensor<T>>)
    requires da.Valid()
    ensures r == Err(ValueError) <==> !AllListed(da.dims, indexList)
    ensures r == Err(AxisError) <==> AllListed(da.dims, indexList) && !Reorderable(da.dims, indexList)
    ensures r.Ok? <==> Reorderable(da.dims, indexList)
    ensures r.Ok? ==> r.value == Transpose(da.values, Positions(da.dims, indexList))
  {
    var init := InitList(da.dims, indexList);
    if init.Err? {
      return Err(init.error);
    }
    r := MoveAxisToFront(da.values, init.value);
    if Reorderable(da.dims, indexList) {
      MoveAxisToFrontPermutation(da.values, init.value);
    }
  }

  /** `order_indexes` as its documentation intends, `moveaxis(values,
      range(ndim), init_list)`: result axis `k` is the axis named `index_list[k]`. */
  method OrderIndexesCorrected<T>(da: DataArray<T>, indexList: seq<string>) returns (r: Result<Tensor<T>>)
    requires da.Valid()
    ensures r == Err(ValueError) <==> !AllListed(da.dims, indexList)
    ensures r == Err(AxisError) <==> AllListed(da.dims, indexList) && !Reorderable(da.dims, indexList)
    ensures r.Ok? <==> Reorderable(da.dims, indexList)
    ensures r.Ok? ==> r.value == Transpose(da.values, Inverse(Positions(da.dims, indexList)))
  {
    var init := InitList(da.dims, indexList);
    if init.Err? {
      return Err(init.error);
    }
    r := MoveAxisFromFront(da.values, init.value);
  }

  /** As written, the result's axes carry the requested names exactly when the
      dimension-to-request permutation is its own inverse. */
  lemma OrderIndexesNames(dims: seq<string>, indexList: seq<string>)
    requires Distinct(dims) && Reorderable(dims, indexList)
    ensures |dims| <= |indexList|
    ensures AxisNames(dims, Positions(dims, indexList)) == indexList[..|dims|]
        <==> IsInvolution(Positions(dims, indexList))
  {
    ReorderableFacts(dims, indexList);
    var p := Positions(dims, indexList);
    var n := |dims|;
    if IsInvolution(p) {
      forall k | 0 <= k < n
        ensures dims[p[k]] == indexList[k]
      {
        assert indexList[p[p[k]]] == dims[p[k]];
      }
    }
    if AxisNames(dims, p) == indexList[..n] {
      forall k | 0 <= k < n
        ensures p[p[k]] == k
      {
        var j := p[k];
        assert indexList[..n][p[j]] == dims[j] == indexList[..n][k];
      }
    }
  }

  /** The corrected reordering always gives the result axes the requested names. */
  lemma OrderIndexesCorrectedNames(dims: seq<string>, indexList: seq<string>)
    requires Distinct(dims) && Reorderable(dims, indexList)
    ensures |dims| <= |indexList|
    ensures AxisNames(dims, Inverse(Positions(dims, indexList))) == indexList[..|dims|]
  {
    ReorderableFacts(dims, indexList);
  }

  /** The length of the axis called `name`. */
  function SizeOf<T>(da: DataArray<T>, name: string): nat
    requires da.Valid() && name in da.dims
  {
    da.values.shape[IndexOf(da.dims, name).value]
  }

  /** After the corrected reordering, result axis `k` is as long as the
      dimension the request names at position `k`. */
  lemma OrderIndexesCorrectedShape<T>(da: DataArray<T>, indexList: seq<string>)
    requires da.Valid() && Reorderable(da.dims, indexList)
    ensures |da.dims| <= |indexList|
    ensures IsPermutation(Inverse(Positions(da.dims, indexList)))
    ensures forall k :: 0 <= k < |da.dims| ==> indexList[k] in da.dims
    ensures forall k :: 0 <= k < |da.dims| ==>
      Transpose(da.values, Inverse(Positions(da.dims, indexList))).shape[k] == SizeOf(da, indexList[k])
  {
    ReorderableFacts(da.dims, indexList);
    var p := Positions(da.dims, indexList);
    InverseFacts(p);
    var inv := Inverse(p);
    forall k | 0 <= k < |da.dims|
      ensures indexList[k] in da.dims
      ensures Transpose(da.values, inv).shape[k] == SizeOf(da, indexList[k])
    {
      IndexOfDistinct(da.dims, inv[k]);
    }
  }

  /** On a self-inverse permutation, such as a single swap, the code as
      written and the corrected code give the same array. */
  lemma OrderIndexesAgreeOnInvolution<T>(da: DataArray<T>, indexList: seq<string>)
    requires da.Valid() && Reorderable(da.dims, indexList)
    requires IsInvolution(Positions(da.dims, indexList))
    ensures Transpose(da.values, Positions(da.dims, indexList))
         == Transpose(da.values, Inverse(Positions(da.dims, indexList)))
  {
    InverseOfInvolution(Positions(da.dims, indexList));
  }

  /** Swapping the first two of four distinct names. */
  lemma SwapFirstTwo(a: string, b: string, c: string, d: string)
    requires a != b && a != c && a != d && b != c && b != d && c != d
    ensures Reorderable([a, b, c, d], [b, a, c, d])
    ensures Positions([a, b, c, d], [b, a, c, d]) == [1, 0, 2, 3]
  {
    var req := [b, a, c, d];
    assert IndexOf(req, a) == Some(1);
    assert IndexOf(req, b) == Some(0);
    assert IndexOf(req, c) == Some(2);
    assert IndexOf(req, d) == Some(3);
  }

  /** The request `pair_i_metric` makes of its rank array is a single swap, so
      the code as written names the result's axes correctly there. */
  lemma RankSwapIsInvolution()
    ensures Reorderable(["rank", "time", "YC", "XC"], ["time", "rank", "YC", "XC"])
    ensures Positions(["rank", "time", "YC", "XC"], ["time", "rank", "YC", "XC"]) == [1, 0, 2, 3]
    ensures IsInvolution([1, 0, 2, 3])
  {
    assert "rank"[0] != "time"[0];
    assert "YC"[0] != "XC"[0];
    SwapFirstTwo("rank", "time", "YC", "XC");
    SwapIsInvolution([1, 0, 2, 3]);
  }

  /** Requesting the last of three distinct names first. */
  lemma LastToFront(a: string, b: string, c: string)
    requires a != b && a != c && b != c
    ensures Reorderable([a, b, c], [c, a, b])
    ensures Positions([a, b, c], [c, a, b]) == [1, 2, 0]
  {
    var req := [c, a, b];
    assert IndexOf(req, a) == Some(1);
    assert IndexOf(req, b) == Some(2);
    assert IndexOf(req, c) == Some(0);
  }

  /** A three-cycle: stored as (YC, XC, time) and requested as (time, YC, XC),
      the dimensions sit at requested positions (1, 2, 0). */
  lemma OrderIndexesThreeCycle()
    ensures Reorderable(["YC", "XC", "time"], ["time", "YC", "XC"])
    ensures Positions(["YC", "XC", "time"], ["time", "YC", "XC"]) == [1, 2, 0]
  {
    assert "YC"[0] != "XC"[0];
    LastToFront("YC", "XC", "time");
  }

  /** That three-cycle is not self-inverse: the code as written returns axes
      (XC, time, YC), the corrected code the requested (time, YC, XC). */
  lemma OrderIndexesThreeCycleNames()
    ensures AxisNames(["YC", "XC", "time"], [1, 2, 0]) == ["XC", "time", "YC"]
    ensures AxisNames(["YC", "XC", "time"], Inverse([1, 2, 0])) == ["time", "YC", "XC"]
  {
    ThreeCycleNames(["YC", "XC", "time"], [1, 2, 0]);
  }

  /** Requesting the array's own dimension order returns the values unchanged
      (by the code as written and by the corrected code). */
  lemma OrderIndexesIdentity<T>(da: DataArray<T>)
    requires da.Valid()
    ensures Reorderable(da.dims, da.dims)
    ensures Positions(da.dims, da.dims) == Range(|da.dims|)
    ensures Transpose(da.values, Positions(da.dims, da.dims)) == da.values
    ensures Transpose(da.values, Inverse(Positions(da.dims, da.dims))) == da.values
  {
    forall k | 0 <= k < |da.dims|
      ensures IndexOf(da.dims, da.dims[k]) == Some(k)
    {
      IndexOfDistinct(da.dims, k);
    }
    var id := Range(|da.dims|);
    TransposeIdentity(da.values);
    assert IsInvolution(id);
    InverseOfInvolution(id);
  }

  /** Labelling the result with the requested names and reordering it back to
      the original dimension order restores the values: the code as written
      only moves elements. */
  lemma OrderIndexesRoundTrip<T>(da: DataArray<T>, indexList: seq<string>)
    requires da.Valid() && Reorderable(da.dims, indexList)
    ensures |da.dims| <= |indexList|
    ensures var back := DataArray(indexList[..|da.dims|], map[],
                                  Transpose(da.values, Positions(da.dims, indexList)));
      && back.Valid()
      && Reorderable(back.dims, da.dims)
      && Transpose(back.values, Positions(back.dims, da.dims)) == da.values
  {
    ReorderableFacts(da.dims, indexList);
    var p := Positions(da.dims, indexList);
    var names := indexList[..|da.dims|];
    InverseFacts(p);
    var q := Positions(names, da.dims);
    forall m | 0 <= m < |names|
      ensures q[m] == Inverse(p)[m]
    {
      IndexOfDistinct(da.dims, Inverse(p)[m]);
    }
    assert q == Inverse(p);
    TransposeRoundTrip(da.values, p);
  }

  /** The same round trip for the corrected reordering. */
  lemma OrderIndexesCorrectedRoundTrip<T>(da: DataArray<T>, indexList: seq<string>)
    requires da.Valid() && Reorderable(da.dims, indexList)
    ensures |da.dims| <= |indexList|
    ensures var back := DataArray(indexList[..|da.dims|], map[],
                                  Transpose(da.values, Inverse(Positions(da.dims, indexList))));
      && back.Valid()
      && Reorderable(back.dims, da.dims)
      && Transpose(back.values, Inverse(Positions(back.dims, da.dims))) == da.values
  {
    ReorderableFacts(da.dims, indexList);
    var p := Positions(da.dims, indexList);
    var names := indexList[..|da.dims|];
    InverseFacts(p);
    var q := Positions(names, da.dims);
    forall m | 0 <= m < |names|
      ensures q[m] == Inverse(p)[m]
    {
      IndexOfDistinct(da.dims, Inverse(p)[m]);
    }
    assert q == Inverse(p);
    TransposeRoundTrip(da.values, Inverse(p));
  }

  // ---------------------------------------------------------------------------
  // _old_order_indexes

  /** The keys of an association list, in order. */
  function Keys<K, V>(d: seq<(K, V)>): (r: seq<K>)
    ensures |r| == |d| && forall i :: 0 <= i < |d| ==> r[i] == d[i].0
  {
    seq(|d|, i requires 0 <= i < |d| => d[i].0)
  }

  /** The values of an association list, in order. */
  function Values<K, V>(d: seq<(K, V)>): (r: seq<V>)
    ensures |r| == |d| && forall i :: 0 <= i < |d| ==> r[i] == d[i].1
  {
    seq(|d|, i requires 0 <= i < |d| => d[i].1)
  }

  /** A sequence without repeats, each element at its first occurrence. */
  function Dedup(s: seq<string>): (r: seq<string>)
    ensures Distinct(r)
    ensures forall x :: x in r <==> x in s
  {
    if |s| == 0 then []
    else
      var d := Dedup(s[..|s| - 1]);
      assert forall x :: x in s <==> x in s[..|s| - 1] || x == s[|s| - 1];
      if s[|s| - 1] in d then d else d + [s[|s| - 1]]
  }

  lemma {:induction false} DedupDistinct(s: seq<string>)
    requires Distinct(s)
    ensures Dedup(s) == s
  {
    if |s| > 0 {
      DedupDistinct(s[..|s| - 1]);
      assert s == s[..|s| - 1] + [s[|s| - 1]];
    }
  }

  /** `d[k] = v` on an insertion-ordered dict: an existing key keeps its place. */
  function Assign<K(==), V>(d: seq<(K, V)>, k: K, v: V): (r: seq<(K, V)>)
    requires Distinct(Keys(d))
    ensures Distinct(Keys(r))
    ensures Keys(r) == if k in Keys(d) then Keys(d) else Keys(d) + [k]
    ensures forall i :: 0 <= i < |r| ==> r[i] == if r[i].0 == k then (k, v) else d[i]
  {
    match IndexOf(Keys(d), k)
    case None => d + [(k, v)]
    case Some(i) => d[i := (k, v)]
  }

  /** `collections.OrderedDict(pairs)`: keys in order of first appearance,
      each with the last value given for it. */
  function OrderedDictOf<K(==), V>(pairs: seq<(K, V)>): (d: seq<(K, V)>)
    ensures Distinct(Keys(d))
  {
    if |pairs| == 0 then []
    else
      var last := pairs[|pairs| - 1];
      Assign(OrderedDictOf(pairs[..|pairs| - 1]), last.0, last.1)
  }

  /** Pairs that agree with a lookup table give a dict whose keys are the
      requested keys without repeats, each with its looked-up value. */
  lemma {:induction false} OrderedDictOfLookup<V>(pairs: seq<(string, V)>, table: map<string, V>)
    requires forall j :: 0 <= j < |pairs| ==> pairs[j].0 in table && pairs[j].1 == table[pairs[j].0]
    ensures Keys(OrderedDictOf(pairs)) == Dedup(Keys(pairs))
    ensures forall i :: 0 <= i < |OrderedDictOf(pairs)| ==>
      OrderedDictOf(pairs)[i].0 in table && OrderedDictOf(pairs)[i].1 == table[OrderedDictOf(pairs)[i].0]
  {
    if |pairs| > 0 {
      var init := pairs[..|pairs| - 1];
      OrderedDictOfLookup(init, table);
      assert Keys(init) == Keys(pairs)[..|pairs| - 1];
    }
  }

  /** A dict built from pairs with distinct keys holds exactly those pairs. */
  lemma {:induction false} OrderedDictOfDistinct<K, V>(pairs: seq<(K, V)>)
    requires Distinct(Keys(pairs))
    ensures OrderedDictOf(pairs) == pairs
  {
    if |pairs| > 0 {
      var init := pairs[..|pairs| - 1];
      assert Keys(init) == Keys(pairs)[..|pairs| - 1];
      OrderedDictOfDistinct(init);
      assert pairs[|pairs| - 1].0 !in Keys(init);
    }
  }

  /** Every requested name is a coordinate of the array. */
  predicate AllCoordinates<T>(da: DataArray<T>, names: seq<string>)
  {
    forall x :: x in names ==> x in da.coords
  }

  /** Every requested coordinate is as long as some axis. */
  predicate AllLengthsFound<T>(da: DataArray<T>, names: seq<string>)
    requires AllCoordinates(da, names)
  {
    forall x :: x in names ==> da.coords[x] in da.values.shape
  }

  /** The source axes `_old_order_indexes` computes: for each requested
      coordinate (repeats dropped), the first axis whose length equals the
      coordinate's length. */
  function LengthSources<T>(da: DataArray<T>, indexList: seq<string>): (src: seq<nat>)
    requires AllCoordinates(da, indexList) && AllLengthsFound(da, indexList)
    ensures |src| == |Dedup(indexList)|
    ensures forall k :: 0 <= k < |src| ==>
      && Dedup(indexList)[k] in da.coords
      && src[k] < |da.values.shape|
      && da.values.shape[src[k]] == da.coords[Dedup(indexList)[k]]
      && forall j :: 0 <= j < src[k] ==> da.values.shape[j] != da.coords[Dedup(indexList)[k]]
  {
    var keys := Dedup(indexList);
    seq(|keys|, k requires 0 <= k < |keys| => IndexOf(da.values.shape, da.coords[keys[k]]).value)
  }

  /** What `_old_order_indexes` returns or raises: KeyError for a requested
      name that is not a coordinate, ValueError for a coordinate length no axis
      has, and otherwise `moveaxis` of the length-matched axes to the front. */
  function OldOrderIndexesResult<T>(da: DataArray<T>, indexList: seq<string>): Result<Tensor<T>>
    requires da.Valid()
  {
    if !AllCoordinates(da, indexList) then Err(KeyError)
    else if !AllLengthsFound(da, indexList) then Err(ValueError)
    else MoveAxisToFront(da.values, LengthSources(da, indexList))
  }

  /** The loop building `coords_list`: each requested name with its
      coordinate's length; a name that is not a coordinate raises KeyError. */
  method CoordsList<T>(da: DataArray<T>, indexList: seq<string>) returns (r: Result<seq<(string, nat)>>)
    ensures r.Err? <==> !AllCoordinates(da, indexList)
    ensures r.Err? ==> r.error == KeyError
    ensures r.Ok? ==> Keys(r.value) == indexList
    ensures r.Ok? ==> forall j :: 0 <= j < |r.value| ==>
      r.value[j].0 in da.coords && r.value[j].1 == da.coords[r.value[j].0]
  {
    var coordsList: seq<(string, nat)> := [];
    for k := 0 to |indexList|
      invariant |coordsList| == k
      invariant forall j :: 0 <= j < k ==>
        indexList[j] in da.coords && coordsList[j] == (indexList[j], da.coords[indexList[j]])
    {
      if indexList[k] !in da.coords {
        return Err(KeyError);
      }
      coordsList := coordsList + [(indexList[k], da.coords[indexList[k]])];
    }
    return Ok(coordsList);
  }

  /** The loop building `init_position_d`: each key with the first axis of its
      length; `tuple.index` raises ValueError for a length no axis has. */
  method LengthPositions(coordsD: seq<(string, nat)>, shape: seq<nat>) returns (r: Result<seq<(string, nat)>>)
    ensures r.Err? <==> !(forall j :: 0 <= j < |coordsD| ==> coordsD[j].1 in shape)
    ensures r.Err? ==> r.error == ValueError
    ensures r.Ok? ==> Keys(r.value) == Keys(coordsD)
    ensures r.Ok? ==> forall j :: 0 <= j < |coordsD| ==>
      coordsD[j].1 in shape && r.value[j].1 == IndexOf(shape, coordsD[j].1).value
  {
    var initPosition: seq<(string, nat)> := [];
    for k := 0 to |coordsD|
      invariant |initPosition| == k
      invariant forall j :: 0 <= j < k ==>
        coordsD[j].1 in shape && initPosition[j] == (coordsD[j].0, IndexOf(shape, coordsD[j].1).value)
    {
      var pos := IndexOf(shape, coordsD[k].1);
      if pos.None? {
        return Err(ValueError);
      }
      initPosition := initPosition + [(coordsD[k].0, pos.value)];
    }
    return Ok(initPosition);
  }

  /** The dict's lengths are all axis lengths exactly when every requested
      coordinate's length is. */
  lemma LengthsFoundIff<T>(da: DataArray<T>, indexList: seq<string>, coordsD: seq<(string, nat)>)
    requires AllCoordinates(da, indexList)
    requires Keys(coordsD) == Dedup(indexList)
    requires forall i :: 0 <= i < |coordsD| ==>
      coordsD[i].0 in da.coords && coordsD[i].1 == da.coords[coordsD[i].0]
    ensures AllLengthsFound(da, indexList) <==> forall j :: 0 <= j < |coordsD| ==> coordsD[j].1 in da.values.shape
  {
    var keys := Dedup(indexList);
    if forall j :: 0 <= j < |coordsD| ==> coordsD[j].1 in da.values.shape {
      forall x | x in indexList
        ensures da.coords[x] in da.values.shape
      {
        assert x in keys;
        var j :| 0 <= j < |keys| && keys[j] == x;
        assert coordsD[j].1 in da.values.shape;
      }
    } else {
      var j :| 0 <= j < |coordsD| && coordsD[j].1 !in da.values.shape;
      assert keys[j] in indexList;
    }
  }

  /** `_old_order_indexes`: pairs each requested name with its coordinate's
      length, looks each length up among the axis lengths, and moves the
      axes found to the front. */
  method OldOrderIndexes<T>(da: DataArray<T>, indexList: seq<string>) returns (r: Result<Tensor<T>>)
    requires da.Valid()
    ensures r == OldOrderIndexesResult(da, indexList)
  {
    var coordsList := CoordsList(da, indexList);
    if coordsList.Err? {
      return Err(KeyError);
    }
    var coordsD := OrderedDictOf(coordsList.value);
    OrderedDictOfLookup(coordsList.value, da.coords);
    var shape := da.values.shape;
    var positions := LengthPositions(coordsD, shape);
    LengthsFoundIff(da, indexList, coordsD);
    if positions.Err? {
      return Err(ValueError);
    }
    OrderedDictOfDistinct(positions.value);
    var initPositionD := OrderedDictOf(positions.value);
    var initList := Values(initPositionD);
    assert initList == LengthSources(da, indexList);
    r := MoveAxisToFront(da.values, initList);
  }

  /** Two different requested coordinates of the same length are matched to
      the same axis, and `moveaxis` refuses the repeated source axis. */
  lemma OldOrderIndexesEqualLengths<T>(da: DataArray<T>, indexList: seq<string>, i: nat, j: nat)
    requires da.Valid() && AllCoordinates(da, indexList) && AllLengthsFound(da, indexList)
    requires i < |indexList| && j < |indexList| && indexList[i] != indexList[j]
    requires da.coords[indexList[i]] == da.coords[indexList[j]]
    ensures OldOrderIndexesResult(da, indexList) == Err(ValueError)
  {
    var keys := Dedup(indexList);
    var src := LengthSources(da, indexList);
    assert indexList[i] in keys && indexList[j] in keys;
    var p :| 0 <= p < |keys| && keys[p] == indexList[i];
    var q :| 0 <= q < |keys| && keys[q] == indexList[j];
    assert src[p] == src[q];
    if p < q {
      assert !Distinct(src);
    } else {
      assert !Distinct(src);
    }
  }

  /** With a request naming every dimension once, every requested name is a
      dimension, at the inverse position of its request. */
  lemma FullRequestFacts<T>(da: DataArray<T>, indexList: seq<string>)
    requires da.Valid()
    requires |indexList| == |da.dims| && AllListed(da.dims, indexList)
    requires forall k :: 0 <= k < |da.dims| ==> da.dims[k] in da.coords
    ensures Reorderable(da.dims, indexList)
    ensures IsPermutation(Positions(da.dims, indexList))
    ensures Distinct(indexList)
    ensures forall m :: 0 <= m < |indexList| ==>
      && indexList[m] == da.dims[Inverse(Positions(da.dims, indexList))[m]]
      && indexList[m] in da.coords
      && da.coords[indexList[m]] == da.values.shape[Inverse(Positions(da.dims, indexList))[m]]
    ensures AllCoordinates(da, indexList) && AllLengthsFound(da, indexList)
  {
    assert Reorderable(da.dims, indexList);
    ReorderableFacts(da.dims, indexList);
    assert indexList[..|da.dims|] == indexList;
    var inv := Inverse(Positions(da.dims, indexList));
    forall x | x in indexList
      ensures x in da.coords && da.coords[x] in da.values.shape
    {
      var m :| 0 <= m < |indexList| && indexList[m] == x;
      assert x == da.dims[inv[m]];
    }
  }

  /** With distinct axis lengths, the first axis of a dimension's length is
      that dimension's own axis. */
  lemma LengthSourcesAreInverse<T>(da: DataArray<T>, indexList: seq<string>)
    requires da.Valid() && Distinct(da.values.shape)
    requires |indexList| == |da.dims| && AllListed(da.dims, indexList)
    requires forall k :: 0 <= k < |da.dims| ==> da.dims[k] in da.coords
    ensures Reorderable(da.dims, indexList)
    ensures AllCoordinates(da, indexList) && AllLengthsFound(da, indexList)
    ensures LengthSources(da, indexList) == Inverse(Positions(da.dims, indexList))
  {
    FullRequestFacts(da, indexList);
    DedupDistinct(indexList);
    var inv := Inverse(Positions(da.dims, indexList));
    var src := LengthSources(da, indexList);
    forall m | 0 <= m < |src|
      ensures src[m] == inv[m]
    {
      IndexOfDistinct(da.values.shape, inv[m]);
    }
  }

  /** When all axis lengths differ and the request names every dimension once,
      matching by length finds the right axes: the old code gives the corrected
      code's result. */
  lemma OldOrderIndexesDistinctLengths<T>(da: DataArray<T>, indexList: seq<string>)
    requires da.Valid() && Distinct(da.values.shape)
    requires |indexList| == |da.dims| && AllListed(da.dims, indexList)
    requires forall k :: 0 <= k < |da.dims| ==> da.dims[k] in da.coords
    ensures Reorderable(da.dims, indexList)
    ensures OldOrderIndexesResult(da, indexList)
         == Ok(Transpose(da.values, Inverse(Positions(da.dims, indexList))))
  {
    LengthSourcesAreInverse(da, indexList);
    InverseFacts(Positions(da.dims, indexList));
    MoveAxisToFrontPermutation(da.values, Inverse(Positions(da.dims, indexList)));
  }
}
