/** Front lines of Kim and Orsi (2014) are drawn as polylines; a line is
    broken wherever two consecutive points are too far apart. This module
    models the distance test `is_too_far` and the splitting of a front's
    coordinate lists into segments, `split_into_list_of_lists`. Floats are
    modelled as reals. */
module KoPlot {
  import opened Common

  /** Longitudes are compared in [0, 360): a negative one is shifted by 360. */
  function PositiveLon(lon: real): (r: real)
    ensures r == lon || r == lon + 360.0
    ensures -360.0 <= lon < 360.0 ==> 0.0 <= r < 360.0
  {
    if lon < 0.0 then lon + 360.0 else lon
  }

  /** One (shifted) longitude lies just west of the Greenwich meridian and the
      other just east of it, within the tolerance `m`. */
  predicate AcrossMeridian(a: real, b: real, m: real)
  {
    (a > 360.0 - m && b < m) || (b > 360.0 - m && a < m)
  }

  function SquaredDistance(latA: real, latB: real, lonA: real, lonB: real): real
  {
    (latA - latB) * (latA - latB) + (lonA - lonB) * (lonA - lonB)
  }

  /** `is_too_far`: both latitudes must lie above the South Pole (asserted);
      points on either side of the meridian are never too far; otherwise the
      squared planar distance must exceed `maxSquare` strictly. */
  function IsTooFar(latA: real := 0.0, latB: real := 0.0, lonA: real := 0.0, lonB: real := 0.0,
                    maxSquare: real := 1.0): (r: Result<bool>)
    ensures r.Err? <==> latA <= -90.0 || latB <= -90.0
    ensures r.Err? ==> r.error == AssertionError
    ensures r.Ok? ==>
      (r.value <==>
        !AcrossMeridian(PositiveLon(lonA), PositiveLon(lonB), maxSquare)
        && SquaredDistance(latA, latB, PositiveLon(lonA), PositiveLon(lonB)) > maxSquare)
  {
    if !(latA > -90.0) then Err(AssertionError)
    else if !(latB > -90.0) then Err(AssertionError)
    else
      var a := PositiveLon(lonA);
      var b := PositiveLon(lonB);
      if a > 360.0 - maxSquare && b < maxSquare then Ok(false)
      else if b > 360.0 - maxSquare && a < maxSquare then Ok(false)
      else Ok(SquaredDistance(latA, latB, a, b) > maxSquare)
  }

  /** The test does not depend on which point comes first. */
  lemma IsTooFarSymmetric(latA: real, latB: real, lonA: real, lonB: real, maxSquare: real)
    ensures IsTooFar(latA, latB, lonA, lonB, maxSquare) == IsTooFar(latB, latA, lonB, lonA, maxSquare)
  {
    var a, b := PositiveLon(lonA), PositiveLon(lonB);
    assert SquaredDistance(latA, latB, a, b) == SquaredDistance(latB, latA, b, a);
  }

  /** A longitude in [0, 360) and the same meridian written as a negative
      longitude are treated alike. */
  lemma IsTooFarWestEquivalent(latA: real, latB: real, lonA: real, lonB: real, maxSquare: real)
    requires 0.0 <= lonA < 360.0
    ensures IsTooFar(latA, latB, lonA - 360.0, lonB, maxSquare) == IsTooFar(latA, latB, lonA, lonB, maxSquare)
  {
    assert PositiveLon(lonA - 360.0) == lonA;
  }

  /** A point is never too far from itself when the tolerance is not negative. */
  lemma IsTooFarSamePoint(lat: real, lon: real, maxSquare: real)
    requires lat > -90.0 && maxSquare >= 0.0
    ensures IsTooFar(lat, lat, lon, lon, maxSquare) == Ok(false)
  {
    assert SquaredDistance(lat, lat, PositiveLon(lon), PositiveLon(lon)) == 0.0;
  }

  /** Crossing the meridian does not break the line, although the points are
      almost 360 degrees of longitude apart on the plane. */
  lemma IsTooFarAcrossGreenwich()
    ensures IsTooFar(-60.0, -60.0, 359.5, 0.25, 1.0) == Ok(false)
    ensures IsTooFar(-60.0, -60.0, -0.5, 0.25, 1.0) == Ok(false)
    ensures SquaredDistance(-60.0, -60.0, 359.5, 0.25) > 1.0
  {
  }

  // ---------------------------------------------------------------------------
  // Splitting a sequence at cut positions

  /** Cut positions: strictly increasing and strictly inside a sequence of
      length `n` (stated from the last cut backwards, the way `SplitAt` cuts). */
  predicate ValidCuts(cuts: seq<nat>, n: nat)
    decreases |cuts|
  {
    |cuts| == 0 || (0 < cuts[|cuts| - 1] < n && ValidCuts(cuts[..|cuts| - 1], cuts[|cuts| - 1]))
  }

  /** Valid cuts lie strictly inside the sequence and strictly increase. */
  lemma {:induction false} ValidCutsFacts(cuts: seq<nat>, n: nat)
    requires ValidCuts(cuts, n)
    ensures forall k :: 0 <= k < |cuts| ==> 0 < cuts[k] < n
    ensures forall k, l :: 0 <= k < l < |cuts| ==> cuts[k] < cuts[l]
    decreases |cuts|
  {
    if |cuts| > 0 {
      var init := cuts[..|cuts| - 1];
      ValidCutsFacts(init, cuts[|cuts| - 1]);
      assert forall k :: 0 <= k < |init| ==> cuts[k] == init[k];
    }
  }

  /** Valid cuts stay valid in a longer sequence. */
  lemma ValidCutsWiden(cuts: seq<nat>, n: nat, m: nat)
    requires ValidCuts(cuts, n) && n <= m
    ensures ValidCuts(cuts, m)
  {
  }

  /** `s` cut in front of each position in `cuts`: one more piece than cuts. */
  function SplitAt<T>(s: seq<T>, cuts: seq<nat>): (r: seq<seq<T>>)
    requires ValidCuts(cuts, |s|)
    ensures |r| == |cuts| + 1
    decreases |cuts|
  {
    if |cuts| == 0 then [s]
    else
      var c := cuts[|cuts| - 1];
      SplitAt(s[..c], cuts[..|cuts| - 1]) + [s[c..]]
  }

  /** Gluing the pieces back together gives the sequence. */
  lemma {:induction false} SplitAtConcat<T>(s: seq<T>, cuts: seq<nat>)
    requires ValidCuts(cuts, |s|)
    ensures Concat(SplitAt(s, cuts)) == s
    decreases |cuts|
  {
    if |cuts| > 0 {
      var c := cuts[|cuts| - 1];
      SplitAtConcat(s[..c], cuts[..|cuts| - 1]);
      ConcatAppend(SplitAt(s[..c], cuts[..|cuts| - 1]), s[c..]);
      assert s == s[..c] + s[c..];
    }
  }

  /** Where piece `k` of a sequence of length `n` starts and ends. */
  function PieceStart(cuts: seq<nat>, k: nat): nat
    requires k <= |cuts|
  {
    if k == 0 then 0 else cuts[k - 1]
  }

  function PieceEnd(cuts: seq<nat>, n: nat, k: nat): nat
    requires k <= |cuts|
  {
    if k == |cuts| then n else cuts[k]
  }

  /** Piece `k` runs from cut `k - 1` (or the start) to cut `k` (or the end). */
  lemma {:induction false} SplitAtPiece<T>(s: seq<T>, cuts: seq<nat>, k: nat)
    requires ValidCuts(cuts, |s|) && k <= |cuts|
    ensures PieceStart(cuts, k) <= PieceEnd(cuts, |s|, k) <= |s|
    ensures SplitAt(s, cuts)[k] == s[PieceStart(cuts, k)..PieceEnd(cuts, |s|, k)]
    decreases |cuts|
  {
    ValidCutsFacts(cuts, |s|);
    if 0 < k < |cuts| {
      assert cuts[k - 1] < cuts[k];
    }
    if k < |cuts| {
      var c := cuts[|cuts| - 1];
      var init := cuts[..|cuts| - 1];
      SplitAtPiece(s[..c], init, k);
      if k < |init| {
        assert init[k] == cuts[k] <= c;
      }
      assert SplitAt(s, cuts)[k] == SplitAt(s[..c], init)[k];
    }
  }

  /** Two sequences of equal length cut at the same positions give pieces of
      pairwise equal lengths, all non-empty when the sequences are. */
  lemma SplitAtLengths<T, U>(s: seq<T>, t: seq<U>, cuts: seq<nat>)
    requires |s| == |t| && ValidCuts(cuts, |s|)
    ensures forall k :: 0 <= k <= |cuts| ==> |SplitAt(s, cuts)[k]| == |SplitAt(t, cuts)[k]|
    ensures |s| > 0 ==> forall k :: 0 <= k <= |cuts| ==> |SplitAt(s, cuts)[k]| > 0
  {
    forall k | 0 <= k <= |cuts|
      ensures |SplitAt(s, cuts)[k]| == |SplitAt(t, cuts)[k]|
      ensures |s| > 0 ==> |SplitAt(s, cuts)[k]| > 0
    {
      SplitAtPiece(s, cuts, k);
      SplitAtPiece(t, cuts, k);
      ValidCutsFacts(cuts, |s|);
      if 0 < k < |cuts| {
        assert cuts[k - 1] < cuts[k];
      }
    }
  }

  /** One more element without a cut joins the last piece. */
  lemma {:induction false} SplitAtAppend<T>(s: seq<T>, x: T, cuts: seq<nat>)
    requires ValidCuts(cuts, |s|)
    ensures ValidCuts(cuts, |s| + 1)
    ensures SplitAt(s + [x], cuts) == SplitAt(s, cuts)[|cuts| := SplitAt(s, cuts)[|cuts|] + [x]]
    decreases |cuts|
  {
    ValidCutsWiden(cuts, |s|, |s| + 1);
    if |cuts| > 0 {
      var c := cuts[|cuts| - 1];
      assert (s + [x])[..c] == s[..c];
      assert (s + [x])[c..] == s[c..] + [x];
    }
  }

  /** One more element after a new cut is a piece of its own. */
  lemma SplitAtAppendCut<T>(s: seq<T>, x: T, cuts: seq<nat>)
    requires |s| > 0 && ValidCuts(cuts, |s|)
    ensures ValidCuts(cuts + [|s|], |s| + 1)
    ensures SplitAt(s + [x], cuts + [|s|]) == SplitAt(s, cuts) + [[x]]
  {
    var cs := cuts + [|s|];
    assert cs[..|cs| - 1] == cuts;
    assert (s + [x])[..|s|] == s;
    assert (s + [x])[|s|..] == [x];
  }

  // ---------------------------------------------------------------------------
  // split_into_list_of_lists

  /** The first `n` latitudes pass the assertion of `is_too_far`. */
  predicate LatsValid(ys: seq<real>, n: nat)
    requires n <= |ys|
  {
    forall k :: 0 <= k < n ==> ys[k] > -90.0
  }

  /** Points `i` and `i + 1` of the front (x longitude, y latitude) are too
      far apart; a comparison that fails its assertion is not a break. */
  predicate TooFarAt(xs: seq<real>, ys: seq<real>, maxSquare: real, i: nat)
    requires i + 1 < |xs| && i + 1 < |ys|
  {
    IsTooFar(ys[i], ys[i + 1], xs[i], xs[i + 1], maxSquare) == Ok(true)
  }

  /** For the first `n` points, flag `i` says whether points `i` and `i + 1`
      are too far apart. */
  function FarFlags(xs: seq<real>, ys: seq<real>, maxSquare: real, n: nat): (f: seq<bool>)
    requires 0 < n <= |xs| && n <= |ys|
    ensures |f| == n - 1
  {
    seq(n - 1, i requires 0 <= i < n - 1 => TooFarAt(xs, ys, maxSquare, i))
  }

  /** One more point adds one more flag. */
  lemma FarFlagsStep(xs: seq<real>, ys: seq<real>, maxSquare: real, n: nat)
    requires 0 < n < |xs| && n < |ys|
    ensures FarFlags(xs, ys, maxSquare, n + 1) == FarFlags(xs, ys, maxSquare, n) + [TooFarAt(xs, ys, maxSquare, n - 1)]
  {
  }

  /** The cut positions flags ask for: a cut in front of point `i + 1`
      wherever flag `i` is set. */
  function CutsOf(f: seq<bool>): (c: seq<nat>)
    ensures ValidCuts(c, |f| + 1)
    decreases |f|
  {
    if |f| == 0 then []
    else
      var rest := CutsOf(f[..|f| - 1]);
      if f[|f| - 1] then
        assert (rest + [|f|])[..|rest|] == rest;
        rest + [|f|]
      else
        ValidCutsWiden(rest, |f|, |f| + 1);
        rest
  }

  lemma {:induction false} CutsOfMembers(f: seq<bool>)
    ensures forall p: nat :: p in CutsOf(f) <==> 0 < p <= |f| && f[p - 1]
    decreases |f|
  {
    if |f| > 0 {
      CutsOfMembers(f[..|f| - 1]);
    }
  }

  lemma CutsOfStep(f: seq<bool>, b: bool)
    ensures CutsOf(f + [b]) == if b then CutsOf(f) + [|f| + 1] else CutsOf(f)
  {
    assert (f + [b])[..|f|] == f;
    assert (f + [b])[|f|] == b;
  }

  /** Where the first `n` points are broken. */
  function Breaks(xs: seq<real>, ys: seq<real>, maxSquare: real, n: nat): (b: seq<nat>)
    requires 0 < n <= |xs| && n <= |ys|
    ensures ValidCuts(b, n)
  {
    CutsOf(FarFlags(xs, ys, maxSquare, n))
  }

  /** A position is a break exactly when the points on either side of it
      are too far apart. */
  lemma BreaksMembers(xs: seq<real>, ys: seq<real>, maxSquare: real, n: nat)
    requires 0 < n <= |xs| && n <= |ys|
    ensures forall p: nat :: p in Breaks(xs, ys, maxSquare, n) <==> 0 < p < n && TooFarAt(xs, ys, maxSquare, p - 1)
  {
    CutsOfMembers(FarFlags(xs, ys, maxSquare, n));
  }

  /** Taking in one more point adds a break at it exactly when it is too far
      from the point before. */
  lemma BreaksStep(xs: seq<real>, ys: seq<real>, maxSquare: real, n: nat)
    requires 0 < n < |xs| && n < |ys|
    ensures Breaks(xs, ys, maxSquare, n + 1)
         == if TooFarAt(xs, ys, maxSquare, n - 1) then Breaks(xs, ys, maxSquare, n) + [n] else Breaks(xs, ys, maxSquare, n)
  {
    FarFlagsStep(xs, ys, maxSquare, n);
    CutsOfStep(FarFlags(xs, ys, maxSquare, n), TooFarAt(xs, ys, maxSquare, n - 1));
  }

  /** The split step of one more point: without a break it joins the last
      piece, after a break it starts a piece of its own. */
  lemma SplitStep<T>(s: seq<T>, i: nat, cuts: seq<nat>, cut: bool)
    requires i + 1 < |s| && ValidCuts(cuts, i + 1)
    ensures ValidCuts(if cut then cuts + [i + 1] else cuts, i + 2)
    ensures
      var lol := if cut then SplitAt(s[..i + 1], cuts) + [[]] else SplitAt(s[..i + 1], cuts);
      SplitAt(s[..i + 2], if cut then cuts + [i + 1] else cuts)
        == lol[|lol| - 1 := lol[|lol| - 1] + [s[i + 1]]]
  {
    assert s[..i + 2] == s[..i + 1] + [s[i + 1]];
    if cut {
      SplitAtAppendCut(s[..i + 1], s[i + 1], cuts);
      var base := SplitAt(s[..i + 1], cuts);
      var lol := base + [[]];
      assert lol[|base|] == [];
      assert [] + [s[i + 1]] == [s[i + 1]];
      assert lol[|base| := [s[i + 1]]] == base + [[s[i + 1]]];
    } else {
      SplitAtAppend(s[..i + 1], s[i + 1], cuts);
    }
  }

  /** The input can be split without an exception: at least one point, a
      latitude for every longitude, and (when there is a pair to compare)
      every latitude above the South Pole. */
  predicate Splittable(xs: seq<real>, ys: seq<real>)
  {
    0 < |xs| <= |ys| && (|xs| == 1 || LatsValid(ys, |xs|))
  }

  /** Some comparison the loop reaches sees a latitude at or below -90. */
  predicate LatAssertFails(xs: seq<real>, ys: seq<real>)
  {
    |xs| >= 2 && exists k :: 0 <= k < |xs| && k < |ys| && (if k == 0 then 1 else k) < |ys| && ys[k] <= -90.0
  }

  /** The exception `split_into_list_of_lists` raises: the assertion of
      `is_too_far` when a comparison it reaches sees a bad latitude before a
      latitude runs out, IndexError otherwise. */
  function SplitError(xs: seq<real>, ys: seq<real>): (e: Error)
    ensures e == AssertionError || e == IndexError
  {
    if LatAssertFails(xs, ys) then AssertionError else IndexError
  }

  /** The loop reaches step `i` with no latitude left for point `i + 1`:
      `list_of_ys[i + 1]` raises IndexError, no assertion having failed. */
  lemma LatitudesRunOut(xs: seq<real>, ys: seq<real>, i: nat)
    requires i + 1 < |xs| && i + 1 == |ys| && (i == 0 || LatsValid(ys, i + 1))
    ensures !Splittable(xs, ys) && SplitError(xs, ys) == IndexError
  {
  }

  /** The loop reaches step `i` and `is_too_far` sees a latitude at or below -90. */
  lemma BadLatitudeReached(xs: seq<real>, ys: seq<real>, i: nat)
    requires i + 1 < |xs| && i + 1 < |ys| && (ys[i] <= -90.0 || ys[i + 1] <= -90.0)
    ensures !Splittable(xs, ys) && SplitError(xs, ys) == AssertionError
  {
    var k := if ys[i] <= -90.0 then i else i + 1;
    assert (if k == 0 then 1 else k) < |ys|;
  }

  /** One step of the loop keeps the segments equal to the split of the
      points seen so far at their breaks. */
  lemma SplitLoopStep(xs: seq<real>, ys: seq<real>, maxSquare: real, i: nat,
                      lolXs: seq<seq<real>>, lolYs: seq<seq<real>>, far: bool)
    requires i + 1 < |xs| && i + 1 < |ys| && (i == 0 || LatsValid(ys, i + 1))
    requires ys[i] > -90.0 && ys[i + 1] > -90.0
    requires far == TooFarAt(xs, ys, maxSquare, i)
    requires lolXs == SplitAt(xs[..i + 1], Breaks(xs, ys, maxSquare, i + 1))
    requires lolYs == SplitAt(ys[..i + 1], Breaks(xs, ys, maxSquare, i + 1))
    ensures LatsValid(ys, i + 2)
    ensures
      var lx := if far then lolXs + [[]] else lolXs;
      lx[|lx| - 1 := lx[|lx| - 1] + [xs[i + 1]]] == SplitAt(xs[..i + 2], Breaks(xs, ys, maxSquare, i + 2))
    ensures
      var ly := if far then lolYs + [[]] else lolYs;
      ly[|ly| - 1 := ly[|ly| - 1] + [ys[i + 1]]] == SplitAt(ys[..i + 2], Breaks(xs, ys, maxSquare, i + 2))
  {
    assert LatsValid(ys, i + 2);
    var cuts := Breaks(xs, ys, maxSquare, i + 1);
    BreaksStep(xs, ys, maxSquare, i + 1);
    SplitStep(xs, i, cuts, far);
    SplitStep(ys, i, cuts, far);
  }

  /** `split_into_list_of_lists`: the x and the y lists cut at the same
      breaks. Extra latitudes beyond the longitudes are ignored. */
  method SplitIntoListOfLists(maxSquare: real := 1.0, xs: seq<real> := [0.0], ys: seq<real> := [0.0])
    returns (r: Result<(seq<seq<real>>, seq<seq<real>>)>)
    ensures r.Err? <==> !Splittable(xs, ys)
    ensures r.Err? ==> r.error == SplitError(xs, ys)
    ensures r.Ok? ==>
      && Splittable(xs, ys)
      && r.value.0 == SplitAt(xs, Breaks(xs, ys, maxSquare, |xs|))
      && r.value.1 == SplitAt(ys[..|xs|], Breaks(xs, ys, maxSquare, |xs|))
  {
    if |xs| == 0 || |ys| == 0 {
      return Err(IndexError);
    }
    var lolXs := [[xs[0]]];
    var lolYs := [[ys[0]]];
    var indexLists := 0;
    assert xs[..1] == [xs[0]] && ys[..1] == [ys[0]];
    for i := 0 to |xs| - 1
      invariant i < |ys|
      invariant i == 0 || LatsValid(ys, i + 1)
      invariant indexLists + 1 == |lolXs| == |lolYs|
      invariant lolXs == SplitAt(xs[..i + 1], Breaks(xs, ys, maxSquare, i + 1))
      invariant lolYs == SplitAt(ys[..i + 1], Breaks(xs, ys, maxSquare, i + 1))
    {
      if i + 1 >= |ys| {
        LatitudesRunOut(xs, ys, i);
        return Err(IndexError);
      }
      var tooFar := IsTooFar(ys[i], ys[i + 1], xs[i], xs[i + 1], maxSquare);
      if tooFar.Err? {
        BadLatitudeReached(xs, ys, i);
        return Err(AssertionError);
      }
      SplitLoopStep(xs, ys, maxSquare, i, lolXs, lolYs, tooFar.value);
      if tooFar.value {
        indexLists := indexLists + 1;
        lolXs := lolXs + [[]];
        lolYs := lolYs + [[]];
      }
      lolYs := lolYs[indexLists := lolYs[indexLists] + [ys[i + 1]]];
      lolXs := lolXs[indexLists := lolXs[indexLists] + [xs[i + 1]]];
    }
    assert xs[..|xs|] == xs;
    return Ok((lolXs, lolYs));
  }

  /** What the split promises: the x segments glue back to the longitudes and
      the y segments to the latitudes; there is one segment more than there
      are breaks; and the x and y segments pair up with equal, non-zero
      lengths. */
  lemma SplitIntoListOfListsFacts(xs: seq<real>, ys: seq<real>, maxSquare: real)
    requires Splittable(xs, ys)
    ensures
      var b := Breaks(xs, ys, maxSquare, |xs|);
      var lolXs, lolYs := SplitAt(xs, b), SplitAt(ys[..|xs|], b);
      && Concat(lolXs) == xs
      && Concat(lolYs) == ys[..|xs|]
      && |lolXs| == |lolYs| == |b| + 1
      && (forall k :: 0 <= k <= |b| ==> 0 < |lolXs[k]| == |lolYs[k]|)
  {
    var b := Breaks(xs, ys, maxSquare, |xs|);
    SplitAtConcat(xs, b);
    SplitAtConcat(ys[..|xs|], b);
    SplitAtLengths(xs, ys[..|xs|], b);
  }

  /** Segment `k > 0` begins with the point at break `k - 1`, a point too far
      from the one before it. */
  lemma SegmentStartsAtBreak(xs: seq<real>, ys: seq<real>, maxSquare: real, k: nat)
    requires Splittable(xs, ys) && 0 < k <= |Breaks(xs, ys, maxSquare, |xs|)|
    ensures 0 < Breaks(xs, ys, maxSquare, |xs|)[k - 1] < |xs|
    ensures |SplitAt(xs, Breaks(xs, ys, maxSquare, |xs|))[k]| > 0
    ensures
      var b := Breaks(xs, ys, maxSquare, |xs|);
      && SplitAt(xs, b)[k][0] == xs[b[k - 1]]
      && TooFarAt(xs, ys, maxSquare, b[k - 1] - 1)
  {
    var b := Breaks(xs, ys, maxSquare, |xs|);
    SplitAtPiece(xs, b, k);
    ValidCutsFacts(b, |xs|);
    if k < |b| {
      assert b[k - 1] < b[k];
    }
    BreaksMembers(xs, ys, maxSquare, |xs|);
    assert b[k - 1] in b;
  }
}
