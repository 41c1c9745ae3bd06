/** The isobath outline drawn on the Southern Ocean map: `find_isobath`
    scans a bathymetry grid and records each deep cell once for every
    shallow neighbour it has. Depths are modelled as reals; index -1 wraps to
    the last row or column, as NumPy indexing does. */
module Map {
  import opened Constants

  /** Number of rows (columns) the scan visits: all but the last. */
  function Scanned(length: nat): nat
  {
    if length > 0 then length - 1 else 0
  }

  /** The entry before index `i` along an axis of `length` entries: Python's
      index `i - 1`, which for index 0 is -1 and reads the last entry. Used
      for the row above and the column to the left alike. */
  function Before(length: nat, i: nat): (r: nat)
    requires i < length
    ensures r < length && (r + 1 == i || (i == 0 && r + 1 == length))
  {
    if i == 0 then length - 1 else i - 1
  }

  function Indicator(p: bool): nat
  {
    if p then 1 else 0
  }

  /** How many of the four neighbours of a scanned cell (above, left, below,
      right) are shallower than the critical depth. */
  function ShallowCount(b: array2<real>, crit: real, i: nat, j: nat): (c: nat)
    reads b
    requires i + 1 < b.Length0 && j + 1 < b.Length1
    ensures c <= 4
  {
    Indicator(b[Before(b.Length0, i), j] < crit) + Indicator(b[i, Before(b.Length1, j)] < crit)
    + Indicator(b[i + 1, j] < crit) + Indicator(b[i, j + 1] < crit)
  }

  /** How often the scan records cell (i, j): once per shallow neighbour
      when it is a scanned cell at least as deep as `crit`, otherwise never. */
  function Multiplicity(b: array2<real>, crit: real, cell: (int, int)): (m: nat)
    reads b
    ensures m <= 4
    ensures m > 0 ==> 0 <= cell.0 && cell.0 + 1 < b.Length0 && 0 <= cell.1 && cell.1 + 1 < b.Length1 && b[cell.0, cell.1] >= crit
  {
    if 0 <= cell.0 && cell.0 + 1 < b.Length0 && 0 <= cell.1 && cell.1 + 1 < b.Length1 && b[cell.0, cell.1] >= crit
    then ShallowCount(b, crit, cell.0, cell.1) else 0
  }

  /** `n` copies of `x`. */
  function Repeat<T>(x: T, n: nat): (r: seq<T>)
    ensures |r| == n
  {
    if n == 0 then [] else Repeat(x, n - 1) + [x]
  }

  lemma {:induction false} RepeatElements<T>(x: T, n: nat)
    ensures forall k :: 0 <= k < n ==> Repeat(x, n)[k] == x
    decreases n
  {
    if n > 0 {
      RepeatElements(x, n - 1);
    }
  }

  /** One more copy at the end. */
  lemma AppendCopy<T>(s: seq<T>, x: T, n: nat)
    ensures s + Repeat(x, n) + [x] == s + Repeat(x, n + 1)
  {
  }

  /** How many times `y` occurs in `s`; the lemmas count with it rather than
      with `multiset`, which the solver handles far more slowly here. */
  function Occurrences<T(==)>(s: seq<T>, y: T): nat
  {
    if |s| == 0 then 0 else Occurrences(s[..|s| - 1], y) + (if s[|s| - 1] == y then 1 else 0)
  }

  lemma {:induction false} OccurrencesMultiset<T>(s: seq<T>, y: T)
    ensures Occurrences(s, y) == multiset(s)[y]
    decreases |s|
  {
    if |s| > 0 {
      OccurrencesMultiset(s[..|s| - 1], y);
      assert s == s[..|s| - 1] + [s[|s| - 1]];
    }
  }

  /** A run of copies of `x` holds `x` as often as it is long, and nothing else. */
  lemma {:induction false} RepeatCount<T>(x: T, n: nat, y: T)
    ensures Occurrences(Repeat(x, n), y) == if y == x then n else 0
    decreases n
  {
    if n > 0 {
      RepeatCount(x, n - 1, y);
    }
  }

  // ---------------------------------------------------------------------------
  // The scan over a table of counts

  /** `t` has `cols` entries in every row. */
  predicate IsTable(t: seq<seq<nat>>, cols: nat)
  {
    forall r :: 0 <= r < |t| ==> |t[r]| == cols
  }

  /** How often the scan records each scanned cell of `b`: one row per
      scanned row, one entry per scanned column. */
  function Counts(b: array2<real>, crit: real): (t: seq<seq<nat>>)
    reads b
    ensures |t| == Scanned(b.Length0) && IsTable(t, Scanned(b.Length1))
  {
    seq(Scanned(b.Length0), r reads b => seq(Scanned(b.Length1), c reads b => Multiplicity(b, crit, (r, c))))
  }

  /** The table holds each scanned cell's multiplicity. */
  lemma CountsAt(b: array2<real>, crit: real, cell: (int, int))
    requires 0 <= cell.0 < Scanned(b.Length0) && 0 <= cell.1 < Scanned(b.Length1)
    ensures Counts(b, crit)[cell.0][cell.1] == Multiplicity(b, crit, cell)
  {
  }

  /** What a scan records in row `i` before column `j`, each cell as often
      as the table says. */
  function RowEntries(t: seq<seq<nat>>, i: nat, j: nat): seq<(int, int)>
    requires i < |t| && j <= |t[i]|
  {
    if j == 0 then [] else RowEntries(t, i, j - 1) + Repeat<(int, int)>((i, j - 1), t[i][j - 1])
  }

  /** What a scan records in the rows before row `i`. */
  function RowsEntries(t: seq<seq<nat>>, cols: nat, i: nat): seq<(int, int)>
    requires IsTable(t, cols) && i <= |t|
  {
    if i == 0 then [] else RowsEntries(t, cols, i - 1) + RowEntries(t, i - 1, cols)
  }

  /** Everything `find_isobath` records: at most four entries, one per
      neighbour, for each scanned cell. */
  function Isobath(b: array2<real>, crit: real): (r: seq<(int, int)>)
    reads b
    ensures |r| <= 4 * Scanned(b.Length0) * Scanned(b.Length1)
  {
    RowsEntriesLength(Counts(b, crit), Scanned(b.Length1), Scanned(b.Length0));
    RowsEntries(Counts(b, crit), Scanned(b.Length1), Scanned(b.Length0))
  }

  /** Entries of at most four give at most four records a cell. */
  lemma {:induction false} RowEntriesLength(t: seq<seq<nat>>, i: nat, j: nat)
    requires i < |t| && j <= |t[i]|
    requires forall c :: 0 <= c < |t[i]| ==> t[i][c] <= 4
    ensures |RowEntries(t, i, j)| <= 4 * j
  {
    if j > 0 {
      RowEntriesLength(t, i, j - 1);
    }
  }

  lemma {:induction false} RowsEntriesLength(t: seq<seq<nat>>, cols: nat, i: nat)
    requires IsTable(t, cols) && i <= |t|
    requires forall r, c :: 0 <= r < |t| && 0 <= c < cols ==> t[r][c] <= 4
    ensures |RowsEntries(t, cols, i)| <= 4 * i * cols
  {
    if i > 0 {
      RowsEntriesLength(t, cols, i - 1);
      RowEntriesLength(t, i - 1, cols);
      OneMoreRow(|RowsEntries(t, cols, i - 1)|, |RowEntries(t, i - 1, cols)|, i, cols);
    }
  }

  lemma OneMoreRow(before: nat, row: nat, i: nat, cols: nat)
    requires i > 0 && before <= 4 * (i - 1) * cols && row <= 4 * cols
    ensures before + row <= 4 * i * cols
  {
    assert 4 * (i - 1) * cols + 4 * cols == 4 * i * cols;
  }

  /** `find_isobath`: rows and columns but the last are scanned in row-major
      order. */
  method FindIsobath(tmpBathymetry: array2<real>, critDepth: real := MAX_DEPTH as real)
    returns (isobathIndexList: seq<(int, int)>)
    ensures isobathIndexList == Isobath(tmpBathymetry, critDepth)
  {
    var b := tmpBathymetry;
    ghost var t := Counts(b, critDepth);
    isobathIndexList := [];
    var i := 0;
    while i + 1 < b.Length0
      invariant i <= |t|
      invariant isobathIndexList == RowsEntries(t, Scanned(b.Length1), i)
    {
      ghost var before := isobathIndexList;
      isobathIndexList := ScanRow(b, critDepth, i, isobathIndexList);
      RowsEntriesExtend(t, Scanned(b.Length1), i, before, isobathIndexList);
      i := i + 1;
    }
    assert i == |t|;
  }

  /** The inner loop over the columns of row `i`, all but the last. */
  method ScanRow(b: array2<real>, critDepth: real, i: nat, list: seq<(int, int)>)
    returns (list': seq<(int, int)>)
    requires i + 1 < b.Length0
    ensures list' == list + RowEntries(Counts(b, critDepth), i, Scanned(b.Length1))
  {
    ghost var t := Counts(b, critDepth);
    list' := list;
    var j := 0;
    while j + 1 < b.Length1
      invariant j <= Scanned(b.Length1)
      invariant list' == list + RowEntries(t, i, j)
    {
      ghost var before := list';
      list' := TestCell(b, critDepth, i, j, list');
      CountsAt(b, critDepth, (i, j));
      RowEntriesExtend(t, i, j, list, before, list');
      j := j + 1;
    }
  }

  /** One more row of the scan appended. */
  lemma RowsEntriesExtend(t: seq<seq<nat>>, cols: nat, i: nat, before: seq<(int, int)>, after: seq<(int, int)>)
    requires IsTable(t, cols) && i < |t|
    requires before == RowsEntries(t, cols, i)
    requires after == before + RowEntries(t, i, cols)
    ensures after == RowsEntries(t, cols, i + 1)
  {
  }

  /** One more cell of a row scan appended to a list. */
  lemma RowEntriesExtend(t: seq<seq<nat>>, i: nat, j: nat, list: seq<(int, int)>, before: seq<(int, int)>, after: seq<(int, int)>)
    requires i < |t| && j < |t[i]|
    requires before == list + RowEntries(t, i, j)
    requires after == before + Repeat<(int, int)>((i, j), t[i][j])
    ensures after == list + RowEntries(t, i, j + 1)
  {
    assert RowEntries(t, i, j + 1) == RowEntries(t, i, j) + Repeat<(int, int)>((i, j), t[i][j]);
  }

  /** One neighbour test of a deep cell: the cell is appended once more when
      neighbour (u, v) is shallower than the critical depth. */
  method RecordIfShallower(b: array2<real>, critDepth: real, cell: (int, int), u: nat, v: nat,
                           ghost base: seq<(int, int)>, list: seq<(int, int)>, ghost n: nat)
    returns (list': seq<(int, int)>, ghost n': nat)
    requires u < b.Length0 && v < b.Length1
    requires list == base + Repeat(cell, n)
    ensures n' == n + Indicator(b[u, v] < critDepth)
    ensures list' == base + Repeat(cell, n')
  {
    list', n' := list, n;
    if b[u, v] < critDepth {
      AppendCopy(base, cell, n);
      list', n' := list + [cell], n + 1;
    }
  }

  /** The body of the inner loop: a cell at least as deep as the critical
      depth is appended once for each shallow neighbour, tested up, left,
      down, right. */
  method TestCell(b: array2<real>, critDepth: real, i: nat, j: nat, list: seq<(int, int)>)
    returns (list': seq<(int, int)>)
    requires i + 1 < b.Length0 && j + 1 < b.Length1
    ensures list' == list + Repeat<(int, int)>((i, j), Multiplicity(b, critDepth, (i, j)))
  {
    list' := list;
    ghost var n := 0;
    if b[i, j] >= critDepth {
      var up := Before(b.Length0, i);
      var left := Before(b.Length1, j);
      list', n := RecordIfShallower(b, critDepth, (i, j), up, j, list, list', n);
      list', n := RecordIfShallower(b, critDepth, (i, j), i, left, list, list', n);
      list', n := RecordIfShallower(b, critDepth, (i, j), i + 1, j, list, list', n);
      list', n := RecordIfShallower(b, critDepth, (i, j), i, j + 1, list, list', n);
      assert n == ShallowCount(b, critDepth, i, j);
    }
    assert n == Multiplicity(b, critDepth, (i, j));
  }

  // ---------------------------------------------------------------------------
  // Properties of the recorded list

  /** Row-major order on cells. */
  predicate CellLe(a: (int, int), c: (int, int))
  {
    a.0 < c.0 || (a.0 == c.0 && a.1 <= c.1)
  }

  predicate RowMajor(s: seq<(int, int)>)
  {
    forall p, q :: 0 <= p < q < |s| ==> CellLe(s[p], s[q])
  }

  lemma RowMajorAppend(s: seq<(int, int)>, t: seq<(int, int)>)
    requires RowMajor(s) && RowMajor(t)
    requires forall p, q :: 0 <= p < |s| && 0 <= q < |t| ==> CellLe(s[p], t[q])
    ensures RowMajor(s + t)
  {
    var u := s + t;
    forall p, q | 0 <= p < q < |u|
      ensures CellLe(u[p], u[q])
    {
      if q < |s| {
        assert u[p] == s[p] && u[q] == s[q];
      } else if p < |s| {
        assert u[p] == s[p] && u[q] == t[q - |s|];
      } else {
        assert u[p] == t[p - |s|] && u[q] == t[q - |s|];
      }
    }
  }

  /** Every entry of `s` is a cell in rows `lo` to `hi - 1`, columns 0 to
      `cols - 1`, with a positive count in `t`. */
  predicate CountedCellsIn(t: seq<seq<nat>>, s: seq<(int, int)>, lo: nat, hi: nat, cols: nat)
  {
    forall k :: 0 <= k < |s| ==>
      lo <= s[k].0 < hi && 0 <= s[k].1 < cols && s[k].0 < |t| && s[k].1 < |t[s[k].0]| && t[s[k].0][s[k].1] > 0
  }

  lemma {:induction false} RowEntriesCells(t: seq<seq<nat>>, i: nat, j: nat)
    requires i < |t| && j <= |t[i]|
    ensures CountedCellsIn(t, RowEntries(t, i, j), i, i + 1, j)
    decreases j
  {
    if j > 0 {
      RowEntriesCells(t, i, j - 1);
      RepeatElements<(int, int)>((i, j - 1), t[i][j - 1]);
    }
  }

  lemma {:induction false} RowEntriesOrdered(t: seq<seq<nat>>, i: nat, j: nat)
    requires i < |t| && j <= |t[i]|
    ensures RowMajor(RowEntries(t, i, j))
    decreases j
  {
    if j > 0 {
      RowEntriesOrdered(t, i, j - 1);
      RowEntriesCells(t, i, j - 1);
      var s, c := RowEntries(t, i, j - 1), Repeat<(int, int)>((i, j - 1), t[i][j - 1]);
      RepeatElements<(int, int)>((i, j - 1), t[i][j - 1]);
      assert forall p, q :: 0 <= p < |s| && 0 <= q < |c| ==> CellLe(s[p], c[q]);
      RowMajorAppend(s, c);
    }
  }

  lemma {:induction false} RowsEntriesCells(t: seq<seq<nat>>, cols: nat, i: nat)
    requires IsTable(t, cols) && i <= |t|
    ensures CountedCellsIn(t, RowsEntries(t, cols, i), 0, i, cols)
    decreases i
  {
    if i > 0 {
      RowsEntriesCells(t, cols, i - 1);
      RowEntriesCells(t, i - 1, cols);
      CountedCellsAppend(t, RowsEntries(t, cols, i - 1), RowEntries(t, i - 1, cols), 0, i - 1, i, cols);
    }
  }

  lemma CountedCellsAppend(t: seq<seq<nat>>, s: seq<(int, int)>, u: seq<(int, int)>, lo: nat, mid: nat, hi: nat, cols: nat)
    requires lo <= mid <= hi
    requires CountedCellsIn(t, s, lo, mid, cols) && CountedCellsIn(t, u, mid, hi, cols)
    ensures CountedCellsIn(t, s + u, lo, hi, cols)
  {
    forall k | 0 <= k < |s + u|
      ensures var e := (s + u)[k]; lo <= e.0 < hi && 0 <= e.1 < cols && e.0 < |t| && e.1 < |t[e.0]| && t[e.0][e.1] > 0
    {
      if k >= |s| {
        assert (s + u)[k] == u[k - |s|];
      }
    }
  }

  lemma {:induction false} RowsEntriesOrdered(t: seq<seq<nat>>, cols: nat, i: nat)
    requires IsTable(t, cols) && i <= |t|
    ensures RowMajor(RowsEntries(t, cols, i))
    decreases i
  {
    if i > 0 {
      RowsEntriesOrdered(t, cols, i - 1);
      RowsEntriesCells(t, cols, i - 1);
      RowEntriesOrdered(t, i - 1, cols);
      RowEntriesCells(t, i - 1, cols);
      var s, r := RowsEntries(t, cols, i - 1), RowEntries(t, i - 1, cols);
      assert forall p, q :: 0 <= p < |s| && 0 <= q < |r| ==> CellLe(s[p], r[q]);
      RowMajorAppend(s, r);
    }
  }

  /** Counting over a concatenation. */
  lemma {:induction false} CountAppend<T>(s: seq<T>, t: seq<T>, y: T)
    ensures Occurrences(s + t, y) == Occurrences(s, y) + Occurrences(t, y)
    decreases |t|
  {
    if |t| > 0 {
      var t' := t[..|t| - 1];
      assert (s + t)[..|s + t| - 1] == s + t';
      assert (s + t)[|s + t| - 1] == t[|t| - 1];
      CountAppend(s, t', y);
    } else {
      assert s + t == s;
    }
  }

  lemma {:induction false} RowEntriesCount(t: seq<seq<nat>>, i: nat, j: nat, cell: (int, int))
    requires i < |t| && j <= |t[i]|
    ensures Occurrences(RowEntries(t, i, j), cell)
         == if cell.0 == i && 0 <= cell.1 < j then t[i][cell.1] else 0
    decreases j
  {
    if j > 0 {
      var s, c := RowEntries(t, i, j - 1), Repeat<(int, int)>((i, j - 1), t[i][j - 1]);
      var ms, mc := Occurrences(s, cell), Occurrences(c, cell);
      assert Occurrences(RowEntries(t, i, j), cell) == ms + mc by {
        CountAppend(s, c, cell);
      }
      assert ms == if cell.0 == i && 0 <= cell.1 < j - 1 then t[i][cell.1] else 0 by {
        RowEntriesCount(t, i, j - 1, cell);
      }
      assert mc == if cell.0 == i && cell.1 == j - 1 then t[i][j - 1] else 0 by {
        RepeatCount<(int, int)>((i, j - 1), t[i][j - 1], cell);
        assert cell == (i, j - 1) <==> cell.0 == i && cell.1 == j - 1;
      }
    }
  }

  lemma {:induction false} RowsEntriesCount(t: seq<seq<nat>>, cols: nat, i: nat, cell: (int, int))
    requires IsTable(t, cols) && i <= |t|
    ensures Occurrences(RowsEntries(t, cols, i), cell)
         == if 0 <= cell.0 < i && 0 <= cell.1 < cols then t[cell.0][cell.1] else 0
    decreases i
  {
    if i > 0 {
      var s, r := RowsEntries(t, cols, i - 1), RowEntries(t, i - 1, cols);
      var ms, mr := Occurrences(s, cell), Occurrences(r, cell);
      assert Occurrences(RowsEntries(t, cols, i), cell) == ms + mr by {
        CountAppend(s, r, cell);
      }
      assert ms == if 0 <= cell.0 < i - 1 && 0 <= cell.1 < cols then t[cell.0][cell.1] else 0 by {
        RowsEntriesCount(t, cols, i - 1, cell);
      }
      assert mr == if cell.0 == i - 1 && 0 <= cell.1 < cols then t[cell.0][cell.1] else 0 by {
        RowEntriesCount(t, i - 1, cols, cell);
      }
    }
  }

  /** Only cells at least as deep as the critical depth are recorded, never
      from the last row or the last column. */
  lemma IsobathCells(b: array2<real>, crit: real)
    ensures forall e :: e in Isobath(b, crit) ==>
      0 <= e.0 && e.0 + 1 < b.Length0 && 0 <= e.1 && e.1 + 1 < b.Length1 && b[e.0, e.1] >= crit
  {
    var t := Counts(b, crit);
    RowsEntriesCells(t, Scanned(b.Length1), |t|);
    forall e | e in Isobath(b, crit)
      ensures 0 <= e.0 && e.0 + 1 < b.Length0 && 0 <= e.1 && e.1 + 1 < b.Length1 && b[e.0, e.1] >= crit
    {
      var k :| 0 <= k < |Isobath(b, crit)| && Isobath(b, crit)[k] == e;
      CountsAt(b, crit, e);
    }
  }

  /** The list is in row-major order, as the two nested loops scan. */
  lemma IsobathOrdered(b: array2<real>, crit: real)
    ensures RowMajor(Isobath(b, crit))
  {
    var t := Counts(b, crit);
    RowsEntriesOrdered(t, Scanned(b.Length1), |t|);
  }

  /** Each scanned deep cell appears once per shallow neighbour (zero to four
      times), and no other cell appears. */
  lemma IsobathMultiplicity(b: array2<real>, crit: real, cell: (int, int))
    ensures multiset(Isobath(b, crit))[cell] == Multiplicity(b, crit, cell)
  {
    var t := Counts(b, crit);
    RowsEntriesCount(t, Scanned(b.Length1), |t|, cell);
    OccurrencesMultiset(Isobath(b, crit), cell);
    if 0 <= cell.0 < |t| && 0 <= cell.1 < Scanned(b.Length1) {
      CountsAt(b, crit, cell);
    }
  }

  /** A scanned deep cell is on the isobath exactly when one of its four
      neighbours is shallow. */
  lemma IsobathMembers(b: array2<real>, crit: real, i: nat, j: nat)
    requires i + 1 < b.Length0 && j + 1 < b.Length1 && b[i, j] >= crit
    ensures (i, j) in Isobath(b, crit)
        <==> (b[Before(b.Length0, i), j] < crit || b[i, Before(b.Length1, j)] < crit
              || b[i + 1, j] < crit || b[i, j + 1] < crit)
  {
    IsobathMultiplicity(b, crit, (i, j));
  }

  /** The upper neighbour of the first row is the last row: a deep cell of
      row 0 over a shallow cell of the last row is on the isobath. */
  lemma IsobathWrapsTopRow(b: array2<real>, crit: real, j: nat)
    requires 1 < b.Length0 && j + 1 < b.Length1
    requires b[0, j] >= crit && b[b.Length0 - 1, j] < crit
    ensures (0, j) in Isobath(b, crit)
  {
    IsobathMembers(b, crit, 0, j);
  }

  /** The left neighbour of the first column is the last column. */
  lemma IsobathWrapsLeftColumn(b: array2<real>, crit: real, i: nat)
    requires i + 1 < b.Length0 && 1 < b.Length1
    requires b[i, 0] >= crit && b[i, b.Length1 - 1] < crit
    ensures (i, 0) in Isobath(b, crit)
  {
    IsobathMembers(b, crit, i, 0);
  }
}
