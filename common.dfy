/** Shared value types: Python's `None`/NaN as an Option, and raised exceptions
    as the error half of a Result. */
module Common {

  /** A value that may be missing (NumPy's NaN, Python's None). */
  datatype Option<+T> = None | Some(value: T)

  /** The Python exception classes the modelled code can raise. */
  datatype Error =
    | ValueError      // list.index miss, int() of a bad literal, nanmax of nothing, repeated axis
    | AxisError       // np.moveaxis given an axis number out of range
    | IndexError      // subscript past the end of a list
    | KeyError        // missing coordinate name
    | AssertionError  // a failed `assert`

  /** Either the value a call returns or the exception it raises. */
  datatype Result<+T> = Ok(value: T) | Err(error: Error)

  /** Python's `range(n)` as a sequence. */
  function Range(n: nat): (r: seq<nat>)
    ensures |r| == n
    ensures forall k :: 0 <= k < n ==> r[k] == k
  {
    seq(n, k => k)
  }

  /** The elements of a sequence, as a set. */
  function Elements<T>(s: seq<T>): set<T>
  {
    set x | x in s
  }

  /** No element occurs twice. */
  predicate Distinct<T(==)>(s: seq<T>)
  {
    forall p, q :: 0 <= p < q < |s| ==> s[p] != s[q]
  }

  /** Python's `list.index`: the first position holding `x`, if any. */
  function IndexOf<T(==)>(s: seq<T>, x: T): (r: Option<nat>)
    ensures r.None? <==> x !in s
    ensures r.Some? ==> r.value < |s| && s[r.value] == x
    ensures r.Some? ==> forall p :: 0 <= p < r.value ==> s[p] != x
  {
    if |s| == 0 then None
    else if s[0] == x then Some(0)
    else match IndexOf(s[1..], x)
      case None => None
      case Some(p) => Some(p + 1)
  }

  /** In a sequence without repeats, the position of an element is its index. */
  lemma {:induction false} IndexOfDistinct<T>(s: seq<T>, p: nat)
    requires Distinct(s) && p < |s|
    ensures IndexOf(s, s[p]) == Some(p)
  {
    assert s[p] in s;
  }

  /** Concatenation of a sequence of sequences (Python's `sum(lol, [])`). */
  function Concat<T>(lol: seq<seq<T>>): (r: seq<T>)
  {
    if |lol| == 0 then [] else Concat(lol[..|lol| - 1]) + lol[|lol| - 1]
  }

  lemma {:induction false} ConcatAppend<T>(lol: seq<seq<T>>, s: seq<T>)
    ensures Concat(lol + [s]) == Concat(lol) + s
  {
    assert (lol + [s])[..|lol|] == lol;
  }
}
