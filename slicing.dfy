/**
  * Row selection `m[start:stop, :]` on a two-dimensional array, as numpy and
  * h5py interpret a slice with step 1: each bound is normalised against the
  * number of rows the way Python's `slice.indices` does (a negative bound counts
  * from the end, an out-of-range bound is clamped), and a stop before the start
  * selects nothing.
  */
module Slicing {
  import opened Wrappers

  /** A two-dimensional array, row by row. */
  type Matrix = seq<seq<int>>

  /** The half-open range of rows `[lo, hi)` a slice selects. */
  datatype Span = Span(lo: nat, hi: nat)

  predicate IsShape(m: Matrix, nrows: int, ncols: int) {
    |m| == nrows && forall i :: 0 <= i < |m| ==> |m[i]| == ncols
  }

  /** One slice bound normalised against a length of `len`. */
  function Clamp(i: int, len: nat): (j: nat)
    ensures j <= len
    ensures 0 <= i <= len ==> j == i
    ensures i > len ==> j == len
    ensures i < 0 <= i + len ==> j == len + i
    ensures i + len < 0 ==> j == 0
  {
    if i < 0 then (if i + len < 0 then 0 else i + len)
    else if i > len then len
    else i
  }

  /** The rows selected by `[start:stop]` out of `len` rows. */
  function SliceSpan(start: int, stop: int, len: nat): (s: Span)
    ensures s.lo <= s.hi <= len
    ensures 0 <= start <= stop <= len ==> s == Span(start, stop)
    ensures 0 <= stop <= start <= len ==> s.lo == s.hi
  {
    var lo := Clamp(start, len);
    var hi := Clamp(stop, len);
    Span(lo, if hi < lo then lo else hi)
  }

  /** Reading `m[start:stop, :]`. */
  function Rows(m: Matrix, start: int, stop: int): (b: Matrix)
    ensures var s := SliceSpan(start, stop, |m|);
            |b| == s.hi - s.lo <= |m| && forall k :: 0 <= k < |b| ==> b[k] == m[s.lo + k]
  {
    var s := SliceSpan(start, stop, |m|);
    m[s.lo..s.hi]
  }

  /**
    * Assigning `m[start:stop, :] = v` when `m` has `ncols` columns: the block
    * must have exactly the shape of the selection.
    */
  function Assign(m: Matrix, ncols: nat, start: int, stop: int, v: Matrix): (r: Result<Matrix>)
    ensures r.Ok? ==> |r.value| == |m|
  {
    var s := SliceSpan(start, stop, |m|);
    if IsShape(v, s.hi - s.lo, ncols) then Ok(m[..s.lo] + v + m[s.hi..])
    else Err(ShapeMismatch)
  }

  /** An assignment succeeds exactly when the block fits the selection, and then touches nothing outside it. */
  lemma AssignCells(m: Matrix, ncols: nat, start: int, stop: int, v: Matrix)
    requires IsShape(m, |m|, ncols)
    ensures var s := SliceSpan(start, stop, |m|);
            var r := Assign(m, ncols, start, stop, v);
            (r.Ok? <==> IsShape(v, s.hi - s.lo, ncols)) &&
            (r.Ok? ==>
              IsShape(r.value, |m|, ncols) &&
              forall i, j :: 0 <= i < |m| && 0 <= j < ncols ==>
                r.value[i][j] == if s.lo <= i < s.hi then v[i - s.lo][j] else m[i][j])
  {
    var s := SliceSpan(start, stop, |m|);
    if IsShape(v, s.hi - s.lo, ncols) {
      var w := m[..s.lo] + v + m[s.hi..];
      assert |w| == |m|;
      forall i | 0 <= i < |m|
        ensures w[i] == if s.lo <= i < s.hi then v[i - s.lo] else m[i]
      {
        if i < s.lo {
          assert w[i] == m[..s.lo][i];
        } else if i < s.hi {
          assert w[i] == (m[..s.lo] + v)[i];
        } else {
          assert w[i] == m[s.hi..][i - s.hi];
        }
      }
    }
  }

  /** Round trip: reading back the rows just assigned yields the assigned block. */
  lemma AssignThenRows(m: Matrix, ncols: nat, start: int, stop: int, v: Matrix)
    requires Assign(m, ncols, start, stop, v).Ok?
    ensures var m' := Assign(m, ncols, start, stop, v).value;
            |m'| == |m| && Rows(m', start, stop) == v
  {
    var s := SliceSpan(start, stop, |m|);
    var m' := m[..s.lo] + v + m[s.hi..];
    assert m'[s.lo..s.hi] == v;
  }

  /** Assigning back the rows just read leaves the array as it was. */
  lemma RowsThenAssign(m: Matrix, ncols: nat, start: int, stop: int)
    requires IsShape(m, |m|, ncols)
    ensures Assign(m, ncols, start, stop, Rows(m, start, stop)) == Ok(m)
  {
    var s := SliceSpan(start, stop, |m|);
    assert m[..s.lo] + m[s.lo..s.hi] + m[s.hi..] == m;
  }

  /** Two arrays of one shape that agree cell by cell are equal. */
  lemma CellwiseEqual(a: Matrix, b: Matrix, nrows: nat, ncols: nat)
    requires IsShape(a, nrows, ncols) && IsShape(b, nrows, ncols)
    requires forall i, j :: 0 <= i < nrows && 0 <= j < ncols ==> a[i][j] == b[i][j]
    ensures a == b
  {
    forall i | 0 <= i < nrows ensures a[i] == b[i] {
      assert forall j :: 0 <= j < ncols ==> a[i][j] == b[i][j];
    }
  }
}
