/**
  * The one dataset the demo scripts create in their HDF5 file, held in memory:
  * a fixed `(nrows, ncols)` shape chosen at creation and mutable contents.
  */
module Store {
  import opened Wrappers
  import opened Slicing

  class Dataset {
    const nrows: nat
    const ncols: nat
    const cells: array2<int>

    ghost predicate Valid()
      reads this
    {
      cells.Length0 == nrows && cells.Length1 == ncols
    }

    /** The contents, row by row. */
    ghost function Contents(): (m: Matrix)
      reads this, cells
      requires Valid()
      ensures IsShape(m, nrows, ncols)
      ensures forall i, j :: 0 <= i < nrows && 0 <= j < ncols ==> m[i][j] == cells[i, j]
    {
      seq(cells.Length0, i requires 0 <= i < cells.Length0 reads cells =>
        seq(cells.Length1, j requires 0 <= j < cells.Length1 reads cells => cells[i, j]))
    }

    /** `create_dataset(name, (nrows, ncols))`: the shape is fixed and every cell holds the fill value 0. */
    constructor (nrows: nat, ncols: nat)
      ensures Valid() && fresh(cells)
      ensures this.nrows == nrows && this.ncols == ncols
      ensures forall i, j :: 0 <= i < nrows && 0 <= j < ncols ==> Contents()[i][j] == 0
    {
      this.nrows, this.ncols := nrows, ncols;
      cells := new int[nrows, ncols]((i, j) => 0);
    }

    /** `dataset.nbytes` for elements of `itemsize` bytes: the size of the whole dataset. */
    function NBytes(itemsize: nat): (n: nat)
      reads this, cells
      requires Valid()
      ensures n == |Contents()| * ncols * itemsize
    {
      nrows * ncols * itemsize
    }

    /** `dataset[start:stop, :]`: reads the selected rows and changes nothing. */
    method ReadRows(start: int, stop: int) returns (b: Matrix)
      requires Valid()
      ensures b == Rows(Contents(), start, stop)
    {
      var s := SliceSpan(start, stop, nrows);
      b := seq(s.hi - s.lo, k requires 0 <= k < s.hi - s.lo reads cells =>
        seq(ncols, j requires 0 <= j < ncols reads cells => cells[s.lo + k, j]));
      assert b == Contents()[s.lo..s.hi];
    }

    /**
      * `dataset[start:stop, :] = v`: when `v` has the shape of the selection its
      * rows replace the selected rows; every other row keeps its value.
      */
    method WriteRows(start: int, stop: int, v: Matrix) returns (r: Result<()>)
      requires Valid()
      modifies cells
      ensures Valid()
      ensures Assign(old(Contents()), ncols, start, stop, v).Ok? <==> r.Ok?
      ensures r.Ok? ==> Contents() == Assign(old(Contents()), ncols, start, stop, v).value
      ensures r.Err? ==> r.error == ShapeMismatch && Contents() == old(Contents())
      ensures var s := SliceSpan(start, stop, nrows);
              forall i, j :: 0 <= i < nrows && 0 <= j < ncols ==>
                cells[i, j] == if r.Ok? && s.lo <= i < s.hi then v[i - s.lo][j] else old(cells[i, j])
    {
      var s := SliceSpan(start, stop, nrows);
      ghost var before := Contents();
      AssignCells(before, ncols, start, stop, v);
      if !IsShape(v, s.hi - s.lo, ncols) {
        return Err(ShapeMismatch);
      }
      forall i, j | s.lo <= i < s.hi && 0 <= j < ncols {
        cells[i, j] := v[i - s.lo][j];
      }
      ghost var after := Assign(before, ncols, start, stop, v).value;
      assert forall i, j :: 0 <= i < nrows && 0 <= j < ncols ==> cells[i, j] == after[i][j];
      CellwiseEqual(Contents(), after, nrows, ncols);
      r := Ok(());
    }
  }
}
