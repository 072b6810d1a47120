/**
  * The parallel write demo: every rank fills a buffer of random values for its
  * share of the rows, adds `1000*(iproc+1)` and assigns it to
  * `dataset[i1:i2, :]`. Ranks run as independent processes; here they are
  * applied one after another in rank order. `RankWritesCommute` shows that
  * two distinct ranks may be swapped, so any order reaches the same contents
  * by swapping adjacent ranks.
  */
module WriteDemo {
  import opened Wrappers
  import opened Slicing
  import opened Partition
  import opened Store

  /** Which stop bound a rank's row slice uses. */
  datatype Convention =
    | AsWritten  // `dataset[i1:i2, :]`, the scripts' slice: row `i2` is left out
    | Inclusive  // `dataset[i1:i2+1, :]`: rows `i1` through `i2`, as the scripts' comments describe

  /** The stop of rank `iproc`'s row slice; the buffer has `Stop - i1` rows. */
  function Stop(conv: Convention, iproc: nat, nproc: nat, nrows: nat): (stop: int)
    requires iproc < nproc
  {
    match conv
    case AsWritten => LastRow(iproc, nproc, nrows)
    case Inclusive => LastRow(iproc, nproc, nrows) + 1
  }

  /** The random values: `draw(iproc, i, j)` is what rank `iproc`'s seeded generator puts at `(i, j)` of its buffer. */
  type Draw = (nat, nat, nat) -> int

  /** Rank `iproc` adds `Offset(iproc)` to every value it writes. */
  function Offset(iproc: nat): (k: int) {
    1000 * (iproc + 1)
  }

  /** What rank `iproc` stores at row `i` of its block, column `j`. */
  function Written(draw: Draw, iproc: nat, i: nat, j: nat): (x: int) {
    draw(iproc, i, j) + Offset(iproc)
  }

  /** `numpy.random.uniform(size=(nr, nc))` for rank `iproc`: refused when `nr` is negative. */
  function Uniform(nr: int, nc: nat, iproc: nat, draw: Draw): (r: Result<Matrix>)
    ensures r.Ok? <==> 0 <= nr
    ensures r.Err? ==> r.error == NegativeDimension
    ensures r.Ok? ==> IsShape(r.value, nr, nc)
    ensures r.Ok? ==> forall i, j :: 0 <= i < nr && 0 <= j < nc ==> r.value[i][j] == draw(iproc, i, j)
  {
    if nr < 0 then Err(NegativeDimension)
    else Ok(seq(nr, i requires 0 <= i => seq(nc, j requires 0 <= j => draw(iproc, i, j))))
  }

  /** `data + k`, element by element. */
  function Shifted(m: Matrix, k: int): (r: Matrix)
    ensures |r| == |m|
    ensures forall i :: 0 <= i < |m| ==> |r[i]| == |m[i]|
    ensures forall i, j :: 0 <= i < |m| && 0 <= j < |m[i]| ==> r[i][j] == m[i][j] + k
  {
    seq(|m|, i requires 0 <= i < |m| => seq(|m[i]|, j requires 0 <= j < |m[i]| => m[i][j] + k))
  }

  /** The effect of rank `iproc` on the dataset contents `m` of `ncols` columns. */
  function RankWrite(m: Matrix, ncols: nat, iproc: nat, nproc: nat, draw: Draw, conv: Convention): (r: Result<Matrix>)
    requires iproc < nproc
    ensures r.Ok? ==> |r.value| == |m|
  {
    var i1 := FirstRow(iproc, nproc, |m|);
    var stop := Stop(conv, iproc, nproc, |m|);
    match Uniform(stop - i1, ncols, iproc, draw)
    case Err(e) => Err(e)
    case Ok(data) => Assign(m, ncols, i1, stop, Shifted(data, Offset(iproc)))
  }

  /** The contents after rank `iproc` has run; a rank that fails writes nothing. */
  function Apply(m: Matrix, ncols: nat, iproc: nat, nproc: nat, draw: Draw, conv: Convention): (m': Matrix)
    requires iproc < nproc
    ensures |m'| == |m|
  {
    match RankWrite(m, ncols, iproc, nproc, draw, conv)
    case Ok(m') => m'
    case Err(_) => m
  }

  /**
    * Whenever the buffer can be made (`i1 <= stop`), its `stop - i1` rows are
    * exactly as many as the slice `[i1:stop]` selects: no bound is negative or
    * beyond the dataset, so Python's normalisation leaves both as they are.
    */
  lemma BufferFitsSelection(conv: Convention, iproc: nat, nproc: nat, nrows: nat)
    requires iproc < nproc
    requires FirstRow(iproc, nproc, nrows) <= Stop(conv, iproc, nproc, nrows)
    ensures SliceSpan(FirstRow(iproc, nproc, nrows), Stop(conv, iproc, nproc, nrows), nrows)
            == Span(FirstRow(iproc, nproc, nrows), Stop(conv, iproc, nproc, nrows))
  {
    Abut(iproc, nproc, nrows);
  }

  /** A rank's slice ends no later than where the next rank starts. */
  lemma StopBound(conv: Convention, iproc: nat, nproc: nat, nrows: nat)
    requires iproc < nproc
    ensures Stop(conv, iproc, nproc, nrows) <= FirstRow(iproc + 1, nproc, nrows)
    ensures conv == Inclusive ==> Stop(conv, iproc, nproc, nrows) == FirstRow(iproc + 1, nproc, nrows)
  {
    Abut(iproc, nproc, nrows);
  }

  /**
    * One rank's write: it fails, with numpy's negative-dimension error, exactly
    * when `stop < i1`; otherwise cell `(i, j)` with `i1 <= i < stop` holds the
    * rank's value for row `i - i1` of its buffer and every other cell is
    * unchanged.
    */
  lemma RankWriteEffect(m: Matrix, ncols: nat, iproc: nat, nproc: nat, draw: Draw, conv: Convention)
    requires IsShape(m, |m|, ncols) && iproc < nproc
    ensures var i1 := FirstRow(iproc, nproc, |m|);
            var stop := Stop(conv, iproc, nproc, |m|);
            var r := RankWrite(m, ncols, iproc, nproc, draw, conv);
            (r.Ok? <==> i1 <= stop) &&
            (r.Err? ==> r.error == NegativeDimension) &&
            (r.Ok? ==>
               IsShape(r.value, |m|, ncols) &&
               forall i, j :: 0 <= i < |m| && 0 <= j < ncols ==>
                 r.value[i][j] == if i1 <= i < stop then Written(draw, iproc, i - i1, j) else m[i][j])
  {
    var i1 := FirstRow(iproc, nproc, |m|);
    var stop := Stop(conv, iproc, nproc, |m|);
    var u := Uniform(stop - i1, ncols, iproc, draw);
    if u.Ok? {
      assert SliceSpan(i1, stop, |m|) == Span(i1, stop) by { BufferFitsSelection(conv, iproc, nproc, |m|); }
      var v := Shifted(u.value, Offset(iproc));
      assert IsShape(v, stop - i1, ncols);
      assert forall k, j :: 0 <= k < stop - i1 && 0 <= j < ncols ==> v[k][j] == Written(draw, iproc, k, j);
      assert RankWrite(m, ncols, iproc, nproc, draw, conv) == Assign(m, ncols, i1, stop, v);
      AssignCells(m, ncols, i1, stop, v);
    } else {
      assert RankWrite(m, ncols, iproc, nproc, draw, conv) == Err(NegativeDimension);
    }
  }

  /** After rank `iproc`, whether it succeeded or not, cell `(i, j)` holds its value exactly when `i1 <= i < stop`. */
  lemma ApplyCells(m: Matrix, ncols: nat, iproc: nat, nproc: nat, draw: Draw, conv: Convention)
    requires IsShape(m, |m|, ncols) && iproc < nproc
    ensures var i1 := FirstRow(iproc, nproc, |m|);
            var stop := Stop(conv, iproc, nproc, |m|);
            var m' := Apply(m, ncols, iproc, nproc, draw, conv);
            IsShape(m', |m|, ncols) &&
            forall i, j :: 0 <= i < |m| && 0 <= j < ncols ==>
              m'[i][j] == if i1 <= i < stop then Written(draw, iproc, i - i1, j) else m[i][j]
  {
    RankWriteEffect(m, ncols, iproc, nproc, draw, conv);
  }

  /** The slices of two distinct ranks do not overlap, under either convention. */
  lemma SlicesDisjoint(conv: Convention, p: nat, q: nat, nproc: nat, nrows: nat)
    requires p < nproc && q < nproc && p != q
    ensures Stop(conv, p, nproc, nrows) <= FirstRow(q, nproc, nrows) || Stop(conv, q, nproc, nrows) <= FirstRow(p, nproc, nrows)
  {
    if p < q {
      StopBeforeLater(conv, p, q, nproc, nrows);
    } else {
      StopBeforeLater(conv, q, p, nproc, nrows);
    }
  }

  /** A rank's slice ends before any later rank's slice starts. */
  lemma StopBeforeLater(conv: Convention, p: nat, q: nat, nproc: nat, nrows: nat)
    requires p < q < nproc
    ensures Stop(conv, p, nproc, nrows) <= FirstRow(q, nproc, nrows)
  {
    var next := FirstRow(p + 1, nproc, nrows);
    assert Stop(conv, p, nproc, nrows) <= next by { StopBound(conv, p, nproc, nrows); }
    assert next <= FirstRow(q, nproc, nrows) by { FirstRowMonotone(p + 1, q, nproc, nrows); }
  }

  /** One cell of `ApplyCells`. */
  lemma ApplyCellAt(m: Matrix, ncols: nat, iproc: nat, nproc: nat, draw: Draw, conv: Convention, i: nat, j: nat)
    requires IsShape(m, |m|, ncols) && iproc < nproc && i < |m| && j < ncols
    ensures var i1 := FirstRow(iproc, nproc, |m|);
            var stop := Stop(conv, iproc, nproc, |m|);
            var m' := Apply(m, ncols, iproc, nproc, draw, conv);
            IsShape(m', |m|, ncols) &&
            m'[i][j] == if i1 <= i < stop then Written(draw, iproc, i - i1, j) else m[i][j]
  {
    ApplyCells(m, ncols, iproc, nproc, draw, conv);
  }

  /** Applying a rank keeps the shape of the contents. */
  lemma ApplyShape(m: Matrix, ncols: nat, iproc: nat, nproc: nat, draw: Draw, conv: Convention)
    requires IsShape(m, |m|, ncols) && iproc < nproc
    ensures IsShape(Apply(m, ncols, iproc, nproc, draw, conv), |m|, ncols)
  {
    RankWriteEffect(m, ncols, iproc, nproc, draw, conv);
  }

  /** Cell `(i, j)` after rank `p` and then rank `q`: the later rank's value wins where both slices reach. */
  lemma TwoRanksAt(m: Matrix, ncols: nat, p: nat, q: nat, nproc: nat, draw: Draw, conv: Convention, i: nat, j: nat)
    requires IsShape(m, |m|, ncols) && p < nproc && q < nproc && i < |m| && j < ncols
    ensures var n := |m|;
            var ip, sp := FirstRow(p, nproc, n), Stop(conv, p, nproc, n);
            var iq, sq := FirstRow(q, nproc, n), Stop(conv, q, nproc, n);
            var a := Apply(Apply(m, ncols, p, nproc, draw, conv), ncols, q, nproc, draw, conv);
            IsShape(a, n, ncols) &&
            a[i][j] == if iq <= i < sq then Written(draw, q, i - iq, j)
                       else if ip <= i < sp then Written(draw, p, i - ip, j)
                       else m[i][j]
  {
    var mp := Apply(m, ncols, p, nproc, draw, conv);
    ApplyCellAt(m, ncols, p, nproc, draw, conv, i, j);
    ApplyCellAt(mp, ncols, q, nproc, draw, conv, i, j);
  }

  /** One cell of `RankWritesCommute`. */
  lemma CommuteAt(m: Matrix, ncols: nat, p: nat, q: nat, nproc: nat, draw: Draw, conv: Convention, i: nat, j: nat)
    requires IsShape(m, |m|, ncols) && p < nproc && q < nproc && p != q && i < |m| && j < ncols
    ensures var a := Apply(Apply(m, ncols, p, nproc, draw, conv), ncols, q, nproc, draw, conv);
            var b := Apply(Apply(m, ncols, q, nproc, draw, conv), ncols, p, nproc, draw, conv);
            IsShape(a, |m|, ncols) && IsShape(b, |m|, ncols) && a[i][j] == b[i][j]
  {
    SlicesDisjoint(conv, p, q, nproc, |m|);
    TwoRanksAt(m, ncols, p, q, nproc, draw, conv, i, j);
    TwoRanksAt(m, ncols, q, p, nproc, draw, conv, i, j);
  }

  /** Ranks write disjoint rows, so two distinct ranks give the same contents in either order. */
  lemma RankWritesCommute(m: Matrix, ncols: nat, p: nat, q: nat, nproc: nat, draw: Draw, conv: Convention)
    requires IsShape(m, |m|, ncols) && p < nproc && q < nproc && p != q
    ensures Apply(Apply(m, ncols, p, nproc, draw, conv), ncols, q, nproc, draw, conv)
         == Apply(Apply(m, ncols, q, nproc, draw, conv), ncols, p, nproc, draw, conv)
  {
    var mp := Apply(m, ncols, p, nproc, draw, conv);
    var mq := Apply(m, ncols, q, nproc, draw, conv);
    var a := Apply(mp, ncols, q, nproc, draw, conv);
    var b := Apply(mq, ncols, p, nproc, draw, conv);
    ApplyShape(m, ncols, p, nproc, draw, conv);
    ApplyShape(m, ncols, q, nproc, draw, conv);
    ApplyShape(mp, ncols, q, nproc, draw, conv);
    ApplyShape(mq, ncols, p, nproc, draw, conv);
    forall i, j | 0 <= i < |m| && 0 <= j < ncols ensures a[i][j] == b[i][j] {
      CommuteAt(m, ncols, p, q, nproc, draw, conv, i, j);
    }
    CellwiseEqual(a, b, |m|, ncols);
  }

  /** Ranks `0 .. k-1` applied in order. */
  function Run(m: Matrix, ncols: nat, nproc: nat, draw: Draw, conv: Convention, k: nat): (m': Matrix)
    requires k <= nproc
    ensures |m'| == |m|
  {
    if k == 0 then m
    else Apply(Run(m, ncols, nproc, draw, conv, k - 1), ncols, k - 1, nproc, draw, conv)
  }

  /** Cell `(i, j)` once every rank has run: its owner's value if the owner's slice reaches row `i`, the old value otherwise. */
  function Final(m: Matrix, nproc: nat, draw: Draw, conv: Convention, i: nat, j: nat): (x: int)
    requires 0 < nproc && i < |m| && j < |m[i]|
  {
    var p := Owner(i, nproc, |m|);
    if i < Stop(conv, p, nproc, |m|) then Written(draw, p, i - FirstRow(p, nproc, |m|), j) else m[i][j]
  }

  /** After ranks `0 .. k-1`, the rows before rank `k`'s first row are final and the rest untouched. */
  lemma {:induction false} RunEffect(m: Matrix, ncols: nat, nproc: nat, draw: Draw, conv: Convention, k: nat)
    requires IsShape(m, |m|, ncols) && 0 < nproc && k <= nproc
    ensures IsShape(Run(m, ncols, nproc, draw, conv, k), |m|, ncols)
    ensures forall i, j :: 0 <= i < |m| && 0 <= j < ncols ==>
              Run(m, ncols, nproc, draw, conv, k)[i][j]
              == if i < FirstRow(k, nproc, |m|) then Final(m, nproc, draw, conv, i, j) else m[i][j]
  {
    if k == 0 {
      Ends(nproc, |m|);
    } else {
      var p := k - 1;
      RunEffect(m, ncols, nproc, draw, conv, p);
      var prev := Run(m, ncols, nproc, draw, conv, p);
      ApplyShape(prev, ncols, p, nproc, draw, conv);
      forall i, j | 0 <= i < |m| && 0 <= j < ncols
        ensures Run(m, ncols, nproc, draw, conv, k)[i][j]
                == if i < FirstRow(k, nproc, |m|) then Final(m, nproc, draw, conv, i, j) else m[i][j]
      {
        StepAt(m, prev, ncols, nproc, draw, conv, p, i, j);
      }
    }
  }

  /** One cell of the induction step of `RunEffect`: rank `p` finalises exactly the rows from its `i1` up to the next rank's. */
  lemma StepAt(m: Matrix, prev: Matrix, ncols: nat, nproc: nat, draw: Draw, conv: Convention, p: nat, i: nat, j: nat)
    requires IsShape(m, |m|, ncols) && IsShape(prev, |m|, ncols) && p < nproc && i < |m| && j < ncols
    requires prev[i][j] == if i < FirstRow(p, nproc, |m|) then Final(m, nproc, draw, conv, i, j) else m[i][j]
    ensures var next := Apply(prev, ncols, p, nproc, draw, conv);
            |next| == |m| &&
            next[i][j] == if i < FirstRow(p + 1, nproc, |m|) then Final(m, nproc, draw, conv, i, j) else m[i][j]
  {
    var n := |m|;
    var i1, stop, next := FirstRow(p, nproc, n), Stop(conv, p, nproc, n), FirstRow(p + 1, nproc, n);
    assert stop <= next by { StopBound(conv, p, nproc, n); }
    assert i1 <= next by { FirstRowMonotone(p, p + 1, nproc, n); }
    ApplyCellAt(prev, ncols, p, nproc, draw, conv, i, j);
    if i1 <= i < next {
      assert next == LastRow(p, nproc, n) + 1 by { Abut(p, nproc, n); }
      OwnerUnique(i, p, nproc, n);
    }
  }

  /** Every cell after all ranks have run. */
  lemma AllRanksEffect(m: Matrix, ncols: nat, nproc: nat, draw: Draw, conv: Convention)
    requires IsShape(m, |m|, ncols) && 0 < nproc
    ensures IsShape(Run(m, ncols, nproc, draw, conv, nproc), |m|, ncols)
    ensures forall i, j :: 0 <= i < |m| && 0 <= j < ncols ==>
              Run(m, ncols, nproc, draw, conv, nproc)[i][j] == Final(m, nproc, draw, conv, i, j)
  {
    RunEffect(m, ncols, nproc, draw, conv, nproc);
    Ends(nproc, |m|);
  }

  /**
    * As written, the rows left untouched by the whole run are exactly the rows
    * `i2` of the ranks; every other row holds its owner's value.
    */
  lemma AsWrittenSkipsLastRows(m: Matrix, ncols: nat, nproc: nat, draw: Draw, i: nat, j: nat)
    requires IsShape(m, |m|, ncols) && 0 < nproc && i < |m| && j < ncols
    ensures var r := Run(m, ncols, nproc, draw, AsWritten, nproc);
            var p := Owner(i, nproc, |m|);
            IsShape(r, |m|, ncols) &&
            r[i][j] == if i == LastRow(p, nproc, |m|) then m[i][j] else Written(draw, p, i - FirstRow(p, nproc, |m|), j)
  {
    AllRanksEffect(m, ncols, nproc, draw, AsWritten);
    var p := Owner(i, nproc, |m|);
    assert FirstRow(p, nproc, |m|) <= i <= LastRow(p, nproc, |m|);
    assert Run(m, ncols, nproc, draw, AsWritten, nproc)[i][j] == Final(m, nproc, draw, AsWritten, i, j);
  }

  /**
    * As written, row `i2` of every rank whose `i2` is a row keeps its old
    * contents: no rank writes it, whether or not the rank's own range is empty.
    */
  lemma LastRowNeverWritten(m: Matrix, ncols: nat, iproc: nat, nproc: nat, draw: Draw)
    requires IsShape(m, |m|, ncols) && iproc < nproc
    requires 0 <= LastRow(iproc, nproc, |m|)
    ensures var i2 := LastRow(iproc, nproc, |m|);
            i2 < |m| && Run(m, ncols, nproc, draw, AsWritten, nproc)[i2] == m[i2]
  {
    var i2 := LastRow(iproc, nproc, |m|);
    Abut(iproc, nproc, |m|);
    var p := Owner(i2, nproc, |m|);
    assert LastRow(p, nproc, |m|) == i2 by {
      if p < iproc {
        Ordered(p, iproc, nproc, |m|);
      } else if iproc < p {
        Ordered(iproc, p, nproc, |m|);
      }
    }
    var r := Run(m, ncols, nproc, draw, AsWritten, nproc);
    forall j | 0 <= j < ncols ensures |r[i2]| == ncols && r[i2][j] == m[i2][j] {
      AsWrittenSkipsLastRows(m, ncols, nproc, draw, i2, j);
    }
    AllRanksEffect(m, ncols, nproc, draw, AsWritten);
  }

  /** With the inclusive slice every rank succeeds and every row holds its owner's value. */
  lemma InclusiveWritesEveryRow(m: Matrix, ncols: nat, nproc: nat, draw: Draw, i: nat, j: nat)
    requires IsShape(m, |m|, ncols) && 0 < nproc && i < |m| && j < ncols
    ensures var r := Run(m, ncols, nproc, draw, Inclusive, nproc);
            var p := Owner(i, nproc, |m|);
            IsShape(r, |m|, ncols) && r[i][j] == Written(draw, p, i - FirstRow(p, nproc, |m|), j)
  {
    AllRanksEffect(m, ncols, nproc, draw, Inclusive);
    var p := Owner(i, nproc, |m|);
    var i2 := LastRow(p, nproc, |m|);
    assert i <= i2;
    assert Stop(Inclusive, p, nproc, |m|) == i2 + 1;
    assert Final(m, nproc, draw, Inclusive, i, j) == Written(draw, p, i - FirstRow(p, nproc, |m|), j);
  }

  /** With the inclusive slice no rank fails, even when there are fewer rows than ranks. */
  lemma InclusiveNeverFails(m: Matrix, ncols: nat, iproc: nat, nproc: nat, draw: Draw)
    requires IsShape(m, |m|, ncols) && iproc < nproc
    ensures RankWrite(m, ncols, iproc, nproc, draw, Inclusive).Ok?
  {
    RankWriteEffect(m, ncols, iproc, nproc, draw, Inclusive);
    Abut(iproc, nproc, |m|);
  }

  /** As written, every rank succeeds when there are at least as many rows as ranks. */
  lemma AsWrittenSucceedsWithEnoughRows(m: Matrix, ncols: nat, iproc: nat, nproc: nat, draw: Draw)
    requires IsShape(m, |m|, ncols) && iproc < nproc <= |m|
    ensures RankWrite(m, ncols, iproc, nproc, draw, AsWritten).Ok?
  {
    RankWriteEffect(m, ncols, iproc, nproc, draw, AsWritten);
    NonEmptyWhenEnoughRows(iproc, nproc, |m|);
  }

  /** With the default 128 rows and 8 ranks, row 15 (rank 0's `i2`) keeps its fill value. */
  lemma DefaultRunLeavesRow15(m: Matrix, ncols: nat, draw: Draw)
    requires IsShape(m, 128, ncols)
    ensures Run(m, ncols, 8, draw, AsWritten, 8)[15] == m[15]
  {
    FirstRowIsDiv(0, 8, 128);
    LastRowIsDiv(0, 8, 128);
    LastRowNeverWritten(m, ncols, 0, 8, draw);
  }

  /** With 4 rows and 8 ranks, rank 0 asks numpy for a buffer of `-1` rows and fails; the inclusive slice asks for 0. */
  lemma FewRowsNegativeBuffer(m: Matrix, ncols: nat, draw: Draw)
    requires IsShape(m, 4, ncols)
    ensures RankWrite(m, ncols, 0, 8, draw, AsWritten) == Err(NegativeDimension)
    ensures RankWrite(m, ncols, 0, 8, draw, Inclusive) == Ok(m)
  {
    assert FirstRow(0, 8, 4) == 0 && LastRow(0, 8, 4) == -1;
    RankWriteEffect(m, ncols, 0, 8, draw, Inclusive);
    CellwiseEqual(RankWrite(m, ncols, 0, 8, draw, Inclusive).value, m, 4, ncols);
  }

  /**
    * Rank `iproc` of the write script, run against the dataset: it computes
    * `i1` and `i2`, draws the buffer and assigns it with the offset added. It
    * fails, writing nothing, exactly when `i2 < i1`; the new contents are
    * `Apply` of the old ones, so `ApplyCells` gives every cell: the rank's
    * values in rows `i1 .. i2-1`, the old value everywhere else.
    */
  method WriteRank(ds: Dataset, iproc: nat, nproc: nat, draw: Draw) returns (r: Result<()>)
    requires ds.Valid() && iproc < nproc
    modifies ds.cells
    ensures ds.Valid()
    ensures r.Ok? <==> FirstRow(iproc, nproc, ds.nrows) <= LastRow(iproc, nproc, ds.nrows)
    ensures r.Err? ==> r.error == NegativeDimension
    ensures ds.Contents() == Apply(old(ds.Contents()), ds.ncols, iproc, nproc, draw, AsWritten)
  {
    ghost var before := ds.Contents();
    ghost var w := RankWrite(before, ds.ncols, iproc, nproc, draw, AsWritten);
    var i1 := (iproc * ds.nrows) / nproc;
    var i2 := (iproc + 1) * ds.nrows / nproc - 1;
    FirstRowIsDiv(iproc, nproc, ds.nrows);
    LastRowIsDiv(iproc, nproc, ds.nrows);
    var data := Uniform(i2 - i1, ds.ncols, iproc, draw);
    if data.Ok? {
      var block := Shifted(data.value, Offset(iproc));
      assert w == Assign(before, ds.ncols, i1, i2, block);
      assert SliceSpan(i1, i2, ds.nrows) == Span(i1, i2) by { BufferFitsSelection(AsWritten, iproc, nproc, ds.nrows); }
      r := ds.WriteRows(i1, i2, block);
    } else {
      r := Err(data.error);
    }
  }
}
