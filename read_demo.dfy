/**
  * The parallel read demo: every rank takes the dataset's shape, computes the
  * same `i1` and `i2` as the writer and reads `dataset[i1:i2, :]`; the byte
  * count it reports is the size of the whole dataset.
  */
module ReadDemo {
  import opened Slicing
  import opened Partition
  import opened Store
  import opened WriteDemo

  /** The rows rank `iproc` selects out of the contents `m`. */
  function BlockSpan(nrows: nat, iproc: nat, nproc: nat, conv: Convention): (s: Span)
    requires iproc < nproc
  {
    SliceSpan(FirstRow(iproc, nproc, nrows), Stop(conv, iproc, nproc, nrows), nrows)
  }

  /** The block rank `iproc` reads. */
  function RankBlock(m: Matrix, iproc: nat, nproc: nat, conv: Convention): (b: Matrix)
    requires iproc < nproc
    ensures |b| <= |m| && forall k :: 0 <= k < |b| ==> b[k] in m
  {
    Rows(m, FirstRow(iproc, nproc, |m|), Stop(conv, iproc, nproc, |m|))
  }

  /**
    * What the scripts' slice `[i1:i2]` reads: rows `i1 .. i2-1` in order
    * (`i2 - i1` of them) when `i2` is a row; nothing when the rank's range is
    * empty; and, when `i2` is `-1`, every row but the last, because Python
    * counts a negative stop from the end.
    */
  lemma AsWrittenBlock(m: Matrix, iproc: nat, nproc: nat)
    requires iproc < nproc
    ensures var i1 := FirstRow(iproc, nproc, |m|);
            var i2 := LastRow(iproc, nproc, |m|);
            var b := RankBlock(m, iproc, nproc, AsWritten);
            (0 <= i1 <= i2 ==> |b| == i2 - i1 && b == m[i1..i2]) &&
            (0 <= i2 < i1 ==> b == []) &&
            (i2 < 0 < |m| ==> b == m[..|m| - 1])
  {
    Abut(iproc, nproc, |m|);
    var i1 := FirstRow(iproc, nproc, |m|);
    var i2 := LastRow(iproc, nproc, |m|);
    if i2 < 0 < |m| {
      assert i2 == -1 && i1 == 0;
    }
  }

  /**
    * Blocks of distinct ranks whose `i2` is a row are disjoint, and no such
    * block holds another rank's row `i2` or its own.
    */
  lemma AsWrittenBlocksDisjoint(nrows: nat, p: nat, q: nat, nproc: nat)
    requires p < nproc && q < nproc && p != q
    requires 0 <= LastRow(p, nproc, nrows) && 0 <= LastRow(q, nproc, nrows)
    ensures var sp := BlockSpan(nrows, p, nproc, AsWritten);
            var sq := BlockSpan(nrows, q, nproc, AsWritten);
            (sp.hi <= sq.lo || sq.hi <= sp.lo) &&
            !(sq.lo <= LastRow(p, nproc, nrows) < sq.hi) &&
            !(sp.lo <= LastRow(p, nproc, nrows) < sp.hi)
  {
    Abut(p, nproc, nrows);
    Abut(q, nproc, nrows);
    SlicesDisjoint(AsWritten, p, q, nproc, nrows);
    if p < q {
      Ordered(p, q, nproc, nrows);
      FirstRowMonotone(p + 1, q, nproc, nrows);
    } else {
      Ordered(q, p, nproc, nrows);
      FirstRowMonotone(q + 1, p, nproc, nrows);
    }
  }

  /** With 3 rows and 8 ranks, ranks 0 and 1 both have `i2 == -1` and both read rows 0 and 1. */
  lemma FewRowsOverlappingReads(m: Matrix)
    requires |m| == 3
    ensures RankBlock(m, 0, 8, AsWritten) == m[..2]
    ensures RankBlock(m, 1, 8, AsWritten) == m[..2]
    ensures RankBlock(m, 0, 8, Inclusive) == [] && RankBlock(m, 1, 8, Inclusive) == []
  {
    assert FirstRow(0, 8, 3) == 0 && LastRow(0, 8, 3) == -1;
    assert FirstRow(1, 8, 3) == 0 && LastRow(1, 8, 3) == -1;
  }

  /** The blocks of ranks `0 .. k-1`, one after another. */
  function Gathered(m: Matrix, nproc: nat, conv: Convention, k: nat): (g: Matrix)
    requires k <= nproc
  {
    if k == 0 then [] else Gathered(m, nproc, conv, k - 1) + RankBlock(m, k - 1, nproc, conv)
  }

  /** With the inclusive slice rank `iproc` reads exactly rows `i1 .. i2`. */
  lemma InclusiveBlock(m: Matrix, iproc: nat, nproc: nat)
    requires iproc < nproc
    ensures var i1, next := FirstRow(iproc, nproc, |m|), FirstRow(iproc + 1, nproc, |m|);
            i1 <= next && RankBlock(m, iproc, nproc, Inclusive) == m[i1..next]
  {
    var i1, stop := FirstRow(iproc, nproc, |m|), Stop(Inclusive, iproc, nproc, |m|);
    assert stop == FirstRow(iproc + 1, nproc, |m|) by { StopBound(Inclusive, iproc, nproc, |m|); }
    assert i1 <= stop by { FirstRowMonotone(iproc, iproc + 1, nproc, |m|); }
    assert SliceSpan(i1, stop, |m|) == Span(i1, stop);
  }

  /** With the inclusive slice the blocks of ranks `0 .. k-1` are the rows before rank `k`'s first row. */
  lemma {:induction false} InclusiveGatherPrefix(m: Matrix, nproc: nat, k: nat)
    requires k <= nproc && 0 < nproc
    ensures Gathered(m, nproc, Inclusive, k) == m[..FirstRow(k, nproc, |m|)]
  {
    if k == 0 {
      Ends(nproc, |m|);
    } else {
      var a, b := FirstRow(k - 1, nproc, |m|), FirstRow(k, nproc, |m|);
      var front, block := Gathered(m, nproc, Inclusive, k - 1), RankBlock(m, k - 1, nproc, Inclusive);
      assert Gathered(m, nproc, Inclusive, k) == front + block;
      assert front == m[..a] by { InclusiveGatherPrefix(m, nproc, k - 1); }
      assert a <= b && block == m[a..b] by { InclusiveBlock(m, k - 1, nproc); }
      PrefixThenSlice(m, a, b);
    }
  }

  /** A prefix followed by the next slice is the longer prefix. */
  lemma PrefixThenSlice(m: Matrix, a: nat, b: nat)
    requires a <= b <= |m|
    ensures m[..a] + m[a..b] == m[..b]
  {
  }

  /** With the inclusive slice the ranks' blocks, in rank order, are the whole dataset: every row read once. */
  lemma InclusiveBlocksTileDataset(m: Matrix, nproc: nat)
    requires 0 < nproc
    ensures Gathered(m, nproc, Inclusive, nproc) == m
  {
    InclusiveGatherPrefix(m, nproc, nproc);
    Ends(nproc, |m|);
  }

  /** Round trip: after rank `iproc`'s write succeeds, its read returns exactly what it wrote. */
  lemma ReadBackOwnWrite(m: Matrix, ncols: nat, iproc: nat, nproc: nat, draw: Draw, conv: Convention)
    requires IsShape(m, |m|, ncols) && iproc < nproc
    requires RankWrite(m, ncols, iproc, nproc, draw, conv).Ok?
    ensures var b := RankBlock(RankWrite(m, ncols, iproc, nproc, draw, conv).value, iproc, nproc, conv);
            var i1 := FirstRow(iproc, nproc, |m|);
            |b| == Stop(conv, iproc, nproc, |m|) - i1 &&
            forall k, j :: 0 <= k < |b| && 0 <= j < ncols ==> |b[k]| == ncols && b[k][j] == Written(draw, iproc, k, j)
  {
    var i1 := FirstRow(iproc, nproc, |m|);
    var stop := Stop(conv, iproc, nproc, |m|);
    var u := Uniform(stop - i1, ncols, iproc, draw);
    assert u.Ok?;
    var block := Shifted(u.value, Offset(iproc));
    assert RankWrite(m, ncols, iproc, nproc, draw, conv) == Assign(m, ncols, i1, stop, block);
    AssignThenRows(m, ncols, i1, stop, block);
    assert RankBlock(RankWrite(m, ncols, iproc, nproc, draw, conv).value, iproc, nproc, conv) == block;
  }

  /** `dataset.nbytes` is at least the byte count of any rank's block. */
  lemma BlockBytesWithinTotal(ds: Dataset, iproc: nat, nproc: nat, conv: Convention, itemsize: nat)
    requires ds.Valid() && iproc < nproc
    ensures |RankBlock(ds.Contents(), iproc, nproc, conv)| * ds.ncols * itemsize <= ds.NBytes(itemsize)
  {
    var rows := |RankBlock(ds.Contents(), iproc, nproc, conv)|;
    MulMonotone(rows, ds.nrows, ds.ncols);
    MulMonotone(rows * ds.ncols, ds.nrows * ds.ncols, itemsize);
  }

  /**
    * Rank `iproc` of the read script: the shape comes from the stored dataset,
    * the block is `dataset[i1:i2, :]`, and the reported byte count is that of
    * the whole dataset. Nothing is modified.
    */
  method ReadRank(ds: Dataset, iproc: nat, nproc: nat, itemsize: nat) returns (block: Matrix, nbytes: nat)
    requires ds.Valid() && iproc < nproc
    ensures block == RankBlock(ds.Contents(), iproc, nproc, AsWritten)
    ensures |block| <= ds.nrows && IsShape(block, |block|, ds.ncols)
    ensures nbytes == ds.nrows * ds.ncols * itemsize
  {
    var nrows, ncols := ds.nrows, ds.ncols;
    var i1 := (iproc * nrows) / nproc;
    var i2 := (iproc + 1) * nrows / nproc - 1;
    FirstRowIsDiv(iproc, nproc, nrows);
    LastRowIsDiv(iproc, nproc, nrows);
    block := ds.ReadRows(i1, i2);
    nbytes := ds.NBytes(itemsize);
  }
}
