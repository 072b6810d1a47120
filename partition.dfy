/**
  * The row partition both parallel demo scripts compute: rank `iproc` of
  * `nproc` ranks gets rows `i1 = iproc*nrows // nproc` through
  * `i2 = (iproc+1)*nrows // nproc - 1`. All operands are non-negative, so
  * Python's floor division is the quotient `FloorDiv` and coincides with
  * Dafny's `/` (`FloorDivIsDiv`).
  */
module Partition {

  /**
    * Python's `a // n` for non-negative operands: how many times `n` fits in
    * `a`. `FloorDivIsDiv` relates it to Dafny's `/`.
    */
  function FloorDiv(a: nat, n: nat): (q: nat)
    requires 0 < n
    decreases a
  {
    if a < n then 0 else 1 + FloorDiv(a - n, n)
  }

  /**
    * `i1` of rank `iproc`. The same formula at `iproc == nproc` gives `nrows`,
    * the bound just after the last rank.
    */
  function FirstRow(iproc: nat, nproc: nat, nrows: nat): (i1: nat)
    requires iproc <= nproc && 0 < nproc
    ensures i1 <= nrows
  {
    FloorDivIsDiv(iproc * nrows, nproc);
    ScaleBounded(iproc, nproc, nrows);
    FloorDiv(iproc * nrows, nproc)
  }

  /** `i2` of rank `iproc`: meant as the last row of the rank; `-1` when the rank gets no row at the start. */
  function LastRow(iproc: nat, nproc: nat, nrows: nat): (i2: int)
    requires iproc < nproc
    ensures -1 <= i2 < nrows
  {
    FloorDivIsDiv((iproc + 1) * nrows, nproc);
    ScaleBounded(iproc + 1, nproc, nrows);
    FloorDiv((iproc + 1) * nrows, nproc) - 1
  }

  /** `i1` is `iproc*nrows / nproc`. */
  lemma FirstRowIsDiv(iproc: nat, nproc: nat, nrows: nat)
    requires iproc <= nproc && 0 < nproc
    ensures FirstRow(iproc, nproc, nrows) == (iproc * nrows) / nproc
  {
    FloorDivIsDiv(iproc * nrows, nproc);
  }

  /** `i2` is `(iproc+1)*nrows / nproc - 1`. */
  lemma LastRowIsDiv(iproc: nat, nproc: nat, nrows: nat)
    requires iproc < nproc
    ensures LastRow(iproc, nproc, nrows) == (iproc + 1) * nrows / nproc - 1
  {
    FloorDivIsDiv((iproc + 1) * nrows, nproc);
  }

  // ---------------------------------------------------------------------------
  // Division facts

  /** Repeated subtraction computes the floor quotient. */
  lemma {:induction false} FloorDivIsDiv(a: nat, n: nat)
    requires 0 < n
    ensures FloorDiv(a, n) == a / n
  {
    if n <= a {
      FloorDivIsDiv(a - n, n);
      var q, rem := (a - n) / n, (a - n) % n;
      assert a - n == n * q + rem;
      assert a == n * (q + 1) + rem;
      DivUnique(a, n, q + 1, rem);
    } else {
      DivUnique(a, n, 0, a);
    }
  }

  lemma DivMonotone(a: int, b: int, n: int)
    requires 0 <= a <= b && 0 < n
    ensures a / n <= b / n
  {
    if a / n > b / n {
      MulMonotone(b / n + 1, a / n, n);
    }
  }

  lemma MulMonotone(x: int, y: int, n: int)
    requires x <= y && 0 <= n
    ensures x * n <= y * n && n * x <= n * y
  {
  }

  lemma MulDivCancel(k: nat, n: nat)
    requires 0 < n
    ensures (k * n) / n == k && (n * k) / n == k
  {
    assert k * n == n * k;
    var q := (k * n) / n;
    if q < k {
      MulMonotone(q + 1, k, n);
    } else if q > k {
      MulMonotone(k + 1, q, n);
    }
  }

  lemma ScaleBounded(iproc: nat, nproc: nat, nrows: nat)
    requires iproc <= nproc && 0 < nproc
    ensures 0 <= (iproc * nrows) / nproc <= nrows
  {
    MulMonotone(iproc, nproc, nrows);
    DivMonotone(iproc * nrows, nproc * nrows, nproc);
    MulDivCancel(nrows, nproc);
  }

  // ---------------------------------------------------------------------------
  // How the ranks tile the rows

  /** The first rank starts at row 0 and the bound after the last rank is `nrows`. */
  lemma Ends(nproc: nat, nrows: nat)
    requires 0 < nproc
    ensures FirstRow(0, nproc, nrows) == 0
    ensures FirstRow(nproc, nproc, nrows) == nrows
    ensures LastRow(nproc - 1, nproc, nrows) == nrows - 1
  {
    FirstRowIsDiv(0, nproc, nrows);
    FirstRowIsDiv(nproc, nproc, nrows);
    MulDivCancel(nrows, nproc);
    LastRowIsDiv(nproc - 1, nproc, nrows);
    assert (nproc - 1) + 1 == nproc;
  }

  /** `i1` does not decrease with the rank. */
  lemma FirstRowMonotone(p: nat, q: nat, nproc: nat, nrows: nat)
    requires p <= q <= nproc && 0 < nproc
    ensures FirstRow(p, nproc, nrows) <= FirstRow(q, nproc, nrows)
  {
    FirstRowIsDiv(p, nproc, nrows);
    FirstRowIsDiv(q, nproc, nrows);
    MulMonotone(p, q, nrows);
    DivMonotone(p * nrows, q * nrows, nproc);
  }

  /**
    * Consecutive ranks abut, whether or not `nproc` divides `nrows`; every `i2`
    * stays below `nrows`, and a rank's range is empty (`i1 == i2 + 1`) rather
    * than reversed.
    */
  lemma Abut(iproc: nat, nproc: nat, nrows: nat)
    requires iproc < nproc
    ensures FirstRow(iproc + 1, nproc, nrows) == LastRow(iproc, nproc, nrows) + 1
    ensures -1 <= LastRow(iproc, nproc, nrows) <= nrows - 1
    ensures FirstRow(iproc, nproc, nrows) <= LastRow(iproc, nproc, nrows) + 1
  {
    FirstRowMonotone(iproc, iproc + 1, nproc, nrows);
  }

  /** With at least as many rows as ranks, every rank gets at least one row. */
  lemma NonEmptyWhenEnoughRows(iproc: nat, nproc: nat, nrows: nat)
    requires iproc < nproc <= nrows
    ensures FirstRow(iproc, nproc, nrows) <= LastRow(iproc, nproc, nrows)
  {
    FirstRowIsDiv(iproc, nproc, nrows);
    LastRowIsDiv(iproc, nproc, nrows);
    assert (iproc + 1) * nrows == iproc * nrows + nrows;
    DivAddAtLeastOne(iproc * nrows, nrows, nproc);
  }

  lemma DivAddAtLeastOne(a: nat, b: nat, n: nat)
    requires 0 < n <= b
    ensures a / n + 1 <= (a + b) / n
  {
    DivMonotone(a + n, a + b, n);
    DivUnique(a + n, n, a / n + 1, a % n);
  }

  lemma DivUnique(x: int, n: int, q: int, rem: int)
    requires 0 < n && 0 <= rem < n && x == n * q + rem
    ensures x / n == q
  {
    var q' := x / n;
    if q' < q {
      MulMonotone(q' + 1, q, n);
    } else if q' > q {
      MulMonotone(q + 1, q', n);
    }
  }

  /** Ranges of distinct ranks are disjoint and ordered by rank. */
  lemma Ordered(p: nat, q: nat, nproc: nat, nrows: nat)
    requires p < q < nproc
    ensures LastRow(p, nproc, nrows) < FirstRow(q, nproc, nrows)
  {
    FirstRowMonotone(p + 1, q, nproc, nrows);
  }

  /** The rank whose inclusive range `[i1, i2]` holds row `r`: the last rank at or below `k` that starts at or before `r`. */
  function OwnerFrom(k: nat, r: nat, nproc: nat, nrows: nat): (p: nat)
    requires k < nproc && r < FirstRow(k + 1, nproc, nrows)
    ensures p <= k
    ensures FirstRow(p, nproc, nrows) <= r < FirstRow(p + 1, nproc, nrows)
    decreases k
  {
    if FirstRow(k, nproc, nrows) <= r then k
    else (
      assert k != 0 by { Ends(nproc, nrows); }
      OwnerFrom(k - 1, r, nproc, nrows)
    )
  }

  /** The rank responsible for row `r`. */
  function Owner(r: nat, nproc: nat, nrows: nat): (p: nat)
    requires 0 < nproc && r < nrows
    ensures p < nproc
    ensures FirstRow(p, nproc, nrows) <= r <= LastRow(p, nproc, nrows)
  {
    assert r < FirstRow(nproc - 1 + 1, nproc, nrows) by { Ends(nproc, nrows); }
    var p := OwnerFrom(nproc - 1, r, nproc, nrows);
    assert FirstRow(p + 1, nproc, nrows) == LastRow(p, nproc, nrows) + 1 by { Abut(p, nproc, nrows); }
    p
  }

  /**
    * Coverage and disjointness: row `r` lies in the inclusive range of rank `p`
    * exactly when `p` is its owner, so every row of `[0, nrows)` belongs to one
    * and only one rank.
    */
  lemma OwnerUnique(r: nat, p: nat, nproc: nat, nrows: nat)
    requires p < nproc && r < nrows
    ensures FirstRow(p, nproc, nrows) <= r <= LastRow(p, nproc, nrows) <==> Owner(r, nproc, nrows) == p
  {
    var o := Owner(r, nproc, nrows);
    if o < p {
      Ordered(o, p, nproc, nrows);
    } else if p < o {
      Ordered(p, o, nproc, nrows);
    }
  }
}
