/**
  * The small parallel demo: when at most four ranks run, they create a
  * dataset of four unsigned 32-bit integers and each rank `iproc` stores
  * `iproc + 1` at index `iproc`; with more ranks nothing is created and rank 0
  * reports the error.
  */
module Simple {
  import opened Wrappers

  /** HDF5's `uint32` element type. */
  newtype U32 = x: int | 0 <= x < 0x1_0000_0000

  /** The dataset has shape `(4,)`. */
  const Size: nat := 4

  /** The dataset is only created, and written, with at most four ranks. */
  predicate Guard(nproc: nat) {
    nproc <= 4
  }

  /** The value rank `iproc` stores. */
  function Value(iproc: nat): (v: U32)
    requires iproc < Size
  {
    (iproc + 1) as U32
  }

  /** `dataset[iproc] = iproc + 1`; under the guard the index is always inside the dataset. */
  method WriteOwn(ds: array<U32>, iproc: nat, nproc: nat)
    requires ds.Length == Size && iproc < nproc && Guard(nproc)
    modifies ds
    ensures ds[..] == old(ds[..])[iproc := Value(iproc)]
  {
    ds[iproc] := Value(iproc);
  }

  /** The dataset contents after the writes of the ranks in `order`, applied one after another to `s`. */
  function Writes(s: seq<U32>, order: seq<nat>): (r: seq<U32>)
    requires |s| == Size
    requires forall i :: 0 <= i < |order| ==> order[i] < Size
    ensures |r| == Size
  {
    if order == [] then s
    else
      var p := order[|order| - 1];
      Writes(s, order[..|order| - 1])[p := Value(p)]
  }

  /** Element `k` holds `k + 1` if rank `k` is among the writers and its old value otherwise. */
  lemma {:induction false} WritesAt(s: seq<U32>, order: seq<nat>, k: nat)
    requires |s| == Size && k < Size
    requires forall i :: 0 <= i < |order| ==> order[i] < Size
    ensures |Writes(s, order)| == Size
    ensures Writes(s, order)[k] == if k in order then Value(k) else s[k]
  {
    if order != [] {
      var init := order[..|order| - 1];
      WritesAt(s, init, k);
      assert order == init + [order[|order| - 1]];
    }
  }

  /** Distinct ranks write distinct elements, so the order of the writes does not matter, only who wrote. */
  lemma WritesOrderIrrelevant(s: seq<U32>, o1: seq<nat>, o2: seq<nat>)
    requires |s| == Size
    requires forall i :: 0 <= i < |o1| ==> o1[i] < Size
    requires forall i :: 0 <= i < |o2| ==> o2[i] < Size
    requires forall p :: p in o1 <==> p in o2
    ensures Writes(s, o1) == Writes(s, o2)
  {
    forall k | 0 <= k < Size ensures Writes(s, o1)[k] == Writes(s, o2)[k] {
      WritesAt(s, o1, k);
      WritesAt(s, o2, k);
    }
  }

  /**
    * The script run by `nproc` ranks, whose steps happen in the order `order`
    * (every rank, each once). Under the guard the dataset is created filled
    * with 0 and every rank writes its element; otherwise only rank 0 reports
    * the error. `reporters` lists the ranks that report it, in the order they do.
    */
  method Run(nproc: nat, order: seq<nat>) returns (dataset: Option<array<U32>>, reporters: seq<nat>)
    requires 0 < nproc
    requires forall p :: 0 <= p < nproc ==> p in order
    requires forall i :: 0 <= i < |order| ==> order[i] < nproc
    requires forall i, j :: 0 <= i < j < |order| ==> order[i] != order[j]
    ensures dataset.Some? <==> Guard(nproc)
    ensures dataset.Some? ==>
              dataset.value.Length == Size &&
              forall k :: 0 <= k < Size ==> dataset.value[k] == if k < nproc then Value(k) else 0
    ensures reporters == if Guard(nproc) then [] else [0]
  {
    reporters := [];
    if Guard(nproc) {
      var ds := new U32[Size](_ => 0);
      ghost var zeros := ds[..];
      for i := 0 to |order|
        invariant ds.Length == Size
        invariant ds[..] == Writes(zeros, order[..i])
      {
        WriteOwn(ds, order[i], nproc);
        assert order[..i + 1][..i] == order[..i];
      }
      forall k | 0 <= k < Size ensures ds[k] == if k < nproc then Value(k) else 0 {
        WritesAt(zeros, order, k);
        assert order[..|order|] == order;
      }
      dataset := Some(ds);
    } else {
      for i := 0 to |order|
        invariant reporters == if 0 in order[..i] then [0] else []
      {
        if order[i] == 0 {
          assert 0 !in order[..i];
          reporters := reporters + [order[i]];
        }
        assert order[..i + 1] == order[..i] + [order[i]];
      }
      assert order[..|order|] == order;
      dataset := None;
    }
  }
}
