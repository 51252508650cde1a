/**
 * The `SplitParams<T, …>` families of the generated headers.
 *
 * For a record type, `map(col_n)` names the cell that stores field col_n
 * (a field ordinal, in declaration order). `split_builder[c]` projects a row
 * onto the struct of cell c, which holds the fields that `map` sends to c in
 * declaration order, and `split_merger[c]` writes such a struct back into a
 * row. `UniRecordAccessor` reads a whole row through one pointer;
 * `SplitRecordAccessor` reads each field through the pointer of its cell.
 * Rows and cell structs are arrays of their fields in declaration order.
 */
module SplitParams {

  /** The position of field f inside the struct of `cell`: how many earlier fields map there too. */
  function Rank(m: int -> int, cell: int, f: nat): (r: nat)
    ensures r <= f
  {
    if f == 0 then 0 else Rank(m, cell, f - 1) + (if m(f - 1) == cell then 1 else 0)
  }

  /** Fields of the same cell occupy strictly increasing positions in its struct. */
  lemma {:induction false} RankIncreases(m: int -> int, cell: int, f: nat, g: nat)
    requires f < g && m(f) == cell
    ensures Rank(m, cell, f) < Rank(m, cell, g)
    decreases g
  {
    if f + 1 < g {
      RankIncreases(m, cell, f, g - 1);
    }
  }

  /** The number of fields among the first n that `map` sends to `cell`: the size of its struct. */
  function CellSize(m: int -> int, cell: int, n: nat): nat {
    Rank(m, cell, n)
  }

  /**
   * split_builder[cell](row): the struct of `cell`, holding each field that
   * map sends to `cell` at its rank.
   */
  function Build<V>(m: int -> int, cell: int, row: seq<V>): (out: seq<V>)
    ensures |out| == CellSize(m, cell, |row|)
    ensures forall f {:trigger m(f)} :: 0 <= f < |row| && m(f) == cell ==>
      Rank(m, cell, f) < |out| && out[Rank(m, cell, f)] == row[f]
  {
    if |row| == 0 then []
    else
      var n := |row| - 1;
      var front := Build(m, cell, row[..n]);
      assert forall f :: 0 <= f < n && m(f) == cell ==> row[..n][f] == row[f];
      front + (if m(n) == cell then [row[n]] else [])
  }

  /**
   * The row that split_merger[cell](out, in) leaves: each field that map
   * sends to `cell` is taken from the struct at its rank, every other field
   * keeps its value.
   */
  function Merged<V>(m: int -> int, cell: int, out: seq<V>, input: seq<V>): (r: seq<V>)
    requires |input| == CellSize(m, cell, |out|)
    ensures |r| == |out|
  {
    RankBound(m, cell, |out|);
    seq(|out|, f requires 0 <= f < |out| =>
      if m(f) == cell then input[Rank(m, cell, f)] else out[f])
  }

  lemma RankBound(m: int -> int, cell: int, n: nat)
    ensures forall f :: 0 <= f < n && m(f) == cell ==> Rank(m, cell, f) < Rank(m, cell, n)
  {
    forall f | 0 <= f < n && m(f) == cell
      ensures Rank(m, cell, f) < Rank(m, cell, n)
    {
      RankIncreases(m, cell, f, n);
    }
  }

  /** Merging the builder's struct of a cell restores exactly that cell's fields. */
  lemma MergeBuildCell<V>(m: int -> int, cell: int, out: seq<V>, row: seq<V>)
    requires |out| == |row|
    ensures forall f :: 0 <= f < |row| ==>
      Merged(m, cell, out, Build(m, cell, row))[f] == (if m(f) == cell then row[f] else out[f])
  {
  }

  /**
   * Applying each merger to its builder's output reconstructs the row, for
   * a map into cells 0 and 1, whatever the target held before.
   */
  lemma MergeBuildRoundTrip<V>(m: int -> int, out: seq<V>, row: seq<V>)
    requires |out| == |row|
    requires forall f :: 0 <= f < |row| ==> m(f) == 0 || m(f) == 1
    ensures Merged(m, 1, Merged(m, 0, out, Build(m, 0, row)), Build(m, 1, row)) == row
  {
    var mid := Merged(m, 0, out, Build(m, 0, row));
    MergeBuildCell(m, 0, out, row);
    MergeBuildCell(m, 1, mid, row);
  }

  /** With a single split (map always 0), the one merger restores the whole row. */
  lemma MergeBuildSingle<V>(m: int -> int, out: seq<V>, row: seq<V>)
    requires |out| == |row|
    requires forall f :: 0 <= f < |row| ==> m(f) == 0
    ensures Merged(m, 0, out, Build(m, 0, row)) == row
  {
    MergeBuildCell(m, 0, out, row);
  }

  /** Under a map that cuts at k, ranks count up in cell a before k and in cell b after it. */
  lemma {:induction false} RankSplitAt(m: int -> int, k: nat, a: int, b: int, f: nat)
    requires a != b
    requires forall g :: 0 <= g < f ==> m(g) == (if g < k then a else b)
    ensures Rank(m, a, f) == (if f < k then f else k)
    ensures Rank(m, b, f) == (if f < k then 0 else f - k)
  {
    if f > 0 {
      RankSplitAt(m, k, a, b, f - 1);
    }
  }

  /**
   * A map that sends the first k fields to cell a and the rest to cell b
   * makes the builders cut the row at k.
   */
  lemma BuildSplitAt<V>(m: int -> int, k: nat, a: int, b: int, row: seq<V>)
    requires a != b && k <= |row|
    requires forall f :: 0 <= f < |row| ==> m(f) == (if f < k then a else b)
    ensures Build(m, a, row) == row[..k]
    ensures Build(m, b, row) == row[k..]
  {
    BuildBeforeCut(m, k, a, b, row);
    BuildAfterCut(m, k, a, b, row);
  }

  /** The struct of the cell before the cut holds the first k fields. */
  lemma BuildBeforeCut<V>(m: int -> int, k: nat, a: int, b: int, row: seq<V>)
    requires a != b && k <= |row|
    requires forall f :: 0 <= f < |row| ==> m(f) == (if f < k then a else b)
    ensures Build(m, a, row) == row[..k]
  {
    RankSplitAt(m, k, a, b, |row|);
    var ba := Build(m, a, row);
    forall i | 0 <= i < k
      ensures ba[i] == row[i]
    {
      RankSplitAt(m, k, a, b, i);
      assert m(i) == a;
    }
  }

  /** The struct of the cell after the cut holds the remaining fields. */
  lemma BuildAfterCut<V>(m: int -> int, k: nat, a: int, b: int, row: seq<V>)
    requires a != b && k <= |row|
    requires forall f :: 0 <= f < |row| ==> m(f) == (if f < k then a else b)
    ensures Build(m, b, row) == row[k..]
  {
    RankSplitAt(m, k, a, b, |row|);
    var bb, tail := Build(m, b, row), row[k..];
    assert |bb| == |tail|;
    forall i | 0 <= i < |tail|
      ensures bb[i] == tail[i]
    {
      var f := k + i;
      RankSplitAt(m, k, a, b, f);
      assert m(f) == b && Rank(m, b, f) == i;
      assert bb[Rank(m, b, f)] == row[f];
    }
  }

  /** split_merger[cell](out, in): one assignment per field of the cell. */
  method Merge<V>(m: int -> int, cell: int, out: array<V>, input: seq<V>)
    requires |input| == CellSize(m, cell, out.Length)
    modifies out
    ensures out[..] == Merged(m, cell, old(out[..]), input)
  {
    RankBound(m, cell, out.Length);
    forall f | 0 <= f < out.Length && m(f) == cell {
      out[f] := input[Rank(m, cell, f)];
    }
  }

  /** UniRecordAccessor: one pointer to a whole row. */
  class UniRecordAccessor<V> {
    const numFields: nat
    /** vptr_ */
    const vptr: array?<V>

    constructor(numFields: nat, vptr: array?<V>)
      requires vptr != null ==> vptr.Length == numFields
      ensures this.numFields == numFields && this.vptr == vptr
    {
      this.numFields := numFields;
      this.vptr := vptr;
    }

    predicate Valid() {
      vptr != null ==> vptr.Length == numFields
    }

    /** `operator bool`: the row pointer is set, so every getter can read its field. */
    predicate Truthy()
      ensures Truthy() <==> vptr != null
      ensures Truthy() && Valid() ==> vptr.Length == numFields
    {
      vptr != null
    }

    /** The `<field>_impl()` getters: field f of the row. */
    function Get(f: nat): (v: V)
      reads vptr
      requires Valid() && Truthy() && f < numFields
      ensures v == vptr[..][f]
    {
      vptr[f]
    }

    /** copy_into_impl(dst): every field when vptr_ is set, nothing otherwise. */
    method CopyInto(dst: array<V>)
      requires Valid() && dst.Length == numFields
      modifies dst
      ensures vptr != null ==> dst[..] == old(vptr[..])
      ensures vptr == null ==> dst[..] == old(dst[..])
    {
      if vptr != null {
        forall f | 0 <= f < dst.Length {
          dst[f] := vptr[f];
        }
      }
    }
  }

  /** SplitRecordAccessor: one pointer per cell struct (vptr_0_, vptr_1_). */
  class SplitRecordAccessor<V> {
    /** SplitParams::map */
    const cellMap: int -> int
    const numFields: nat
    /** num_splits */
    const numSplits: nat
    const vptrs: seq<array?<V>>

    constructor(cellMap: int -> int, numFields: nat, vptrs: seq<array?<V>>)
      requires 1 <= |vptrs| <= 2
      requires forall f :: 0 <= f < numFields ==> 0 <= cellMap(f) < |vptrs|
      requires forall c :: 0 <= c < |vptrs| && vptrs[c] != null ==>
        vptrs[c].Length == CellSize(cellMap, c, numFields)
      ensures Valid()
      ensures this.cellMap == cellMap && this.numFields == numFields && this.vptrs == vptrs
    {
      this.cellMap := cellMap;
      this.numFields := numFields;
      this.numSplits := |vptrs|;
      this.vptrs := vptrs;
    }

    /** Each field maps to an existing cell; each cell pointer addresses a struct of that cell's size. */
    predicate Valid() {
      && numSplits == |vptrs|
      && 1 <= numSplits <= 2
      && (forall f :: 0 <= f < numFields ==> 0 <= cellMap(f) < numSplits)
      && (forall c :: 0 <= c < numSplits && vptrs[c] != null ==>
            vptrs[c].Length == CellSize(cellMap, c, numFields))
    }

    /** `operator bool`: every cell pointer is set, so every getter can read its field. */
    predicate Truthy()
      requires Valid()
      ensures Truthy() <==> vptrs[0] != null && (numSplits == 2 ==> vptrs[1] != null)
      ensures Truthy() ==> forall f :: 0 <= f < numFields ==> vptrs[cellMap(f)] != null
    {
      forall c :: 0 <= c < numSplits ==> vptrs[c] != null
    }

    /** The `<field>_impl()` getters: the field read from the struct of its cell, at its rank. */
    function Get(f: nat): (v: V)
      reads set c | 0 <= c < |vptrs| && vptrs[c] != null :: vptrs[c]
      requires Valid() && f < numFields && vptrs[cellMap(f)] != null
      ensures Rank(cellMap, cellMap(f), f) < vptrs[cellMap(f)].Length
      ensures v == vptrs[cellMap(f)][..][Rank(cellMap, cellMap(f), f)]
    {
      RankBound(cellMap, cellMap(f), numFields);
      vptrs[cellMap(f)][Rank(cellMap, cellMap(f), f)]
    }

    /** When each cell struct was built from one row, every getter gives back that row's field. */
    lemma GetBuiltRow(f: nat, row: seq<V>)
      requires Valid() && f < numFields && |row| == numFields
      requires vptrs[cellMap(f)] != null && vptrs[cellMap(f)][..] == Build(cellMap, cellMap(f), row)
      ensures Get(f) == row[f]
    {
    }

    /**
     * copy_into_impl(dst): the merger of each cell whose pointer is set, in
     * cell order; fields of an absent cell keep their values.
     */
    method CopyInto(dst: array<V>)
      requires Valid() && dst.Length == numFields
      // vptr_1_ points to a cell struct, never to the row being filled
      requires numSplits == 2 ==> vptrs[1] != dst
      modifies dst
      ensures forall f :: 0 <= f < numFields ==>
        dst[f] == (if vptrs[cellMap(f)] != null then old(Get(f)) else old(dst[f]))
    {
      ghost var d0 := dst[..];
      ghost var cell0 := if vptrs[0] != null then vptrs[0][..] else [];
      ghost var cell1 := if numSplits == 2 && vptrs[1] != null then vptrs[1][..] else [];
      RankBound(cellMap, 0, numFields);
      RankBound(cellMap, 1, numFields);
      if vptrs[0] != null {
        Merge(cellMap, 0, dst, vptrs[0][..]);
      }
      ghost var mid := dst[..];
      assert forall f :: 0 <= f < numFields ==>
        mid[f] == (if cellMap(f) == 0 && vptrs[0] != null then cell0[Rank(cellMap, 0, f)] else d0[f]);
      if numSplits == 2 && vptrs[1] != null {
        Merge(cellMap, 1, dst, vptrs[1][..]);
      }
      forall f | 0 <= f < numFields
        ensures dst[f] == (if vptrs[cellMap(f)] != null then old(Get(f)) else old(dst[f]))
      {
        if cellMap(f) == 1 && numSplits == 2 && vptrs[1] != null {
          assert dst[f] == cell1[Rank(cellMap, 1, f)];
        } else {
          assert dst[f] == mid[f];
        }
      }
    }
  }
}
