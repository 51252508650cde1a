/**
 * The `RecordAccessor` class that each generated record header defines for
 * its SplitPolicy tables. It holds MAX_POINTERS (= MAX_SPLITS = 2) pointers to
 * full record values, one per cell, and the index of the split policy in
 * force. A field is read from the pointer of the cell that the current
 * policy assigns to its column.
 */
module GeneratedAccessor {
  import opened SplitPolicy

  /** MAX_POINTERS */
  const MAX_POINTERS: nat := 2

  class RecordAccessor<V> {
    /** SplitPolicy<0>::policy, ..., SplitPolicy<POLICIES - 1>::policy */
    const policies: seq<seq<int>>
    /** COLCOUNT */
    const colCount: nat
    /** vptrs_: the record value holding each cell (nullptr when absent) */
    var vptrs: seq<array?<V>>
    /** splitindex_: the split policy in force */
    var splitindex: int

    /** Every table has COLCOUNT entries naming cell 0 or 1; every pointer is to a whole record. */
    predicate Valid()
      reads this
    {
      && |vptrs| == MAX_POINTERS
      && |policies| > 0
      && (forall k :: 0 <= k < |policies| ==> |policies[k]| == colCount && TwoCells(policies[k]))
      && (forall c :: 0 <= c < MAX_POINTERS && vptrs[c] != null ==> vptrs[c].Length == colCount)
    }

    /** `RecordAccessor(vals...)`: the given pointers, the rest nullptr; splitindex_ is 0. */
    constructor(policies: seq<seq<int>>, colCount: nat, ptrs: seq<array?<V>>)
      requires 0 < |policies|
      requires forall k :: 0 <= k < |policies| ==> |policies[k]| == colCount && TwoCells(policies[k])
      requires |ptrs| <= MAX_POINTERS
      requires forall c :: 0 <= c < |ptrs| && ptrs[c] != null ==> ptrs[c].Length == colCount
      ensures Valid()
      ensures this.policies == policies && this.colCount == colCount
      ensures vptrs[..|ptrs|] == ptrs
      ensures forall c :: |ptrs| <= c < MAX_POINTERS ==> vptrs[c] == null
      ensures splitindex == 0
    {
      this.policies := policies;
      this.colCount := colCount;
      vptrs := ptrs + seq(MAX_POINTERS - |ptrs|, _ => null);
      splitindex := 0;
    }

    /**
     * `operator bool`: only the first pointer is tested, so a true accessor
     * can read every column of cell 0 under the policy in force, and every
     * column at all when the split index names no policy.
     */
    predicate Truthy()
      reads this
      requires Valid()
      ensures Truthy() <==> vptrs[0] != null
      ensures Truthy() ==> forall col :: 0 <= col < colCount && CellOf(col) == 0 ==> vptrs[CellOf(col)] != null
      ensures Truthy() && !(0 <= splitindex < |policies|) ==>
        forall col :: 0 <= col < colCount ==> vptrs[CellOf(col)] != null
    {
      vptrs[0] != null
    }

    /**
     * split_of(index, column): the cell of `column` under policy `index`;
     * an index outside 0..POLICIES-1 yields cell 0 without any lookup.
     */
    static function SplitOf(policies: seq<seq<int>>, index: int, col: int): (cell: int)
      requires 0 <= index < |policies| ==> TwoCells(policies[index]) && 0 <= col < |policies[index]|
      ensures cell == 0 || cell == 1
      ensures !(0 <= index < |policies|) ==> cell == 0
      ensures 0 <= index < |policies| ==> cell == policies[index][col]
    {
      if 0 <= index < |policies| then policies[index][col] else 0
    }

    /** cell_of(column): split_of under the current splitindex_. */
    function CellOf(col: int): (cell: int)
      reads this
      requires Valid() && 0 <= col < colCount
      ensures cell == 0 || cell == 1
      ensures 0 <= splitindex < |policies| ==> cell == policies[splitindex][col]
      ensures !(0 <= splitindex < |policies|) ==> cell == 0
    {
      SplitOf(policies, splitindex, col)
    }

    /** The getter of a column: the field as stored in the pointer of its cell. */
    function Get(col: int): (v: V)
      reads this, set c | 0 <= c < |vptrs| && vptrs[c] != null :: vptrs[c]
      requires Valid() && 0 <= col < colCount
      requires vptrs[CellOf(col)] != null
      ensures 0 <= splitindex < |policies| ==> v == vptrs[policies[splitindex][col]][col]
      ensures !(0 <= splitindex < |policies|) ==> v == vptrs[0][col]
    {
      vptrs[CellOf(col)][col]
    }

    /**
     * copy_cell(index, cell, dest, src): SplitPolicy<index>::copy_cell<cell>
     * for a known index and cell 0 or 1, nothing otherwise. src is only
     * dereferenced when the cell holds fields.
     */
    static method CopyCellAt(policies: seq<seq<int>>, index: int, cell: int, dest: array<V>, src: array?<V>)
      requires 0 <= index < |policies| ==> |policies[index]| == dest.Length
      requires src != null ==> src.Length == dest.Length
      requires 0 <= index < |policies| && (cell == 0 || cell == 1) && cell in policies[index] ==> src != null
      modifies dest
      ensures forall f :: 0 <= f < dest.Length ==>
        dest[f] == (if 0 <= index < |policies| && (cell == 0 || cell == 1) && policies[index][f] == cell
                    then old(src[f]) else old(dest[f]))
    {
      if 0 <= index < |policies| && (cell == 0 || cell == 1) && src != null {
        CopyCell(policies[index], cell, dest, src);
      }
    }

    /**
     * copy_into(vptr, index) as generated for records without null checks:
     * cell 0 from vptrs_[0], then cell 1 from vptrs_[1]. Every field of vptr
     * ends up as stored in the pointer of its cell under policy `index`; an
     * unknown index copies nothing.
     */
    method CopyInto(vptr: array<V>, index: int)
      requires Valid() && vptr.Length == colCount
      requires 0 <= index < |policies| ==>
        forall c :: 0 <= c < MAX_POINTERS && c in policies[index] ==> vptrs[c] != null
      modifies vptr
      ensures 0 <= index < |policies| ==>
        forall f :: 0 <= f < colCount ==> vptr[f] == old(vptrs[policies[index][f]][f])
      ensures !(0 <= index < |policies|) ==> vptr[..] == old(vptr[..])
    {
      CopyCellAt(policies, index, 0, vptr, vptrs[0]);
      CopyCellAt(policies, index, 1, vptr, vptrs[1]);
      if 0 <= index < |policies| {
        forall f | 0 <= f < colCount
          ensures old(vptrs[policies[index][f]]) != null
        {
          assert policies[index][f] in policies[index];
        }
      }
    }

    /**
     * copy_into(vptr, index) as generated with null checks: a cell whose
     * pointer is null is skipped, so its fields keep their old values.
     */
    method CopyIntoChecked(vptr: array<V>, index: int)
      requires Valid() && vptr.Length == colCount
      modifies vptr
      ensures 0 <= index < |policies| ==>
        forall f :: 0 <= f < colCount ==>
          vptr[f] == (if old(vptrs[policies[index][f]]) != null
                      then old(vptrs[policies[index][f]][f]) else old(vptr[f]))
      ensures !(0 <= index < |policies|) ==> vptr[..] == old(vptr[..])
    {
      if vptrs[0] != null {
        CopyCellAt(policies, index, 0, vptr, vptrs[0]);
      }
      if vptrs[1] != null {
        CopyCellAt(policies, index, 1, vptr, vptrs[1]);
      }
    }

    /**
     * copy_into(vptr) with the policy in force: when every cell pointer is
     * set, vptr receives exactly what the getters read.
     */
    method CopyIntoCurrent(vptr: array<V>)
      requires Valid() && vptr.Length == colCount
      modifies vptr
      ensures 0 <= old(splitindex) < |policies| && old(vptrs[0]) != null && old(vptrs[1]) != null ==>
        forall f :: 0 <= f < colCount ==> vptr[f] == old(Get(f))
      ensures !(0 <= old(splitindex) < |policies|) ==> vptr[..] == old(vptr[..])
    {
      CopyIntoChecked(vptr, splitindex);
    }
  }
}
