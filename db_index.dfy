/**
 * The cell-access helpers of the split index: the `access_t` flags, the
 * TransItem key that packs an internal_elem pointer with a cell number, the
 * folding of per-column accesses into per-cell accesses, and the TransItem
 * flag predicates of `index_common`.
 */
module DbIndex {

  // ---- access_t ----

  /** `enum class access_t : int8_t`: a read bit and a write bit. */
  type Access = a: bv8 | a <= 3

  const NONE: Access := 0
  const READ: Access := 1
  const WRITE: Access := 2
  const UPDATE: Access := 3

  /** `operator&`: bitwise on the underlying int8_t, so a flag survives iff both sides have it. */
  function And(lhs: Access, rhs: Access): (r: Access)
    ensures (r & READ != 0) <==> (lhs & READ != 0 && rhs & READ != 0)
    ensures (r & WRITE != 0) <==> (lhs & WRITE != 0 && rhs & WRITE != 0)
  {
    lhs & rhs
  }

  /** The uint8_t `|` that column_to_cell_accesses uses to combine accesses. */
  function Or(lhs: Access, rhs: Access): (r: Access)
    ensures (r & READ != 0) <==> (lhs & READ != 0 || rhs & READ != 0)
    ensures (r & WRITE != 0) <==> (lhs & WRITE != 0 || rhs & WRITE != 0)
  {
    lhs | rhs
  }

  /** update is read together with write; masking with update keeps any access; read and write share nothing. */
  lemma AccessAlgebra(a: Access)
    ensures Or(READ, WRITE) == UPDATE
    ensures And(UPDATE, a) == a && And(a, NONE) == NONE
    ensures And(READ, WRITE) == NONE
  {
  }

  /** An access is determined by its two flags. */
  lemma AccessByFlags(a: Access, b: Access)
    requires (a & READ != 0) == (b & READ != 0) && (a & WRITE != 0) == (b & WRITE != 0)
    ensures a == b
  {
  }

  // ---- item_key_t ----
  // |----internal_elem pointer----|--cell id--|I|
  //           48 bits                14 bits   2
  // Keys are uintptr_t, 64 bits wide. A cell number is given as the 64-bit
  // image static_cast<uintptr_t> gives the int.

  const SHIFT: bv64 := 16
  const CELL_MASK: bv64 := 0xfffc
  const ROW_ITEM_CELL_NUM: bv64 := 0

  /** item_key_t(e, cell_num): the pointer above bit 16, the cell number in bits 2..15, the I bits clear. */
  function MakeKey(e: bv64, cellNum: bv64): (k: bv64)
    ensures k >> SHIFT == e & 0xffff_ffff_ffff
    ensures (k & CELL_MASK) >> 2 == cellNum & 0x3fff
    ensures k & 3 == 0
  {
    (e << SHIFT) | ((cellNum << 2) & CELL_MASK)
  }

  /** row_item_key(e): the key of e with cell number 0. */
  function RowItemKey(e: bv64): (k: bv64)
    ensures k >> SHIFT == e & 0xffff_ffff_ffff
    ensures k & CELL_MASK == 0
  {
    MakeKey(e, ROW_ITEM_CELL_NUM)
  }

  /** internal_elem_ptr() */
  function ElemPtr(key: bv64): bv64 {
    key >> SHIFT
  }

  /** cell_num(): the 14-bit cell field. */
  function CellNum(key: bv64): (c: bv64)
    ensures c < 0x4000
  {
    (key & CELL_MASK) >> 2
  }

  /** is_row_item() */
  predicate IsRowItem(key: bv64) {
    CellNum(key) == ROW_ITEM_CELL_NUM
  }

  /**
   * A key gives back its cell number modulo 2^14 (exactly for 0..16383),
   * the low 48 bits of its pointer (exactly for a pointer that fits), and
   * leaves the two I bits clear.
   */
  lemma KeyRoundTrip(e: bv64, c: bv64)
    ensures CellNum(MakeKey(e, c)) == c & 0x3fff
    ensures c < 0x4000 ==> CellNum(MakeKey(e, c)) == c
    ensures ElemPtr(MakeKey(e, c)) == e & 0xffff_ffff_ffff
    ensures e < 0x1_0000_0000_0000 ==> ElemPtr(MakeKey(e, c)) == e
    ensures MakeKey(e, c) & 3 == 0
  {
    KeyCell(e, c);
    KeyPtr(e, c);
    LowBitsKept(c, 0x3fff);
    LowBitsKept(e, 0xffff_ffff_ffff);
  }

  lemma KeyCell(e: bv64, c: bv64)
    ensures CellNum(MakeKey(e, c)) == c & 0x3fff
    ensures MakeKey(e, c) & 3 == 0
  {
  }

  lemma KeyPtr(e: bv64, c: bv64)
    ensures ElemPtr(MakeKey(e, c)) == e & 0xffff_ffff_ffff
  {
  }

  /** Masking with 2^k - 1 keeps a value below 2^k. */
  lemma LowBitsKept(x: bv64, mask: bv64)
    requires mask == 0x3fff || mask == 0xffff_ffff_ffff
    ensures x <= mask ==> x & mask == x
  {
  }

  /** The row item key has cell 0, and a key is a row item exactly when its cell number is 0 modulo 2^14. */
  lemma RowItem(e: bv64, c: bv64)
    ensures IsRowItem(RowItemKey(e))
    ensures IsRowItem(MakeKey(e, c)) <==> c & 0x3fff == 0
  {
    KeyRoundTrip(e, c);
    KeyRoundTrip(e, ROW_ITEM_CELL_NUM);
  }

  // ---- column_to_cell_accesses ----

  /** column_access_t */
  datatype ColumnAccess = ColumnAccess(colId: int, access: Access)

  /** The access of `cell`: the bitwise or of the accesses of the columns that map to it. */
  function CellAccess(m: int -> int, cell: int, accesses: seq<ColumnAccess>): (r: Access)
    ensures (r & READ != 0) <==>
      exists i :: 0 <= i < |accesses| && m(accesses[i].colId) == cell && accesses[i].access & READ != 0
    ensures (r & WRITE != 0) <==>
      exists i :: 0 <= i < |accesses| && m(accesses[i].colId) == cell && accesses[i].access & WRITE != 0
  {
    if |accesses| == 0 then NONE
    else
      var n := |accesses| - 1;
      var front := CellAccess(m, cell, accesses[..n]);
      assert forall i :: 0 <= i < n ==> accesses[..n][i] == accesses[i];
      Or(front, if m(accesses[n].colId) == cell then accesses[n].access else NONE)
  }

  /** A cell that no accessed column maps to, or only with access none, stays none. */
  lemma CellAccessNone(m: int -> int, cell: int, accesses: seq<ColumnAccess>)
    ensures CellAccess(m, cell, accesses) == NONE <==>
      forall i :: 0 <= i < |accesses| && m(accesses[i].colId) == cell ==> accesses[i].access == NONE
  {
    var r := CellAccess(m, cell, accesses);
    if r != NONE {
      assert r & READ != 0 || r & WRITE != 0;
    }
    forall i | 0 <= i < |accesses| && m(accesses[i].colId) == cell && accesses[i].access != NONE
      ensures r != NONE
    {
      var a := accesses[i].access;
      assert a & READ != 0 || a & WRITE != 0;
    }
  }

  /**
   * column_to_cell_accesses<T>(accesses) (and mvcc_column_to_cell_accesses,
   * the same loop over num_splits cells): every cell starts at none and
   * each column's access is or-ed into the cell T::map gives it.
   */
  method ColumnToCellAccesses(m: int -> int, numCells: nat, accesses: seq<ColumnAccess>)
    returns (cells: seq<Access>)
    requires forall i :: 0 <= i < |accesses| ==> 0 <= m(accesses[i].colId) < numCells
    ensures |cells| == numCells
    ensures forall c :: 0 <= c < numCells ==> cells[c] == CellAccess(m, c, accesses)
  {
    var a := new Access[numCells](_ => NONE);
    for i := 0 to |accesses|
      invariant forall c :: 0 <= c < numCells ==> a[c] == CellAccess(m, c, accesses[..i])
    {
      assert accesses[..i + 1][..i] == accesses[..i];
      var id := m(accesses[i].colId);
      a[id] := Or(a[id], accesses[i].access);
    }
    assert accesses[..|accesses|] == accesses;
    cells := a[..];
  }

  // ---- TransItem flags of index_common ----
  // user0_bit is a TransItem constant; it is a parameter u here: a single bit
  // of the 64-bit flags word, low enough that u << 3 does not overflow.

  predicate IsUser0Bit(u: bv64) {
    u != 0 && u & (u - 1) == 0 && u < 0x1000_0000_0000_0000
  }

  /** insert_bit */
  function InsertBit(u: bv64): bv64 { u }
  /** delete_bit */
  function DeleteBit(u: bv64): bv64 { u << 1 }
  /** row_update_bit */
  function RowUpdateBit(u: bv64): bv64 { u << 2 }
  /** row_cell_bit */
  function RowCellBit(u: bv64): bv64 { u << 3 }

  /** `(item.flags() & bit) != 0` */
  predicate HasFlag(flags: bv64, bit: bv64) { flags & bit != 0 }

  // Each flag test reads the flags word the flag's shift further down, against user0_bit itself.

  /** has_insert */
  predicate HasInsert(flags: bv64, u: bv64)
    ensures HasInsert(flags, u) ==> flags != 0 && u != 0
  {
    HasFlag(flags, InsertBit(u))
  }

  /** has_delete */
  predicate HasDelete(flags: bv64, u: bv64)
    ensures HasDelete(flags, u) <==> (flags >> 1) & u != 0
  {
    HasFlag(flags, DeleteBit(u))
  }

  /** has_row_update */
  predicate HasRowUpdate(flags: bv64, u: bv64)
    ensures HasRowUpdate(flags, u) <==> (flags >> 2) & u != 0
  {
    HasFlag(flags, RowUpdateBit(u))
  }

  /** has_row_cell */
  predicate HasRowCell(flags: bv64, u: bv64)
    ensures HasRowCell(flags, u) <==> (flags >> 3) & u != 0
  {
    HasFlag(flags, RowCellBit(u))
  }

  /** The four flags are nonzero and pairwise disjoint. */
  predicate DistinctFlags(u: bv64) {
    && InsertBit(u) != 0 && DeleteBit(u) != 0 && RowUpdateBit(u) != 0 && RowCellBit(u) != 0
    && InsertBit(u) & DeleteBit(u) == 0 && InsertBit(u) & RowUpdateBit(u) == 0
    && InsertBit(u) & RowCellBit(u) == 0 && DeleteBit(u) & RowUpdateBit(u) == 0
    && DeleteBit(u) & RowCellBit(u) == 0 && RowUpdateBit(u) & RowCellBit(u) == 0
  }

  /** Shifting the single bit user0_bit by 0, 1, 2 and 3 gives four distinct flags. */
  lemma User0BitFlagsDistinct(u: bv64)
    requires IsUser0Bit(u)
    ensures DistinctFlags(u)
  {
  }

  /**
   * Setting a flag makes its test true and leaves the test of any flag
   * disjoint from it unchanged; with User0BitFlagsDistinct, setting any one
   * of insert, delete, row_update and row_cell leaves the other three tests
   * as they were.
   */
  lemma SetFlag(flags: bv64, bit: bv64, other: bv64)
    requires bit != 0 && bit & other == 0
    ensures HasFlag(flags | bit, bit)
    ensures HasFlag(flags | bit, other) == HasFlag(flags, other)
  {
    SetBitKeeps(flags, bit);
    SetBitLeaves(flags, bit, other);
  }

  lemma SetBitKeeps(flags: bv64, bit: bv64)
    ensures (flags | bit) & bit == bit
  {
  }

  lemma SetBitLeaves(flags: bv64, bit: bv64, other: bv64)
    requires bit & other == 0
    ensures (flags | bit) & other == flags & other
  {
  }
}
