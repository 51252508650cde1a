/** `page_value` of the LIKE benchmark's generated header. */
module LikePageValue {
  import opened ColumnLayout
  import opened SplitPolicy
  import opened SplitParams

  // NamedColumn: every column is scalar, so field i is slot i.
  const PAGE_ID: nat := 0
  const LIKES: nat := 1
  const COLCOUNT: nat := 2

  /** The NamedColumn layout of the record. */
  const COLUMNS: Layout := Scalar(COLCOUNT)

  /** RoundedNamedColumn maps every slot to its own column. */
  lemma RoundedIsIdentity(c: int)
    requires 0 <= c < COLCOUNT
    ensures Rounded(COLUMNS, c) == c
  {
    ScalarRoundedIsIdentity(COLCOUNT, c);
  }

  /** SplitPolicy<0>::policy */
  const POLICY_0: seq<int> := [0, 0]
  /** SplitPolicy<1>::policy */
  const POLICY_1: seq<int> := [1, 0]
  /** POLICIES: the tables by policy index */
  const POLICIES: seq<seq<int>> := [POLICY_0, POLICY_1]

  /** SplitPolicy<0>::cell_col_count(cell), with the generated constants. */
  function CellColCount0(cell: int): (n: nat)
    ensures n == Count(POLICY_0, cell)
  {
    CountTwoBlocks(POLICY_0, 2, 0, 1);
    if cell == 0 then 2 else 0
  }

  /** SplitPolicy<1>::cell_col_count(cell), with the generated constants. */
  function CellColCount1(cell: int): (n: nat)
    ensures n == Count(POLICY_1, cell)
  {
    CountTwoBlocks(POLICY_1, 1, 1, 0);
    if cell == 1 then 1 else if cell == 0 then 1 else 0
  }

  /** RecordAccessor::cell_col_count(index, cell) over this record's tables. */
  function CellColCount(index: int, cell: int): nat
  {
    SplitPolicy.CellColCount(POLICIES, [CellColCount0, CellColCount1], index, cell)
  }

  /**
   * SplitPolicy<0>::copy_cell<cell>(dest, src), with the generated
   * assignments: exactly the fields of `cell` are copied.
   */
  method CopyCell0<V>(cell: int, dest: array<V>, src: array<V>)
    requires dest.Length == COLCOUNT && src.Length == COLCOUNT
    modifies dest
    ensures dest[..] == Overlay(POLICY_0, cell, old(dest[..]), old(src[..]))
  {
    if cell == 0 {
      dest[PAGE_ID] := src[PAGE_ID];
      dest[LIKES] := src[LIKES];
      assert dest[..] == old(src[..]);
      OverlayWholeCell(POLICY_0, 0, old(dest[..]), old(src[..]));
    } else {
      OverlayUnusedCell(POLICY_0, cell, dest[..], src[..]);
    }
  }

  /**
   * SplitPolicy<1>::copy_cell<cell>(dest, src), with the generated
   * assignments: exactly the fields of `cell` are copied.
   */
  method CopyCell1<V>(cell: int, dest: array<V>, src: array<V>)
    requires dest.Length == COLCOUNT && src.Length == COLCOUNT
    modifies dest
    ensures dest[..] == Overlay(POLICY_1, cell, old(dest[..]), old(src[..]))
  {
    if cell == 1 {
      dest[PAGE_ID] := src[PAGE_ID];
    }
    if cell == 0 {
      dest[LIKES] := src[LIKES];
    }
  }

  // ---- SplitParams<page_value, …> ----

  /** SplitParams<page_value, true>::map: page_id goes to cell 1, everything else to cell 0. */
  function SplitMap(col: int): int {
    if col == 0 then 1 else 0
  }

  /** SplitParams<page_value, false>::map: a single split. */
  function SingleMap(col: int): int {
    0
  }

  /** The two-cell map agrees with the table of SplitPolicy<1>. */
  lemma SplitMapAgreesWithPolicy1()
    ensures forall col :: 0 <= col < COLCOUNT ==> SplitMap(col) == POLICY_1[col]
  {
  }

  /** split_builder: page_value_cell1 holds page_id, page_value_cell0 holds likes. */
  lemma Builders<V>(row: seq<V>)
    requires |row| == COLCOUNT
    ensures Build(SplitMap, 1, row) == [row[PAGE_ID]]
    ensures Build(SplitMap, 0, row) == [row[LIKES]]
  {
    BuildSplitAt(SplitMap, 1, 1, 0, row);
  }

  /** Merging both builder outputs into any row gives back the original page_value. */
  lemma MergersRestoreRow<V>(out: seq<V>, row: seq<V>)
    requires |out| == |row| == COLCOUNT
    ensures Merged(SplitMap, 1, Merged(SplitMap, 0, out, Build(SplitMap, 0, row)), Build(SplitMap, 1, row)) == row
  {
    MergeBuildRoundTrip(SplitMap, out, row);
  }

  /** With one split, the single merger copies both fields. */
  lemma SingleMergerRestoresRow<V>(out: seq<V>, row: seq<V>)
    requires |out| == |row| == COLCOUNT
    ensures Merged(SingleMap, 0, out, Build(SingleMap, 0, row)) == row
  {
    MergeBuildSingle(SingleMap, out, row);
  }

  /** SplitRecordAccessor<page_value, true>: page_id is read from vptr_1_, likes from vptr_0_. */
  lemma SplitGetters<V>(a: SplitRecordAccessor<V>)
    requires a.Valid() && a.numFields == COLCOUNT && a.numSplits == 2
    requires forall f :: a.cellMap(f) == SplitMap(f)
    requires a.vptrs[0] != null && a.vptrs[1] != null
    ensures a.vptrs[1].Length == 1 && a.vptrs[0].Length == 1
    ensures a.Get(PAGE_ID) == a.vptrs[1][0]
    ensures a.Get(LIKES) == a.vptrs[0][0]
  {
    RankSplitAt(a.cellMap, 1, 1, 0, COLCOUNT);
    RankSplitAt(a.cellMap, 1, 1, 0, 1);
  }
}
