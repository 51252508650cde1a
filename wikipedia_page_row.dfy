/** `page_row` of the Wikipedia benchmark's generated header. */
module WikipediaPageRow {
  import opened ColumnLayout
  import opened SplitPolicy

  // NamedColumn: every column is scalar, so field i is slot i.
  const PAGE_NAMESPACE: nat := 0
  const PAGE_TITLE: nat := 1
  const PAGE_RESTRICTIONS: nat := 2
  const PAGE_COUNTER: nat := 3
  const PAGE_RANDOM: nat := 4
  const PAGE_IS_REDIRECT: nat := 5
  const PAGE_IS_NEW: nat := 6
  const PAGE_TOUCHED: nat := 7
  const PAGE_LATEST: nat := 8
  const PAGE_LEN: nat := 9
  const COLCOUNT: nat := 10

  /** The NamedColumn layout of the record. */
  const COLUMNS: Layout := Scalar(COLCOUNT)

  /** RoundedNamedColumn maps every slot to its own column. */
  lemma RoundedIsIdentity(c: int)
    requires 0 <= c < COLCOUNT
    ensures Rounded(COLUMNS, c) == c
  {
    ScalarRoundedIsIdentity(COLCOUNT, c);
  }

  /** SplitPolicy<0>::policy */
  const POLICY_0: seq<int> := [0, 0, 0, 0, 0, 0, 0, 0, 0, 0]
  /** SplitPolicy<1>::policy */
  const POLICY_1: seq<int> := [1, 1, 1, 1, 1, 0, 0, 0, 0, 0]
  /** POLICIES: the tables by policy index */
  const POLICIES: seq<seq<int>> := [POLICY_0, POLICY_1]

  /** SplitPolicy<0>::cell_col_count(cell), with the generated constants. */
  function CellColCount0(cell: int): (n: nat)
    ensures n == Count(POLICY_0, cell)
  {
    CountTwoBlocks(POLICY_0, 10, 0, 1);
    if cell == 0 then 10 else 0
  }

  /** SplitPolicy<1>::cell_col_count(cell), with the generated constants. */
  function CellColCount1(cell: int): (n: nat)
    ensures n == Count(POLICY_1, cell)
  {
    CountTwoBlocks(POLICY_1, 5, 1, 0);
    if cell == 1 then 5 else if cell == 0 then 5 else 0
  }

  /** RecordAccessor::cell_col_count(index, cell) over this record's tables. */
  function CellColCount(index: int, cell: int): nat
  {
    SplitPolicy.CellColCount(POLICIES, [CellColCount0, CellColCount1], index, cell)
  }

  /**
   * SplitPolicy<0>::copy_cell<cell>(dest, src), with the generated
   * assignments: exactly the fields of `cell` are copied.
   */
  method CopyCell0<V>(cell: int, dest: array<V>, src: array<V>)
    requires dest.Length == COLCOUNT && src.Length == COLCOUNT
    modifies dest
    ensures dest[..] == Overlay(POLICY_0, cell, old(dest[..]), old(src[..]))
  {
    if cell == 0 {
      dest[PAGE_NAMESPACE] := src[PAGE_NAMESPACE];
      dest[PAGE_TITLE] := src[PAGE_TITLE];
      dest[PAGE_RESTRICTIONS] := src[PAGE_RESTRICTIONS];
      dest[PAGE_COUNTER] := src[PAGE_COUNTER];
      dest[PAGE_RANDOM] := src[PAGE_RANDOM];
      dest[PAGE_IS_REDIRECT] := src[PAGE_IS_REDIRECT];
      dest[PAGE_IS_NEW] := src[PAGE_IS_NEW];
      dest[PAGE_TOUCHED] := src[PAGE_TOUCHED];
      dest[PAGE_LATEST] := src[PAGE_LATEST];
      dest[PAGE_LEN] := src[PAGE_LEN];
      assert dest[..] == old(src[..]);
      OverlayWholeCell(POLICY_0, 0, old(dest[..]), old(src[..]));
    } else {
      OverlayUnusedCell(POLICY_0, cell, dest[..], src[..]);
    }
  }

  /**
   * SplitPolicy<1>::copy_cell<cell>(dest, src), with the generated
   * assignments: exactly the fields of `cell` are copied.
   */
  method CopyCell1<V>(cell: int, dest: array<V>, src: array<V>)
    requires dest.Length == COLCOUNT && src.Length == COLCOUNT
    modifies dest
    ensures dest[..] == Overlay(POLICY_1, cell, old(dest[..]), old(src[..]))
  {
    if cell == 1 {
      dest[PAGE_NAMESPACE] := src[PAGE_NAMESPACE];
      dest[PAGE_TITLE] := src[PAGE_TITLE];
      dest[PAGE_RESTRICTIONS] := src[PAGE_RESTRICTIONS];
      dest[PAGE_COUNTER] := src[PAGE_COUNTER];
      dest[PAGE_RANDOM] := src[PAGE_RANDOM];
    }
    if cell == 0 {
      dest[PAGE_IS_REDIRECT] := src[PAGE_IS_REDIRECT];
      dest[PAGE_IS_NEW] := src[PAGE_IS_NEW];
      dest[PAGE_TOUCHED] := src[PAGE_TOUCHED];
      dest[PAGE_LATEST] := src[PAGE_LATEST];
      dest[PAGE_LEN] := src[PAGE_LEN];
    }
  }
}
