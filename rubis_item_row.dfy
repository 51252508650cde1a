/** `item_row` of the Rubis benchmark's generated header. */
module RubisItemRow {
  import opened ColumnLayout
  import opened SplitPolicy

  // NamedColumn: every column is scalar, so field i is slot i.
  const NAME: nat := 0
  const DESCRIPTION: nat := 1
  const INITIAL_PRICE: nat := 2
  const RESERVE_PRICE: nat := 3
  const BUY_NOW: nat := 4
  const START_DATE: nat := 5
  const SELLER: nat := 6
  const CATEGORY: nat := 7
  const QUANTITY: nat := 8
  const NB_OF_BIDS: nat := 9
  const MAX_BID: nat := 10
  const END_DATE: nat := 11
  const COLCOUNT: nat := 12

  /** The NamedColumn layout of the record. */
  const COLUMNS: Layout := Scalar(COLCOUNT)

  /** RoundedNamedColumn maps every slot to its own column. */
  lemma RoundedIsIdentity(c: int)
    requires 0 <= c < COLCOUNT
    ensures Rounded(COLUMNS, c) == c
  {
    ScalarRoundedIsIdentity(COLCOUNT, c);
  }

  /** SplitPolicy<0>::policy */
  const POLICY_0: seq<int> := [0, 0, 0, 0, 0, 0, 0, 0, 0, 0, 0, 0]
  /** SplitPolicy<1>::policy */
  const POLICY_1: seq<int> := [1, 1, 1, 1, 1, 1, 1, 1, 0, 0, 0, 0]
  /** POLICIES: the tables by policy index */
  const POLICIES: seq<seq<int>> := [POLICY_0, POLICY_1]

  /** SplitPolicy<0>::cell_col_count(cell), with the generated constants. */
  function CellColCount0(cell: int): (n: nat)
    ensures n == Count(POLICY_0, cell)
  {
    CountTwoBlocks(POLICY_0, 12, 0, 1);
    if cell == 0 then 12 else 0
  }

  /** SplitPolicy<1>::cell_col_count(cell), with the generated constants. */
  function CellColCount1(cell: int): (n: nat)
    ensures n == Count(POLICY_1, cell)
  {
    CountTwoBlocks(POLICY_1, 8, 1, 0);
    if cell == 1 then 8 else if cell == 0 then 4 else 0
  }

  /** RecordAccessor::cell_col_count(index, cell) over this record's tables. */
  function CellColCount(index: int, cell: int): nat
  {
    SplitPolicy.CellColCount(POLICIES, [CellColCount0, CellColCount1], index, cell)
  }

  /**
   * SplitPolicy<0>::copy_cell<cell>(dest, src), with the generated
   * assignments: exactly the fields of `cell` are copied.
   */
  method CopyCell0<V>(cell: int, dest: array<V>, src: array<V>)
    requires dest.Length == COLCOUNT && src.Length == COLCOUNT
    modifies dest
    ensures dest[..] == Overlay(POLICY_0, cell, old(dest[..]), old(src[..]))
  {
    if cell == 0 {
      dest[NAME] := src[NAME];
      dest[DESCRIPTION] := src[DESCRIPTION];
      dest[INITIAL_PRICE] := src[INITIAL_PRICE];
      dest[RESERVE_PRICE] := src[RESERVE_PRICE];
      dest[BUY_NOW] := src[BUY_NOW];
      dest[START_DATE] := src[START_DATE];
      dest[SELLER] := src[SELLER];
      dest[CATEGORY] := src[CATEGORY];
      dest[QUANTITY] := src[QUANTITY];
      dest[NB_OF_BIDS] := src[NB_OF_BIDS];
      dest[MAX_BID] := src[MAX_BID];
      dest[END_DATE] := src[END_DATE];
      assert dest[..] == old(src[..]);
      OverlayWholeCell(POLICY_0, 0, old(dest[..]), old(src[..]));
    } else {
      OverlayUnusedCell(POLICY_0, cell, dest[..], src[..]);
    }
  }

  /**
   * SplitPolicy<1>::copy_cell<cell>(dest, src), with the generated
   * assignments: exactly the fields of `cell` are copied.
   */
  method CopyCell1<V>(cell: int, dest: array<V>, src: array<V>)
    requires dest.Length == COLCOUNT && src.Length == COLCOUNT
    modifies dest
    ensures dest[..] == Overlay(POLICY_1, cell, old(dest[..]), old(src[..]))
  {
    if cell == 1 {
      dest[NAME] := src[NAME];
      dest[DESCRIPTION] := src[DESCRIPTION];
      dest[INITIAL_PRICE] := src[INITIAL_PRICE];
      dest[RESERVE_PRICE] := src[RESERVE_PRICE];
      dest[BUY_NOW] := src[BUY_NOW];
      dest[START_DATE] := src[START_DATE];
      dest[SELLER] := src[SELLER];
      dest[CATEGORY] := src[CATEGORY];
    }
    if cell == 0 {
      dest[QUANTITY] := src[QUANTITY];
      dest[NB_OF_BIDS] := src[NB_OF_BIDS];
      dest[MAX_BID] := src[MAX_BID];
      dest[END_DATE] := src[END_DATE];
    }
  }
}
