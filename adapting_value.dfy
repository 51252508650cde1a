/** `adapting_value` of the adaptive-split benchmark's generated header. */
module AdaptingValue {
  import opened ColumnLayout
  import opened SplitPolicy
  import opened SplitParams

  // NamedColumn: every column is scalar, so field i is slot i.
  const READ_ONLY: nat := 0
  const WRITE_SOME: nat := 1
  const WRITE_MUCH: nat := 2
  const WRITE_MOST: nat := 3
  const COLCOUNT: nat := 4

  /** The NamedColumn layout of the record. */
  const COLUMNS: Layout := Scalar(COLCOUNT)

  /** RoundedNamedColumn maps every slot to its own column. */
  lemma RoundedIsIdentity(c: int)
    requires 0 <= c < COLCOUNT
    ensures Rounded(COLUMNS, c) == c
  {
    ScalarRoundedIsIdentity(COLCOUNT, c);
  }

  /** SplitPolicy<0>::policy */
  const POLICY_0: seq<int> := [0, 0, 0, 0]
  /** SplitPolicy<1>::policy */
  const POLICY_1: seq<int> := [1, 1, 1, 0]
  /** SplitPolicy<2>::policy */
  const POLICY_2: seq<int> := [1, 1, 0, 0]
  /** SplitPolicy<3>::policy */
  const POLICY_3: seq<int> := [1, 0, 0, 0]
  /** POLICIES: the tables by policy index */
  const POLICIES: seq<seq<int>> := [POLICY_0, POLICY_1, POLICY_2, POLICY_3]

  /** SplitPolicy<0>::cell_col_count(cell), with the generated constants. */
  function CellColCount0(cell: int): (n: nat)
    ensures n == Count(POLICY_0, cell)
  {
    CountTwoBlocks(POLICY_0, 4, 0, 1);
    if cell == 0 then 4 else 0
  }

  /** SplitPolicy<1>::cell_col_count(cell), with the generated constants. */
  function CellColCount1(cell: int): (n: nat)
    ensures n == Count(POLICY_1, cell)
  {
    CountTwoBlocks(POLICY_1, 3, 1, 0);
    if cell == 1 then 3 else if cell == 0 then 1 else 0
  }

  /** SplitPolicy<2>::cell_col_count(cell), with the generated constants. */
  function CellColCount2(cell: int): (n: nat)
    ensures n == Count(POLICY_2, cell)
  {
    CountTwoBlocks(POLICY_2, 2, 1, 0);
    if cell == 1 then 2 else if cell == 0 then 2 else 0
  }

  /** SplitPolicy<3>::cell_col_count(cell), with the generated constants. */
  function CellColCount3(cell: int): (n: nat)
    ensures n == Count(POLICY_3, cell)
  {
    CountTwoBlocks(POLICY_3, 1, 1, 0);
    if cell == 1 then 1 else if cell == 0 then 3 else 0
  }

  /** RecordAccessor::cell_col_count(index, cell) over this record's tables. */
  function CellColCount(index: int, cell: int): nat
  {
    SplitPolicy.CellColCount(POLICIES, [CellColCount0, CellColCount1, CellColCount2, CellColCount3], index, cell)
  }

  /**
   * SplitPolicy<0>::copy_cell<cell>(dest, src), with the generated
   * assignments: exactly the fields of `cell` are copied.
   */
  method CopyCell0<V>(cell: int, dest: array<V>, src: array<V>)
    requires dest.Length == COLCOUNT && src.Length == COLCOUNT
    modifies dest
    ensures dest[..] == Overlay(POLICY_0, cell, old(dest[..]), old(src[..]))
  {
    if cell == 0 {
      // *dest = *src
      forall i | 0 <= i < COLCOUNT {
        dest[i] := src[i];
      }
    } else {
      OverlayUnusedCell(POLICY_0, cell, dest[..], src[..]);
    }
  }

  /**
   * SplitPolicy<1>::copy_cell<cell>(dest, src), with the generated
   * assignments: exactly the fields of `cell` are copied.
   */
  method CopyCell1<V>(cell: int, dest: array<V>, src: array<V>)
    requires dest.Length == COLCOUNT && src.Length == COLCOUNT
    modifies dest
    ensures dest[..] == Overlay(POLICY_1, cell, old(dest[..]), old(src[..]))
  {
    if cell == 1 {
      dest[READ_ONLY] := src[READ_ONLY];
      dest[WRITE_SOME] := src[WRITE_SOME];
      dest[WRITE_MUCH] := src[WRITE_MUCH];
    }
    if cell == 0 {
      dest[WRITE_MOST] := src[WRITE_MOST];
    }
  }

  /**
   * SplitPolicy<2>::copy_cell<cell>(dest, src), with the generated
   * assignments: exactly the fields of `cell` are copied.
   */
  method CopyCell2<V>(cell: int, dest: array<V>, src: array<V>)
    requires dest.Length == COLCOUNT && src.Length == COLCOUNT
    modifies dest
    ensures dest[..] == Overlay(POLICY_2, cell, old(dest[..]), old(src[..]))
  {
    if cell == 1 {
      dest[READ_ONLY] := src[READ_ONLY];
      dest[WRITE_SOME] := src[WRITE_SOME];
    }
    if cell == 0 {
      dest[WRITE_MUCH] := src[WRITE_MUCH];
      dest[WRITE_MOST] := src[WRITE_MOST];
    }
  }

  /**
   * SplitPolicy<3>::copy_cell<cell>(dest, src), with the generated
   * assignments: exactly the fields of `cell` are copied.
   */
  method CopyCell3<V>(cell: int, dest: array<V>, src: array<V>)
    requires dest.Length == COLCOUNT && src.Length == COLCOUNT
    modifies dest
    ensures dest[..] == Overlay(POLICY_3, cell, old(dest[..]), old(src[..]))
  {
    if cell == 1 {
      dest[READ_ONLY] := src[READ_ONLY];
    }
    if cell == 0 {
      dest[WRITE_SOME] := src[WRITE_SOME];
      dest[WRITE_MUCH] := src[WRITE_MUCH];
      dest[WRITE_MOST] := src[WRITE_MOST];
    }
  }

  // ---- SplitParams<adapting_value, …> ----

  /** SplitParams<adapting_value, true>::map: read_only, write_some and write_much go to cell 1. */
  function SplitMap(col: int): int {
    if col == 0 || col == 1 || col == 2 then 1 else 0
  }

  /** SplitParams<adapting_value, false>::map: a single split. */
  function SingleMap(col: int): int {
    0
  }

  /** The two-cell map agrees with the table of SplitPolicy<1>. */
  lemma SplitMapAgreesWithPolicy1()
    ensures forall col :: 0 <= col < COLCOUNT ==> SplitMap(col) == POLICY_1[col]
  {
  }

  /**
   * split_builder: adapting_value_cell1 holds read_only, write_some and
   * write_much, adapting_value_cell0 holds write_most.
   */
  lemma Builders<V>(row: seq<V>)
    requires |row| == COLCOUNT
    ensures Build(SplitMap, 1, row) == [row[READ_ONLY], row[WRITE_SOME], row[WRITE_MUCH]]
    ensures Build(SplitMap, 0, row) == [row[WRITE_MOST]]
  {
    BuildSplitAt(SplitMap, 3, 1, 0, row);
  }

  /** Merging both builder outputs into any row gives back the original value. */
  lemma MergersRestoreRow<V>(out: seq<V>, row: seq<V>)
    requires |out| == |row| == COLCOUNT
    ensures Merged(SplitMap, 1, Merged(SplitMap, 0, out, Build(SplitMap, 0, row)), Build(SplitMap, 1, row)) == row
  {
    MergeBuildRoundTrip(SplitMap, out, row);
  }

  /** With one split, the single merger restores the value from its builder output. */
  lemma SingleMergerRestoresRow<V>(out: seq<V>, row: seq<V>)
    requires |out| == |row| == COLCOUNT
    ensures Merged(SingleMap, 0, out, Build(SingleMap, 0, row)) == row
  {
    MergeBuildSingle(SingleMap, out, row);
  }

  /**
   * SplitRecordAccessor<adapting_value, true>: the getters of read_only,
   * write_some and write_much read vptr_1_, the getter of write_most reads
   * vptr_0_.
   */
  lemma SplitGetters<V>(a: SplitRecordAccessor<V>)
    requires a.Valid() && a.numFields == COLCOUNT && a.numSplits == 2
    requires forall f :: a.cellMap(f) == SplitMap(f)
    requires a.vptrs[0] != null && a.vptrs[1] != null
    ensures a.vptrs[1].Length == 3 && a.vptrs[0].Length == 1
    ensures a.Get(READ_ONLY) == a.vptrs[1][0]
    ensures a.Get(WRITE_SOME) == a.vptrs[1][1]
    ensures a.Get(WRITE_MUCH) == a.vptrs[1][2]
    ensures a.Get(WRITE_MOST) == a.vptrs[0][0]
  {
    RankSplitAt(a.cellMap, 3, 1, 0, COLCOUNT);
    RankSplitAt(a.cellMap, 3, 1, 0, 1);
    RankSplitAt(a.cellMap, 3, 1, 0, 2);
    RankSplitAt(a.cellMap, 3, 1, 0, 3);
  }
}
