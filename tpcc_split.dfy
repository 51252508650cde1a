/**
 * The hand-written `SplitParams` of the TPC-C tables. A two-way split is a
 * threshold on the field ordinal: fields below it form the infrequently
 * updated cell 0, the others the frequently updated cell 1. Tables that are
 * not split use one cell holding every field.
 */
module TpccSplitParams {
  import opened SplitParams

  /** `map = [](int col_n) { if (col_n < k) return 0; else return 1; }` */
  function Threshold(k: int): int -> int {
    col => if col < k then 0 else 1
  }

  /** `map = [](int col_n) { return 0; }` of the unsplit tables. */
  function Single(): int -> int {
    col => 0
  }

  datatype Table = Warehouse | District | Customer | History | Order | OrderLine | Item | Stock | CustomerIdx

  /** The number of fields of each table's value type. */
  function FieldCount(t: Table): nat {
    match t
    case Warehouse => 8
    case District => 8
    case Customer => 18
    case History => 8
    case Order => 5
    case OrderLine => 6
    case Item => 4
    case Stock => 6
    case CustomerIdx => 1
  }

  /** The threshold of each split table, 0 for the tables that are not split. */
  function SplitAt(t: Table): nat {
    match t
    case Warehouse => 7
    case District => 7
    case Customer => 13
    case Order => 4
    case OrderLine => 5
    case Stock => 2
    case _ => 0
  }

  /** num_splits */
  function NumSplits(t: Table): (n: nat)
    ensures n == 1 || n == 2
  {
    if SplitAt(t) == 0 then 1 else 2
  }

  /** SplitParams<T>::map */
  function CellMap(t: Table): int -> int {
    if NumSplits(t) == 2 then Threshold(SplitAt(t)) else Single()
  }

  /** Every field maps to a cell below num_splits; a split table leaves both cells nonempty. */
  lemma MapInRange(t: Table)
    ensures forall f :: 0 <= f < FieldCount(t) ==> 0 <= CellMap(t)(f) < NumSplits(t)
    ensures NumSplits(t) == 2 ==> 0 < SplitAt(t) < FieldCount(t)
  {
  }

  /** The split tables put w_ytd, d_ytd, and the counters of customer, order, orderline and stock in cell 1. */
  lemma CellSizes(t: Table)
    ensures NumSplits(t) == 2 ==>
      CellSize(CellMap(t), 0, FieldCount(t)) == SplitAt(t) &&
      CellSize(CellMap(t), 1, FieldCount(t)) == FieldCount(t) - SplitAt(t)
    ensures NumSplits(t) == 1 ==> CellSize(CellMap(t), 0, FieldCount(t)) == FieldCount(t)
  {
    if NumSplits(t) == 2 {
      RankSplitAt(CellMap(t), SplitAt(t), 0, 1, FieldCount(t));
    } else {
      RankSplitAt(CellMap(t), FieldCount(t), 0, 1, FieldCount(t));
    }
  }

  /** The builders of a threshold split cut the row at the threshold. */
  lemma ThresholdBuilders<V>(k: nat, row: seq<V>)
    requires k <= |row|
    ensures Build(Threshold(k), 0, row) == row[..k]
    ensures Build(Threshold(k), 1, row) == row[k..]
  {
    BuildSplitAt(Threshold(k), k, 0, 1, row);
  }

  /** The row all split_mergers leave, applied in cell order to the split_builders' outputs. */
  function MergeAll<V>(t: Table, out: seq<V>, row: seq<V>): (r: seq<V>)
    requires |out| == |row|
    ensures |r| == |row|
  {
    var m := CellMap(t);
    var r0 := Merged(m, 0, out, Build(m, 0, row));
    if NumSplits(t) == 2 then Merged(m, 1, r0, Build(m, 1, row)) else r0
  }

  /** Merging the builder outputs of any table reconstructs the row. */
  lemma MergeAllRestoresRow<V>(t: Table, out: seq<V>, row: seq<V>)
    requires |out| == |row| == FieldCount(t)
    ensures MergeAll(t, out, row) == row
  {
    MapInRange(t);
    if NumSplits(t) == 2 {
      MergeBuildRoundTrip(CellMap(t), out, row);
    } else {
      MergeBuildSingle(CellMap(t), out, row);
    }
  }

  /**
   * SplitRecordAccessor of a threshold split: a field below the threshold
   * is read from vptr_0_ at its own ordinal, any other from vptr_1_ at its
   * ordinal minus the threshold.
   */
  lemma ThresholdGetters<V>(a: SplitRecordAccessor<V>, k: nat, f: nat)
    requires a.Valid() && a.numSplits == 2 && 0 < k < a.numFields && f < a.numFields
    requires forall g :: a.cellMap(g) == Threshold(k)(g)
    requires a.vptrs[0] != null && a.vptrs[1] != null
    ensures a.vptrs[0].Length == k && a.vptrs[1].Length == a.numFields - k
    ensures a.Get(f) == if f < k then a.vptrs[0][f] else a.vptrs[1][f - k]
  {
    RankSplitAt(a.cellMap, k, 0, 1, a.numFields);
    RankSplitAt(a.cellMap, k, 0, 1, f);
  }
}
