/**
 * `stock_value` of the TPC-C generated header: the one record with an array
 * column. s_dists is an array of 10 strings and takes slots 0-9, so the next
 * enumerator s_data is 10 and COLCOUNT is 15. Unlike the policy-table records,
 * its split is a single threshold `splitindex_`: slots below it are in cell 0.
 * A value is modelled as the array of its six accessors' contents, in
 * declaration order; a field's contents (an array for s_dists) are opaque.
 */
module TpccStockValue {
  import opened ColumnLayout

  // NamedColumn
  const S_DISTS: int := 0
  const S_DATA: int := 10
  const S_QUANTITY: int := 11
  const S_YTD: int := 12
  const S_ORDER_CNT: int := 13
  const S_REMOTE_CNT: int := 14
  const COLCOUNT: int := 15

  /** The number of declared columns (accessors). */
  const FIELDS: nat := 6
  /** The number of strings in s_dists. */
  const DISTS_SIZE: nat := 10

  /** The slot widths of the declared columns: s_dists is an array of 10. */
  const WIDTHS: seq<nat> := [DISTS_SIZE, 1, 1, 1, 1, 1]

  /** accessor_info<Column>::is_array, by declared column. */
  const IS_ARRAY: seq<bool> := [true, false, false, false, false, false]

  /** The NamedColumn layout: the enumerators are the starts, leaving a gap after s_dists. */
  function Columns(): (l: Layout)
    ensures Valid(l) && |l.starts| == FIELDS
    ensures l.starts == [S_DISTS, S_DATA, S_QUANTITY, S_YTD, S_ORDER_CNT, S_REMOTE_CNT]
    ensures l.colCount == COLCOUNT
    ensures forall f :: 0 <= f < FIELDS ==> End(l, f) - l.starts[f] == WIDTHS[f]
  {
    FromWidths(WIDTHS)
  }

  /** RoundedNamedColumn maps every slot of s_dists to s_dists. */
  lemma RoundedDists(k: int)
    requires 0 <= k < DISTS_SIZE
    ensures Rounded(Columns(), S_DISTS + k) == S_DISTS
  {
    RoundedOnSpan(Columns(), 0, S_DISTS + k);
  }

  /** The slots after s_dists are scalar columns and round to themselves. */
  lemma RoundedScalar(c: int)
    requires S_DATA <= c < COLCOUNT
    ensures Rounded(Columns(), c) == c
  {
    var l, f := Columns(), c - S_DATA + 1;
    assert l.starts[f] == c && End(l, f) == c + 1;
    RoundedOnSpan(l, f, c);
  }

  /** is_array holds exactly for the column that takes more than one slot. */
  lemma IsArrayIffWide(f: nat)
    requires f < FIELDS
    ensures IS_ARRAY[f] <==> End(Columns(), f) - Columns().starts[f] > 1
  {
  }

  /**
   * get<Column>(): the accessor that slot `col` resolves to, i.e. the
   * declared column RoundedNamedColumn<col> names.
   */
  function Accessor(col: int): (f: nat)
    requires 0 <= col < COLCOUNT
    ensures f < FIELDS
  {
    if col < S_DATA then 0 else col - S_DATA + 1
  }

  /** The accessor get<col>() returns is the column that declares slot col. */
  lemma AccessorIsRounded(col: int)
    requires 0 <= col < COLCOUNT
    ensures Columns().starts[Accessor(col)] == Rounded(Columns(), col)
    ensures Columns().starts[Accessor(col)] <= col < End(Columns(), Accessor(col))
  {
    var f := Accessor(col);
    RoundedOnSpan(Columns(), f, col);
  }

  /** get<s_dists + k>() returns s_dists for every k in 0..9. */
  lemma GetDists(k: int)
    requires 0 <= k < DISTS_SIZE
    ensures Accessor(S_DISTS + k) == 0
  {
    RoundedDists(k);
  }

  /**
   * The slot range [lo, hi) an accessor of declared column f counts when
   * its whole value is read or written: CountReads(Column, Column + size)
   * for the array, CountRead(Column) otherwise.
   */
  function CountedSlots(f: nat): (r: (int, int))
    requires f < FIELDS
    ensures r.0 == Columns().starts[f] && r.1 == End(Columns(), f)
  {
    var col := Columns().starts[f];
    if IS_ARRAY[f] then (col, col + DISTS_SIZE) else (col, col + 1)
  }

  /** An element access operator[](index) of s_dists counts a slot that rounds back to s_dists. */
  lemma ElementSlotInColumn(index: int)
    requires 0 <= index < DISTS_SIZE
    ensures CountedSlots(0).0 <= S_DISTS + index < CountedSlots(0).1
    ensures Rounded(Columns(), S_DISTS + index) == S_DISTS
  {
    RoundedDists(index);
  }

  class StockValue<V> {
    /** splitindex_: slots below it are in cell 0, the rest in cell 1. */
    var splitindex: int
    /** The value_ of each accessor, in declaration order. */
    const values: array<V>

    predicate Valid()
      reads this
    {
      values.Length == FIELDS
    }

    /** `stock_value()`: splitindex_ defaults to COLCOUNT. */
    constructor(init: seq<V>)
      requires |init| == FIELDS
      ensures Valid() && fresh(values)
      ensures values[..] == init && splitindex == COLCOUNT
    {
      values := new V[FIELDS](i requires 0 <= i < FIELDS => init[i]);
      splitindex := COLCOUNT;
    }

    /** split_of(index): cell 0 below splitindex_, cell 1 from it on. */
    function SplitOf(index: int): (cell: int)
      reads this
      ensures cell == 0 || cell == 1
      ensures cell == 0 <==> index < splitindex
    {
      if index < splitindex then 0 else 1
    }

    /**
     * resplit(newvalue, oldvalue, index): a byte copy of the whole value,
     * then the new threshold. The source asserts 0 < index <= COLCOUNT.
     */
    static method Resplit(newvalue: StockValue<V>, oldvalue: StockValue<V>, index: int)
      requires newvalue.Valid() && oldvalue.Valid()
      requires 0 < index <= COLCOUNT
      modifies newvalue, newvalue.values
      ensures newvalue.values[..] == old(oldvalue.values[..])
      ensures newvalue.splitindex == index
    {
      forall f | 0 <= f < FIELDS {
        newvalue.values[f] := oldvalue.values[f];
      }
      newvalue.splitindex := index;
    }

    /**
     * copy_data<Column>(newvalue, oldvalue): copies the accessor of slot
     * Column and recurses on Column + 1 while that is below COLCOUNT (the
     * slots of s_dists copy s_dists again). Every accessor from the one of
     * Column on ends up equal to oldvalue's; earlier ones are untouched;
     * splitindex_ is not copied.
     */
    static method CopyData(newvalue: StockValue<V>, oldvalue: StockValue<V>, col: int)
      requires newvalue.Valid() && oldvalue.Valid()
      requires 0 <= col < COLCOUNT
      // the accessors are embedded in each value, so two values never share them
      requires newvalue.values != oldvalue.values
      modifies newvalue.values
      decreases COLCOUNT - col
      ensures forall f :: 0 <= f < FIELDS ==>
        newvalue.values[f] == if f < Accessor(col) then old(newvalue.values[f]) else old(oldvalue.values[f])
    {
      var f := Accessor(col);
      newvalue.values[f] := oldvalue.values[f];
      if col + 1 < COLCOUNT {
        assert Accessor(col + 1) == f || Accessor(col + 1) == f + 1;
        CopyData(newvalue, oldvalue, col + 1);
      } else {
        assert f == FIELDS - 1;
      }
    }
  }

  /** With the default splitindex_ (COLCOUNT) every slot is in cell 0. */
  lemma DefaultSplitAllCellZero<V>(v: StockValue<V>, index: int)
    requires v.splitindex == COLCOUNT && 0 <= index < COLCOUNT
    ensures v.SplitOf(index) == 0
  {
  }

  /** After resplit at k, cell 1 holds exactly the slots from k on. */
  lemma SplitOfAfterResplit<V>(v: StockValue<V>, k: int, index: int)
    requires v.splitindex == k && 0 < k <= COLCOUNT && 0 <= index < COLCOUNT
    ensures v.SplitOf(index) == 1 <==> k <= index
  {
  }
}
