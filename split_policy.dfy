/**
 * Split policies of the generated record headers.
 *
 * `SplitPolicy<k>` holds a table `policy[COLCOUNT]` giving, for each column
 * slot, the cell that stores it, a `cell_col_count(cell)` giving how many
 * columns a cell holds, and `copy_cell<Cell>(dest, src)` assigning the fields
 * of one cell from src to dest. A record value is modelled as an array of its
 * fields in declaration order; for the records that carry SplitPolicy tables
 * every column is scalar, so field i is slot i.
 */
module SplitPolicy {

  /** The number of slots below k whose policy entry is `cell`. */
  function CountBelow(policy: seq<int>, cell: int, k: nat): (n: nat)
    requires k <= |policy|
    ensures n <= k
    ensures n == 0 <==> forall c :: 0 <= c < k ==> policy[c] != cell
    ensures n == k <==> forall c :: 0 <= c < k ==> policy[c] == cell
  {
    if k == 0 then 0
    else CountBelow(policy, cell, k - 1) + (if policy[k - 1] == cell then 1 else 0)
  }

  /** The number of slots whose policy entry is `cell` (the meaning of cell_col_count). */
  function Count(policy: seq<int>, cell: int): (n: nat)
    ensures n <= |policy|
    ensures n == 0 <==> cell !in policy
    ensures n == |policy| <==> forall c :: 0 <= c < |policy| ==> policy[c] == cell
  {
    CountBelow(policy, cell, |policy|)
  }

  /**
   * RecordAccessor::cell_col_count(index, cell): the generated switch hands
   * the call to SplitPolicy<index>::cell_col_count, and answers 0 for an index
   * with no policy. `counts[k]` is the generated count function of policy k;
   * each record passes its own tables.
   */
  function CellColCount(policies: seq<seq<int>>, counts: seq<int -> nat>, index: int, cell: int): (n: nat)
    requires |counts| == |policies|
    requires forall k, c :: 0 <= k < |counts| ==> counts[k](c) == Count(policies[k], c)
    ensures 0 <= index < |policies| ==> n == Count(policies[index], cell)
    ensures !(0 <= index < |policies|) ==> n == 0
  {
    if 0 <= index < |counts| then counts[index](cell) else 0
  }

  /**
   * The shape of every generated table: the first m slots in cell a, the
   * rest in cell b.
   */
  lemma CountTwoBlocks(policy: seq<int>, m: nat, a: int, b: int)
    requires a != b && m <= |policy|
    requires forall c :: 0 <= c < m ==> policy[c] == a
    requires forall c :: m <= c < |policy| ==> policy[c] == b
    ensures Count(policy, a) == m && Count(policy, b) == |policy| - m
  {
    CountTwoBlocksBelow(policy, m, a, b, |policy|);
  }

  lemma {:induction false} CountTwoBlocksBelow(policy: seq<int>, m: nat, a: int, b: int, k: nat)
    requires a != b && m <= k <= |policy|
    requires forall c :: 0 <= c < m ==> policy[c] == a
    requires forall c :: m <= c < |policy| ==> policy[c] == b
    ensures CountBelow(policy, a, k) == m && CountBelow(policy, b, k) == k - m
  {
    if k > m {
      CountTwoBlocksBelow(policy, m, a, b, k - 1);
    } else {
      assert CountBelow(policy, b, k) == 0;
    }
  }

  /** Every entry of the table names cell 0 or cell 1 (MAX_SPLITS is 2). */
  predicate TwoCells(policy: seq<int>) {
    forall c :: 0 <= c < |policy| ==> policy[c] == 0 || policy[c] == 1
  }

  /** Cells 0 and 1 partition the columns: their counts add up to COLCOUNT. */
  lemma CountsPartition(policy: seq<int>)
    requires TwoCells(policy)
    ensures Count(policy, 0) + Count(policy, 1) == |policy|
  {
    CountsPartitionBelow(policy, |policy|);
  }

  lemma {:induction false} CountsPartitionBelow(policy: seq<int>, k: nat)
    requires TwoCells(policy) && k <= |policy|
    ensures CountBelow(policy, 0, k) + CountBelow(policy, 1, k) == k
  {
    if k > 0 {
      CountsPartitionBelow(policy, k - 1);
    }
  }

  /**
   * The record that copy_cell<cell>(dest, src) leaves in dest: the fields of
   * `cell` come from src, every other field keeps its dest value.
   */
  function Overlay<V>(policy: seq<int>, cell: int, dest: seq<V>, src: seq<V>): (r: seq<V>)
    requires |dest| == |policy| && |src| == |policy|
  {
    seq(|policy|, i requires 0 <= i < |policy| => if policy[i] == cell then src[i] else dest[i])
  }

  /** Copying cell 0 and then cell 1 from the same source reproduces the source. */
  lemma OverlayBothCells<V>(policy: seq<int>, dest: seq<V>, src: seq<V>)
    requires TwoCells(policy)
    requires |dest| == |policy| && |src| == |policy|
    ensures Overlay(policy, 1, Overlay(policy, 0, dest, src), src) == src
  {
  }

  /** Copying a cell that holds every slot copies the whole record. */
  lemma OverlayWholeCell<V>(policy: seq<int>, cell: int, dest: seq<V>, src: seq<V>)
    requires forall i :: 0 <= i < |policy| ==> policy[i] == cell
    requires |dest| == |policy| && |src| == |policy|
    ensures Overlay(policy, cell, dest, src) == src
  {
  }

  /** Copying a cell the table never names leaves dest unchanged. */
  lemma OverlayUnusedCell<V>(policy: seq<int>, cell: int, dest: seq<V>, src: seq<V>)
    requires cell !in policy
    requires |dest| == |policy| && |src| == |policy|
    ensures Overlay(policy, cell, dest, src) == dest
  {
  }

  /**
   * The cells of a record are disjoint: copying cell a from one source and
   * cell b != a from another can be done in either order.
   */
  lemma OverlayCommutes<V>(policy: seq<int>, a: int, b: int, dest: seq<V>, s1: seq<V>, s2: seq<V>)
    requires a != b
    requires |dest| == |policy| && |s1| == |policy| && |s2| == |policy|
    ensures Overlay(policy, b, Overlay(policy, a, dest, s1), s2)
         == Overlay(policy, a, Overlay(policy, b, dest, s2), s1)
  {
  }

  /**
   * copy_cell<cell>(dest, src) for a policy table: one simultaneous
   * assignment of the cell's fields, as the generated straight-line code
   * does; src may be dest itself.
   */
  method CopyCell<V>(policy: seq<int>, cell: int, dest: array<V>, src: array<V>)
    requires dest.Length == |policy| && src.Length == |policy|
    modifies dest
    ensures dest[..] == Overlay(policy, cell, old(dest[..]), old(src[..]))
  {
    forall i | 0 <= i < dest.Length && policy[i] == cell {
      dest[i] := src[i];
    }
  }
}
