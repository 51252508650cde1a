/**
 * The logical column index space of a generated record header.
 *
 * Every generated record has an `enum class NamedColumn : int` whose
 * enumerators are the start slots of the declared columns, in declaration
 * order, followed by the sentinel COLCOUNT. A scalar column takes one slot; an
 * array column of n elements takes n slots, so the next enumerator leaves a
 * gap. `RoundedNamedColumn<C>()` maps any slot back to the column that
 * declares it, as a chain of `if (C < next) return this;` tests.
 */
module ColumnLayout {

  /** Bounds of the enum's underlying type, a 32-bit `int`. */
  const INT_MIN: int := -0x8000_0000
  const INT_MAX: int := 0x7fff_ffff

  predicate InInt(x: int) {
    INT_MIN <= x <= INT_MAX
  }

  /** The enumerators of the declared columns (their start slots) and COLCOUNT. */
  datatype Layout = Layout(starts: seq<int>, colCount: int)

  /** Starts begin at 0, strictly increase, and all lie below COLCOUNT. */
  predicate Valid(l: Layout) {
    && |l.starts| > 0
    && l.starts[0] == 0
    && (forall i, j :: 0 <= i < j < |l.starts| ==> l.starts[i] < l.starts[j])
    && l.starts[|l.starts| - 1] < l.colCount
  }

  /** The start that follows starts[i], or `total` after the last one. */
  function NextStart(starts: seq<int>, i: nat, total: int): int
    requires i < |starts|
  {
    if i + 1 < |starts| then starts[i + 1] else total
  }

  /** One past the last slot of declared column f. */
  function End(l: Layout, f: nat): int
    requires f < |l.starts|
  {
    NextStart(l.starts, f, l.colCount)
  }

  function Sum(widths: seq<nat>): nat {
    if |widths| == 0 then 0 else widths[0] + Sum(widths[1..])
  }

  /**
   * The enumerators the generator emits for columns of the given widths
   * (1 for a scalar, n for an array of n), starting at slot `base`: each
   * column starts where the previous one ends.
   */
  function StartsFrom(widths: seq<nat>, base: int): (s: seq<int>)
    ensures |s| == |widths|
    ensures forall i :: 0 <= i < |s| ==> s[i] + widths[i] == NextStart(s, i, base + Sum(widths))
    ensures |s| > 0 ==> s[0] == base
  {
    if |widths| == 0 then []
    else
      var rest := StartsFrom(widths[1..], base + widths[0]);
      assert forall i :: 1 <= i < |widths| ==> widths[1..][i - 1] == widths[i];
      [base] + rest
  }

  /** The layout of a record whose declared columns have the given widths. */
  function FromWidths(widths: seq<nat>): (l: Layout)
    requires |widths| > 0
    requires forall i :: 0 <= i < |widths| ==> widths[i] >= 1
    ensures Valid(l)
    ensures |l.starts| == |widths| && l.colCount == Sum(widths)
    ensures forall f :: 0 <= f < |widths| ==> End(l, f) - l.starts[f] == widths[f]
  {
    var l := Layout(StartsFrom(widths, 0), Sum(widths));
    StartsIncrease(l.starts, widths, l.colCount);
    l
  }

  lemma StartsIncrease(s: seq<int>, widths: seq<nat>, total: int)
    requires |s| == |widths| > 0
    requires forall i :: 0 <= i < |widths| ==> widths[i] >= 1
    requires forall i :: 0 <= i < |s| ==> s[i] + widths[i] == NextStart(s, i, total)
    ensures forall i, j :: 0 <= i < j < |s| ==> s[i] < s[j]
    ensures s[|s| - 1] < total
  {
    assert s[|s| - 1] + widths[|s| - 1] == NextStart(s, |s| - 1, total);
    forall i, j | 0 <= i < j < |s|
      ensures s[i] < s[j]
    {
      var k := i + 1;
      assert s[i] + widths[i] == NextStart(s, i, total);
      while k < j
        invariant i < k <= j
        invariant s[i] < s[k]
      {
        assert s[k] + widths[k] == NextStart(s, k, total);
        k := k + 1;
      }
    }
  }

  /**
   * The chain of tests in RoundedNamedColumn, from declared column f on:
   * the index of the first column whose successor starts above c.
   */
  function DeclaringFrom(l: Layout, c: int, f: nat): (g: nat)
    requires Valid(l) && f < |l.starts|
    decreases |l.starts| - f
    ensures f <= g < |l.starts|
    ensures g + 1 < |l.starts| ==> c < l.starts[g + 1]
    ensures g > f ==> l.starts[g] <= c
  {
    if f + 1 < |l.starts| && !(c < l.starts[f + 1]) then DeclaringFrom(l, c, f + 1)
    else f
  }

  /**
   * RoundedNamedColumn<c>(): the enumerator of the column that declares
   * slot c. The template statically asserts c < COLCOUNT. A negative c
   * passes the first test and yields the first column.
   */
  function Rounded(l: Layout, c: int): (r: int)
    requires Valid(l) && c < l.colCount
    ensures r in l.starts
    ensures c < 0 ==> r == l.starts[0]
    ensures 0 <= c ==> r <= c
    ensures forall s :: s in l.starts && s <= c ==> s <= r
  {
    var g := DeclaringFrom(l, c, 0);
    l.starts[g]
  }

  /** Every slot of a declared column rounds back to that column's enumerator. */
  lemma RoundedOnSpan(l: Layout, f: nat, c: int)
    requires Valid(l) && f < |l.starts|
    requires l.starts[f] <= c < End(l, f)
    ensures Rounded(l, c) == l.starts[f]
  {
    var r := Rounded(l, c);
    assert l.starts[f] <= r;
    var g :| 0 <= g < |l.starts| && l.starts[g] == r;
  }

  /** The layout of a record whose columns are all scalar: slot i is column i. */
  function Scalar(n: nat): (l: Layout)
    requires n > 0
    ensures Valid(l) && |l.starts| == n && l.colCount == n
  {
    Layout(seq(n, i => i), n)
  }

  /** With only scalar columns, RoundedNamedColumn is the identity on 0..COLCOUNT-1. */
  lemma ScalarRoundedIsIdentity(n: nat, c: int)
    requires n > 0 && 0 <= c < n
    ensures Rounded(Scalar(n), c) == c
  {
    RoundedOnSpan(Scalar(n), c, c);
  }

  // ---- NamedColumn arithmetic operators ----
  // Each operator converts to the underlying int, computes, and converts back;
  // a result outside int would be signed overflow, so callers must avoid it.
  // `+=`, `++` and `-=` store the same results through a reference.

  function Plus(nc: int, index: int): (r: int)
    requires InInt(nc) && InInt(index) && InInt(nc + index)
    ensures InInt(r)
  {
    nc + index
  }

  function Minus(nc: int, index: int): (r: int)
    requires InInt(nc) && InInt(index) && InInt(nc - index)
    ensures InInt(r)
  {
    nc - index
  }

  /** C++ integer division: the quotient truncated toward zero. */
  function Divide(nc: int, denom: int): (r: int)
    requires InInt(nc) && InInt(denom) && denom != 0
    requires !(nc == INT_MIN && denom == -1)
    ensures InInt(r)
    ensures var rem := nc - r * denom;
      && (rem == 0 || (rem < 0 <==> nc < 0))
      && (if rem < 0 then -rem else rem) < (if denom < 0 then -denom else denom)
    ensures 0 <= nc && 0 < denom ==> r == nc / denom
  {
    var q := (if nc < 0 then -nc else nc) / (if denom < 0 then -denom else denom);
    if (nc < 0) == (denom < 0) then q else -q
  }

  /** Adding and then subtracting the same offset gives the column back. */
  lemma PlusMinusInverse(nc: int, index: int)
    requires InInt(nc) && InInt(index) && InInt(nc + index)
    ensures Minus(Plus(nc, index), index) == nc
    ensures Plus(Minus(nc + index, index), index) == nc + index
  {
  }
}
