/**
 * The Java-style integer helpers of the benchmark framework (class Integer
 * and Math). A C++ `int` is modelled by its 32-bit two's-complement image,
 * a `bv32`; `>>` on a signed `int` is the arithmetic shift `Sar`, while `>>`
 * on `bv32` is the logical shift that Java writes `>>>`.
 */
module IntBits {

  const SIGN: bv32 := 0x8000_0000

  /** `x >> k` on a signed int: the vacated bits copy the sign bit. */
  function Sar(x: bv32, k: nat): bv32
    requires k < 32
  {
    if x & SIGN == 0 then x >> k else !((!x) >> k)
  }

  lemma SarNonNegative(x: bv32, k: nat)
    requires k < 32 && x & SIGN == 0
    ensures Sar(x, k) == x >> k
  {
  }


  lemma SarNegativeBy31(x: bv32)
    requires x & SIGN != 0
    ensures Sar(x, 31) == 0xffff_ffff
  {
  }

  // ---- Math::Max / Math::Min ----

  /** Math::Max: the larger argument, the first one on a tie. */
  function Max(a: int, b: int): (r: int)
    ensures r >= a && r >= b
    ensures r == a || r == b
  {
    if a >= b then a else b
  }

  /** Math::Min: the smaller argument, the first one on a tie. */
  function Min(a: int, b: int): (r: int)
    ensures r <= a && r <= b
    ensures r == a || r == b
  {
    if a <= b then a else b
  }

  // ---- highestOneBit ----

  /** Smearing of HD Figure 3-1 with the shifts the algorithm intends (Java's `>>>`). */
  function Smear(i: bv32): bv32 {
    var a := i | (i >> 1);
    var b := a | (a >> 2);
    var c := b | (b >> 4);
    var d := c | (c >> 8);
    d | (d >> 16)
  }

  lemma HighestOneBitIsOneBit(i: bv32)
    ensures var s := Smear(i); var r := s - (s >> 1); r & (r - 1) == 0
  {
  }

  lemma HighestOneBitBounds(i: bv32)
    ensures var s := Smear(i); var r := s - (s >> 1); i != 0 ==> r != 0 && r <= i
  {
  }

  lemma HighestOneBitIsTop(i: bv32)
    ensures var s := Smear(i); var r := s - (s >> 1); i & !(r - 1) == r
  {
  }

  /**
   * highestOneBit(i) with logical shifts: zero for zero, otherwise the
   * single bit of i that no higher set bit exceeds.
   */
  function HighestOneBit(i: bv32): (r: bv32)
    ensures (r == 0) == (i == 0)
    ensures i & SIGN != 0 ==> r == SIGN
  {
    var s := Smear(i);
    s - (s >> 1)
  }

  /** highestOneBit(i) is a single bit or zero; for nonzero i it is set in i and no higher bit of i is. */
  lemma HighestOneBitIsTopBit(i: bv32)
    ensures var r := HighestOneBit(i); r & (r - 1) == 0
    ensures var r := HighestOneBit(i); i != 0 ==> r != 0 && r <= i
    ensures var r := HighestOneBit(i); i & !(r - 1) == r
  {
    HighestOneBitIsOneBit(i);
    HighestOneBitBounds(i);
    HighestOneBitIsTop(i);
  }

  /** highestOneBit(i) as written: the smearing shifts are arithmetic, so every negative argument yields 0. */
  function HighestOneBitAsWritten(i: bv32): (r: bv32)
    ensures i & SIGN != 0 ==> r == 0
  {
    var a := i | Sar(i, 1);
    var b := a | Sar(a, 2);
    var c := b | Sar(b, 4);
    var d := c | Sar(c, 8);
    var e := d | Sar(d, 16);
    e - Sar(e, 1)
  }

  /** On non-negative arguments the written and the intended algorithm agree. */
  lemma HighestOneBitAsWrittenOnNonNegative(i: bv32)
    requires i & SIGN == 0
    ensures HighestOneBitAsWritten(i) == HighestOneBit(i)
  {
    var a := i | (i >> 1);
    assert a & SIGN == 0;
    var b := a | (a >> 2);
    assert b & SIGN == 0;
    var c := b | (b >> 4);
    assert c & SIGN == 0;
    var d := c | (c >> 8);
    assert d & SIGN == 0;
    var e := d | (d >> 16);
    assert e & SIGN == 0;
  }

  /** On -1 the written code answers 0 instead of the sign bit. */
  lemma HighestOneBitAsWrittenOnMinusOne()
    ensures HighestOneBitAsWritten(0xffff_ffff) == 0
    ensures HighestOneBit(0xffff_ffff) == SIGN
  {
  }

  // ---- lowestOneBit ----

  /** lowestOneBit(i) = i & -i: zero for zero, otherwise the lowest set bit of i. */
  function LowestOneBit(i: bv32): (r: bv32)
    ensures r == 0 <==> i == 0
    ensures r & (r - 1) == 0
    ensures i & (r - 1) == 0
    ensures i != 0 ==> i & r == r
  {
    LowestBitFacts(i);
    i & -i
  }

  lemma LowestBitFacts(i: bv32)
    ensures var r := i & -i; (r == 0 <==> i == 0) && r & (r - 1) == 0
  {
    LowestBitBelow(i);
  }

  lemma LowestBitBelow(i: bv32)
    ensures var r := i & -i; i & (r - 1) == 0
  {
  }

  // ---- numberOfLeadingZeros ----

  /** numberOfLeadingZeros with the final shift Java intends (`>>>`). */
  function NumberOfLeadingZeros(i: bv32): (r: bv32)
    ensures (r == 32) == (i == 0)
  {
    if i == 0 then 32 else NlzNormalises(i); NlzSteps(i) - (NlzShifted(i) >> 31)
  }

  /**
   * For a non-zero argument, shifting left by numberOfLeadingZeros brings
   * the top set bit to the sign position (zero counts 32 by definition).
   */
  lemma NumberOfLeadingZerosNormalises(i: bv32)
    requires i != 0
    ensures NumberOfLeadingZeros(i) < 32 && (i << NumberOfLeadingZeros(i)) & SIGN != 0
  {
    NlzNormalises(i);
    NlzIsSteps(i);
  }

  /** No bit above the leading zeros is set. */
  lemma NumberOfLeadingZerosNothingAbove(i: bv32)
    requires i != 0
    ensures NumberOfLeadingZeros(i) != 0 ==> i >> (32 - NumberOfLeadingZeros(i)) == 0
  {
  }

  lemma NlzIsSteps(i: bv32)
    requires i != 0
    ensures NumberOfLeadingZeros(i) == NlzSteps(i) - (NlzShifted(i) >> 31)
  {
  }

  /** The count after the four halving steps of HD Figure 5-6. */
  function NlzSteps(i: bv32): bv32 {
    var n1: bv32 := if i >> 16 == 0 then 17 else 1;
    var i1 := if i >> 16 == 0 then i << 16 else i;
    var n2 := if i1 >> 24 == 0 then n1 + 8 else n1;
    var i2 := if i1 >> 24 == 0 then i1 << 8 else i1;
    var n3 := if i2 >> 28 == 0 then n2 + 4 else n2;
    var i3 := if i2 >> 28 == 0 then i2 << 4 else i2;
    if i3 >> 30 == 0 then n3 + 2 else n3
  }

  /** The argument after the four halving steps (the tests on it are the same for `>>` and `>>>`). */
  function NlzShifted(i: bv32): bv32 {
    var i1 := if i >> 16 == 0 then i << 16 else i;
    var i2 := if i1 >> 24 == 0 then i1 << 8 else i1;
    var i3 := if i2 >> 28 == 0 then i2 << 4 else i2;
    if i3 >> 30 == 0 then i3 << 2 else i3
  }

  lemma NlzNormalises(i: bv32)
    requires i != 0
    ensures var n := NlzSteps(i) - (NlzShifted(i) >> 31); n < 32 && (i << n) & SIGN != 0
  {
  }

  /**
   * numberOfLeadingZeros as written: the final `i >> 31` is arithmetic, so
   * a negative argument, which has no leading zero, counts 2.
   */
  function NumberOfLeadingZerosAsWritten(i: bv32): (r: bv32)
    ensures i == 0 ==> r == 32
    ensures i & SIGN != 0 ==> r == 2
  {
    if i == 0 then 32 else NlzSteps(i) - Sar(NlzShifted(i), 31)
  }

  /** 0x8000 has 16 leading zeros; the written code answers 18. */
  lemma NumberOfLeadingZerosAsWrittenOn0x8000()
    ensures NumberOfLeadingZerosAsWritten(0x8000) == 18
    ensures NumberOfLeadingZeros(0x8000) == 16
  {
  }

  // ---- numberOfTrailingZeros ----

  /** numberOfTrailingZeros with the final shift Java intends (`>>>`). */
  function NumberOfTrailingZeros(i: bv32): (n: bv32)
    ensures i == 0 ==> n == 32
    ensures i != 0 ==> n < 32 && (i >> n) & 1 == 1
    ensures i != 0 && n != 0 ==> i << (32 - n) == 0
  {
    if i == 0 then 32 else
    NtzFindsBit(i);
    NtzBelow(i);
    NtzSteps(i) - ((NtzShifted(i) << 1) >> 31)
  }

  /** The count after the four halving steps of HD Figure 5-14. */
  function NtzSteps(i: bv32): bv32 {
    var n1: bv32 := if i << 16 != 0 then 15 else 31;
    var i1 := if i << 16 != 0 then i << 16 else i;
    var n2 := if i1 << 8 != 0 then n1 - 8 else n1;
    var i2 := if i1 << 8 != 0 then i1 << 8 else i1;
    var n3 := if i2 << 4 != 0 then n2 - 4 else n2;
    var i3 := if i2 << 4 != 0 then i2 << 4 else i2;
    if i3 << 2 != 0 then n3 - 2 else n3
  }

  /** The argument after the four halving steps. */
  function NtzShifted(i: bv32): bv32 {
    var i1 := if i << 16 != 0 then i << 16 else i;
    var i2 := if i1 << 8 != 0 then i1 << 8 else i1;
    var i3 := if i2 << 4 != 0 then i2 << 4 else i2;
    if i3 << 2 != 0 then i3 << 2 else i3
  }

  lemma NtzFindsBit(i: bv32)
    requires i != 0
    ensures var n := NtzSteps(i) - ((NtzShifted(i) << 1) >> 31); n < 32 && (i >> n) & 1 == 1
  {
  }

  lemma NtzBelow(i: bv32)
    requires i != 0
    ensures var n := NtzSteps(i) - ((NtzShifted(i) << 1) >> 31); n != 0 ==> i << (32 - n) == 0
  {
  }

  /**
   * numberOfTrailingZeros as written: the final `>> 31` is arithmetic, so
   * the answer is the count or the count plus 2.
   */
  function NumberOfTrailingZerosAsWritten(i: bv32): (r: bv32)
    ensures r == NumberOfTrailingZeros(i) || r == NumberOfTrailingZeros(i) + 2
  {
    if i == 0 then 32 else NtzSteps(i) - Sar(NtzShifted(i) << 1, 31)
  }

  /** 1 has no trailing zeros; the written code answers 2. */
  lemma NumberOfTrailingZerosAsWrittenOnOne()
    ensures NumberOfTrailingZerosAsWritten(1) == 2
    ensures NumberOfTrailingZeros(1) == 0
  {
  }

  // ---- signum ----

  /**
   * signum(i) with the shift Java intends in its second half: 0 for zero,
   * 1 for a positive and -1 (all ones) for a negative argument.
   */
  function Signum(i: bv32): (r: bv32)
    ensures r == if i == 0 then 0 else if i & SIGN == 0 then 1 else 0xffff_ffff
  {
    Sar(i, 31) | ((-i) >> 31)
  }

  /** signum as written: both shifts arithmetic, so every nonzero argument yields -1. */
  function SignumAsWritten(i: bv32): (r: bv32)
    ensures r == if i == 0 then 0 else 0xffff_ffff
  {
    Sar(i, 31) | Sar(-i, 31)
  }

  /** signum(5) is 1; the written code answers -1 (all ones). */
  lemma SignumAsWrittenOnFive()
    ensures SignumAsWritten(5) == 0xffff_ffff
    ensures Signum(5) == 1
  {
  }

  // ---- nearestPowerOfTwo and log2 (unsigned) ----

  function Pow2(c: nat): (p: nat)
    ensures p >= 1
  {
    if c == 0 then 1 else 2 * Pow2(c - 1)
  }

  /** The least c with 2^c >= i. */
  function CeilLog2(i: nat): (c: nat)
    ensures Pow2(c) >= i
    ensures c == 0 || Pow2(c - 1) < i
  {
    if i <= 1 then 0 else 1 + CeilLog2((i + 1) / 2)
  }

  /** CeilLog2 is the only exponent with those two properties. */
  lemma {:induction false} CeilLog2Unique(i: nat, c: nat)
    requires Pow2(c) >= i
    requires c == 0 || Pow2(c - 1) < i
    ensures c == CeilLog2(i)
  {
    var d := CeilLog2(i);
    if c < d {
      Pow2Monotone(c, d - 1);
    } else if d < c {
      Pow2Monotone(d, c - 1);
    }
  }

  lemma {:induction false} Pow2Monotone(a: nat, b: nat)
    requires a <= b
    ensures Pow2(a) <= Pow2(b)
  {
    if a < b {
      Pow2Monotone(a, b - 1);
    }
  }

  /**
   * nearestPowerOfTwo(i): doubles rc from 1 while rc < i. For i above
   * 2^31 the unsigned doubling wraps to 0 and the loop never ends, so the
   * model asks for i <= 2^31.
   */
  method NearestPowerOfTwo(i: nat) returns (rc: nat)
    requires i <= 0x8000_0000
    ensures rc == Pow2(CeilLog2(i))
    ensures rc >= i && rc < 0x1_0000_0000
  {
    rc := 1;
    ghost var c: nat := 0;
    while rc < i
      invariant rc == Pow2(c)
      invariant c == 0 || Pow2(c - 1) < i
      invariant c == 0 || rc < 2 * i
      decreases i - rc
    {
      rc := rc * 2;
      c := c + 1;
    }
    CeilLog2Unique(i, c);
  }

  /** log2(i): the number of doublings of mask from 1 until it reaches i (same loop bound as above). */
  method Log2(i: nat) returns (count: nat)
    requires i <= 0x8000_0000
    ensures count == CeilLog2(i)
    ensures Pow2(count) >= i && (count == 0 || Pow2(count - 1) < i)
  {
    var mask: nat := 1;
    count := 0;
    while mask < i
      invariant mask == Pow2(count)
      invariant count == 0 || Pow2(count - 1) < i
      invariant count == 0 || mask < 2 * i
      decreases i - mask
    {
      mask := mask * 2;
      count := count + 1;
    }
    CeilLog2Unique(i, count);
  }
}
