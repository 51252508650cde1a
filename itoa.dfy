/**
 * Integer::Itoa of the benchmark framework: the digits of a 32-bit int in
 * a radix between 2 and 36, written least significant first and then
 * reversed in place.
 */
module IntToText {

  const DIGITS: string := "0123456789abcdefghijklmnopqrstuvwxyz"
  const INT_MIN: int := -0x8000_0000
  const INT_MAX: int := 0x7fff_ffff

  /** The value of a digit character of DIGITS. */
  function DigitValue(c: char): int {
    if '0' <= c <= '9' then c as int - '0' as int else c as int - 'a' as int + 10
  }

  /** dig[d], the character of digit d: '0'-'9', then 'a'-'z'. */
  function Digit(d: nat): char
    requires d < 36
  {
    if d < 10 then ('0' as int + d) as char else ('a' as int + d - 10) as char
  }

  /** Digit agrees with the table DIGITS. */
  lemma DigitIsTable(d: nat)
    requires d < 36
    ensures Digit(d) == DIGITS[d]
  {
  }

  /** Each digit character reads back as its value, and none of them is the minus sign. */
  lemma DigitsReadBack(d: nat)
    requires d < 36
    ensures DigitValue(Digit(d)) == d && Digit(d) != '-'
  {
  }

  /**
   * The unsigned number Itoa writes: the negated value for a negative value
   * in radix 10 (the sign is written separately), otherwise the value
   * converted to unsigned int.
   */
  function Magnitude(value: int, radix: nat): (v: nat)
    requires INT_MIN <= value <= INT_MAX
    ensures v < 0x1_0000_0000
    ensures radix == 10 ==> v == if value < 0 then -value else value
  {
    if radix == 10 && value < 0 then -value
    else if value < 0 then value + 0x1_0000_0000
    else value
  }

  predicate Negative(value: int, radix: nat) {
    radix == 10 && value < 0
  }

  /** The digits the do-while loop writes, least significant first (at least one). */
  function LowFirst(v: nat, radix: nat): (s: string)
    requires 2 <= radix <= 36
    ensures |s| >= 1
    decreases v
  {
    DivFacts(v, radix);
    [Digit(v % radix)] + if v / radix == 0 then [] else LowFirst(v / radix, radix)
  }

  /** The string before the reversal: the digits, then '-' for a negative radix-10 value. */
  function Raw(value: int, radix: nat): (s: string)
    requires INT_MIN <= value <= INT_MAX
    requires 2 <= radix <= 36
    ensures |s| >= 1
  {
    LowFirst(Magnitude(value, radix), radix) + if Negative(value, radix) then "-" else ""
  }

  function Reverse(s: string): (r: string)
    ensures |r| == |s|
    ensures forall i :: 0 <= i < |s| ==> r[i] == s[|s| - 1 - i]
  {
    if s == [] then [] else Reverse(s[1..]) + [s[0]]
  }

  /** What the written reversal loop leaves: only the first n/2 + 1 characters are reversed. */
  function PrefixReversed(s: string): (r: string)
    requires |s| >= 1
    ensures |r| == |s|
  {
    Reverse(s[..|s| / 2 + 1]) + s[|s| / 2 + 1..]
  }

  /** A string that holds raw reversed up to n/2 and raw after it is PrefixReversed(raw). */
  lemma PrefixReversedAt(raw: string, str: string)
    requires |raw| >= 1 && |str| == |raw|
    requires forall i :: 0 <= i <= |raw| / 2 ==> str[i] == raw[|raw| / 2 - i]
    requires forall i :: |raw| / 2 < i < |raw| ==> str[i] == raw[i]
    ensures str == PrefixReversed(raw)
  {
    var h := |raw| / 2;
    var w := PrefixReversed(raw);
    forall i | 0 <= i < |raw|
      ensures str[i] == w[i]
    {
      if i <= h {
        assert w[i] == Reverse(raw[..h + 1])[i];
      } else {
        assert w[i] == raw[i];
      }
    }
  }

  /** The do-while loop: writes the digits of v, least significant first. */
  method WriteLowFirst(v0: nat, radix: nat) returns (str: string)
    requires 2 <= radix <= 36
    ensures str == LowFirst(v0, radix)
  {
    var v: nat := v0;
    str := [];
    LowFirstStep(str, v, radix);
    str := str + [Digit(v % radix)];
    v := v / radix;
    while v != 0
      invariant str + (if v == 0 then [] else LowFirst(v, radix)) == LowFirst(v0, radix)
      decreases v
    {
      LowFirstStep(str, v, radix);
      str := str + [Digit(v % radix)];
      v := v / radix;
    }
  }

  /** Builds the raw string as the do-while loop and the sign step do. */
  method WriteDigits(value: int, radix: nat) returns (str: string)
    requires INT_MIN <= value <= INT_MAX
    requires 2 <= radix <= 36
    ensures str == Raw(value, radix)
  {
    str := WriteLowFirst(Magnitude(value, radix), radix);
    if Negative(value, radix) {
      str := str + ['-'];
    }
  }

  /** One turn of the do-while loop moves the lowest digit of v onto str. */
  lemma LowFirstStep(str: string, v: nat, radix: nat)
    requires 2 <= radix <= 36
    ensures 0 <= v / radix && (v != 0 ==> v / radix < v)
    ensures var w := v / radix;
      str + LowFirst(v, radix) == (str + [Digit(v % radix)]) + (if w == 0 then [] else LowFirst(w, radix))
  {
    DivFacts(v, radix);
  }

  lemma DivFacts(v: nat, radix: nat)
    requires 2 <= radix
    ensures 0 <= v % radix < radix
    ensures v == (v / radix) * radix + v % radix
    ensures 0 <= v / radix && (v != 0 ==> v / radix < v)
  {
  }

  /**
   * Itoa as written: the swap loop runs p up from 0 and q down from n/2
   * until they meet. That happens only when n/2 is even; the requires
   * names those inputs (see ItoaAsWrittenNeverMeets for the others).
   */
  method ItoaAsWritten(value: int, radix: nat) returns (str: string)
    requires INT_MIN <= value <= INT_MAX
    requires 2 <= radix <= 36
    requires (|Raw(value, radix)| / 2) % 2 == 0
    ensures str == PrefixReversed(Raw(value, radix))
  {
    str := WriteDigits(value, radix);
    ghost var raw := str;
    var n := |str|;
    var h := n / 2;
    var p, q := 0, h;
    while p != q
      invariant 0 <= p <= q <= h && p + q == h && |str| == n && (q - p) % 2 == 0
      invariant forall i :: 0 <= i < p || q < i <= h ==> str[i] == raw[h - i]
      invariant forall i :: p <= i <= q || h < i < n ==> str[i] == raw[i]
      decreases q - p
    {
      var a, b := str[p], str[q];
      str := str[p := b][q := a];
      p, q := p + 1, q - 1;
    }
    PrefixReversedAt(raw, str);
  }

  /** With n/2 odd, p and q differ by an odd number at every step and never meet. */
  lemma ItoaAsWrittenNeverMeets(n: nat, k: nat)
    requires (n / 2) % 2 == 1
    ensures k != n / 2 - k
  {
  }

  /** The digits of 1234 in radix 10, least significant first. */
  lemma LowFirstOf1234()
    ensures LowFirst(1234, 10) == "4321"
  {
    assert LowFirst(1, 10) == "1";
    assert LowFirst(12, 10) == "21";
    assert LowFirst(123, 10) == "321";
  }

  lemma ReverseOf4321()
    ensures Reverse("4321") == "1234" && Reverse("432") == "234"
  {
    assert Reverse("1") == "1";
    assert Reverse("21") == "12";
    assert Reverse("321") == "123";
    assert Reverse("2") == "2";
    assert Reverse("32") == "23";
  }

  /** 1234 comes out as "2341", and 10 has a two-character string, for which the loop never ends. */
  lemma ItoaAsWrittenOn1234()
    ensures Raw(1234, 10) == "4321"
    ensures PrefixReversed(Raw(1234, 10)) == "2341"
    ensures Reverse(Raw(1234, 10)) == "1234"
    ensures (|Raw(10, 10)| / 2) % 2 == 1
  {
    LowFirstOf1234();
    ReverseOf4321();
    assert Raw(1234, 10) == "4321";
    assert "4321"[..2 + 1] == "432";
    assert LowFirst(10, 10) == "01";
  }

  /** Itoa with the evident intent: the whole string reversed (q starts at n - 1). */
  method Itoa(value: int, radix: nat) returns (str: string)
    requires INT_MIN <= value <= INT_MAX
    requires 2 <= radix <= 36
    ensures str == Reverse(Raw(value, radix))
  {
    str := WriteDigits(value, radix);
    ghost var raw := str;
    var n := |str|;
    var p, q := 0, n - 1;
    while p < q
      invariant 0 <= p <= q + 1 && p + q == n - 1 && q < n && |str| == n
      invariant forall i :: 0 <= i < p || q < i < n ==> str[i] == raw[n - 1 - i]
      invariant forall i :: p <= i <= q ==> str[i] == raw[i]
      decreases q - p
    {
      var a, b := str[p], str[q];
      str := str[p := b][q := a];
      p, q := p + 1, q - 1;
    }
  }

  /** A run of digits, most significant first, read in the radix. */
  function ParseDigits(s: string, radix: nat): int {
    if s == [] then 0 else ParseDigits(s[..|s| - 1], radix) * radix + DigitValue(s[|s| - 1])
  }

  /** A decimal numeral with an optional leading minus sign. */
  function ParseDecimal(s: string): int {
    if |s| > 0 && s[0] == '-' then -ParseDigits(s[1..], 10) else ParseDigits(s, 10)
  }

  /** The reversed digits read back as the number they were written from. */
  lemma {:induction false} DigitsRoundTrip(v: nat, radix: nat)
    requires 2 <= radix <= 36
    ensures ParseDigits(Reverse(LowFirst(v, radix)), radix) == v
    ensures Reverse(LowFirst(v, radix))[0] != '-'
    decreases v
  {
    ReverseLowFirst(v, radix);
    var w := v / radix;
    var rest := if w == 0 then [] else LowFirst(w, radix);
    if w != 0 {
      DigitsRoundTrip(w, radix);
    }
    assert ParseDigits(Reverse(rest), radix) == w;
    ParseLowestLast(v, radix, Reverse(rest), Digit(v % radix));
  }

  /** A numeral that reads as v / radix, followed by the digit of v % radix, reads as v. */
  lemma ParseLowestLast(v: nat, radix: nat, high: string, c: char)
    requires 2 <= radix
    requires ParseDigits(high, radix) == v / radix
    requires DigitValue(c) == v % radix
    ensures ParseDigits(high + [c], radix) == v
  {
    ParseLast(high, c, radix);
    LastDigit(v, radix, v / radix);
  }

  /** Reversing the low-first digits puts the lowest digit last. */
  lemma ReverseLowFirst(v: nat, radix: nat)
    requires 2 <= radix <= 36
    ensures 0 <= v / radix && (v / radix != 0 ==> v / radix < v) && v % radix < 36
    ensures var rest := if v / radix == 0 then [] else LowFirst(v / radix, radix);
      Reverse(LowFirst(v, radix)) == Reverse(rest) + [Digit(v % radix)]
    ensures DigitValue(Digit(v % radix)) == v % radix && Digit(v % radix) != '-'
  {
    DivFacts(v, radix);
    DigitsReadBack(v % radix);
    var rest := if v / radix == 0 then [] else LowFirst(v / radix, radix);
    assert LowFirst(v, radix) == [Digit(v % radix)] + rest;
  }

  /** Reading a numeral with one more digit at the end. */
  lemma ParseLast(s: string, c: char, radix: nat)
    ensures ParseDigits(s + [c], radix) == ParseDigits(s, radix) * radix + DigitValue(c)
  {
    assert (s + [c])[..|s + [c]| - 1] == s;
  }

  /** The high digits times the radix plus the lowest digit give back v. */
  lemma LastDigit(v: nat, radix: nat, high: int)
    requires 2 <= radix
    requires high == v / radix
    ensures high * radix + v % radix == v
  {
    DivFacts(v, radix);
  }

  lemma ReverseAppendSign(s: string)
    ensures Reverse(s + "-") == "-" + Reverse(s)
  {
    var r := Reverse(s + "-");
    assert forall i :: 0 <= i < |r| ==> r[i] == ("-" + Reverse(s))[i];
  }

  /** Every 32-bit int printed in radix 10 reads back as itself. */
  lemma ItoaRoundTrip(value: int)
    requires INT_MIN <= value <= INT_MAX
    ensures ParseDecimal(Reverse(Raw(value, 10))) == value
  {
    var digits := LowFirst(Magnitude(value, 10), 10);
    DigitsRoundTrip(Magnitude(value, 10), 10);
    if value < 0 {
      ReverseAppendSign(digits);
      assert Reverse(Raw(value, 10)) == "-" + Reverse(digits);
      assert ("-" + Reverse(digits))[1..] == Reverse(digits);
    } else {
      assert Raw(value, 10) == digits;
    }
  }
}
