/**
 * The TPC-C input rules of the benchmark driver: NURand (TPC-C clause
 * 2.1.6), customer last names from syllables (TPC-C clause 4.3.2.3), the
 * transaction mixes, random alphanumeric strings and the division of
 * warehouses among runner threads. Random draws are parameters.
 */
module TpccInput {

  // ---- NURand ----

  /**
   * nurand(a, c, x, y) given its two draws r0 = random(0, a) and
   * r1 = random(x, y): ((r0 | r1) + c) mod (y - x + 1) + x, on 64-bit
   * unsigned words. The result lies in [x, y].
   */
  function NuRand(a: bv64, c: bv64, x: nat, y: nat, r0: bv64, r1: bv64): (r: nat)
    requires x <= y < 0x1_0000_0000_0000_0000
    requires r0 <= a && x <= r1 as int <= y
    ensures x <= r <= y
  {
    var t := ((r0 | r1) + c) as int;
    t % (y - x + 1) + x
  }

  /** gen_customer_last_name_num: NURand(255, 223 or 157, 0, 999), always a valid argument of to_last_name. */
  function LastNameNum(run: bool, r0: bv64, r1: bv64): (n: nat)
    requires r0 <= 255 && r1 <= 999
    ensures n <= 999
  {
    NuRand(255, if run then 223 else 157, 0, 999, r0, r1)
  }

  // ---- customer last names ----

  /** The ten syllables of TPC-C clause 4.3.2.3 (the last_names table). */
  const SYLLABLES: seq<string> :=
    ["BAR", "OUGHT", "ABLE", "PRI", "PRES", "ESE", "ANTI", "CALLY", "ATION", "EING"]

  function Syllable(d: nat): (s: string)
    requires d < 10
    ensures 3 <= |s| <= 5
  {
    SYLLABLES[d]
  }

  /** to_last_name(n): the syllables of the hundreds, tens and units digits of n. */
  function ToLastName(n: nat): (s: string)
    requires n <= 999
    ensures 9 <= |s| <= 15
  {
    var q := n / 100;
    var r := n % 100;
    Syllable(q) + Syllable(r / 10) + Syllable(r % 10)
  }

  /** The digit whose syllable starts s: no syllable is a prefix of another, two letters decide. */
  function SyllableAt(s: string): (d: nat)
    ensures d < 10
  {
    if |s| < 3 then 0
    else if s[0] == 'B' then 0
    else if s[0] == 'O' then 1
    else if s[0] == 'A' then (if s[1] == 'B' then 2 else if s[1] == 'N' then 6 else 8)
    else if s[0] == 'P' then (if s[2] == 'I' then 3 else 4)
    else if s[0] == 'E' then (if s[1] == 'S' then 5 else 9)
    else 7
  }

  lemma SyllableAtPrefix(d: nat, t: string)
    requires d < 10
    ensures SyllableAt(Syllable(d) + t) == d
  {
    var s := Syllable(d) + t;
    assert s[..|Syllable(d)|] == Syllable(d);
  }

  /** Reads the number back from a last name. */
  function ParseLastName(s: string): int {
    var d0 := SyllableAt(s);
    var s1 := s[Min(|Syllable(d0)|, |s|)..];
    var d1 := SyllableAt(s1);
    var s2 := s1[Min(|Syllable(d1)|, |s1|)..];
    100 * d0 + 10 * d1 + SyllableAt(s2)
  }

  function Min(a: int, b: int): int {
    if a <= b then a else b
  }

  /** Different numbers get different last names: parsing inverts to_last_name. */
  lemma LastNameRoundTrip(n: nat)
    requires n <= 999
    ensures ParseLastName(ToLastName(n)) == n
  {
    var a, b, c := n / 100, (n % 100) / 10, (n % 100) % 10;
    var s := ToLastName(n);
    assert s == Syllable(a) + (Syllable(b) + Syllable(c));
    SyllableAtPrefix(a, Syllable(b) + Syllable(c));
    var s1 := s[|Syllable(a)|..];
    assert s1 == Syllable(b) + Syllable(c);
    SyllableAtPrefix(b, Syllable(c));
    var s2 := s1[|Syllable(b)|..];
    assert s2 == Syllable(c) + [];
    SyllableAtPrefix(c, []);
  }

  // ---- transaction mix ----

  datatype TxnType = NewOrder | Payment | OrderStatus | Delivery | StockLevel

  /** next_transaction given its draw x = random(1, 100); mix 2 is asserted when the mix is neither 0 nor 1. */
  function NextTransaction(mix: nat, x: nat): (t: TxnType)
    requires 1 <= x <= 100 && mix <= 2
    ensures mix == 1 ==> t == NewOrder
    ensures mix == 2 ==> (t == NewOrder <==> x <= 51) && (t == NewOrder || t == Payment)
  {
    if mix == 0 then
      if x <= 45 then NewOrder
      else if x <= 88 then Payment
      else if x <= 92 then OrderStatus
      else if x <= 96 then Delivery
      else StockLevel
    else if mix == 1 then NewOrder
    else if x <= 51 then NewOrder
    else Payment
  }

  /** How many draws in [lo, hi) pick t. */
  function Share(mix: nat, t: TxnType, lo: nat, hi: nat): nat
    requires 1 <= lo <= hi <= 101 && mix <= 2
    decreases hi - lo
  {
    if lo == hi then 0
    else (if NextTransaction(mix, lo) == t then 1 else 0) + Share(mix, t, lo + 1, hi)
  }

  lemma {:induction false} ShareSplit(mix: nat, t: TxnType, lo: nat, mid: nat, hi: nat)
    requires 1 <= lo <= mid <= hi <= 101 && mix <= 2
    ensures Share(mix, t, lo, hi) == Share(mix, t, lo, mid) + Share(mix, t, mid, hi)
    decreases mid - lo
  {
    if lo < mid {
      ShareSplit(mix, t, lo + 1, mid, hi);
    }
  }

  /** On a run of draws that all pick u, t's share is the run's length if t == u, else 0. */
  lemma {:induction false} ShareConstant(mix: nat, t: TxnType, u: TxnType, lo: nat, hi: nat)
    requires 1 <= lo <= hi <= 101 && mix <= 2
    requires forall x :: lo <= x < hi ==> NextTransaction(mix, x) == u
    ensures Share(mix, t, lo, hi) == if t == u then hi - lo else 0
    decreases hi - lo
  {
    if lo < hi {
      ShareConstant(mix, t, u, lo + 1, hi);
    }
  }

  /** A leading run of draws that all pick u contributes its length to u's share and nothing to any other type's. */
  lemma SharePeel(mix: nat, t: TxnType, u: TxnType, lo: nat, mid: nat, hi: nat)
    requires 1 <= lo <= mid <= hi <= 101 && mix <= 2
    requires forall x :: lo <= x < mid ==> NextTransaction(mix, x) == u
    ensures Share(mix, t, lo, hi) == (if t == u then mid - lo else 0) + Share(mix, t, mid, hi)
  {
    ShareSplit(mix, t, lo, mid, hi);
    ShareConstant(mix, t, u, lo, mid);
  }

  /** Mix 0 draws new-order 45, payment 43 and each other type 4 times in 100 (TPC-C clause 5.2.3). */
  lemma {:induction false} MixZeroShares(t: TxnType, lo: nat, hi: nat)
    requires lo == 1 && hi == 101
    ensures Share(0, t, lo, hi) == if t == NewOrder then 45 else if t == Payment then 43 else 4
  {
    SharePeel(0, t, NewOrder, lo, lo + 45, hi);
    SharePeel(0, t, Payment, lo + 45, lo + 88, hi);
    MixZeroLastTwelve(t, lo + 88, hi);
  }

  /** Draws 89 to 100: four each of order-status, delivery and stock-level. */
  lemma {:induction false} MixZeroLastTwelve(t: TxnType, lo: nat, hi: nat)
    requires lo == 89 && hi == 101
    ensures Share(0, t, lo, hi) == if t == NewOrder || t == Payment then 0 else 4
  {
    SharePeel(0, t, OrderStatus, lo, lo + 4, hi);
    SharePeel(0, t, Delivery, lo + 4, lo + 8, hi);
    ShareConstant(0, t, StockLevel, lo + 8, hi);
  }

  /** Mix 2 draws new-order 51 and payment 49 times in 100. */
  lemma {:induction false} MixTwoShares(t: TxnType, lo: nat, hi: nat)
    requires lo == 1 && hi == 101
    ensures Share(2, t, lo, hi) == if t == NewOrder then 51 else if t == Payment then 49 else 0
  {
    ShareSplit(2, t, lo, lo + 51, hi);
    ShareConstant(2, t, NewOrder, lo, lo + 51);
    ShareConstant(2, t, Payment, lo + 51, hi);
  }

  // ---- random_a_string ----

  /** The character random_a_string makes of a draw n in [0, 61]: a-z, then A-Z, then 0-9. */
  function AlnumChar(n: nat): (c: char)
    requires n <= 61
    ensures n < 26 ==> 'a' <= c <= 'z'
    ensures 26 <= n < 52 ==> 'A' <= c <= 'Z'
    ensures 52 <= n ==> '0' <= c <= '9'
  {
    if n < 26 then ('a' as int + n) as char
    else if n < 52 then ('A' as int + (n - 26)) as char
    else ('0' as int + (n - 52)) as char
  }

  /** The draw a character came from. */
  function AlnumIndex(c: char): int {
    if 'a' <= c <= 'z' then c as int - 'a' as int
    else if 'A' <= c <= 'Z' then c as int - 'A' as int + 26
    else c as int - '0' as int + 52
  }

  /** Distinct draws give distinct characters. */
  lemma AlnumRoundTrip(n: nat)
    requires n <= 61
    ensures AlnumIndex(AlnumChar(n)) == n
  {
  }

  /** random_a_string given its length draw (the number of draws) and its character draws. */
  method RandomAString(draws: seq<nat>) returns (str: string)
    requires forall i :: 0 <= i < |draws| ==> draws[i] <= 61
    ensures |str| == |draws|
    ensures forall i :: 0 <= i < |draws| ==> str[i] == AlnumChar(draws[i])
  {
    str := [];
    var i := 0;
    while i < |draws|
      invariant 0 <= i <= |draws| && |str| == i
      invariant forall j :: 0 <= j < i ==> str[j] == AlnumChar(draws[j])
    {
      var n := draws[i];
      var c := if n < 26 then ('a' as int + n) as char
        else if n < 52 then ('A' as int + (n - 26)) as char
        else ('0' as int + (n - 52)) as char;
      str := str + [c];
      i := i + 1;
    }
  }

  // ---- warehouses per runner ----

  /** calc_own_w_id(rid): runner rid owns warehouse rid + 1 if there is one. */
  function OwnedWarehouse(rid: nat, nwh: nat): (w: nat)
    ensures w == 0 <==> rid >= nwh
    ensures w != 0 ==> 1 <= w <= nwh
  {
    if rid >= nwh then 0 else rid + 1
  }

  /** Two runners never own the same warehouse. */
  lemma OwnedWarehousesDistinct(i: nat, j: nat, nwh: nat)
    requires i != j && OwnedWarehouse(i, nwh) != 0
    ensures OwnedWarehouse(i, nwh) != OwnedWarehouse(j, nwh)
  {
  }

  /**
   * run_benchmark with at least as many warehouses as runners
   * (q = nwh / runners > 0): runner i gets warehouses [starts[i], ends[i]];
   * the first nwh % runners runners get q + 1 of them and the rest q.
   */
  method PartitionWarehouses(nwh: nat, runners: nat) returns (starts: seq<int>, ends: seq<int>)
    requires runners >= 1 && nwh >= runners
    ensures |starts| == runners && |ends| == runners
    ensures starts[0] == 1 && ends[runners - 1] == nwh
    ensures forall i :: 0 <= i < runners - 1 ==> starts[i + 1] == ends[i] + 1
    ensures forall i :: 0 <= i < runners ==>
      ends[i] - starts[i] + 1 == nwh / runners + (if i < nwh % runners then 1 else 0)
  {
    DivModSplit(nwh, runners);
    starts, ends := AssignRanges(nwh / runners, nwh % runners, runners);
  }

  /** The loop of the branch above, for q = nwh / runners and r = nwh % runners. */
  method AssignRanges(q: nat, r0: nat, runners: nat) returns (starts: seq<int>, ends: seq<int>)
    requires runners >= 1 && r0 < runners
    ensures |starts| == runners && |ends| == runners
    ensures starts[0] == 1 && ends[runners - 1] == runners * q + r0
    ensures forall i :: 0 <= i < runners - 1 ==> starts[i + 1] == ends[i] + 1
    ensures forall i :: 0 <= i < runners ==> ends[i] - starts[i] + 1 == q + (if i < r0 then 1 else 0)
  {
    var r := r0;
    ghost var iq := 0;
    var lastXend := 1;
    starts, ends := [], [];
    var i := 0;
    while i < runners
      invariant 0 <= i <= runners && |starts| == i && |ends| == i
      invariant r == if i < r0 then r0 - i else 0
      invariant iq == i * q
      invariant lastXend == 1 + iq + (r0 - r)
      invariant i > 0 ==> starts[0] == 1 && ends[i - 1] == lastXend - 1
      invariant i == 0 ==> lastXend == 1
      invariant forall j :: 0 <= j < i - 1 ==> starts[j + 1] == ends[j] + 1
      invariant forall j :: 0 <= j < i ==> ends[j] - starts[j] + 1 == q + (if j < r0 then 1 else 0)
    {
      var nextXend := lastXend + q;
      if r > 0 {
        nextXend := nextXend + 1;
        r := r - 1;
      }
      starts, ends := starts + [lastXend], ends + [nextXend - 1];
      lastXend := nextXend;
      MulStep(i, q);
      i := i + 1;
      iq := iq + q;
    }
  }

  lemma MulStep(i: nat, q: nat)
    ensures (i + 1) * q == i * q + q
  {
  }

  lemma DivModSplit(n: nat, d: nat)
    requires d >= 1
    ensures n == d * (n / d) + n % d && n % d < d
  {
  }

  /**
   * run_benchmark with more runners than warehouses (nwh / runners == 0):
   * with q = ceil(runners / nwh), runner i is given the single warehouse
   * i / q + 1, which is a valid warehouse id.
   */
  method ShareWarehouses(nwh: nat, runners: nat) returns (wids: seq<int>)
    requires nwh >= 1 && runners > nwh
    ensures |wids| == runners
    ensures forall i :: 0 <= i < runners ==> wids[i] == i / ((runners + nwh - 1) / nwh) + 1
    ensures forall i :: 0 <= i < runners ==> 1 <= wids[i] <= nwh
    ensures forall i :: 0 <= i < runners - 1 ==> wids[i] <= wids[i + 1] <= wids[i] + 1
  {
    var q := (runners + nwh - 1) / nwh;
    CeilDivCovers(runners, nwh);
    var qq := q;
    var wid := 1;
    ghost var base := 0;
    wids := [];
    var i := 0;
    while i < runners
      invariant 0 <= i <= runners && |wids| == i
      invariant 0 <= qq <= q && 1 <= wid <= nwh
      invariant base == q * (wid - 1)
      invariant i == 0 ==> qq == q && wid == 1
      invariant i > 0 ==> qq < q && i - 1 == base + (q - 1 - qq)
      invariant i > 0 ==> wids[i - 1] == wid
      invariant forall j :: 0 <= j < i ==> wids[j] == j / q + 1
      invariant forall j :: 0 <= j < i ==> 1 <= wids[j] <= wid
      invariant forall j :: 0 <= j < i - 1 ==> wids[j] <= wids[j + 1] <= wids[j] + 1
    {
      if qq == 0 {
        qq := qq - 1;
        wid := wid + 1;
        base := base + q;
        qq := qq + q;
      } else {
        qq := qq - 1;
      }
      BoundByProduct(q, wid - 1, nwh, base, i, runners);
      DivUnique(i, q, wid - 1, q - 1 - qq);
      wids := wids + [wid];
      i := i + 1;
    }
  }

  /** The quotient is the only k with n == d * k + rem and 0 <= rem < d. */
  lemma DivUnique(n: nat, d: nat, k: nat, rem: int)
    requires d >= 1 && n == d * k + rem && 0 <= rem < d
    ensures n / d == k
  {
    DivModSplit(n, d);
    var k2 := n / d;
    if k2 < k {
      MulMonotone(d, k2 + 1, k);
    } else if k < k2 {
      MulMonotone(d, k + 1, k2);
    }
  }

  lemma MulMonotone(d: nat, a: nat, b: nat)
    requires a <= b
    ensures d * a <= d * b
  {
  }

  /** q * nwh >= runners for q the rounded-up quotient. */
  lemma CeilDivCovers(runners: nat, nwh: nat)
    requires nwh >= 1 && runners > nwh
    ensures (runners + nwh - 1) / nwh >= 1
    ensures ((runners + nwh - 1) / nwh) * nwh >= runners
  {
    var q := (runners + nwh - 1) / nwh;
    DivModSplit(runners + nwh - 1, nwh);
  }

  /** From q * k <= i < runners <= q * nwh follows k < nwh. */
  lemma BoundByProduct(q: nat, k: nat, nwh: nat, base: nat, i: nat, runners: nat)
    requires q >= 1 && base == q * k && base <= i < runners && q * nwh >= runners
    ensures k < nwh
  {
  }
}
