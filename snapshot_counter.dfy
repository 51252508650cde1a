/**
 * SnapshotCounter of the benchmark framework: each process keeps its
 * latest (sequence, value) pair and the pair from before the current
 * sequence, each packed into one 64-bit word, sequence in the high half.
 * C++ ints are modelled by their 32-bit images (`bv32`).
 */
module SnapshotCounter {

  const SIGN: bv32 := 0x8000_0000

  /** get_seq: the high half, read as an int. */
  function GetSeq(x: bv64): (v: bv32)
    ensures (v as bv64) << 32 == x & 0xffff_ffff_0000_0000
  {
    (x >> 32) as bv32
  }

  /** get_size: the low half, read as an int; with get_seq it accounts for every bit of the word. */
  function GetSize(x: bv64): (v: bv32)
    ensures v as bv64 == x & 0xffff_ffff
    ensures ((GetSeq(x) as bv64) << 32) | (v as bv64) == x
  {
    (x & 0xffff_ffff) as bv32
  }

  /** The conversion (_u64) of an int: a negative int is sign-extended. */
  function Widen(v: bv32): bv64 {
    if v & SIGN == 0 then v as bv64 else (v as bv64) | 0xffff_ffff_0000_0000
  }

  /**
   * build_seq_value as written: both ints are converted with sign extension
   * before the or. The value always reads back; the sequence reads back only
   * for a non-negative value, and a negative one leaves it -1.
   */
  function BuildSeqValueAsWritten(sq: bv32, value: bv32): (x: bv64)
    ensures GetSize(x) == value
    ensures value & SIGN == 0 ==> GetSeq(x) == sq
    ensures value & SIGN != 0 ==> GetSeq(x) == 0xffff_ffff
  {
    WidenShift(sq);
    AsWrittenSize(sq, value);
    if value & SIGN == 0 then
      WidenNonNegative(value);
      PackSeq(sq, value);
      (Widen(sq) << 32) | Widen(value)
    else
      HighOnesClobberSeq(Widen(sq) << 32, value);
      (Widen(sq) << 32) | Widen(value)
  }

  /** build_seq_value as evidently intended: the value is taken as its 32 unsigned bits. */
  function BuildSeqValue(sq: bv32, value: bv32): (x: bv64)
    ensures GetSeq(x) == sq
    ensures GetSize(x) == value
  {
    PackSeq(sq, value);
    PackSize(sq, value);
    ((sq as bv64) << 32) | (value as bv64)
  }

  lemma PackSeq(sq: bv32, value: bv32)
    ensures GetSeq(((sq as bv64) << 32) | (value as bv64)) == sq
  {
  }

  lemma PackSize(sq: bv32, value: bv32)
    ensures GetSize(((sq as bv64) << 32) | (value as bv64)) == value
  {
  }

  /** Every word is the packing of its own sequence and value. */
  lemma UnpackRoundTrip(x: bv64)
    ensures BuildSeqValue(GetSeq(x), GetSize(x)) == x
  {
  }

  lemma AsWrittenSize(sq: bv32, value: bv32)
    ensures GetSize((Widen(sq) << 32) | Widen(value)) == value
  {
    ShiftedLowClear(Widen(sq));
    LowHalfOr(Widen(sq) << 32, Widen(value));
    WidenLow(value);
  }

  lemma ShiftedLowClear(h: bv64)
    ensures (h << 32) & 0xffff_ffff == 0
  {
  }

  lemma LowHalfOr(h: bv64, w: bv64)
    requires h & 0xffff_ffff == 0
    ensures (h | w) & 0xffff_ffff == w & 0xffff_ffff
  {
  }

  lemma WidenLow(v: bv32)
    ensures Widen(v) & 0xffff_ffff == v as bv64
  {
    if v & SIGN != 0 {
      HighOnesLow(v as bv64);
    }
  }

  lemma HighOnesLow(w: bv64)
    requires w <= 0xffff_ffff
    ensures (w | 0xffff_ffff_0000_0000) & 0xffff_ffff == w
  {
  }

  lemma WidenShift(s: bv32)
    ensures Widen(s) << 32 == (s as bv64) << 32
  {
    if s & SIGN != 0 {
      HighOnesShiftOut(s as bv64);
    }
  }

  lemma HighOnesShiftOut(x: bv64)
    ensures (x | 0xffff_ffff_0000_0000) << 32 == x << 32
  {
  }

  /** For a non-negative value the written packing is the intended one. */
  lemma AsWrittenOnNonNegative(sq: bv32, value: bv32)
    requires value & SIGN == 0
    ensures BuildSeqValueAsWritten(sq, value) == BuildSeqValue(sq, value)
  {
    WidenShift(sq);
    WidenNonNegative(value);
  }

  lemma WidenNonNegative(v: bv32)
    requires v & SIGN == 0
    ensures Widen(v) == v as bv64
  {
  }

  lemma HighOnesClobberSeq(h: bv64, value: bv32)
    ensures GetSeq(h | ((value as bv64) | 0xffff_ffff_0000_0000)) == 0xffff_ffff
  {
  }

  /** `a + b` on 32-bit ints, wrapping. */
  function IntAdd(a: bv32, b: bv32): bv32 {
    a + b
  }

  /** A process's pair of packed words: _recent_seq_value and _prev_seq_value. */
  datatype Slot = Slot(recent: bv64, prev: bv64)

  /** What update(sq, value) leaves: the recent word moves to prev when its sequence differs. */
  function AfterUpdate(s: Slot, sq: bv32, value: bv32): (r: Slot)
    ensures GetSeq(r.recent) == sq && GetSize(r.recent) == value
    ensures GetSeq(s.recent) != sq ==> r.prev == s.recent
    ensures GetSeq(s.recent) == sq ==> r.prev == s.prev
  {
    var prev := if GetSeq(s.recent) != sq then s.recent else s.prev;
    Slot(BuildSeqValue(sq, value), prev)
  }

  /**
   * What update(sq, value) leaves with the written packing: prev moves as in
   * AfterUpdate and the value reads back, but after a negative value the
   * recent word's sequence reads -1 instead of sq.
   */
  function AfterUpdateAsWritten(s: Slot, sq: bv32, value: bv32): (r: Slot)
    ensures GetSize(r.recent) == value
    ensures value & SIGN == 0 ==> GetSeq(r.recent) == sq
    ensures value & SIGN != 0 ==> GetSeq(r.recent) == 0xffff_ffff
    ensures GetSeq(s.recent) != sq ==> r.prev == s.recent
    ensures GetSeq(s.recent) == sq ==> r.prev == s.prev
  {
    var prev := if GetSeq(s.recent) != sq then s.recent else s.prev;
    Slot(BuildSeqValueAsWritten(sq, value), prev)
  }

  /** For a non-negative value the written update is the corrected one. */
  lemma AsWrittenUpdateOnNonNegative(s: Slot, sq: bv32, value: bv32)
    requires value & SIGN == 0
    ensures AfterUpdateAsWritten(s, sq, value) == AfterUpdate(s, sq, value)
  {
    AsWrittenOnNonNegative(sq, value);
  }

  /** An int's value from its 32-bit image. */
  function Signed(x: bv32): int {
    if x & SIGN == 0 then x as int else x as int - 0x1_0000_0000
  }

  /** prev was written in no later sequence than recent, comparing sequences as ints. */
  predicate Ordered(s: Slot) {
    Signed(GetSeq(s.prev)) <= Signed(GetSeq(s.recent))
  }

  /**
   * Updates in non-decreasing sequences keep a slot ordered, and after an
   * update in a new sequence prev holds a word from an earlier sequence:
   * the value a scan of the new sequence must count.
   */
  lemma UpdateKeepsOrder(s: Slot, sq: bv32, value: bv32)
    requires Ordered(s) && Signed(GetSeq(s.recent)) <= Signed(sq)
    ensures Ordered(AfterUpdate(s, sq, value))
    ensures Signed(GetSeq(s.recent)) < Signed(sq) ==> Signed(GetSeq(AfterUpdate(s, sq, value).prev)) < Signed(sq)
  {
  }

  /**
   * The code as written keeps the same order as long as every value written
   * is non-negative; AsWrittenLosesPrev shows what a negative one breaks.
   */
  lemma AsWrittenUpdateKeepsOrder(s: Slot, sq: bv32, value: bv32)
    requires Ordered(s) && Signed(GetSeq(s.recent)) <= Signed(sq) && value & SIGN == 0
    ensures Ordered(AfterUpdateAsWritten(s, sq, value))
  {
    AsWrittenUpdateOnNonNegative(s, sq, value);
    UpdateKeepsOrder(s, sq, value);
  }

  /**
   * A second update in the same sequence leaves prev as the first one left
   * it: prev keeps the word from before the sequence, whatever the values.
   */
  lemma UpdateSameSeqKeepsPrev(s: Slot, sq: bv32, v1: bv32, v2: bv32)
    ensures AfterUpdate(AfterUpdate(s, sq, v1), sq, v2).prev == AfterUpdate(s, sq, v1).prev
  {
  }

  /**
   * With the written packing, dec from 0 in sequence 1 stamps the recent
   * word with sequence -1, so a later update in the same sequence 1 moves
   * that word into prev: prev then holds a value written in sequence 1
   * instead of the word from before it.
   */
  lemma AsWrittenLosesPrev()
    ensures var s1 := AfterUpdateAsWritten(Slot(0, 0), 1, 0xffff_ffff);
      var s2 := AfterUpdateAsWritten(s1, 1, 0);
      GetSeq(s1.recent) == 0xffff_ffff && s1.prev == 0 && s2.prev == s1.recent && s2.prev != s1.prev
  {
  }

  /** ProcessData: one process's words, updated in place. */
  class ProcessData {
    var recent: bv64
    var prev: bv64

    constructor()
      ensures recent == 0 && prev == 0
    {
      recent := 0;
      prev := 0;
    }

    function Contents(): Slot
      reads this
    {
      Slot(recent, prev)
    }
  }

  /** The counter: one ProcessData per process and the global sequence _gSeq. */
  class Counter {
    const numProcess: nat
    const mem: array<ProcessData>
    var gSeq: bv32
    /** _gView, the last published scan; only scan (not modelled) writes it. */
    var gView: bv64

    predicate Valid()
      reads this
    {
      mem.Length == numProcess
    }

    constructor(numProcess: nat)
      ensures Valid() && this.numProcess == numProcess
      ensures gSeq == 1 && gView == 0
      ensures forall i :: 0 <= i < numProcess ==> mem[i].Contents() == Slot(0, 0)
    {
      var slots: seq<ProcessData> := [];
      while |slots| < numProcess
        invariant |slots| <= numProcess
        invariant forall i :: 0 <= i < |slots| ==> slots[i].Contents() == Slot(0, 0)
      {
        var pd := new ProcessData();
        slots := slots + [pd];
      }
      this.numProcess := numProcess;
      mem := new ProcessData[numProcess](i requires 0 <= i < |slots| => slots[i]);
      gSeq := 1;
      gView := 0;
    }

    /** update(iProcess, new_value) */
    method Update(iProcess: nat, newValue: bv32)
      requires Valid() && iProcess < numProcess
      modifies mem[iProcess]
      ensures mem[iProcess].Contents() == AfterUpdateAsWritten(old(mem[iProcess].Contents()), gSeq, newValue)
    {
      var pd := mem[iProcess];
      var updateSeq := gSeq;
      if updateSeq != GetSeq(pd.recent) {
        pd.prev := pd.recent;
      }
      pd.recent := BuildSeqValueAsWritten(updateSeq, newValue);
    }

    /** inc(iProcess): the recent value plus one (wrapping like a 32-bit int). */
    method Inc(iProcess: nat)
      requires Valid() && iProcess < numProcess
      modifies mem[iProcess]
      ensures mem[iProcess].Contents() ==
        AfterUpdateAsWritten(old(mem[iProcess].Contents()), gSeq, old(GetSize(mem[iProcess].recent)) + 1)
    {
      var v := GetSize(mem[iProcess].recent) + 1;
      Update(iProcess, v);
    }

    /** dec(iProcess): the recent value minus one. */
    method Dec(iProcess: nat)
      requires Valid() && iProcess < numProcess
      modifies mem[iProcess]
      ensures mem[iProcess].Contents() ==
        AfterUpdateAsWritten(old(mem[iProcess].Contents()), gSeq, old(GetSize(mem[iProcess].recent)) - 1)
    {
      var v := GetSize(mem[iProcess].recent) - 1;
      Update(iProcess, v);
    }

    /** add(iProcess, x): the recent value plus x. */
    method Add(iProcess: nat, x: bv32)
      requires Valid() && iProcess < numProcess
      modifies mem[iProcess]
      ensures mem[iProcess].Contents() ==
        AfterUpdateAsWritten(old(mem[iProcess].Contents()), gSeq, IntAdd(old(GetSize(mem[iProcess].recent)), x))
    {
      var cur := GetSize(mem[iProcess].recent);
      Update(iProcess, IntAdd(cur, x));
    }

    /** valueRequest(iProcess): the process's recent value. */
    method ValueRequest(iProcess: nat) returns (v: bv32)
      requires Valid() && iProcess < numProcess
      ensures v == GetSize(mem[iProcess].recent)
    {
      v := GetSize(mem[iProcess].recent);
    }
  }
}
