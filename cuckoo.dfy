/**
 * The sequential kernels of the non-transactional cuckoo hash map: bucket
 * index arithmetic, the bounded ring queue of the breadth-first cuckoo path
 * search, the occupied bitset of a bucket, and the slot scans of one bucket.
 * size_t is 64 bits wide; a bucket's occupied bitset is a 32-bit int.
 */
module CuckooNT {
  import opened CuckooBits

  // ---- bucket index arithmetic ----

  /** hashsize(hashpower) = 1U << hashpower, defined for hashpower below 32. */
  function HashSize(hp: bv64): (n: bv64)
    requires hp < 32
    ensures n != 0 && n & (n - 1) == 0
  {
    1 << hp
  }

  /** hashmask(hashpower) = hashsize(hashpower) - 1: a run of low ones, below the table size. */
  function HashMask(hp: bv64): (m: bv64)
    requires hp < 32
    ensures m < HashSize(hp)
    ensures m & (m + 1) == 0
  {
    HashSize(hp) - 1
  }

  /** index_hash(ti, hv): the first candidate bucket, always a valid bucket index. */
  function IndexHash(hp: bv64, hv: bv64): (i: bv64)
    requires hp < 32
    ensures i < HashSize(hp)
  {
    hv & HashMask(hp)
  }

  /** The multiplier alt_index xors in: the tag (hv >> hashpower) + 1 times MurmurHash2's constant, wrapping. */
  function TagProduct(hp: bv64, hv: bv64): bv64
    requires hp < 32
  {
    ((hv >> hp) + 1) * 0x5bd1e995
  }

  /** alt_index(ti, hv, index): the other candidate bucket, always a valid bucket index. */
  function AltIndex(hp: bv64, hv: bv64, index: bv64): (i: bv64)
    requires hp < 32
    ensures i < HashSize(hp)
  {
    MaskBelow(hp, index ^ TagProduct(hp, hv));
    (index ^ TagProduct(hp, hv)) & HashMask(hp)
  }

  lemma MaskBelow(hp: bv64, x: bv64)
    requires hp < 32
    ensures x & HashMask(hp) < HashSize(hp)
    ensures x < HashSize(hp) ==> x & HashMask(hp) == x
  {
  }

  lemma XorTwiceUnderMask(i: bv64, h: bv64, m: bv64)
    ensures ((((i ^ h) & m) ^ h) & m) == i & m
  {
  }

  /**
   * alt_index is its own inverse on valid bucket indexes: the alternative
   * of the alternative of index_hash(hv) is index_hash(hv) again.
   */
  lemma AltIndexInvolution(hp: bv64, hv: bv64, index: bv64)
    requires hp < 32 && index < HashSize(hp)
    ensures AltIndex(hp, hv, AltIndex(hp, hv, index)) == index
  {
    XorTwiceUnderMask(index, TagProduct(hp, hv), HashMask(hp));
    MaskBelow(hp, index);
  }

  /** The two candidate buckets of a hashed key swap into each other. */
  lemma CandidateBuckets(hp: bv64, hv: bv64)
    requires hp < 32
    ensures AltIndex(hp, hv, AltIndex(hp, hv, IndexHash(hp, hv))) == IndexHash(hp, hv)
  {
    AltIndexInvolution(hp, hv, IndexHash(hp, hv));
  }

  // ---- check_version ----

  /** W: the dirty bit of a bucket lock's version. */
  const W: bv64 := 1

  /** check_version(v_i, v_f): the version did not move and is even (its dirty bit clear). */
  predicate CheckVersion(vi: bv64, vf: bv64)
    ensures CheckVersion(vi, vf) <==> vi == vf && vi % 2 == 0
  {
    vi == vf && vi & W == 0
  }

  /** A read validates only if the version did not move and was not dirty when first read. */
  lemma CheckVersionMeaning(vi: bv64, vf: bv64)
    ensures CheckVersion(vi, vf) ==> vi == vf
    ensures !CheckVersion(vi | W, vf)
    ensures CheckVersion(vi, vi) <==> vi % 2 == 0
  {
  }

  // ---- b_queue ----

  /** MAX_CUCKOO_COUNT */
  const MAX_CUCKOO_COUNT: nat := 500

  /** The number of slots of the b_queue ring. */
  const RING: nat := MAX_CUCKOO_COUNT + 1

  /** The number of entries between `first` and `last`, going round the ring. */
  function RingLength(first: nat, last: nat): (n: nat)
    requires first < RING && last < RING
    ensures n < RING
  {
    if first <= last then last - first else last + RING - first
  }

  /** The slot i steps after `first`, going round the ring. */
  function RingSlot(first: nat, i: nat): (k: nat)
    requires first < RING && i < RING
    ensures k < RING
  {
    if first + i < RING then first + i else first + i - RING
  }

  /** The slot after k (the source's `k == MAX_CUCKOO_COUNT ? 0 : k + 1`). */
  function RingNext(k: nat): (r: nat)
    requires k < RING
    ensures r < RING
  {
    if k == MAX_CUCKOO_COUNT then 0 else k + 1
  }

  /**
   * b_queue: a ring of MAX_CUCKOO_COUNT + 1 slots between `first` and
   * `last`; one slot always stays free, so it holds at most
   * MAX_CUCKOO_COUNT entries.
   */
  class BQueue<T> {
    const slots: array<T>
    var first: nat
    var last: nat
    /** The queued entries, oldest first. */
    ghost var contents: seq<T>

    ghost predicate Valid()
      reads this, slots
    {
      && slots.Length == RING
      && first < RING && last < RING
      && |contents| == RingLength(first, last)
      && forall i :: 0 <= i < |contents| ==> contents[i] == slots[RingSlot(first, i)]
    }

    /** b_queue(): first = last = 0; the slots hold default entries. */
    constructor(blank: T)
      ensures Valid() && contents == [] && fresh(slots)
    {
      slots := new T[RING](_ => blank);
      first, last := 0, 0;
      contents := [];
    }

    /** not_full(): the slot after `last` is not `first`. */
    function NotFull(): (r: bool)
      reads this, slots
      requires Valid()
      ensures r <==> |contents| < MAX_CUCKOO_COUNT
    {
      RingNext(last) != first
    }

    /** not_empty() */
    function NotEmpty(): (r: bool)
      reads this, slots
      requires Valid()
      ensures r <==> |contents| > 0
    {
      first != last
    }

    /** enqueue(x): the source asserts that the queue did not become full-and-empty, i.e. it was not full. */
    method Enqueue(x: T)
      requires Valid() && NotFull()
      modifies this, slots
      ensures Valid() && contents == old(contents) + [x]
    {
      slots[last] := x;
      last := RingNext(last);
      contents := contents + [x];
    }

    /** dequeue(): the oldest entry; the source asserts the queue is not empty. */
    method Dequeue() returns (x: T)
      requires Valid() && NotEmpty()
      modifies this
      ensures Valid()
      ensures x == old(contents)[0] && contents == old(contents)[1..]
    {
      x := slots[first];
      first := RingNext(first);
      contents := contents[1..];
    }
  }

  // ---- Bucket and the slot scans ----

  datatype Status = Ok | FailureKeyNotFound | FailureKeyDuplicated

  /**
   * Bucket: `slotCount` (SLOT_PER_BUCKET) keys and values and the occupied
   * bitset; slot j holds an entry iff bit j is set.
   */
  class Bucket<K(==), V> {
    var occupied: bv32
    const keys: array<K>
    const vals: array<V>
    const slotCount: nat
    var overflow: bv8

    predicate Valid()
      reads this
    {
      && slotCount <= 32
      && keys.Length == slotCount && vals.Length == slotCount
      && keys as object != vals as object
    }

    constructor(slotCount: nat, blankKey: K, blankVal: V)
      requires slotCount <= 32
      ensures Valid() && occupied == 0 && overflow == 0 && this.slotCount == slotCount
      ensures fresh(keys) && fresh(vals)
    {
      this.slotCount := slotCount;
      keys := new K[slotCount](_ => blankKey);
      vals := new V[slotCount](_ => blankVal);
      occupied := 0;
      overflow := 0;
    }

    predicate Occupied(j: nat)
      reads this
      requires Valid() && j < slotCount
    {
      GetBit(occupied, j)
    }

    /** setKV(pos, k, v): marks slot pos occupied and stores the pair there. */
    method SetKV(pos: nat, k: K, v: V)
      requires Valid() && pos < slotCount
      modifies this, keys, vals
      ensures Valid() && overflow == old(overflow)
      ensures occupied == SetBit(old(occupied), pos)
      ensures keys[..] == old(keys[..])[pos := k] && vals[..] == old(vals[..])[pos := v]
    {
      occupied := SetBit(occupied, pos);
      keys[pos] := k;
      vals[pos] := v;
    }

    /** eraseKV(pos): marks slot pos free; the destroyed pair is left in place. */
    method EraseKV(pos: nat)
      requires Valid() && pos < slotCount
      modifies this
      ensures Valid() && overflow == old(overflow)
      ensures occupied == ResetBit(old(occupied), pos)
    {
      occupied := ResetBit(occupied, pos);
    }

    /** clear(): erases every occupied slot and resets overflow. */
    method Clear()
      requires Valid()
      modifies this
      ensures Valid() && overflow == 0
      ensures forall j :: 0 <= j < slotCount ==> !GetBit(occupied, j)
      ensures forall j :: slotCount <= j < 32 ==> GetBit(occupied, j) == GetBit(old(occupied), j)
    {
      for i := 0 to slotCount
        invariant Valid()
        invariant forall j :: 0 <= j < i ==> !GetBit(occupied, j)
        invariant forall j :: i <= j < 32 ==> GetBit(occupied, j) == GetBit(old(occupied), j)
      {
        if GetBit(occupied, i) {
          ghost var before := occupied;
          EraseKV(i);
          forall j | 0 <= j < 32
            ensures GetBit(occupied, j) == (j != i && GetBit(before, j))
          {
            ResetBitOnly(before, i, j);
          }
        }
      }
      overflow := 0;
    }

    /** The first occupied slot below n holding `key`, or -1. */
    function FirstMatch(key: K, n: nat): (j: int)
      reads this, keys
      requires Valid() && n <= slotCount
      ensures -1 <= j < n
      ensures j >= 0 ==> Occupied(j) && keys[j] == key
      ensures forall i :: 0 <= i < n && (j < 0 || i < j) ==> !(Occupied(i) && keys[i] == key)
    {
      if n == 0 then -1
      else
        var j := FirstMatch(key, n - 1);
        if j >= 0 then j
        else if Occupied(n - 1) && keys[n - 1] == key then n - 1
        else -1
    }

    /** The first free slot below n, or -1. */
    function FirstEmpty(n: nat): (j: int)
      reads this
      requires Valid() && n <= slotCount
      ensures -1 <= j < n
      ensures j >= 0 ==> !Occupied(j)
      ensures forall i :: 0 <= i < n && (j < 0 || i < j) ==> Occupied(i)
    {
      if n == 0 then -1
      else
        var j := FirstEmpty(n - 1);
        if j >= 0 then j
        else if !Occupied(n - 1) then n - 1
        else -1
    }

    /**
     * try_read_from_bucket(ti, key, val, i): the value of the first occupied
     * slot holding key; `val` is left as it was when there is none.
     */
    method TryRead(key: K, val: V) returns (status: Status, out: V)
      requires Valid()
      ensures var j := FirstMatch(key, slotCount);
        && (status == Ok <==> j >= 0)
        && (status == Ok || status == FailureKeyNotFound)
        && out == if j >= 0 then vals[j] else val
    {
      out := val;
      for j := 0 to slotCount
        invariant FirstMatch(key, j) == -1
      {
        if !GetBit(occupied, j) {
          continue;
        }
        if key == keys[j] {
          out := vals[j];
          assert FirstMatch(key, j + 1) == j;
          FirstMatchStable(key, j + 1, slotCount);
          return Ok, out;
        }
      }
      return FailureKeyNotFound, out;
    }

    /** Once a match is found below n, scanning further slots does not change it. */
    lemma {:induction false} FirstMatchStable(key: K, n: nat, m: nat)
      requires Valid() && n <= m <= slotCount && FirstMatch(key, n) >= 0
      ensures FirstMatch(key, m) == FirstMatch(key, n)
      decreases m - n
    {
      if n < m {
        FirstMatchStable(key, n, m - 1);
      }
    }

    /** Once a free slot is found below n, scanning further slots does not change it. */
    lemma {:induction false} FirstEmptyStable(n: nat, m: nat)
      requires Valid() && n <= m <= slotCount && FirstEmpty(n) >= 0
      ensures FirstEmpty(m) == FirstEmpty(n)
      decreases m - n
    {
      if n < m {
        FirstEmptyStable(n, m - 1);
      }
    }

    /**
     * try_add_to_bucket(ti, key, val, i, j): duplicated if an occupied slot
     * holds key, ok otherwise; j is the first free slot seen before the scan
     * stopped (all of them on ok), or -1.
     */
    method TryAdd(key: K) returns (status: Status, j: int)
      requires Valid()
      ensures var d := FirstMatch(key, slotCount);
        && (status == FailureKeyDuplicated <==> d >= 0)
        && (status == Ok <==> d < 0)
        && j == FirstEmpty(if d >= 0 then d else slotCount)
    {
      j := -1;
      var foundEmpty := false;
      for k := 0 to slotCount
        invariant FirstMatch(key, k) == -1
        invariant j == FirstEmpty(k) && (foundEmpty <==> j >= 0)
      {
        if j >= 0 {
          FirstEmptyStable(k, k + 1);
        }
        if GetBit(occupied, k) {
          if key == keys[k] {
            assert FirstMatch(key, k + 1) == k;
            FirstMatchStable(key, k + 1, slotCount);
            return FailureKeyDuplicated, j;
          }
        } else {
          if !foundEmpty {
            foundEmpty := true;
            j := k;
          }
        }
      }
      return Ok, j;
    }

    /**
     * try_del_from_bucket(ti, key, i): frees the first occupied slot holding
     * key and reports ok, or reports not found and changes nothing.
     */
    method TryDel(key: K) returns (status: Status)
      requires Valid()
      modifies this
      ensures Valid() && overflow == old(overflow)
      ensures var j := old(FirstMatch(key, slotCount));
        && (status == Ok <==> j >= 0)
        && (status == Ok || status == FailureKeyNotFound)
        && occupied == if j >= 0 then ResetBit(old(occupied), j) else old(occupied)
    {
      for j := 0 to slotCount
        invariant FirstMatch(key, j) == -1
        invariant occupied == old(occupied)
      {
        if !GetBit(occupied, j) {
          continue;
        }
        if keys[j] == key {
          assert FirstMatch(key, j + 1) == j;
          FirstMatchStable(key, j + 1, slotCount);
          EraseKV(j);
          return Ok;
        }
      }
      return FailureKeyNotFound;
    }
  }
}

/** The occupied bitset of a cuckoo bucket: getBit, setBit and resetBit on a 32-bit int. */
module CuckooBits {

  function Bit(pos: nat): bv32
    requires pos < 32
  {
    (1 as bv32) << pos
  }

  /** getBit(bitset, pos): whether the bitset holds the single bit at pos. */
  predicate GetBit(bitset: bv32, pos: nat)
    requires pos < 32
    ensures GetBit(bitset, pos) <==> bitset & Bit(pos) == Bit(pos)
  {
    bitset & Bit(pos) != 0
  }

  /** setBit(bitset, pos): the bitset with bit pos set (SetBitOnly: and no other bit changed). */
  function SetBit(bitset: bv32, pos: nat): (r: bv32)
    requires pos < 32
    ensures GetBit(r, pos)
  {
    bitset | Bit(pos)
  }

  /** resetBit(bitset, pos): the bitset with bit pos cleared (ResetBitOnly: and no other bit changed). */
  function ResetBit(bitset: bv32, pos: nat): (r: bv32)
    requires pos < 32
    ensures !GetBit(r, pos)
  {
    bitset & !Bit(pos)
  }

  lemma BitsDisjoint(p: nat, q: nat)
    requires p < 32 && q < 32 && p != q
    ensures Bit(p) & Bit(q) == 0
  {
  }

  /** setBit sets bit pos and changes no other bit. */
  lemma SetBitOnly(bitset: bv32, p: nat, q: nat)
    requires p < 32 && q < 32
    ensures GetBit(SetBit(bitset, p), q) == (p == q || GetBit(bitset, q))
  {
    if p != q {
      SetOther(bitset, p, q);
    } else {
      SetSame(bitset, p);
    }
  }

  lemma SetSame(bitset: bv32, p: nat)
    requires p < 32
    ensures GetBit(SetBit(bitset, p), p)
  {
  }

  lemma SetOther(bitset: bv32, p: nat, q: nat)
    requires p < 32 && q < 32 && p != q
    ensures GetBit(SetBit(bitset, p), q) == GetBit(bitset, q)
  {
    BitsDisjoint(p, q);
    OrLeaves(bitset, Bit(p), Bit(q));
  }

  /** resetBit clears bit pos and changes no other bit. */
  lemma ResetBitOnly(bitset: bv32, p: nat, q: nat)
    requires p < 32 && q < 32
    ensures GetBit(ResetBit(bitset, p), q) == (p != q && GetBit(bitset, q))
  {
    if p != q {
      ResetOther(bitset, p, q);
    }
  }

  lemma ResetOther(bitset: bv32, p: nat, q: nat)
    requires p < 32 && q < 32 && p != q
    ensures GetBit(ResetBit(bitset, p), q) == GetBit(bitset, q)
  {
    BitsDisjoint(p, q);
    AndNotLeaves(bitset, Bit(p), Bit(q));
  }

  lemma OrLeaves(b: bv32, x: bv32, y: bv32)
    requires x & y == 0
    ensures (b | x) & y == b & y
  {
  }

  lemma AndNotLeaves(b: bv32, x: bv32, y: bv32)
    requires x & y == 0
    ensures (b & !x) & y == b & y
  {
  }

}
