/**
 * The version word of a MassTrans value (a 32-bit unsigned `Version`) and
 * the internode tag of MassTrans pointers.
 */
module MassTransVersion {

  const LOCK_BIT: bv32 := 0x8000_0000
  const INVALID_BIT: bv32 := 0x4000_0000
  const VALID_CHECK_ONLY_BIT: bv32 := 0x2000_0000
  /** version_mask: every bit except the three status bits. */
  const VERSION_MASK: bv32 := 0x1fff_ffff

  /** The version mask is every bit except the three status bits. */
  lemma VersionMaskIsCounter()
    ensures VERSION_MASK == !(LOCK_BIT | INVALID_BIT | VALID_CHECK_ONLY_BIT)
    ensures VERSION_MASK & LOCK_BIT == 0 && VERSION_MASK & INVALID_BIT == 0
    ensures VERSION_MASK & VALID_CHECK_ONLY_BIT == 0
  {
  }

  /** versionCheck(v1, v2): words that pass have the same counter bits (VersionCheckMeaning gives the converse). */
  predicate VersionCheck(v1: bv32, v2: bv32)
    ensures VersionCheck(v1, v2) ==> v1 & VERSION_MASK == v2 & VERSION_MASK
  {
    (v1 ^ v2) & VERSION_MASK == 0
  }

  // One bit-vector fact per helper lemma: the solver handles them singly.
  lemma CheckToMasked(v1: bv32, v2: bv32)
    ensures VersionCheck(v1, v2) ==> v1 & VERSION_MASK == v2 & VERSION_MASK
  {
  }

  lemma MaskedToCheck(v1: bv32, v2: bv32)
  {
  }

  lemma StatusBitsIgnored(v: bv32)
    ensures VersionCheck(v, v | LOCK_BIT | INVALID_BIT | VALID_CHECK_ONLY_BIT)
  {
  }

  /** Two versions check equal exactly when their counter bits agree, whatever their status bits. */
  lemma VersionCheckMeaning(v1: bv32, v2: bv32)
    ensures VersionCheck(v1, v2) <==> v1 & VERSION_MASK == v2 & VERSION_MASK
    ensures VersionCheck(v1, v1 | LOCK_BIT | INVALID_BIT | VALID_CHECK_ONLY_BIT)
  {
    CheckToMasked(v1, v2);
    MaskedToCheck(v1, v2);
    StatusBitsIgnored(v1);
  }

  /** is_locked(v): the lock bit is the top bit, so the locked words are the upper half. */
  predicate IsLocked(v: bv32)
    ensures IsLocked(v) <==> v >= LOCK_BIT
  {
    v & LOCK_BIT != 0
  }

  /**
   * The word inc_version leaves: the counter incremented modulo 2^29, the
   * lock and valid_check_only bits kept, the invalid bit cleared.
   */
  function Incremented(v: bv32): (r: bv32)
    ensures r & VERSION_MASK == ((v & VERSION_MASK) + 1) & VERSION_MASK
    ensures r & LOCK_BIT == v & LOCK_BIT
    ensures r & VALID_CHECK_ONLY_BIT == v & VALID_CHECK_ONLY_BIT
    ensures r & INVALID_BIT == 0
    ensures !VersionCheck(r, v)
  {
    var cur := v & VERSION_MASK;
    var next := (cur + 1) & VERSION_MASK;
    (next | (v & !VERSION_MASK)) & !INVALID_BIT
  }

  lemma ClearedLockIsClear(v: bv32)
    ensures !IsLocked(v & !LOCK_BIT)
  {
  }

  lemma ClearedLockKeepsRest(v: bv32)
    ensures (v & !LOCK_BIT) | LOCK_BIT == v | LOCK_BIT
  {
  }

  lemma ClearedLockChecks(v: bv32)
    ensures VersionCheck(v & !LOCK_BIT, v)
  {
  }

  /** The word unlock leaves: only the lock bit cleared. */
  function Unlocked(v: bv32): (r: bv32)
    ensures !IsLocked(r)
    ensures r | LOCK_BIT == v | LOCK_BIT
    ensures VersionCheck(r, v)
  {
    ClearedLockIsClear(v);
    ClearedLockKeepsRest(v);
    ClearedLockChecks(v);
    v & !LOCK_BIT
  }

  lemma SetLockIsSet(v: bv32)
    ensures IsLocked(v | LOCK_BIT)
  {
  }

  lemma SetLockKeepsRest(v: bv32)
    ensures (v | LOCK_BIT) & !LOCK_BIT == v & !LOCK_BIT
  {
  }

  lemma SetLockChecks(v: bv32)
    ensures VersionCheck(v | LOCK_BIT, v)
  {
  }

  /** The word a successful lock leaves: only the lock bit set. */
  function Locked(v: bv32): (r: bv32)
    ensures IsLocked(r)
    ensures r & !LOCK_BIT == v & !LOCK_BIT
    ensures VersionCheck(r, v)
  {
    SetLockIsSet(v);
    SetLockKeepsRest(v);
    SetLockChecks(v);
    v | LOCK_BIT
  }

  /** Locking and then unlocking an unlocked word restores it. */
  lemma LockUnlockRoundTrip(v: bv32)
    requires !IsLocked(v)
    ensures Unlocked(Locked(v)) == v
  {
  }

  /** A versioned value: its version word changes in place. */
  class VersionedValue {
    var version: bv32

    constructor(version: bv32)
      ensures this.version == version
    {
      this.version := version;
    }

    /** inc_version(v): the source asserts that v is locked. */
    method IncVersion()
      requires IsLocked(version)
      modifies this
      ensures version == Incremented(old(version))
    {
      var cur := version & VERSION_MASK;
      cur := (cur + 1) & VERSION_MASK;
      version := (cur | (version & !VERSION_MASK)) & !INVALID_BIT;
    }

    /**
     * lock(v): spins until a compare-and-swap sets the lock bit. Run alone,
     * it takes an unlocked word; on a locked one it would spin forever.
     */
    method Lock()
      requires !IsLocked(version)
      modifies this
      ensures version == Locked(old(version))
    {
      var cur := version;
      version := cur | LOCK_BIT;
    }

    /** unlock(v): the source asserts that v is locked. */
    method Unlock()
      requires IsLocked(version)
      modifies this
      ensures version == Unlocked(old(version))
    {
      var cur := version;
      cur := cur & !LOCK_BIT;
      version := cur;
    }
  }

  // ---- internode pointer tag (pointers as 64-bit words) ----

  const INTERNODE_BIT: bv64 := 1

  /** tag_inter(p): the pointer with its internode bit set, every other bit kept. */
  function TagInter(p: bv64): (r: bv64)
    ensures IsInter(r)
    ensures r & !INTERNODE_BIT == p & !INTERNODE_BIT
  {
    p | INTERNODE_BIT
  }

  /** untag_inter(p): the pointer with its internode bit cleared, every other bit kept. */
  function UntagInter(p: bv64): (r: bv64)
    ensures !IsInter(r)
    ensures r | INTERNODE_BIT == p | INTERNODE_BIT
  {
    p & !INTERNODE_BIT
  }

  /** is_inter(p): the pointer word is odd. */
  predicate IsInter(p: bv64)
    ensures IsInter(p) <==> p % 2 == 1
  {
    p & INTERNODE_BIT != 0
  }

  /**
   * A tagged pointer is internode; untagging a tagged pointer gives back
   * the pointer when its low bit was clear (any aligned pointer), and
   * untagged pointers are not internode.
   */
  lemma TagRoundTrip(p: bv64)
    ensures IsInter(TagInter(p))
    ensures !IsInter(UntagInter(p))
    ensures p & 1 == 0 ==> UntagInter(TagInter(p)) == p
    ensures UntagInter(TagInter(p)) == UntagInter(p)
  {
    TaggedIsInter(p);
    UntaggedIsNot(p);
    UntagTag(p);
  }

  lemma TaggedIsInter(p: bv64)
    ensures IsInter(TagInter(p))
  {
  }

  lemma UntaggedIsNot(p: bv64)
    ensures !IsInter(UntagInter(p))
  {
  }

  lemma UntagTag(p: bv64)
    ensures UntagInter(TagInter(p)) == UntagInter(p)
  {
  }
}
