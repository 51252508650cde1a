/**
 * The header word of an ART node (a 64-bit `header_`): bit 0 is the lock,
 * bit 1 the invalid flag, bit 2 the must-grow flag, and the bits above the
 * NUM_STATUS_BITS = 3 status bits count versions.
 */
module ArtNodeHeader {

  const NUM_STATUS_BITS: bv64 := 3
  const LOCK: bv64 := 1
  const INVALID: bv64 := 2
  const MUST_GROW: bv64 := 4
  const STATUS_MASK: bv64 := 7

  /** The header update_version_number leaves: status bits kept, version incremented modulo 2^61. */
  function VersionBumped(h: bv64): (r: bv64)
    ensures r & STATUS_MASK == h & STATUS_MASK
    ensures r >> NUM_STATUS_BITS == ((h >> NUM_STATUS_BITS) + 1) & 0x1fff_ffff_ffff_ffff
  {
    h + (1 << NUM_STATUS_BITS)
  }

  /** Setting a status bit twice is the same as setting it once, and keeps the version. */
  lemma StatusBitsIdempotent(h: bv64)
    ensures (h | INVALID) | INVALID == h | INVALID
    ensures (h | MUST_GROW) | MUST_GROW == h | MUST_GROW
    ensures (h | INVALID) >> NUM_STATUS_BITS == h >> NUM_STATUS_BITS
    ensures (h | MUST_GROW) >> NUM_STATUS_BITS == h >> NUM_STATUS_BITS
  {
  }

  /** Decrementing a header whose lock bit is set clears exactly that bit. */
  lemma DecrementClearsLock(h: bv64)
    requires h & LOCK != 0
    ensures h - 1 == h & !LOCK
  {
  }

  lemma ClearLockKeepsVersion(h: bv64)
    ensures (h & !LOCK) >> NUM_STATUS_BITS == h >> NUM_STATUS_BITS
  {
  }

  lemma ClearLockIsClear(h: bv64)
    ensures (h & !LOCK) & LOCK == 0
  {
  }

  /** The header unlock leaves: the lock bit cleared, everything else kept. */
  function Released(h: bv64): (r: bv64)
    ensures r & LOCK == 0
    ensures r >> NUM_STATUS_BITS == h >> NUM_STATUS_BITS
  {
    ClearLockIsClear(h);
    ClearLockKeepsVersion(h);
    h & !LOCK
  }

  class ArtNode {
    var header: bv64
    /** is_leaf_ */
    var isLeaf: bool

    /** ARTNode(tree): header_() is zero, is_leaf_ is true. */
    constructor()
      ensures header == 0 && isLeaf
    {
      header := 0;
      isLeaf := true;
    }

    /** is_locked() */
    predicate IsLocked()
      reads this
      ensures IsLocked() <==> header % 2 == 1
    {
      header & LOCK != 0
    }

    /**
     * is_valid(): despite its name it returns bit 1, the invalid flag, as
     * its own documentation says (whether the node has been invalidated).
     */
    predicate IsValid()
      reads this
      ensures IsValid() <==> (header >> 1) % 2 == 1
    {
      header & INVALID != 0
    }

    /** is_invalid() */
    predicate IsInvalid()
      reads this
      ensures IsInvalid() <==> (header >> 1) % 2 == 1
    {
      header & INVALID != 0
    }

    /** must_grow() */
    predicate MustGrow()
      reads this
      ensures MustGrow() <==> (header >> 2) % 2 == 1
    {
      header & MUST_GROW != 0
    }

    /** get_version_number() */
    function GetVersionNumber(): (n: bv64)
      reads this
      ensures n < 0x2000_0000_0000_0000
    {
      header >> NUM_STATUS_BITS
    }

    /**
     * try_lock(): a compare-and-swap of the header read with its lock bit
     * cleared against that header with the lock bit set. Run alone, it
     * succeeds exactly when the node was unlocked.
     */
    method TryLock() returns (success: bool)
      modifies this
      ensures success <==> old(header) & LOCK == 0
      ensures header == if success then old(header) | LOCK else old(header)
    {
      var h := header;
      var expected := h & !LOCK;
      if header == expected {
        header := h | LOCK;
        success := true;
      } else {
        success := false;
      }
    }

    /** unlock(): the source asserts that the node is locked, then decrements the header. */
    method Unlock()
      requires IsLocked()
      modifies this
      ensures header == Released(old(header))
    {
      var h := header;
      DecrementClearsLock(h);
      header := h - 1;
    }

    /** set_must_grow() */
    method SetMustGrow()
      modifies this
      ensures header == old(header) | MUST_GROW
      ensures MustGrow() && GetVersionNumber() == old(GetVersionNumber())
    {
      header := header | MUST_GROW;
    }

    /** invalidate() */
    method Invalidate()
      modifies this
      ensures header == old(header) | INVALID
      ensures IsInvalid() && GetVersionNumber() == old(GetVersionNumber())
    {
      header := header | INVALID;
    }

    /** update_version_number(): adds 1 << NUM_STATUS_BITS to the header. */
    method UpdateVersionNumber()
      modifies this
      ensures header == VersionBumped(old(header))
    {
      header := header + (1 << NUM_STATUS_BITS);
    }
  }

  /** is_valid() and is_invalid() report the same bit. */
  lemma IsValidReportsInvalidation(n: ArtNode)
    ensures n.IsValid() <==> n.IsInvalid()
  {
  }
}
