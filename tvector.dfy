// The transactional vector, seen sequentially: a capacity-sized element
// buffer, the committed size, and the count of slots ever constructed.  The
// transactional operations are modelled by the state they leave once their
// transaction commits on its own; the out_of_range throws are `ok == false`
// results that leave the vector as it was.

module TransactionalVector {

  /** Capacity of a new vector. */
  const DEFAULT_CAPACITY: nat := 128

  function Max(a: int, b: int): int
  {
    if a < b then b else a
  }

  /** `s` with the element at `pos` removed and the later ones moved down. */
  function Erased<T>(s: seq<T>, pos: nat): (r: seq<T>)
    requires pos < |s|
    ensures |r| == |s| - 1
    ensures forall i :: 0 <= i < pos ==> r[i] == s[i]
    ensures forall i :: pos <= i < |r| ==> r[i] == s[i + 1]
  {
    s[..pos] + s[pos + 1..]
  }

  /** `s` with `x` placed at `pos` and the later elements moved up. */
  function Inserted<T>(s: seq<T>, pos: nat, x: T): (r: seq<T>)
    requires pos <= |s|
    ensures |r| == |s| + 1 && r[pos] == x
    ensures forall i :: 0 <= i < pos ==> r[i] == s[i]
    ensures forall i :: pos < i < |r| ==> r[i] == s[i - 1]
  {
    s[..pos] + [x] + s[pos..]
  }

  /** `s` cut or padded with `x` to length `n`. */
  function Resized<T>(s: seq<T>, n: nat, x: T): (r: seq<T>)
    ensures |r| == n
    ensures forall i :: 0 <= i < n && i < |s| ==> r[i] == s[i]
    ensures forall i :: |s| <= i < n ==> r[i] == x
  {
    if n <= |s| then s[..n] else s + seq(n - |s|, _ => x)
  }

  /** Erasing what was just inserted gives the vector back. */
  lemma EraseUndoesInsert<T>(s: seq<T>, pos: nat, x: T)
    requires pos <= |s|
    ensures Erased(Inserted(s, pos, x), pos) == s
  {
    var r := Erased(Inserted(s, pos, x), pos);
    assert |r| == |s|;
    forall i | 0 <= i < |s|
      ensures r[i] == s[i]
    {
      if i >= pos {
        assert r[i] == Inserted(s, pos, x)[i + 1];
      }
    }
  }

  /** Re-inserting an erased element at its place gives the vector back. */
  lemma InsertUndoesErase<T>(s: seq<T>, pos: nat)
    requires pos < |s|
    ensures Inserted(Erased(s, pos), pos, s[pos]) == s
  {
    var r := Inserted(Erased(s, pos), pos, s[pos]);
    assert |r| == |s|;
    forall i | 0 <= i < |s|
      ensures r[i] == s[i]
    {
      if i > pos {
        assert r[i] == Erased(s, pos)[i - 1];
      }
    }
  }

  /** Growing and then shrinking back to the old size gives the vector back;
    * shrinking never touches the elements kept. */
  lemma ResizeRoundTrip<T>(s: seq<T>, n: nat, x: T, y: T)
    ensures n >= |s| ==> Resized(Resized(s, n, x), |s|, y) == s
    ensures n <= |s| ==> Resized(s, n, x) == s[..n]
  {
    if n >= |s| {
      var r := Resized(Resized(s, n, x), |s|, y);
      assert |r| == |s|;
      forall i | 0 <= i < |s|
        ensures r[i] == s[i]
      {
        assert Resized(s, n, x)[i] == s[i];
      }
    } else {
      var r := Resized(s, n, x);
      assert |r| == |s[..n]|;
      forall i | 0 <= i < n
        ensures r[i] == s[..n][i]
      {
      }
    }
  }

  /** The capacity reached by doubling `cap` until it holds `size` elements. */
  function ReservedCapacity(cap: nat, size: int): (r: nat)
    requires cap > 0
    ensures r >= size && r >= cap
    ensures r == cap || (r % 2 == 0 && cap <= r / 2 < size)
    decreases size - cap
  {
    if size > cap then ReservedCapacity(2 * cap, size) else cap
  }

  /** Reserving is idempotent: a second reserve of the same size keeps the
    * capacity the first one reached. */
  lemma {:induction false} ReserveIdempotent(cap: nat, size: int)
    requires cap > 0
    ensures ReservedCapacity(ReservedCapacity(cap, size), size) == ReservedCapacity(cap, size)
    decreases size - cap
  {
    if size > cap {
      ReserveIdempotent(2 * cap, size);
    }
  }

  /** The emptiness test as written: true when the size is not zero. */
  function EmptyAsWritten(size: nat): (r: bool)
    ensures r <==> size > 0
  {
    size != 0
  }

  /** A new vector, which holds nothing, is reported non-empty as written. */
  lemma EmptyAsWrittenOnNewVector()
    ensures !EmptyAsWritten(0)
  {
  }

  class TVector<T(0)> {
    /** The element buffer; its length is the capacity. */
    var data: array<T>
    /** The committed number of elements. */
    var size: nat
    /** How many leading slots have ever held a constructed element. */
    var maxSize: nat

    predicate Valid()
      reads this
    {
      0 < data.Length && size <= maxSize <= data.Length
    }

    /** The elements, first to last. */
    function Contents(): (r: seq<T>)
      reads this, data
      requires Valid()
      ensures |r| == size
    {
      data[..size]
    }

    /** Whether the vector holds no element. */
    function Empty(): (r: bool)
      reads this, data
      requires Valid()
      ensures r <==> Contents() == []
      ensures r <==> !EmptyAsWritten(size)
    {
      size == 0
    }

    constructor()
      ensures Valid() && fresh(data)
      ensures data.Length == DEFAULT_CAPACITY && size == 0 && maxSize == 0
    {
      data := new T[DEFAULT_CAPACITY];
      size := 0;
      maxSize := 0;
    }

    /** Appends `x`; committing needs a free slot. */
    method PushBack(x: T)
      requires Valid() && size < data.Length
      modifies this, data
      ensures Valid() && data == old(data)
      ensures Contents() == old(Contents()) + [x]
      ensures maxSize == Max(old(maxSize), size)
    {
      data[size] := x;
      size := size + 1;
      maxSize := Max(maxSize, size);
    }

    /** Drops the last element; false (out_of_range) on an empty vector. */
    method PopBack() returns (ok: bool)
      requires Valid()
      modifies this
      ensures Valid() && data == old(data) && maxSize == old(maxSize)
      ensures ok <==> old(size) > 0
      ensures ok ==> Contents() == old(Contents())[..old(size) - 1]
      ensures !ok ==> size == old(size)
    {
      if size == 0 {
        return false;
      }
      size := size - 1;
      ok := true;
    }

    /** Drops every element; the slots stay constructed. */
    method Clear()
      requires Valid()
      modifies this
      ensures Valid() && data == old(data) && maxSize == old(maxSize)
      ensures Contents() == []
    {
      size := 0;
    }

    /** Removes the element at `pos`, moving the later ones down; false
      * (out_of_range) when `pos` is not an element. */
    method Erase(pos: nat) returns (ok: bool)
      requires Valid()
      modifies this, data
      ensures Valid() && data == old(data) && maxSize == old(maxSize)
      ensures ok <==> pos < old(size)
      ensures ok ==> Contents() == Erased(old(Contents()), pos)
      ensures !ok ==> size == old(size) && Contents() == old(Contents())
    {
      if pos >= size {
        return false;
      }
      ghost var s := Contents();
      size := size - 1;
      var i := pos;
      while i != size
        invariant data == old(data) && maxSize == old(maxSize)
        invariant size == |s| - 1 && |s| <= data.Length
        invariant pos <= i <= size
        invariant forall j :: 0 <= j < pos ==> data[j] == s[j]
        invariant forall j :: pos <= j < i ==> data[j] == s[j + 1]
        invariant forall j :: i < j <= size ==> data[j] == s[j]
      {
        data[i] := data[i + 1];
        i := i + 1;
      }
      ok := true;
    }

    /** Places `x` at `pos`, moving the later elements up; false
      * (out_of_range) when `pos` is past the end.  Committing needs a free
      * slot. */
    method Insert(pos: nat, x: T) returns (ok: bool)
      requires Valid() && (pos <= size ==> size < data.Length)
      modifies this, data
      ensures Valid() && data == old(data)
      ensures ok <==> pos <= old(size)
      ensures ok ==> Contents() == Inserted(old(Contents()), pos, x)
      ensures ok ==> maxSize == Max(old(maxSize), size)
      ensures !ok ==> size == old(size) && maxSize == old(maxSize) && Contents() == old(Contents())
    {
      if pos > size {
        return false;
      }
      ghost var s := Contents();
      size := size + 1;
      var i := size - 1;
      while i != pos
        invariant data == old(data) && maxSize == old(maxSize)
        invariant size == |s| + 1 && size <= data.Length
        invariant pos <= i < size
        invariant forall j :: 0 <= j < i ==> data[j] == s[j]
        invariant forall j :: i < j < size ==> data[j] == s[j - 1]
      {
        data[i] := data[i - 1];
        i := i - 1;
      }
      data[pos] := x;
      maxSize := Max(maxSize, size);
      ok := true;
    }

    /** Sets the size to `n`, filling new slots with `x`; shrinking only
      * marks the dropped slots dead.  Committing needs `n` slots. */
    method Resize(n: nat, x: T)
      requires Valid() && n <= data.Length
      modifies this, data
      ensures Valid() && data == old(data)
      ensures Contents() == Resized(old(Contents()), n, x)
      ensures maxSize == Max(old(maxSize), n)
    {
      ghost var s := Contents();
      var oldSize := size;
      size := n;
      while oldSize < size
        invariant data == old(data) && maxSize == old(maxSize)
        invariant size == n && |s| == old(size)
        invariant |s| <= n ==> |s| <= oldSize <= n
        invariant |s| > n ==> oldSize == |s|
        invariant forall j :: 0 <= j < |s| && j < size ==> data[j] == s[j]
        invariant forall j :: |s| <= j < oldSize && j < size ==> data[j] == x
      {
        data[oldSize] := x;
        oldSize := oldSize + 1;
      }
      maxSize := Max(maxSize, n);
    }

    /** Appends `x` outside any transaction; the caller guarantees a free
      * slot. */
    method NontransPushBack(x: T)
      requires Valid() && size < data.Length
      modifies this, data
      ensures Valid() && data == old(data)
      ensures Contents() == old(Contents()) + [x]
      ensures maxSize == if old(size) == old(maxSize) then old(maxSize) + 1 else old(maxSize)
    {
      if size == maxSize {
        data[size] := x;
        maxSize := maxSize + 1;
      } else {
        data[size] := x;
      }
      size := size + 1;
    }

    /** The committed size, read outside any transaction. */
    function NontransSize(): (r: nat)
      reads this, data
      requires Valid()
      ensures r == |Contents()|
    {
      size
    }

    /** Element `i`, read outside any transaction; the source asserts that
      * it is an element. */
    function NontransGet(i: nat): (r: T)
      reads this, data
      requires Valid() && i < size
      ensures r == Contents()[i]
    {
      data[i]
    }

    /** Overwrites element `i` outside any transaction; the source asserts
      * that it is an element. */
    method NontransPut(i: nat, x: T)
      requires Valid() && i < size
      modifies data
      ensures Contents() == old(Contents())[i := x]
    {
      data[i] := x;
    }

    /** Doubles the capacity until it holds `n` elements, copying every old
      * slot into the new buffer. */
    method NontransReserve(n: int)
      requires Valid()
      modifies this
      ensures Valid() && size == old(size) && maxSize == old(maxSize)
      ensures data.Length == ReservedCapacity(old(data.Length), n)
      ensures data[..old(data.Length)] == old(data[..])
      ensures data != old(data) ==> fresh(data)
    {
      var newCapacity := data.Length;
      while n > newCapacity
        invariant data == old(data) && size == old(size) && maxSize == old(maxSize)
        invariant newCapacity >= data.Length
        invariant ReservedCapacity(newCapacity, n) == ReservedCapacity(data.Length, n)
        decreases n - newCapacity
      {
        newCapacity := newCapacity * 2;
      }
      if newCapacity > data.Length {
        var newData := new T[newCapacity];
        var i := 0;
        while i != data.Length
          invariant data == old(data) && size == old(size) && maxSize == old(maxSize)
          invariant newData.Length > data.Length
          invariant 0 <= i <= data.Length
          invariant forall j :: 0 <= j < i ==> newData[j] == data[j]
        {
          newData[i] := data[i];
          i := i + 1;
        }
        assert newData[..data.Length] == data[..];
        data := newData;
      }
    }
  }
}
