// The non-transactional side of the bucket-list hashtable: a fixed vector of
// buckets, each a singly linked list of elements whose head is the most
// recently inserted one.  A bucket's list is modelled as a sequence read from
// the head; the table itself is an array fixed at construction.

module BucketHashtable {

  datatype Option<T> = None | Some(value: T)

  /** A list element of the non-MVCC table: the key, its row, and the row's
    * valid and deleted flags. */
  datatype Elem<K, V> = Elem(key: K, row: V, valid: bool, deleted: bool)

  /** Index of the first element of `b` (from the head) whose key is `k`. */
  function FirstMatch<K(==), V>(b: seq<Elem<K, V>>, k: K): (r: Option<nat>)
    ensures r.Some? ==> r.value < |b| && b[r.value].key == k
    ensures r.Some? ==> forall j :: 0 <= j < r.value ==> b[j].key != k
    ensures r.None? <==> forall j :: 0 <= j < |b| ==> b[j].key != k
  {
    if |b| == 0 then None
    else if b[0].key == k then Some(0)
    else match FirstMatch(b[1..], k)
      case None => None
      case Some(i) => Some(i + 1)
  }

  /** The first match is the only index with key `k` and no `k` before it. */
  lemma FirstMatchAt<K, V>(b: seq<Elem<K, V>>, k: K, i: nat)
    requires i < |b| && b[i].key == k
    requires forall j :: 0 <= j < i ==> b[j].key != k
    ensures FirstMatch(b, k) == Some(i)
  {
  }

  /** What a non-transactional read of `k` sees in bucket `b`: the row of the
    * first element with that key, unless it is invalid or deleted. */
  function Visible<K(==), V>(b: seq<Elem<K, V>>, k: K): Option<V>
  {
    match FirstMatch(b, k)
    case None => None
    case Some(i) => if b[i].valid && !b[i].deleted then Some(b[i].row) else None
  }

  /** No key occurs twice in a bucket. */
  predicate Distinct<K(==), V>(b: seq<Elem<K, V>>)
  {
    forall i, j :: 0 <= i < j < |b| ==> b[i].key != b[j].key
  }

  /** Every element of bucket `b` hashes to bucket index `idx` of `n`. */
  predicate Homed<K, V>(b: seq<Elem<K, V>>, hash: K -> nat, n: nat, idx: nat)
    requires n > 0
  {
    forall j :: 0 <= j < |b| ==> hash(b[j].key) % n == idx
  }

  /** Bucket `b` after a non-transactional put of `k` with row `v`: a new valid
    * element in front when `k` is absent, otherwise the first match with its
    * row replaced and its flags as they were. */
  function PutIn<K(==), V>(b: seq<Elem<K, V>>, k: K, v: V): (r: seq<Elem<K, V>>)
    ensures |r| == |b| + (if FirstMatch(b, k).None? then 1 else 0)
    ensures FirstMatch(r, k).Some? && r[FirstMatch(r, k).value].row == v
  {
    match FirstMatch(b, k)
    case None =>
      FirstMatchAt([Elem(k, v, true, false)] + b, k, 0);
      [Elem(k, v, true, false)] + b
    case Some(i) =>
      FirstMatchAt(b[i := b[i].(row := v)], k, i);
      b[i := b[i].(row := v)]
  }

  /** Bucket `b` with its first element of key `k` unlinked. */
  function RemovedFrom<K(==), V>(b: seq<Elem<K, V>>, k: K): (r: seq<Elem<K, V>>)
    ensures |r| == |b| - (if FirstMatch(b, k).Some? then 1 else 0)
    ensures FirstMatch(b, k).Some? ==>
      multiset(r) + multiset{b[FirstMatch(b, k).value]} == multiset(b)
  {
    match FirstMatch(b, k)
    case None => b
    case Some(i) =>
      assert b == b[..i] + [b[i]] + b[i + 1..];
      b[..i] + b[i + 1..]
  }

  /** A put is read back by the next get, unless the key's element is
    * invalid or deleted: put copies the row only and leaves the flags. */
  lemma PutThenGet<K, V>(b: seq<Elem<K, V>>, k: K, v: V)
    ensures FirstMatch(b, k).None? ==> Visible(PutIn(b, k, v), k) == Some(v)
    ensures FirstMatch(b, k).Some? ==>
      var e := b[FirstMatch(b, k).value];
      Visible(PutIn(b, k, v), k) == if e.valid && !e.deleted then Some(v) else None
  {
    match FirstMatch(b, k)
    case None =>
      FirstMatchAt(PutIn(b, k, v), k, 0);
    case Some(i) =>
      FirstMatchAt(PutIn(b, k, v), k, i);
  }

  /** A put of `k` changes what no other key reads. */
  lemma PutKeepsOthers<K, V>(b: seq<Elem<K, V>>, k: K, v: V, k': K)
    requires k' != k
    ensures Visible(PutIn(b, k, v), k') == Visible(b, k')
  {
    var r := PutIn(b, k, v);
    match FirstMatch(b, k)
    case None => {
      match FirstMatch(b, k')
      case None =>
      case Some(i) => FirstMatchAt(r, k', i + 1);
    }
    case Some(p) => {
      match FirstMatch(b, k')
      case None =>
      case Some(i) => FirstMatchAt(r, k', i);
    }
  }

  /** A put never creates a second element for a key. */
  lemma PutKeepsDistinct<K, V>(b: seq<Elem<K, V>>, k: K, v: V)
    requires Distinct(b)
    ensures Distinct(PutIn(b, k, v))
  {
    var r := PutIn(b, k, v);
    if FirstMatch(b, k).None? {
      forall i, j | 0 <= i < j < |r|
        ensures r[i].key != r[j].key
      {
        if i == 0 {
          assert r[j] == b[j - 1];
        } else {
          assert r[i] == b[i - 1] && r[j] == b[j - 1];
        }
      }
    }
  }

  /** A put keeps every element in the bucket its key hashes to, when `k`
    * hashes there too. */
  lemma PutKeepsHomed<K, V>(b: seq<Elem<K, V>>, k: K, v: V, hash: K -> nat, n: nat, idx: nat)
    requires n > 0 && Homed(b, hash, n, idx) && hash(k) % n == idx
    ensures Homed(PutIn(b, k, v), hash, n, idx)
  {
    var r := PutIn(b, k, v);
    if FirstMatch(b, k).None? {
      forall j | 0 <= j < |r|
        ensures hash(r[j].key) % n == idx
      {
        if j > 0 {
          assert r[j] == b[j - 1];
        }
      }
    }
  }

  /** A delete of `k` changes what no other key reads. */
  lemma DeleteKeepsOthers<K, V>(b: seq<Elem<K, V>>, k: K, k': K)
    requires k' != k
    ensures Visible(RemovedFrom(b, k), k') == Visible(b, k')
  {
    var r := RemovedFrom(b, k);
    match FirstMatch(b, k)
    case None =>
    case Some(p) =>
      match FirstMatch(b, k')
      case None =>
        forall j | 0 <= j < |r|
          ensures r[j].key != k'
        {
          if j >= p {
            assert r[j] == b[j + 1];
          }
        }
      case Some(i) =>
        if i < p {
          FirstMatchAt(r, k', i);
        } else {
          assert r[i - 1] == b[i];
          FirstMatchAt(r, k', i - 1);
        }
  }

  /** On a bucket without duplicates, a delete leaves no element of `k`, and
    * still no duplicates. */
  lemma DeleteRemovesKey<K, V>(b: seq<Elem<K, V>>, k: K)
    requires Distinct(b)
    ensures FirstMatch(RemovedFrom(b, k), k).None?
    ensures Distinct(RemovedFrom(b, k))
  {
    var r := RemovedFrom(b, k);
    match FirstMatch(b, k)
    case None =>
    case Some(p) =>
      forall j | 0 <= j < |r|
        ensures r[j].key != k
      {
        if j >= p {
          assert r[j] == b[j + 1];
        }
      }
      forall i, j | 0 <= i < j < |r|
        ensures r[i].key != r[j].key
      {
        var i' := if i < p then i else i + 1;
        var j' := if j < p then j else j + 1;
        assert r[i] == b[i'] && r[j] == b[j'];
      }
  }

  /** A delete keeps the remaining elements where they hash. */
  lemma DeleteKeepsHomed<K, V>(b: seq<Elem<K, V>>, k: K, hash: K -> nat, n: nat, idx: nat)
    requires n > 0 && Homed(b, hash, n, idx)
    ensures Homed(RemovedFrom(b, k), hash, n, idx)
  {
    var r := RemovedFrom(b, k);
    match FirstMatch(b, k)
    case None =>
    case Some(p) =>
      forall j | 0 <= j < |r|
        ensures hash(r[j].key) % n == idx
      {
        if j >= p {
          assert r[j] == b[j + 1];
        }
      }
  }

  class Hashtable<K(==), V> {
    /** The bucket vector, sized once by the constructor. */
    const buckets: array<seq<Elem<K, V>>>
    /** The key hash function the table was built with. */
    const hash: K -> nat

    /** No bucket holds a key twice, and every element sits in the bucket its
      * key hashes to. */
    predicate Valid()
      reads this, buckets
    {
      buckets.Length > 0 &&
      forall i :: 0 <= i < buckets.Length ==>
        Distinct(buckets[i]) && Homed(buckets[i], hash, buckets.Length, i)
    }

    constructor(size: nat, hash: K -> nat)
      requires size > 0
      ensures Valid() && fresh(buckets)
      ensures buckets.Length == size && this.hash == hash
      ensures forall i :: 0 <= i < size ==> buckets[i] == []
    {
      this.hash := hash;
      buckets := new seq<Elem<K, V>>[size](_ => []);
    }

    function NBuckets(): (r: nat)
      ensures r == buckets.Length
    {
      buckets.Length
    }

    /** The bucket a key lives in. */
    function FindBucketIdx(k: K): (r: nat)
      requires buckets.Length > 0
      ensures r < NBuckets()
      ensures r == hash(k) % buckets.Length
    {
      hash(k) % NBuckets()
    }

    /** Walks bucket `idx` from its head to the first element with key `k`. */
    method FindInBucket(idx: nat, k: K) returns (r: Option<nat>)
      requires idx < buckets.Length
      ensures r == FirstMatch(buckets[idx], k)
    {
      var b := buckets[idx];
      var curr := 0;
      while curr < |b| && b[curr].key != k
        invariant curr <= |b|
        invariant forall j :: 0 <= j < curr ==> b[j].key != k
      {
        curr := curr + 1;
      }
      if curr == |b| {
        r := None;
      } else {
        FirstMatchAt(b, k, curr);
        r := Some(curr);
      }
    }

    /** Links a new element for `k` in front of bucket `idx`. */
    method InsertInBucket(idx: nat, k: K, v: V, valid: bool)
      requires idx < buckets.Length
      modifies buckets
      ensures buckets[idx] == [Elem(k, v, valid, false)] + old(buckets[idx])
      ensures forall i :: 0 <= i < buckets.Length && i != idx ==> buckets[i] == old(buckets[i])
    {
      buckets[idx] := [Elem(k, v, valid, false)] + buckets[idx];
    }

    /** The row a non-transactional read of `k` sees, if any. */
    method NontransGet(k: K) returns (r: Option<V>)
      requires buckets.Length > 0
      ensures r == Visible(buckets[FindBucketIdx(k)], k)
    {
      var idx := FindBucketIdx(k);
      var e := FindInBucket(idx, k);
      if e.None? {
        r := None;
      } else {
        var el := buckets[idx][e.value];
        if !el.valid || el.deleted {
          r := None;
        } else {
          r := Some(el.row);
        }
      }
    }

    /** Inserts `k` with row `v` in front of its bucket, or overwrites the
      * row of its existing element. */
    method NontransPut(k: K, v: V)
      requires Valid()
      modifies buckets
      ensures Valid()
      ensures buckets[FindBucketIdx(k)] == PutIn(old(buckets[FindBucketIdx(k)]), k, v)
      ensures forall i :: 0 <= i < buckets.Length && i != FindBucketIdx(k) ==>
        buckets[i] == old(buckets[i])
    {
      var idx := FindBucketIdx(k);
      var e := FindInBucket(idx, k);
      ghost var b := buckets[idx];
      PutKeepsDistinct(b, k, v);
      PutKeepsHomed(b, k, v, hash, buckets.Length, idx);
      if e.None? {
        buckets[idx] := [Elem(k, v, true, false)] + buckets[idx];
      } else {
        var i := e.value;
        buckets[idx] := buckets[idx][i := buckets[idx][i].(row := v)];
      }
    }

    /** Unlinks the first element of `k`; false when there is none. */
    method NontransDelete(k: K) returns (found: bool)
      requires Valid()
      modifies buckets
      ensures Valid()
      ensures found <==> FirstMatch(old(buckets[FindBucketIdx(k)]), k).Some?
      ensures buckets[FindBucketIdx(k)] == RemovedFrom(old(buckets[FindBucketIdx(k)]), k)
      ensures forall i :: 0 <= i < buckets.Length && i != FindBucketIdx(k) ==>
        buckets[i] == old(buckets[i])
    {
      var idx := FindBucketIdx(k);
      var b := buckets[idx];
      var curr := 0;
      while curr < |b| && b[curr].key != k
        invariant curr <= |b|
        invariant forall j :: 0 <= j < curr ==> b[j].key != k
      {
        curr := curr + 1;
      }
      if curr == |b| {
        found := false;
        return;
      }
      FirstMatchAt(b, k, curr);
      DeleteRemovesKey(b, k);
      DeleteKeepsHomed(b, k, hash, buckets.Length, idx);
      buckets[idx] := b[..curr] + b[curr + 1..];
      found := true;
    }
  }
}
