/** A fixed-capacity, separately chained map from C strings to C strings.

    Keys and values are C string pointers: `CString` is a class, so `==` on
    two of them is reference (pointer) identity, while the bucket a key lands
    in is computed from the characters it points at, which never change.  Each bucket of the map
    holds its chain as a sequence of entries, head first; the empty sequence
    is a bucket whose `has_entry` flag is 0.
 */
module StringHashmap {

  /** Number of bucket heads every map is created with. */
  const NUM_BUCKETS: nat := 256

  /** The unsigned 32-bit value produced by the CRC-32 checksum. */
  type Crc = x: int | 0 <= x < 0x1_0000_0000

  /** A NUL-terminated string reached through a pointer; its identity is the pointer. */
  class CString {
    const text: string

    constructor (text: string)
      ensures this.text == text
    {
      this.text := text;
    }
  }

  /** One link of a chain: the stored key and value pointers. */
  datatype Entry = Entry(key: CString, value: CString)

  datatype Option<T> = None | Some(value: T)

  // ---------------------------------------------------------------------------
  // Hashing

  /** The bucket index of `key`: its checksum reduced modulo the bucket count.
      The checksum is a parameter, so nothing below depends on which one it is. */
  function Hash(checksum: string -> Crc, numBuckets: nat, key: CString): (r: nat)
    requires numBuckets > 0
    ensures r < numBuckets
  {
    checksum(key.text) % numBuckets
  }

  /** The bucket depends on the characters only: the same key, or any two
      pointers to equal text, land in the same bucket.  For C strings this
      holds when both keys are at least pointer-size long, since the source
      hashes a pointer-size window that may reach past a short key's NUL. */
  lemma HashSameText(checksum: string -> Crc, numBuckets: nat, k1: CString, k2: CString)
    requires numBuckets > 0 && k1.text == k2.text
    ensures Hash(checksum, numBuckets, k1) == Hash(checksum, numBuckets, k2)
  {
  }

  // ---------------------------------------------------------------------------
  // Chains

  /** Some entry of `chain` holds the very pointer `key`. */
  predicate InChain(chain: seq<Entry>, key: CString)
  {
    exists i :: 0 <= i < |chain| && chain[i].key == key
  }

  /** No key pointer occurs twice in `chain`. */
  predicate DistinctKeys(chain: seq<Entry>)
  {
    forall i, j :: 0 <= i < j < |chain| ==> chain[i].key != chain[j].key
  }

  /** Position of the first entry of `chain` whose key is the pointer `key`. */
  function FirstIndex(chain: seq<Entry>, key: CString): (i: nat)
    requires InChain(chain, key)
    ensures i < |chain| && chain[i].key == key
    ensures forall j :: 0 <= j < i ==> chain[j].key != key
  {
    if chain[0].key == key then 0
    else
      assert InChain(chain[1..], key) by {
        var j :| 0 <= j < |chain| && chain[j].key == key;
        assert chain[1..][j - 1] == chain[j];
      }
      1 + FirstIndex(chain[1..], key)
  }

  /** What adding `(key, value)` does to one chain.  If the pointer is already
      there, the first such entry gets the new value and becomes the tail:
      the entries behind it are unlinked.  Otherwise a node is appended. */
  function ChainAdd(chain: seq<Entry>, key: CString, value: CString): seq<Entry>
  {
    if InChain(chain, key) then chain[..FirstIndex(chain, key)] + [Entry(key, value)]
    else chain + [Entry(key, value)]
  }

  /** The value of the first entry of `chain` whose key is the pointer `key`,
      or None when the lookup would fail its assertion. */
  function ChainLookup(chain: seq<Entry>, key: CString): Option<CString>
  {
    if InChain(chain, key) then Some(chain[FirstIndex(chain, key)].value) else None
  }

  /** A new node is appended when the key pointer is not in the chain: the old
      entries keep their keys and values and the chain grows by exactly one. */
  lemma ChainAddAppends(chain: seq<Entry>, key: CString, value: CString)
    requires !InChain(chain, key)
    ensures |ChainAdd(chain, key, value)| == |chain| + 1
    ensures forall i :: 0 <= i < |chain| ==> ChainAdd(chain, key, value)[i] == chain[i]
    ensures ChainAdd(chain, key, value)[|chain|] == Entry(key, value)
  {
  }

  /** Re-adding a key pointer overwrites its first entry and discards every
      entry behind it; the entries before it are kept. */
  lemma ChainAddOverwrites(chain: seq<Entry>, key: CString, value: CString)
    requires InChain(chain, key)
    ensures |ChainAdd(chain, key, value)| == FirstIndex(chain, key) + 1 <= |chain|
    ensures forall i :: 0 <= i < FirstIndex(chain, key) ==> ChainAdd(chain, key, value)[i] == chain[i]
    ensures ChainAdd(chain, key, value)[FirstIndex(chain, key)] == Entry(key, value)
  {
  }

  /** The lookup finds the first matching entry and nothing when there is none. */
  lemma ChainLookupSpec(chain: seq<Entry>, key: CString, value: CString)
    ensures ChainLookup(chain, key) == Some(value) <==>
              exists i :: 0 <= i < |chain| && chain[i] == Entry(key, value) &&
                          forall j :: 0 <= j < i ==> chain[j].key != key
  {
  }

  /** After adding `(key, value)` to a chain, looking the same pointer up gives `value`. */
  lemma ChainLookupAddSame(chain: seq<Entry>, key: CString, value: CString)
    ensures ChainLookup(ChainAdd(chain, key, value), key) == Some(value)
  {
    var r := ChainAdd(chain, key, value);
    var n := |r| - 1;
    assert r[n] == Entry(key, value);
    assert InChain(r, key);
    assert forall j :: 0 <= j < n ==> r[j].key != key;
    assert FirstIndex(r, key) == n;
  }

  /** Appending an entry with a different key pointer does not change a lookup. */
  lemma ChainLookupAppendOther(prefix: seq<Entry>, e: Entry, other: CString)
    requires e.key != other
    ensures ChainLookup(prefix + [e], other) == ChainLookup(prefix, other)
  {
    var r := prefix + [e];
    if InChain(prefix, other) {
      var i := FirstIndex(prefix, other);
      assert r[i] == prefix[i];
      assert FirstIndex(r, other) == i;
    }
  }

  /** A lookup that succeeds in a prefix of a chain finds the same entry in the whole chain. */
  lemma ChainLookupPrefix(chain: seq<Entry>, p: nat, other: CString)
    requires p <= |chain| && InChain(chain[..p], other)
    ensures ChainLookup(chain[..p], other) == ChainLookup(chain, other)
  {
  }

  /** Looking up any other pointer after an add: unchanged, except that an
      overwrite makes the entries behind the overwritten one unreachable. */
  lemma ChainLookupAddOther(chain: seq<Entry>, key: CString, value: CString, other: CString)
    requires other != key
    ensures ChainLookup(ChainAdd(chain, key, value), other) ==
              if InChain(chain, key) && !InChain(chain[..FirstIndex(chain, key)], other) then None
              else ChainLookup(chain, other)
  {
    if InChain(chain, key) {
      var p := FirstIndex(chain, key);
      ChainLookupAppendOther(chain[..p], Entry(key, value), other);
      if InChain(chain[..p], other) {
        ChainLookupPrefix(chain, p, other);
      }
    } else {
      ChainLookupAppendOther(chain, Entry(key, value), other);
    }
  }

  /** Adding keeps a chain free of repeated key pointers. */
  lemma ChainAddDistinct(chain: seq<Entry>, key: CString, value: CString)
    requires DistinctKeys(chain)
    ensures DistinctKeys(ChainAdd(chain, key, value))
  {
  }

  // ---------------------------------------------------------------------------
  // The whole bucket array, as a value

  /** The contents of a freshly created map: every bucket unoccupied. */
  function EmptyBuckets(): seq<seq<Entry>>
  {
    seq(NUM_BUCKETS, _ => [])
  }

  /** Every entry sits in the bucket its key hashes to, and no chain repeats a key pointer. */
  predicate WellFormed(buckets: seq<seq<Entry>>, checksum: string -> Crc)
  {
    |buckets| > 0 &&
    (forall b, i :: 0 <= b < |buckets| && 0 <= i < |buckets[b]| ==>
       Hash(checksum, |buckets|, buckets[b][i].key) == b) &&
    (forall b :: 0 <= b < |buckets| ==> DistinctKeys(buckets[b]))
  }

  /** The bucket array after `hashmap_add(h, key, value)`. */
  function Insert(buckets: seq<seq<Entry>>, checksum: string -> Crc, key: CString, value: CString): seq<seq<Entry>>
    requires |buckets| > 0
  {
    var b := Hash(checksum, |buckets|, key);
    buckets[b := ChainAdd(buckets[b], key, value)]
  }

  /** The result of `hashmap_get(h, key)`: None stands for the failed assertion. */
  function Lookup(buckets: seq<seq<Entry>>, checksum: string -> Crc, key: CString): Option<CString>
    requires |buckets| > 0
  {
    ChainLookup(buckets[Hash(checksum, |buckets|, key)], key)
  }

  /** A fresh map is well formed and every lookup in it fails. */
  lemma LookupEmpty(checksum: string -> Crc, key: CString)
    ensures WellFormed(EmptyBuckets(), checksum)
    ensures Lookup(EmptyBuckets(), checksum, key) == None
  {
  }

  /** Adding changes only the bucket the key hashes to. */
  lemma InsertFrame(buckets: seq<seq<Entry>>, checksum: string -> Crc, key: CString, value: CString, b: nat)
    requires |buckets| > 0 && b < |buckets|
    ensures |Insert(buckets, checksum, key, value)| == |buckets|
    ensures b != Hash(checksum, |buckets|, key) ==> Insert(buckets, checksum, key, value)[b] == buckets[b]
  {
  }

  /** Adding keeps the bucket array well formed. */
  lemma InsertWellFormed(buckets: seq<seq<Entry>>, checksum: string -> Crc, key: CString, value: CString)
    requires WellFormed(buckets, checksum)
    ensures WellFormed(Insert(buckets, checksum, key, value), checksum)
  {
  }

  /** Immediately after `hashmap_add(h, key, value)`, `hashmap_get(h, key)` returns `value`. */
  lemma LookupAfterInsert(buckets: seq<seq<Entry>>, checksum: string -> Crc, key: CString, value: CString)
    requires |buckets| > 0
    ensures Lookup(Insert(buckets, checksum, key, value), checksum, key) == Some(value)
  {
    ChainLookupAddSame(buckets[Hash(checksum, |buckets|, key)], key, value);
  }

  /** Looking up another pointer after an add gives what it gave before, except
      for entries of the same bucket that the overwrite unlinked. */
  lemma LookupOtherAfterInsert(buckets: seq<seq<Entry>>, checksum: string -> Crc, key: CString, value: CString, other: CString)
    requires |buckets| > 0 && other != key
    ensures var h := Hash(checksum, |buckets|, key);
            Lookup(Insert(buckets, checksum, key, value), checksum, other) ==
              if Hash(checksum, |buckets|, other) == h && InChain(buckets[h], key) &&
                 !InChain(buckets[h][..FirstIndex(buckets[h], key)], other)
              then None
              else Lookup(buckets, checksum, other)
  {
    var h := Hash(checksum, |buckets|, key);
    if Hash(checksum, |buckets|, other) == h {
      ChainLookupAddOther(buckets[h], key, value, other);
    }
  }

  /** Two different pointers to the same text (at least pointer-size long in
      the source) land in the same bucket, and adding both (neither present
      yet) gives two entries, each found by its own pointer. */
  lemma SameTextSeparateEntries(buckets: seq<seq<Entry>>, checksum: string -> Crc,
                                k1: CString, v1: CString, k2: CString, v2: CString)
    requires |buckets| > 0 && k1 != k2 && k1.text == k2.text
    requires !InChain(buckets[Hash(checksum, |buckets|, k1)], k1)
    requires !InChain(buckets[Hash(checksum, |buckets|, k2)], k2)
    ensures var h := Hash(checksum, |buckets|, k1);
            var r := Insert(Insert(buckets, checksum, k1, v1), checksum, k2, v2);
            h == Hash(checksum, |buckets|, k2) &&
            r[h] == buckets[h] + [Entry(k1, v1), Entry(k2, v2)] &&
            Lookup(r, checksum, k1) == Some(v1) && Lookup(r, checksum, k2) == Some(v2)
  {
    var h := Hash(checksum, |buckets|, k1);
    var m := Insert(buckets, checksum, k1, v1);
    assert m[h] == buckets[h] + [Entry(k1, v1)];
    assert !InChain(m[h], k2);
    LookupAfterInsert(m, checksum, k2, v2);
    LookupOtherAfterInsert(m, checksum, k2, v2, k1);
    LookupAfterInsert(buckets, checksum, k1, v1);
  }

  /** Re-adding a key drops the colliding keys added after it: add k1, then
      k2 to the same bucket, then k1 again, and k2 can no longer be found. */
  lemma ReAddDropsLaterEntries(checksum: string -> Crc, k1: CString, v1: CString,
                               k2: CString, v2: CString, v3: CString)
    requires k1 != k2 && Hash(checksum, NUM_BUCKETS, k1) == Hash(checksum, NUM_BUCKETS, k2)
    ensures var r := Insert(Insert(Insert(EmptyBuckets(), checksum, k1, v1), checksum, k2, v2), checksum, k1, v3);
            Lookup(r, checksum, k1) == Some(v3) && Lookup(r, checksum, k2) == None
  {
    var h := Hash(checksum, NUM_BUCKETS, k1);
    var m1 := Insert(EmptyBuckets(), checksum, k1, v1);
    var m2 := Insert(m1, checksum, k2, v2);
    assert m1[h] == [Entry(k1, v1)];
    assert !InChain(m1[h], k2);
    assert m2[h] == [Entry(k1, v1), Entry(k2, v2)];
    assert m2[h][0].key == k1;
    assert FirstIndex(m2[h], k1) == 0;
    LookupAfterInsert(m2, checksum, k1, v3);
    LookupOtherAfterInsert(m2, checksum, k1, v3, k2);
  }

  // ---------------------------------------------------------------------------
  // The map object

  class Hashmap {
    /** Stands for `crc32_compute`, which is not part of this model. */
    const checksum: string -> Crc
    const numBuckets: nat
    /** The bucket heads; `data[b]` is bucket b's chain, head first. */
    const data: array<seq<Entry>>
    var numEntries: nat

    ghost predicate Valid()
      reads this, data
    {
      numBuckets == NUM_BUCKETS && data.Length == numBuckets && WellFormed(data[..], checksum)
    }

    /** `Hashmap()`: 256 unoccupied buckets and no entries.  The source clears
        only `sizeof(h->data)` bytes of the bucket array; this models the
        evidently intended all-empty array. */
    constructor (checksum: string -> Crc)
      ensures Valid() && fresh(data)
      ensures this.checksum == checksum
      ensures numBuckets == NUM_BUCKETS && numEntries == 0
      ensures data[..] == EmptyBuckets()
    {
      this.checksum := checksum;
      data := new seq<Entry>[NUM_BUCKETS](_ => []);
      numEntries := 0;
      numBuckets := NUM_BUCKETS;
      new;
      assert data[..] == EmptyBuckets();
    }

    /** `hashmap_add`: occupy an empty head, overwrite the first entry with the
        same key pointer (unlinking its successors), or append at the tail. */
    method Add(key: CString, value: CString)
      requires Valid()
      modifies data
      ensures Valid()
      ensures data[..] == Insert(old(data[..]), checksum, key, value)
      ensures numEntries == old(numEntries)
    {
      InsertWellFormed(data[..], checksum, key, value);
      var index := Hash(checksum, numBuckets, key);
      var chain := data[index];
      var cell := 0;
      if |chain| > 0 && key != chain[cell].key {
        while cell + 1 < |chain| && key != chain[cell].key
          invariant 0 <= cell < |chain|
          invariant forall j :: 0 <= j < cell ==> chain[j].key != key
        {
          cell := cell + 1;
        }
        if key != chain[cell].key {
          // a new tail node behind the last one
          cell := cell + 1;
        }
      }
      assert chain[..|chain|] == chain;
      assert !InChain(chain, key) ==> cell == |chain|;
      assert InChain(chain, key) ==> cell == FirstIndex(chain, key);
      // the found or new node gets the key and value and no successor
      data[index] := chain[..cell] + [Entry(key, value)];
    }

    /** `hashmap_get`: the value of the first entry in the key's bucket whose key
        is the same pointer; None where the source's assertion fails. */
    method Get(key: CString) returns (r: Option<CString>)
      requires Valid()
      ensures r == Lookup(data[..], checksum, key)
      ensures r.Some? <==> InChain(data[Hash(checksum, numBuckets, key)], key)
    {
      var index := Hash(checksum, numBuckets, key);
      var chain := data[index];
      if |chain| == 0 {
        // an unoccupied head holds a null key, which is never `key`
        return None;
      }
      var cell := 0;
      while cell + 1 < |chain| && chain[cell].key != key
        invariant 0 <= cell < |chain|
        invariant forall j :: 0 <= j < cell ==> chain[j].key != key
      {
        cell := cell + 1;
      }
      if chain[cell].key == key {
        r := Some(chain[cell].value);
      } else {
        r := None;
      }
      assert r.Some? ==> cell == FirstIndex(chain, key);
    }
  }
}
