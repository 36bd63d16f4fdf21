# Fixed-bucket string hash map

A Dafny model of the small hash map in `hashmap.c` that the terminal emulator
uses to hold configuration entries. The map has 256 bucket heads. Each head
starts a singly linked chain of `(key, value)` entries. It offers three
operations:

- `Hashmap()` creates the map.
- `hashmap_add` inserts, overwrites or appends an entry.
- `hashmap_get` walks one chain to find a key.

The model lives in one module, `StringHashmap` (`hashmap.dfy`):

- **Keys and values** are `CString` objects. A `CString` is a class, so `==`
  on two of them is reference identity. This matches the source, which
  compares `char *` pointers and never compares text.
- **The bucket index** is `Hash(checksum, numBuckets, key)`. It equals
  `checksum(key.text) % numBuckets`.
- **The checksum** stands for `crc32_compute`, which is not part of this
  model. It is a parameter of the map's constructor and ranges over
  unsigned 32-bit values. Every property below holds for every checksum.
- **The class `Hashmap`** has:
  - `data`, a bucket array of type `array<seq<Entry>>`. Bucket `b` holds
    its chain head first, and an empty sequence is a head whose `has_entry`
    flag is 0.
  - `numBuckets` and `numEntries`.
  - `Add` and `Get`, which walk a chain with a cursor loop, as the C does.
- **Pure specifications.** `ChainAdd`/`ChainLookup` describe one chain, and
  `Insert`/`Lookup` describe the whole bucket array. `Add` and `Get` are
  proved against them, and the lemmas state properties of them.

Behaviours the model keeps as the code has them:

- **Keys match by pointer.** Two distinct pointers to equal text (at least
  pointer-size long, see "## Left out") land in the same bucket, but they get
  two separate entries (`SameTextSeparateEntries`).
- **Re-adding a key truncates the chain.** `cell->next = NULL` at line 106 is
  executed on every path. So re-adding a key that is already in a chain
  overwrites its first entry and unlinks every entry behind it. This includes
  the case where the key is at the head (`ChainAddOverwrites`,
  `ChainLookupAddOther`, `ReAddDropsLaterEntries`). Within one chain, later
  entries are colliding keys added afterwards, so they become unreachable.
- **`num_entries` is never changed by `hashmap_add`.** It stays 0 for the
  whole life of the map. A count that grows on each new key would be the
  textbook behaviour, but the code does not do this, and the model follows
  the code.
- **A lookup miss fails an assertion.** `hashmap_get` asserts at line 136
  when no entry in the chain has the key pointer. The model's `Get` returns
  `None` in exactly that case, including an unoccupied bucket, whose zeroed
  head holds a null key. A recoverable "not found" result would be the
  textbook alternative; the model returns `None` only where the source
  would abort.

Invariants kept by every operation (`Hashmap.Valid`, `WellFormed`):

- The map always has 256 buckets.
- Every entry sits in the bucket its key hashes to.
- No chain holds the same key pointer twice.

## Model

| member | source | states |
|---|---|---|
| `StringHashmap.Hash` | hashmap.c:76-80 | the bucket index is always strictly less than the number of buckets |
| `StringHashmap.HashSameText` | hashmap.c:76-80 | the index depends only on the key's text: the same key, or two pointers to equal text, get the same bucket (in the source, for keys at least pointer-size long) |
| `StringHashmap.FirstIndex` | hashmap.c:93-96 | the position where the chain walk stops on a match: an entry holding the key pointer, with no earlier entry holding it |
| `StringHashmap.ChainAddAppends` | hashmap.c:91-106 | when the key pointer is not in the chain (including an unoccupied bucket), exactly one entry `(key, value)` is added at the tail and every earlier entry keeps its key and value |
| `StringHashmap.ChainAddOverwrites` | hashmap.c:91-106 | when the key pointer is in the chain, its first entry gets the new value and becomes the tail: the entries before it are kept and every entry after it is dropped |
| `StringHashmap.ChainLookupSpec` | hashmap.c:129-142 | a lookup yields `value` exactly when some entry is `(key, value)` and no earlier entry holds the key pointer |
| `StringHashmap.ChainLookupAddSame` | hashmap.c:82-143 | after adding `(key, value)` to a chain, looking up the same pointer in it yields `value` |
| `StringHashmap.ChainLookupAddOther` | hashmap.c:91-106 | after an add, a lookup of any other pointer gives the same result as before, except that pointers found only behind an overwritten entry are no longer found |
| `StringHashmap.ChainAddDistinct` | hashmap.c:91-106 | adding keeps a chain free of repeated key pointers |
| `StringHashmap.LookupEmpty` | hashmap.c:60-68 | the all-empty bucket array is well formed and every lookup in it misses |
| `StringHashmap.InsertFrame` | hashmap.c:84-85 | an add keeps the bucket count and changes no bucket other than the key's own |
| `StringHashmap.InsertWellFormed` | hashmap.c:82-107 | an add keeps every entry in the bucket its key hashes to and every chain free of repeated key pointers |
| `StringHashmap.LookupAfterInsert` | hashmap.c:82-143 | immediately after adding `(key, value)`, getting `key` returns `value` |
| `StringHashmap.LookupOtherAfterInsert` | hashmap.c:82-143 | after adding `key`, getting any other pointer returns what it returned before. The exception is a pointer in the same bucket that sat only behind an overwritten entry: it now misses |
| `StringHashmap.SameTextSeparateEntries` | hashmap.c:91-99 | two distinct pointers to equal text share a bucket (in the source, for keys at least pointer-size long), and adding both appends two entries, each found by its own pointer |
| `StringHashmap.ReAddDropsLaterEntries` | hashmap.c:100-106 | add `k1`, then a colliding `k2`, then `k1` again: `k1` yields the newest value and `k2` is no longer found |
| `StringHashmap.Hashmap.constructor` | hashmap.c:60-68 | the new map uses the given checksum and has 256 buckets, all unoccupied, and zero entries |
| `StringHashmap.Hashmap.Add` | hashmap.c:82-107 | the new bucket array is `Insert` of the old one, the map stays valid, and `numEntries` is unchanged |
| `StringHashmap.Hashmap.Get` | hashmap.c:121-143 | returns the `Lookup` of the key, which is `Some` exactly when the key pointer is in its bucket's chain; nothing is modified |

## Left out

- `crc32_compute` is not part of this model. The checksum is a constructor parameter, so the model does not fix which bucket a given text lands in.
- The hash reads exactly `sizeof(key)` bytes, the size of a pointer, starting at the key (line 78). The model folds this into the checksum parameter, which it takes to be a function of the key's text.
- `StringHashmap.HashSameText`: holds of the source only for keys at least pointer-size long. For a shorter key the checksum also reads bytes past the terminating NUL, which are not part of the text and can differ between two strings with equal text.
- `StringHashmap.SameTextSeparateEntries`: the "same bucket" half holds of the source only for keys at least pointer-size long, for the same reason. The "two separate entries" half does not depend on it.
- Key text is immutable in the model (`CString.text` is `const`). A C caller can rewrite the characters behind a stored key, which moves the key to another bucket and breaks `WellFormed`'s "every entry sits in the bucket its key hashes to". The model does not capture this.
- `StringHashmap.Hashmap.constructor`: the source zeroes only `sizeof(h->data)` bytes of the bucket array (line 64). The model starts from the evidently intended all-empty array instead.
- `hashmap_free` (lines 70-74) and all allocation (`snew`, `snewn`, `sfree`) are left out. This includes the chain nodes that `hashmap_free` leaks and the nodes that truncation unlinks. Allocation failure is not modelled.
- The Windows debug output in `hashmap_get` (`MessageBox`, `sprintf`, the `link_idx` depth counter, lines 109-119 and 126-141) is left out. It is diagnostics only.
- `hashmap_add` is declared to return `unsigned int` but returns nothing. `Add` returns no result.
- A null key pointer is not modelled: `hash` would read through it before any comparison.
- `StringHashmap.Hashmap.Get`: with `NDEBUG` the assertion at line 136 is compiled out, and on a miss the source then returns the value field of the cell where the walk stopped. In an occupied bucket that is the last entry's value. In an unoccupied bucket it is the head cell's own value field, which is null given the intended zeroing. The model returns `None` on every miss.
- A chain is a sequence that `Add` replaces as a whole in the bucket slot. Individual heap nodes, their `next` pointers and aliasing between them are not modelled. A chain node's own `has_entry` field is not modelled either; only the head's flag is ever read.
