# FixedSizeHashmap in Dafny

A verified model of `FixedSizeHashmap<T>` (src/FixedSizeHashmap.java). It is
a hash map from string keys to values with a capacity fixed at construction.

- **Sizing.** The backing array holds `2^k` buckets, `2^k` being the
  smallest power of two that reaches the capacity.
- **Index.** A key's bucket is `index(hash(key.hashCode()))`. `hash` is a
  supplemental mix that folds high-order bits into the low-order ones.
  `index` masks the result with `arraySize - 1`, the cheap modulo that the
  code credits to `HashMap.indexFor` of OpenJDK 6.
- **Buckets.** Each bucket is null or a sentinel-headed singly linked
  `LinkedList` of `LLNode`s. Each node holds a mutable `Pair`.

Modules:

- `Wrappers`: `Option` and `MapGet`, the value of a key in a map, if any.
- `Hashing`: the sizing loop (`ArraySizeFor`) and the two mixing steps of
  `hash`. Also `index`, proved equal to the unsigned hash modulo the table
  size. The mix is proved injective.
- `Chain`: a collision chain as a sequence of `Entry(key, value)`. It holds
  the functions `Find`, `Lookup`, `Upsert` and `Remove`, which specify
  `LinkedList.get`, `add` and `remove`, and their lemmas.
- `LinkedChain`: the heap classes `Pair`, `LLNode` and `LinkedList`. The
  `while` loops of `add`, `get` and `remove` walk `next` pointers and are
  proved against `Chain` through the ghost fields `nodes` and `contents`.
- `Hashmap`: the class `FixedSizeHashmap`. Its array holds `LinkedList`
  objects, and its ghost state is:
  - a `map<string, T>` of the associations;
  - the chain of every bucket;
  - a footprint, with a tag per object that keeps the lists of different
    buckets apart.

  `Valid()` says:
  - every key sits in bucket `index(hash(hashCode(key)))`;
  - every chain has distinct keys;
  - the ghost map is what `get` finds;
  - the count equals the number of keys held and stays within the capacity.
- `AsWritten`: the item count and the sizing loop exactly as written, on
  values, with the inputs that show where they go wrong.

Three behaviours are decided as follows:

- `set` refuses every call once the count has reached the capacity, as the
  code does. Updates of a key already present are refused too
  (src/FixedSizeHashmap.java:64-66).
- Every capacity is accepted, including zero and negative ones, as in the
  code. For those, every `set` is refused. Above 2^30, where the Java
  sizing loop never ends, the table stops at 2^30 buckets (see
  "## Findings").
- The count is the number of (key, value) pairs held, which is what `size()`
  documents (src/FixedSizeHashmap.java:81-87). The code's own count drifts
  from it; that is under "## Findings".

## Model

| member | source | states |
|---|---|---|
| Hashing.ArraySizeFor | src/FixedSizeHashmap.java:23-28 | the loop ends with `size == 2^k`, `k <= 30` and, when `k > 0`, `2^(k-1) < capacity`; up to 2^30 it reaches the capacity, so `size` is the least power of two that does; above 2^30 it is 2^30 |
| Hashing.SmallestPowerOfTwo | src/FixedSizeHashmap.java:23-28 | every power of two that reaches the capacity is at least the size the loop stops at |
| Hashing.MixHigh | src/FixedSizeHashmap.java:53 | the first mixing step leaves the top 12 bits of the word as they were |
| Hashing.MixLow | src/FixedSizeHashmap.java:54 | the second mixing step leaves the top 4 bits of the word as they were |
| Hashing.SupplementalHash | src/FixedSizeHashmap.java:52-55 | `hash` leaves the top 4 bits of the hash code as they were |
| Hashing.MixHighInjective | src/FixedSizeHashmap.java:53 | the first mixing step `h ^ (h >>> 20) ^ (h >>> 12)` maps distinct words to distinct words |
| Hashing.MixLowInjective | src/FixedSizeHashmap.java:54 | the second mixing step `h ^ (h >>> 7) ^ (h >>> 4)` maps distinct words to distinct words |
| Hashing.SupplementalHashInjective | src/FixedSizeHashmap.java:52-55 | `hash` is injective on 32-bit words, so it moves no two hash codes onto one |
| Hashing.SizeMask | src/FixedSizeHashmap.java:42 | `_arraySize - 1` for `_arraySize == 2^k` is the word whose lowest `k` bits are set and no others, with value `2^k - 1` |
| Hashing.MaskIsModulo | src/FixedSizeHashmap.java:33-43 | `h & (2^k - 1)`, read as an unsigned number, is `h mod 2^k` |
| Hashing.Index | src/FixedSizeHashmap.java:41-43 | `index(h)` lies in `[0, 2^k)` and equals the unsigned `h` modulo the table size |
| Hashing.Slot | src/FixedSizeHashmap.java:69 | `index(hash(code))` lies in `[0, 2^k)` |
| Chain.Find | src/FixedSizeHashmap.java:170-178 | the position the scan stops at: the first entry holding the key, or none when no entry holds it |
| Chain.Lookup | src/FixedSizeHashmap.java:188-195 | a value is found exactly when some entry holds the key, and it is the value of such an entry |
| Chain.Upsert | src/FixedSizeHashmap.java:166-181 | after `add(key, value)`, `get(key)` finds `value`; the chain keeps its length when the key was present and grows by one when it was not |
| Chain.Remove | src/FixedSizeHashmap.java:202-214 | `remove` only takes entries out of the chain, never adds or alters one |
| Chain.FindUnique | src/FixedSizeHashmap.java:170-172 | in a chain with distinct keys, the entry holding the key is the one the scan stops at |
| Chain.UpsertPresent | src/FixedSizeHashmap.java:170-176 | `add` of a present key keeps the chain's length and key order, gives that entry the new value and leaves every other entry alone |
| Chain.UpsertDistinct | src/FixedSizeHashmap.java:166-181 | `add` keeps the keys of a chain pairwise distinct |
| Chain.LookupUpsert | src/FixedSizeHashmap.java:166-195 | after `add(key, value)`, `get(key)` is the new value and every other key's value is unchanged |
| Chain.RemoveDistinct | src/FixedSizeHashmap.java:202-214 | `remove` keeps the keys of a chain pairwise distinct |
| Chain.LookupRemove | src/FixedSizeHashmap.java:202-214 | after `remove(key)` on a chain with distinct keys, `get(key)` finds nothing and every other key's value is unchanged |
| Chain.RemoveReturnsLookup | src/FixedSizeHashmap.java:202-214 | when `get(key)` finds a value, `remove(key)` takes out exactly one entry, the one holding the key and that value; when it finds nothing, `remove` leaves the chain unchanged |
| LinkedChain.Pair.constructor | src/FixedSizeHashmap.java:130-133 | a pair holds the given key and value |
| LinkedChain.Pair.SetValue | src/FixedSizeHashmap.java:143-145 | `setValue` replaces the value |
| LinkedChain.LLNode.constructor | src/FixedSizeHashmap.java:224-227 | a node holds the given pair and successor |
| LinkedChain.LLNode.Single | src/FixedSizeHashmap.java:229-232 | a node holds the given pair and no successor |
| LinkedChain.LinkedList.constructor | src/FixedSizeHashmap.java:152-155 | a fresh sentinel followed by one node holding the pair: a valid list whose chain is that one entry |
| LinkedChain.LinkedList.Add | src/FixedSizeHashmap.java:166-181 | the list's chain becomes `Upsert` of the old chain; it reports an insertion exactly when the key was absent, and then a fresh node for the argument pair is the first node |
| LinkedChain.LinkedList.UpdateAt | src/FixedSizeHashmap.java:172-175 | the found node's pair takes the new value; no node is linked or unlinked |
| LinkedChain.LinkedList.Prepend | src/FixedSizeHashmap.java:179 | a fresh node for the pair goes right after the sentinel, followed by the old nodes |
| LinkedChain.LinkedList.Get | src/FixedSizeHashmap.java:188-195 | the result is `Lookup` of the list's chain |
| LinkedChain.LinkedList.Remove | src/FixedSizeHashmap.java:202-214 | it returns `Lookup` of the old chain; the chain becomes `Remove` of the old chain, the one unlinked node being the first that held the key |
| LinkedChain.LinkedList.Unlink | src/FixedSizeHashmap.java:206-207 | pointing the predecessor past the node removes exactly that node and its entry from the list |
| Hashmap.LoadRatio | src/FixedSizeHashmap.java:119-121 | for a count within a non-zero capacity, `count / capacity` lies in `[0, 1]` and times the capacity gives back the count |
| Hashmap.FixedSizeHashmap.constructor | src/FixedSizeHashmap.java:19-31 | an empty, valid map over `2^k` null buckets, `k <= 30`: the smallest power of two reaching a capacity up to 2^30 (at least the capacity, and half of it below the capacity), and 2^30 above that |
| Hashmap.FixedSizeHashmap.EmptyValid | src/FixedSizeHashmap.java:30 | a table of null buckets with an empty ghost map satisfies the invariant |
| Hashmap.FixedSizeHashmap.IndexOf | src/FixedSizeHashmap.java:69 | the index computed is the key's bucket and lies within the array |
| Hashmap.FixedSizeHashmap.Size | src/FixedSizeHashmap.java:85-87 | `size()` is the number of keys held |
| Hashmap.FixedSizeHashmap.Load | src/FixedSizeHashmap.java:119-121 | `load()` times the capacity is the number of keys held, and it lies in `[0, 1]` |
| Hashmap.FixedSizeHashmap.Get | src/FixedSizeHashmap.java:94-99 | `get(key)` is the key's value in the map, or nothing; a null bucket gives nothing |
| Hashmap.FixedSizeHashmap.Set | src/FixedSizeHashmap.java:63-79 | it succeeds exactly when the count is below the capacity; then the key maps to the value and every other key is unchanged; otherwise the map is unchanged; the count stays the number of keys held |
| Hashmap.FixedSizeHashmap.Delete | src/FixedSizeHashmap.java:106-113 | it returns the key's old value, or nothing; the key is gone afterwards and every other key is unchanged; a null bucket changes nothing; the count stays the number of keys held |
| Hashmap.FixedSizeHashmap.AbstractsUpsert | src/FixedSizeHashmap.java:72-76 | putting the chain `add` produces into the key's bucket keeps the invariant with the key mapped to the new value; the key was new exactly when its chain lacked it |
| Hashmap.FixedSizeHashmap.AbstractsRemove | src/FixedSizeHashmap.java:111-112 | putting the chain `remove` produces into the key's bucket keeps the invariant with the key dropped; `remove` returns the key's value in the map |
| Hashmap.FixedSizeHashmap.NewBucket | src/FixedSizeHashmap.java:72-73 | a null bucket gets a new list holding the pair, and the map gains that association |
| Hashmap.FixedSizeHashmap.Install | src/FixedSizeHashmap.java:73 | storing a one-entry list in a null bucket keeps the invariant and adds that association |
| Hashmap.FixedSizeHashmap.AddToBucket | src/FixedSizeHashmap.java:74-77 | `add` on the bucket's list keeps the invariant and maps the key to the value; the count grows only for a new key |
| Hashmap.FixedSizeHashmap.RemoveFromBucket | src/FixedSizeHashmap.java:109-112 | `remove` on the bucket's list keeps the invariant, drops the key and returns its old value; the count drops only if a node was unlinked |
| AsWritten.SetAsWritten | src/FixedSizeHashmap.java:63-79 | as written, an accepted `set` always adds one to `_numItems`; a refused one changes nothing |
| AsWritten.DeleteAsWritten | src/FixedSizeHashmap.java:106-113 | as written, `delete` on a non-null bucket always takes one from `_numItems`; a null bucket changes nothing |
| AsWritten.UpdateCountedTwice | src/FixedSizeHashmap.java:75-77 | setting one key twice at capacity 2 counts 2 items while 1 is held, and a second key is then refused |
| AsWritten.AbsentDeleteCounted | src/FixedSizeHashmap.java:109-112 | deleting an absent key from a non-null bucket drops the count below the number held; the capacity can then be exceeded, and the count can go negative |
| AsWritten.ShiftLeft32 | src/FixedSizeHashmap.java:27 | `x <<= 1` on a Java `int` stays in the `int` range |
| AsWritten.SizeAfter | src/FixedSizeHashmap.java:25-28 | `_arraySize` after any number of turns of the loop as written is a Java `int` |
| AsWritten.SizeAfterExact | src/FixedSizeHashmap.java:25-28 | up to 30 doublings the size is exactly `2^n` |
| AsWritten.SizeAfterWraps | src/FixedSizeHashmap.java:25-28 | the 31st doubling gives `Integer.MIN_VALUE` and every later one gives 0 |
| AsWritten.SizingNeverStops | src/FixedSizeHashmap.java:25-28 | for a capacity above 2^30 the loop test holds after every number of turns |
| AsWritten.SizingAgrees | src/FixedSizeHashmap.java:25-28 | up to 2^30 the loop as written stops at the same size as `ArraySizeFor` |

## Left out

- `String.hashCode` is not modelled. The map takes any function `string -> bv32`, fixed for the life of the map, as a constructor argument. String equality is Dafny's `==` on `seq<char>`.
- Hashing.ArraySizeFor: above a capacity of 2^30 the Java loop never ends; the model stops at 2^30 buckets instead (see "## Findings").
- Null keys are not modelled. Java throws `NullPointerException` at `key.hashCode()` in `set`, `get` and `delete` (src/FixedSizeHashmap.java:69, 95, 107); a Dafny `string` is never null, so that path cannot arise.
- Values are of a type `T(!new)`, one whose values hold no references to objects, so that the ghost map of associations keeps its meaning across the heap changes of an operation. Java values of any class, possibly aliased with the map's own objects, are not covered.
- Hashmap.FixedSizeHashmap.Load: gives an exact rational, not a Java `float`, and requires a non-zero capacity. Java's `0f / 0f` is NaN, which has no counterpart here.
- `LinkedList._size` is not modelled. Nothing reads it, and it is not kept consistent (it grows on update, and not on insertion).
- LinkedChain.LinkedList.Add: returns whether a node was added, where Java always returns `true`. The corrected count needs that answer. Java's `false` branch, for a null pair, cannot arise, because arguments are never null here.
- Null values are not modelled. An absent key is `None`, and a stored value is never null, so Java's `null` from `get` or `delete` of a key holding `null` has no counterpart.
- `src/BTreeNode.java` is not part of this model. The map never uses it.
- `src/FixedSizeHashMapTest.java` is not part of this model. Its capacity, round-trip and load scenarios are the contracts of `Set`, `Get`, `Delete` and `Load`.
- `LinkedList.sentinel()` and the `Pair` getters `key()` and `value()` are field reads in the model.

## Findings

| source | as written | input that shows it | evidently intended | confidence | as-written member | corrected member |
|---|---|---|---|---|---|---|
| src/FixedSizeHashmap.java:75-77 | `_numItems++` after every accepted `set`, including one where `add` only replaced the value of a present key | capacity 2: `set("a",1)`, `set("a",2)` gives count 2 with 1 key held, and `set("b",3)` is refused | the count grows only when a key is inserted | high (proved; not executed) | AsWritten.UpdateCountedTwice | Hashmap.FixedSizeHashmap.Set |
| src/FixedSizeHashmap.java:109-112 | `_numItems--` whenever the bucket is non-null, even if the key is not in it | capacity 1: `set("a",1)`, `delete("b")` gives count 0 with 1 key held; `set("c",3)` is then accepted, so 2 keys are held; had a second `delete("b")` come instead of that `set`, the count would have been -1 | the count drops only when a node was unlinked | high (proved; not executed) | AsWritten.AbsentDeleteCounted | Hashmap.FixedSizeHashmap.Delete |
| src/FixedSizeHashmap.java:25-28 | `_arraySize <<= 1` on an `int` wraps to `Integer.MIN_VALUE` and then to 0, so for a capacity above 2^30 the loop never ends | `new FixedSizeHashmap(0x40000001)` | the doubling stops at 2^30, the largest power of two an `int` holds, so a larger capacity gets 2^30 buckets | high (proved; not executed) | AsWritten.SizingNeverStops | Hashing.ArraySizeFor |
