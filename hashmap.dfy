/** `FixedSizeHashmap` (src/FixedSizeHashmap.java): a table of `2^k`
    buckets, each empty (null) or a `LinkedList` collision chain, that maps
    string keys to values and refuses new work once it holds `capacity`
    items.  The map is proved against a ghost `map<string, T>`. */
module Hashmap {
  import opened Wrappers
  import opened Chain
  import opened LinkedChain
  import opened Hashing

  /** The ratio `load()` computes, for a count within the capacity. */
  lemma LoadRatio(n: int, c: int)
    requires c != 0 && 0 <= n <= (if c < 0 then 0 else c)
    ensures 0.0 <= (n as real) / (c as real) <= 1.0
    ensures ((n as real) / (c as real)) * (c as real) == n as real
  {
    if c < 0 {
      assert n == 0;
    } else {
      var r := (n as real) / (c as real);
      assert r * (c as real) == n as real;
    }
  }

  /** A bucket's list holds exactly chain `c`; an empty bucket holds the
      empty chain. */
  ghost predicate ChainIs<T>(l: LinkedList?<T>, c: seq<Entry<T>>)
    reads l, if l == null then {} else l.Repr
  {
    if l == null then c == [] else l.Valid() && l.contents == c
  }

  class FixedSizeHashmap<T(!new)> {
    const capacity: int
    var numItems: int
    const arraySize: nat
    /** `arraySize == 2^exponent`; the mask `arraySize - 1` is built from it. */
    const exponent: nat
    const items: array<LinkedList?<T>>
    /** `String.hashCode`, fixed for the life of the map. */
    const hashCode: string -> bv32
    /** The associations the map holds. */
    ghost var contents: map<string, T>
    /** The chain of each bucket, as a sequence. */
    ghost var buckets: seq<seq<Entry<T>>>
    ghost var Repr: set<object>
    /** The bucket each object of a list's footprint belongs to; it keeps
        the lists' footprints apart. */
    ghost var owner: map<object, nat>

    /** The bucket each key belongs in: `index(hash(key.hashCode()))`,
        named once so that the map's proofs need not look inside it. */
    ghost const slotOf: string -> nat

    /** `slotOf` agrees with the hash pipeline at `key`. */
    ghost predicate SlotAgrees(key: string)
      requires exponent <= 30
    {
      slotOf(key) == Slot(hashCode(key), exponent)
    }

    /** Every key of chain `c` belongs in bucket `b`. */
    ghost predicate Placed(c: seq<Entry<T>>, b: nat) {
      forall i :: 0 <= i < |c| ==> slotOf(c[i].key) == b
    }

    /** The abstract view: chain `b` of `bs` holds only keys of bucket `b`,
        and a key's association in `m` is the one `get` finds in its
        bucket's chain. */
    ghost predicate Abstracts(m: map<string, T>, bs: seq<seq<Entry<T>>>) {
      (forall key :: slotOf(key) < |bs|) &&
      (forall b :: 0 <= b < |bs| ==> Placed(bs[b], b)) &&
      (forall key {:trigger MapGet(m, key)} :: MapGet(m, key) == Lookup(bs[slotOf(key)], key))
    }

    lemma UpsertPlaced(c: seq<Entry<T>>, key: string, value: T, b: nat)
      requires Placed(c, b) && slotOf(key) == b
      ensures Placed(Upsert(c, key, value), b)
    {
      var r := Upsert(c, key, value);
      match Find(c, key)
      case Some(i) =>
        assert forall j :: 0 <= j < |r| ==> r[j].key == c[j].key;
      case None =>
        assert forall j :: 0 < j < |r| ==> r[j] == c[j - 1];
    }

    lemma RemovePlaced(c: seq<Entry<T>>, key: string, b: nat)
      requires Placed(c, b)
      ensures Placed(Chain.Remove(c, key), b)
    {
      match Find(c, key)
      case None =>
      case Some(i) =>
        var r := Chain.Remove(c, key);
        assert forall j :: 0 <= j < |r| ==> r[j] == (if j < i then c[j] else c[j + 1]);
    }

    /** `set` on the abstract view: putting the chain `add` produces into
        the key's bucket associates the key with the value and leaves every
        other key alone; the key was new exactly when its chain did not
        hold it. */
    lemma AbstractsUpsert(m: map<string, T>, bs: seq<seq<Entry<T>>>, key: string, value: T,
                          c: seq<Entry<T>>)
      requires Abstracts(m, bs) && DistinctKeys(bs[slotOf(key)])
      requires c == Upsert(bs[slotOf(key)], key, value)
      ensures Abstracts(m[key := value], bs[slotOf(key) := c])
      ensures key in m <==> Find(bs[slotOf(key)], key).Some?
    {
      var b := slotOf(key);
      var bs' := bs[b := c];
      UpsertPlaced(bs[b], key, value, b);
      forall other {:trigger MapGet(m[key := value], other)}
        ensures MapGet(m[key := value], other) == Lookup(bs'[slotOf(other)], other)
      {
        LookupUpsert(bs[b], key, value, other);
        assert MapGet(m, other) == Lookup(bs[slotOf(other)], other);
      }
      assert MapGet(m, key) == Lookup(bs[b], key);
    }

    /** `delete` on the abstract view: removing the key from its bucket's
        chain drops its association and leaves every other key alone. */
    lemma AbstractsRemove(m: map<string, T>, bs: seq<seq<Entry<T>>>, key: string)
      requires Abstracts(m, bs) && DistinctKeys(bs[slotOf(key)])
      ensures var b := slotOf(key);
        Abstracts(m - {key}, bs[b := Chain.Remove(bs[b], key)])
      ensures MapGet(m, key) == Lookup(bs[slotOf(key)], key)
    {
      var b := slotOf(key);
      var bs' := bs[b := Chain.Remove(bs[b], key)];
      RemovePlaced(bs[b], key, b);
      forall other {:trigger MapGet(m - {key}, other)}
        ensures MapGet(m - {key}, other) == Lookup(bs'[slotOf(other)], other)
      {
        LookupRemove(bs[b], key, other);
        assert MapGet(m, other) == Lookup(bs[slotOf(other)], other);
      }
      assert MapGet(m, key) == Lookup(bs[b], key);
    }

    /** Bucket `b`'s list, when there is one, belongs to the map and every
        object of its footprint is tagged with `b`. */
    ghost predicate Owned(b: nat)
      requires b < items.Length
      reads this, items, Repr
    {
      items[b] != null ==>
        items[b] in Repr && items[b].Repr <= Repr &&
        forall o :: o in items[b].Repr ==> o in owner && owner[o] == b
    }

    ghost predicate Valid()
      reads this, Repr
    {
      this in Repr && items in Repr && this !in owner && items !in owner &&
      exponent <= 30 && arraySize == Pow2(exponent) && items.Length == arraySize &&
      (forall key :: SlotAgrees(key)) &&
      |buckets| == items.Length &&
      (forall b :: 0 <= b < items.Length ==> Owned(b) && ChainIs(items[b], buckets[b])) &&
      Abstracts(contents, buckets) &&
      numItems == |contents| &&
      numItems <= (if capacity < 0 then 0 else capacity)
    }


    /** The map is valid again after an operation that changed bucket
        `index` only: its list is a valid list of keys of that bucket (a new
        one, or the old one grown or shrunk), no object of another bucket
        changed, every object of the list is tagged with `index`, and the
        abstract view was updated to match. */
    twostate lemma Rebucket(index: nat)
      requires old(Valid()) && index < items.Length
      requires forall b :: 0 <= b < items.Length && b != index ==> items[b] == old(items[b])
      requires items[index] != null && items[index].Valid()
      requires old(items[index]) != null ==> old(items[index]) == items[index]
      requires forall o :: o in items[index].Repr && o in old(Repr) ==>
        old(items[index]) != null && o in old(items[index].Repr)
      requires forall o :: o in old(Repr) && o != this && o != items ==>
        (old(items[index]) != null && o in old(items[index].Repr)) || unchanged(o)
      requires forall o :: o in items[index].Repr ==> o in owner && owner[o] == index
      requires forall o :: o in old(Repr) && o in old(owner) && o !in items[index].Repr ==>
        o in owner && owner[o] == old(owner[o])
      requires this !in owner && items !in owner
      requires Repr == old(Repr) + items[index].Repr
      requires buckets == old(buckets)[index := items[index].contents]
      requires Abstracts(contents, buckets)
      requires numItems == |contents| && numItems <= (if capacity < 0 then 0 else capacity)
      ensures Valid()
    {
      forall b | 0 <= b < items.Length
        ensures Owned(b) && ChainIs(items[b], buckets[b])
      {
        if b != index {
          assert old(Owned(b)) && old(ChainIs(items[b], buckets[b]));
          if items[b] != null {
            assert unchanged(items[b].Repr) by {
              forall o | o in old(items[b].Repr)
                ensures unchanged(o)
              {
                assert old(owner[o]) == b;
              }
            }
            forall o | o in items[b].Repr
              ensures o in owner && owner[o] == b
            {
              assert o in old(Repr);
            }
          }
        }
      }
    }

    /** `new FixedSizeHashmap(size)`: an empty map whose table size is the
        smallest power of two that is at least the capacity, or 2^30 for a
        capacity above that (where the Java loop never ends). */
    constructor (size: int, hashCode: string -> bv32)
      ensures Valid() && fresh(Repr)
      ensures contents == map[] && capacity == size && this.hashCode == hashCode
      ensures forall b :: 0 <= b < items.Length ==> items[b] == null
      ensures arraySize == Pow2(exponent) && exponent <= 30
      ensures size <= MaxArraySize ==> size <= arraySize
      ensures size > MaxArraySize ==> arraySize == MaxArraySize
      ensures exponent > 0 ==> arraySize < 2 * size
    {
      capacity := size;
      numItems := 0;
      var n, k := ArraySizeFor(size);
      assert k > 0 ==> n < 2 * size;
      arraySize, exponent := n, k;
      items := new LinkedList?<T>[n](_ => null);
      this.hashCode := hashCode;
      slotOf := SlotFunction(hashCode, k);
      contents, owner := map[], map[];
      buckets := seq(n, _ => []);
      new;
      Repr := {this, items};
      EmptyValid();
    }

    /** A freshly built table: every bucket null, nothing held. */
    lemma EmptyValid()
      requires Repr == {this, items} && owner == map[]
      requires exponent <= 30 && arraySize == Pow2(exponent) && items.Length == arraySize
      requires forall key :: slotOf(key) == Slot(hashCode(key), exponent)
      requires forall b :: 0 <= b < items.Length ==> items[b] == null
      requires buckets == seq(items.Length, _ => [])
      requires contents == map[] && numItems == 0
      ensures Valid()
    {
      forall b | 0 <= b < items.Length
        ensures Owned(b) && ChainIs(items[b], buckets[b])
      {
      }
      assert forall key :: SlotAgrees(key);
      forall key {:trigger MapGet(contents, key)}
        ensures MapGet(contents, key) == Lookup(buckets[slotOf(key)], key)
      {
        assert buckets[slotOf(key)] == [];
      }
    }

    /** `index(hash(key.hashCode()))`. */
    method IndexOf(key: string) returns (index: nat)
      requires Valid()
      ensures index == slotOf(key) && index < items.Length
    {
      index := Index(SupplementalHash(hashCode(key)), exponent);
      assert SlotAgrees(key);
    }

    /** `size()`: the number of associations held. */
    function Size(): (n: int)
      requires Valid()
      reads this, Repr
      ensures n == |contents|
    {
      numItems
    }

    /** `load()`: the fraction of the capacity in use.  A zero capacity
        (where Java divides 0 by 0) is left out. */
    function Load(): (r: real)
      requires Valid() && capacity != 0
      reads this, Repr
      ensures r * (capacity as real) == |contents| as real
      ensures 0.0 <= r <= 1.0
    {
      LoadRatio(numItems, capacity);
      (numItems as real) / (capacity as real)
    }

    /** `get(key)`: the value associated with the key, if any. */
    method Get(key: string) returns (r: Option<T>)
      requires Valid()
      ensures r == MapGet(contents, key)
    {
      var index := IndexOf(key);
      assert ChainIs(items[index], buckets[index]);
      assert MapGet(contents, key) == Lookup(buckets[index], key);
      var listAtIndex := items[index];
      if listAtIndex == null {
        return None;
      }
      r := listAtIndex.Get(key);
    }

    /** `delete(key)`: an empty bucket holds nothing to remove; otherwise the
        key's node is unlinked from its bucket's list and its value is
        returned.  The count drops only when a node was removed. */
    method Delete(key: string) returns (r: Option<T>)
      requires Valid()
      modifies Repr
      ensures Valid() && Repr == old(Repr)
      ensures r == MapGet(old(contents), key)
      ensures contents == old(contents) - {key}
      ensures numItems == |contents|
    {
      var index := IndexOf(key);
      var listAtIndex := items[index];
      if listAtIndex == null {
        assert ChainIs(items[index], buckets[index]);
        assert MapGet(contents, key) == Lookup(buckets[index], key);
        assert contents - {key} == contents;
        return None;
      }
      r := RemoveFromBucket(index, key);
    }

    /** `set(key, value)`: refused once `numItems` has reached the capacity
        (an update of a present key included); otherwise the key is
        associated with the value. */
    method Set(key: string, value: T) returns (ok: bool)
      requires Valid()
      modifies Repr
      ensures Valid() && fresh(Repr - old(Repr))
      ensures ok <==> old(numItems) < capacity
      ensures contents == if ok then old(contents)[key := value] else old(contents)
      ensures numItems == |contents|
    {
      if numItems >= capacity {
        return false;
      }
      var p := new Pair(key, value);
      var index := IndexOf(key);
      var listAtIndex := items[index];
      if listAtIndex == null {
        NewBucket(index, p);
      } else {
        AddToBucket(index, p);
      }
      return true;
    }

    /** The branch of `delete` for a non-empty bucket: the list's
        `remove`. */
    method RemoveFromBucket(index: nat, key: string) returns (r: Option<T>)
      requires Valid() && index < items.Length && items[index] != null && index == slotOf(key)
      modifies Repr
      ensures Valid() && Repr == old(Repr)
      ensures r == MapGet(old(contents), key)
      ensures contents == old(contents) - {key}
    {
      var l := items[index];
      assert Owned(index) && ChainIs(l, buckets[index]);
      assert this !in l.Repr && items !in l.Repr;
      ghost var m, bs := contents, buckets;
      AbstractsRemove(m, bs, key);
      r := l.Remove(key);
      assert this !in l.Repr && items !in l.Repr && items[index] == l;
      assert r.Some? <==> key in m;
      assert (m - {key}).Keys == m.Keys - {key};
      Commit(if r.Some? then numItems - 1 else numItems, owner, Repr, m - {key}, bs[index := l.contents]);
      Rebucket(index);
    }

    /** The branch of `set` for an empty bucket: a new list holding `p`. */
    method NewBucket(index: nat, p: Pair<T>)
      requires Valid() && numItems < capacity
      requires index < items.Length && items[index] == null && index == slotOf(p.key)
      requires p !in Repr
      modifies this, items
      ensures Valid() && fresh(Repr - old(Repr) - {p})
      ensures contents == old(contents)[p.key := p.value]
    {
      var l := new LinkedList(p);
      Install(index, l, p.key, p.value);
    }

    /** Stores the new list `l`, holding the one pair `(k, v)`, in the empty
        bucket `index`. */
    method Install(index: nat, l: LinkedList<T>, ghost k: string, ghost v: T)
      requires Valid() && numItems < capacity
      requires index < items.Length && items[index] == null && index == slotOf(k)
      requires l.Valid() && l.contents == [Entry(k, v)] && l.Repr !! Repr
      modifies this, items
      ensures Valid() && Repr == old(Repr) + l.Repr
      ensures contents == old(contents)[k := v]
    {
      assert ChainIs(items[index], buckets[index]);
      UpsertIntoEmpty(k, v);
      AbstractsUpsert(contents, buckets, k, v, l.contents);
      assert this !in l.Repr && items !in l.Repr;
      items[index] := l;
      Commit(numItems + 1, owner + map o | o in l.Repr :: index, Repr + l.Repr,
        contents[k := v], buckets[index := l.contents]);
      Rebucket(index);
    }

    /** A setter for the count and the ghost view an operation on one
        bucket arrived at.  The count it stores is where `_numItems++` of
        `set` and `_numItems--` of `delete` take place, corrected to move
        only when a node was linked or unlinked.  It is a method of its own
        only to keep the proofs of its callers small: one call that changes
        `this` costs the verifier far less than several field writes after
        the list has been modified. */
    method Commit(n: int, ghost own: map<object, nat>, ghost R: set<object>, ghost m: map<string, T>,
                  ghost bs: seq<seq<Entry<T>>>)
      modifies this
      ensures numItems == n && owner == own && Repr == R && contents == m && buckets == bs
    {
      numItems, owner, Repr, contents, buckets := n, own, R, m, bs;
    }

    /** The branch of `set` for a non-empty bucket: the list's `add`. */
    method AddToBucket(index: nat, p: Pair<T>)
      requires Valid() && numItems < capacity
      requires index < items.Length && items[index] != null && index == slotOf(p.key)
      requires p !in Repr
      modifies Repr
      ensures Valid() && fresh(Repr - old(Repr) - {p})
      ensures contents == old(contents)[p.key := old(p.value)]
    {
      var l := items[index];
      assert Owned(index) && ChainIs(l, buckets[index]);
      assert this !in l.Repr && items !in l.Repr;
      ghost var m, bs, v := contents, buckets, p.value;
      var inserted := l.Add(p);
      ghost var node: object := if inserted then l.nodes[0] else l;
      assert this !in l.Repr && items !in l.Repr && items[index] == l;
      AbstractsUpsert(m, bs, p.key, v, l.contents);
      Commit(if inserted then numItems + 1 else numItems,
        if inserted then owner[node := index][p := index] else owner,
        if inserted then Repr + {node, p} else Repr,
        m[p.key := v], bs[index := l.contents]);
      Rebucket(index);
    }
  }
}
