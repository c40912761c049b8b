/** The item count and the table sizing of `FixedSizeHashmap`
    (src/FixedSizeHashmap.java) exactly as written, on values, with inputs
    that show where they part from what the class documents.  Module
    `Hashmap` keeps the corrected behaviour. */
module AsWritten {
  import opened Wrappers
  import opened Chain
  import opened Hashing

  /** The state `set` and `delete` touch: `_numItems` and the buckets, each
      null (`None`) or the chain of its list. */
  datatype Table<T> = Table(numItems: int, buckets: seq<Option<seq<Entry<T>>>>)

  /** The empty table `new FixedSizeHashmap(size)` builds over `n` buckets. */
  function Empty<T>(n: nat): (t: Table<T>)
    ensures t.numItems == 0 && |t.buckets| == n
    ensures forall b :: 0 <= b < n ==> t.buckets[b].None?
  {
    Table(0, seq(n, _ => None))
  }

  /** The number of (key, value) pairs the buckets really hold. */
  function Held<T>(bs: seq<Option<seq<Entry<T>>>>): nat {
    if |bs| == 0 then 0
    else (match bs[0] case None => 0 case Some(c) => |c|) + Held(bs[1..])
  }

  /** `set(key, value)` as written, `slot` being `index(hash(key.hashCode()))`:
      `_numItems` goes up on every accepted call, also when `add` only
      replaced the value of a key already present. */
  function SetAsWritten<T>(t: Table<T>, capacity: int, slot: nat, key: string, value: T)
    : (r: (Table<T>, bool))
    requires slot < |t.buckets|
    ensures r.1 <==> t.numItems < capacity
    ensures r.1 ==> r.0.numItems == t.numItems + 1
    ensures !r.1 ==> r.0 == t
  {
    if t.numItems >= capacity then (t, false)
    else
      var c := match t.buckets[slot] case None => [] case Some(c) => c;
      (Table(t.numItems + 1, t.buckets[slot := Some(Upsert(c, key, value))]), true)
  }

  /** `delete(key)` as written: `_numItems` goes down whenever the bucket
      is non-null, also when its list does not hold the key. */
  function DeleteAsWritten<T>(t: Table<T>, slot: nat, key: string): (r: (Table<T>, Option<T>))
    requires slot < |t.buckets|
    ensures t.buckets[slot].None? ==> r == (t, None)
    ensures t.buckets[slot].Some? ==> r.0.numItems == t.numItems - 1
  {
    match t.buckets[slot]
    case None => (t, None)
    case Some(c) =>
      (Table(t.numItems - 1, t.buckets[slot := Some(Chain.Remove(c, key))]), Lookup(c, key))
  }

  /** Setting the same key twice in a map of capacity 2 counts two items
      while one pair is held, and a second key is then refused. */
  lemma UpdateCountedTwice(slot: nat, slotB: nat)
    requires slot < 2 && slotB < 2
    ensures var t1 := SetAsWritten(Empty<int>(2), 2, slot, "a", 1).0;
      var t2 := SetAsWritten(t1, 2, slot, "a", 2).0;
      t2.numItems == 2 && Held(t2.buckets) == 1 &&
      !SetAsWritten(t2, 2, slotB, "b", 3).1
  {
    var t0 := Empty<int>(2);
    UpsertIntoEmpty("a", 1);
    var t1 := SetAsWritten(t0, 2, slot, "a", 1).0;
    assert t1.buckets[slot] == Some([Entry("a", 1)]);
    FindFirst([Entry("a", 1)], "a", 0);
    assert [Entry("a", 1)][0 := Entry("a", 2)] == [Entry("a", 2)];
    var t2 := SetAsWritten(t1, 2, slot, "a", 2).0;
    assert t2.buckets[slot] == Some([Entry("a", 2)]);
    var other := if slot == 0 then 1 else 0;
    assert t2.buckets[other] == None;
    assert Held(t2.buckets) == 1 by {
      var bs := t2.buckets;
      assert bs[1..][1..] == [];
      assert Held(bs[1..]) == (if slot == 1 then 1 else 0);
    }
  }

  /** In a map of capacity 1 (one bucket), deleting an absent key `"b"`
      after setting `"a"` drops the count to 0 although `"a"` is still
      held; a further `set` of `"c"` is then accepted, so two pairs are
      held against a capacity of 1.  Had a second `delete("b")` come
      instead of that `set`, the count would have gone to -1. */
  lemma AbsentDeleteCounted()
    ensures var t1 := SetAsWritten(Empty<int>(1), 1, 0, "a", 1).0;
      var t2 := DeleteAsWritten(t1, 0, "b").0;
      var t3 := SetAsWritten(t2, 1, 0, "c", 3);
      t2.numItems == 0 && Held(t2.buckets) == 1 &&
      t3.1 && Held(t3.0.buckets) == 2 &&
      DeleteAsWritten(t2, 0, "b").0.numItems == -1
  {
    var t0 := Empty<int>(1);
    assert t0.buckets == [None];
    UpsertIntoEmpty("a", 1);
    var t1 := SetAsWritten(t0, 1, 0, "a", 1).0;
    assert t1.buckets == [Some([Entry("a", 1)])];
    var t2 := DeleteAsWritten(t1, 0, "b").0;
    assert Find([Entry("a", 1)], "b").None?;
    assert t2.buckets == [Some([Entry("a", 1)])];
    assert Held(t2.buckets) == 1 by {
      assert t2.buckets[1..] == [];
    }
    var t3 := SetAsWritten(t2, 1, 0, "c", 3);
    assert Find([Entry("a", 1)], "c").None?;
    UpsertAbsent([Entry("a", 1)], "c", 3);
    assert [Entry("c", 3)] + [Entry("a", 1)] == [Entry("c", 3), Entry("a", 1)];
    assert t3.0.buckets == [Some([Entry("c", 3), Entry("a", 1)])];
    assert t3.0.buckets[1..] == [];
  }

  /** `x <<= 1` on a Java `int` in the range of `int`: the doubled value
      wrapped into [-2^31, 2^31). */
  function ShiftLeft32(x: int): (y: int)
    ensures -0x8000_0000 <= y < 0x8000_0000
  {
    var u := (2 * x) % 0x1_0000_0000;
    if u >= 0x8000_0000 then u - 0x1_0000_0000 else u
  }

  lemma ShiftLeft32Wraps()
    ensures ShiftLeft32(0x4000_0000) == -0x8000_0000
    ensures ShiftLeft32(-0x8000_0000) == 0
    ensures ShiftLeft32(0) == 0
  {
    assert 0x8000_0000 % 0x1_0000_0000 == 0x8000_0000;
    assert (-0x1_0000_0000) % 0x1_0000_0000 == 0;
  }

  /** `_arraySize` after `n` turns of the constructor's doubling loop. */
  function SizeAfter(n: nat): (s: int)
    ensures -0x8000_0000 <= s < 0x8000_0000
  {
    if n == 0 then 1 else ShiftLeft32(SizeAfter(n - 1))
  }

  /** Up to 30 turns the doubling is exact. */
  lemma {:induction false} SizeAfterExact(n: nat)
    requires n <= 30
    ensures SizeAfter(n) == Pow2(n)
  {
    if n > 0 {
      SizeAfterExact(n - 1);
      Pow2Monotone(n, 30);
      Pow2Of30();
    }
  }

  /** Turn 31 wraps to `Integer.MIN_VALUE`, and from turn 32 on the size
      stays 0. */
  lemma {:induction false} SizeAfterWraps(n: nat)
    requires n >= 31
    ensures SizeAfter(n) == if n == 31 then -0x8000_0000 else 0
  {
    ShiftLeft32Wraps();
    if n == 31 {
      SizeAfterExact(30);
      Pow2Of30();
    } else {
      SizeAfterWraps(n - 1);
    }
  }

  /** For a capacity above 2^30 the loop test `_arraySize < _capacity`
      holds after every number of turns: the constructor never returns. */
  lemma SizingNeverStops(capacity: int, n: nat)
    requires MaxArraySize < capacity < 0x8000_0000
    ensures SizeAfter(n) < capacity
  {
    if n <= 30 {
      SizeAfterExact(n);
      Pow2Monotone(n, 30);
      Pow2Of30();
    } else {
      SizeAfterWraps(n);
    }
  }

  /** Up to 2^30 the loop as written stops where `ArraySizeFor` does: at
      the first `k` whose `2^k` reaches the capacity. */
  lemma SizingAgrees(capacity: int, k: nat)
    requires capacity <= MaxArraySize && k <= 30
    requires k > 0 ==> Pow2(k - 1) < capacity
    requires capacity <= Pow2(k)
    ensures SizeAfter(k) == Pow2(k) && capacity <= SizeAfter(k)
    ensures forall j :: 0 <= j < k ==> SizeAfter(j) < capacity
  {
    SizeAfterExact(k);
    forall j | 0 <= j < k
      ensures SizeAfter(j) < capacity
    {
      SizeAfterExact(j);
      Pow2Monotone(j, k - 1);
    }
  }
}
