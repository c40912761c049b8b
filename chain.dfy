/** The abstract view of one collision chain of `FixedSizeHashmap`
    (the private `LinkedList` of src/FixedSizeHashmap.java): the sequence of
    (key, value) pairs from the node after the sentinel to the end, and the
    three list operations on that view.  The heap implementation in module
    `LinkedChain` is proved against these functions. */
module Chain {
  import opened Wrappers

  /** One `Pair` of the source, seen as a value. */
  datatype Entry<T> = Entry(key: string, value: T)

  /** No key occurs twice in the chain. */
  predicate DistinctKeys<T>(c: seq<Entry<T>>) {
    forall i, j :: 0 <= i < j < |c| ==> c[i].key != c[j].key
  }

  /** The keys of the chain, in order. */
  function Keys<T>(c: seq<Entry<T>>): (ks: seq<string>)
    ensures |ks| == |c|
    ensures forall i :: 0 <= i < |c| ==> ks[i] == c[i].key
  {
    if |c| == 0 then [] else [c[0].key] + Keys(c[1..])
  }

  /** The position of the first entry with the given key: the node the
      scans of `add`, `get` and `remove` stop at. */
  function Find<T>(c: seq<Entry<T>>, key: string): (r: Option<nat>)
    ensures r.Some? ==> r.value < |c| && c[r.value].key == key
    ensures r.Some? ==> forall j :: 0 <= j < r.value ==> c[j].key != key
    ensures r.None? ==> forall j :: 0 <= j < |c| ==> c[j].key != key
  {
    if |c| == 0 then None
    else if c[0].key == key then Some(0)
    else match Find(c[1..], key)
      case None => None
      case Some(i) => Some(i + 1)
  }

  /** `LinkedList.get`: the value of the first entry with the key, if any. */
  function Lookup<T>(c: seq<Entry<T>>, key: string): (r: Option<T>)
    ensures r.Some? <==> exists i :: 0 <= i < |c| && c[i].key == key
    ensures r.Some? ==> exists i :: 0 <= i < |c| && c[i] == Entry(key, r.value)
  {
    match Find(c, key)
      case None => None
      case Some(i) => Some(c[i].value)
  }

  /** `LinkedList.add`: the value of an entry with the key is replaced in
      place; otherwise the new entry goes to the head of the chain. */
  function Upsert<T>(c: seq<Entry<T>>, key: string, value: T): (r: seq<Entry<T>>)
    ensures Lookup(r, key) == Some(value)
    ensures |r| == if Find(c, key).Some? then |c| else |c| + 1
  {
    match Find(c, key)
      case Some(i) =>
        FindFirst(c[i := Entry(key, value)], key, i);
        c[i := Entry(key, value)]
      case None => [Entry(key, value)] + c
  }

  /** `LinkedList.remove`: the first entry with the key is unlinked. */
  function Remove<T>(c: seq<Entry<T>>, key: string): (r: seq<Entry<T>>)
    ensures multiset(r) <= multiset(c)
  {
    match Find(c, key)
      case Some(i) =>
        assert c == c[..i] + [c[i]] + c[i + 1..];
        c[..i] + c[i + 1..]
      case None => c
  }

  // ---------------------------------------------------------------------
  // Properties of the three operations.

  /** Find characterised: the first position holding the key. */
  lemma FindFirst<T>(c: seq<Entry<T>>, key: string, i: nat)
    requires i < |c| && c[i].key == key
    requires forall j :: 0 <= j < i ==> c[j].key != key
    ensures Find(c, key) == Some(i)
  {
  }

  /** In a chain without duplicate keys, the key found is the only one. */
  lemma FindUnique<T>(c: seq<Entry<T>>, key: string, i: nat)
    requires DistinctKeys(c) && i < |c| && c[i].key == key
    ensures Find(c, key) == Some(i)
  {
    FindFirst(c, key, i);
  }

  /** `add` on a key already present: the chain keeps its length and its key
      order, that entry carries the new value and every other entry is
      untouched. */
  lemma UpsertPresent<T>(c: seq<Entry<T>>, key: string, value: T)
    requires Find(c, key).Some?
    ensures var i := Find(c, key).value;
      var r := Upsert(c, key, value);
      |r| == |c| && Keys(r) == Keys(c) && r[i] == Entry(key, value) &&
      forall j :: 0 <= j < |c| && j != i ==> r[j] == c[j]
  {
    var i := Find(c, key).value;
    var r := Upsert(c, key, value);
    assert Keys(r) == Keys(c) by {
      assert forall j :: 0 <= j < |c| ==> Keys(r)[j] == Keys(c)[j];
    }
  }

  /** `add` on a new key: the new entry is at the head and the old chain
      follows unchanged. */
  lemma UpsertAbsent<T>(c: seq<Entry<T>>, key: string, value: T)
    requires Find(c, key).None?
    ensures Upsert(c, key, value) == [Entry(key, value)] + c
    ensures Keys(Upsert(c, key, value)) == [key] + Keys(c)
  {
    var r := Upsert(c, key, value);
    assert Keys(r) == [key] + Keys(c) by {
      assert forall j :: 0 <= j < |r| ==> Keys(r)[j] == ([key] + Keys(c))[j];
    }
  }

  /** `add` on an empty chain gives the one-entry chain. */
  lemma UpsertIntoEmpty<T>(key: string, value: T)
    ensures Upsert([], key, value) == [Entry(key, value)]
  {
    UpsertAbsent([], key, value);
    assert [Entry(key, value)] + [] == [Entry(key, value)];
  }

  /** After `add(key, value)`, `get(key)` is the new value and every other
      key keeps its value. */
  lemma LookupUpsert<T>(c: seq<Entry<T>>, key: string, value: T, other: string)
    ensures Lookup(Upsert(c, key, value), other) ==
      if other == key then Some(value) else Lookup(c, other)
  {
    var r := Upsert(c, key, value);
    match Find(c, key)
    case Some(i) =>
      if other == key {
        FindFirst(r, key, i);
      } else {
        match Find(c, other)
        case None =>
          assert Find(r, other).None? by {
            assert forall j :: 0 <= j < |r| ==> r[j].key == c[j].key;
          }
        case Some(p) =>
          assert r[p] == c[p];
          FindFirst(r, other, p);
      }
    case None =>
      if other != key {
        match Find(c, other)
        case None =>
          assert Find(r, other).None? by {
            assert forall j :: 0 < j < |r| ==> r[j] == c[j - 1];
          }
        case Some(p) =>
          assert forall j :: 0 < j < |r| ==> r[j] == c[j - 1];
          FindFirst(r, other, p + 1);
      }
  }

  /** `add` keeps the keys of a chain pairwise distinct. */
  lemma UpsertDistinct<T>(c: seq<Entry<T>>, key: string, value: T)
    requires DistinctKeys(c)
    ensures DistinctKeys(Upsert(c, key, value))
  {
    var r := Upsert(c, key, value);
    match Find(c, key)
    case Some(i) =>
      assert forall j :: 0 <= j < |r| ==> r[j].key == c[j].key;
    case None =>
      assert forall j :: 0 < j < |r| ==> r[j] == c[j - 1];
  }

  /** `remove` takes out exactly the found entry and keeps the others in
      their original order; on an absent key the chain is unchanged. */
  lemma RemoveShape<T>(c: seq<Entry<T>>, key: string)
    ensures Find(c, key).Some? ==>
      var i := Find(c, key).value;
      Remove(c, key) == c[..i] + c[i + 1..] && |Remove(c, key)| == |c| - 1
    ensures Find(c, key).None? ==> Remove(c, key) == c
  {}

  /** `remove` keeps the keys of a chain pairwise distinct. */
  lemma RemoveDistinct<T>(c: seq<Entry<T>>, key: string)
    requires DistinctKeys(c)
    ensures DistinctKeys(Remove(c, key))
  {
    match Find(c, key)
    case None =>
    case Some(i) =>
      var r := Remove(c, key);
      assert forall j :: 0 <= j < |r| ==> r[j] == (if j < i then c[j] else c[j + 1]);
  }

  /** After `remove(key)` on a chain without duplicate keys, `get(key)` finds
      nothing and every other key keeps its value. */
  lemma LookupRemove<T>(c: seq<Entry<T>>, key: string, other: string)
    requires DistinctKeys(c)
    ensures Lookup(Remove(c, key), other) ==
      if other == key then None else Lookup(c, other)
  {
    match Find(c, key)
    case None =>
      if other == key {
        assert Lookup(c, key).None?;
      }
    case Some(i) =>
      var r := Remove(c, key);
      assert forall j :: 0 <= j < |r| ==> r[j] == (if j < i then c[j] else c[j + 1]);
      if other == key {
        assert forall j :: 0 <= j < |r| ==> r[j].key != key;
      } else {
        match Find(c, other)
        case None =>
          assert Find(r, other).None?;
        case Some(p) =>
          if p < i {
            FindFirst(r, other, p);
          } else {
            FindFirst(r, other, p - 1);
          }
      }
  }

  /** The value `remove` returns is the one `get` would have returned, and
      the chain loses exactly the entry holding it; when `get` finds
      nothing, `remove` leaves the chain as it was. */
  lemma RemoveReturnsLookup<T>(c: seq<Entry<T>>, key: string)
    ensures Lookup(c, key).Some? ==>
      multiset(c) == multiset(Remove(c, key)) + multiset{Entry(key, Lookup(c, key).value)}
    ensures Lookup(c, key).None? ==> Remove(c, key) == c
  {
    match Find(c, key)
    case None =>
    case Some(i) =>
      assert c == c[..i] + [c[i]] + c[i + 1..];
  }
}
