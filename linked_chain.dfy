/** The heap structures behind each bucket of `FixedSizeHashmap`
    (src/FixedSizeHashmap.java): the mutable `Pair`, the `LLNode` and the
    sentinel-headed singly linked `LinkedList` whose `add`, `get` and
    `remove` walk the `next` pointers.  Each list is proved against the
    sequence functions of module `Chain`. */
module LinkedChain {
  import opened Wrappers
  import opened Chain

  /** A (key, value) association; `setValue` is the only mutation. */
  class Pair<T> {
    const key: string
    var value: T

    constructor (k: string, v: T)
      ensures key == k && value == v
    {
      key, value := k, v;
    }

    method SetValue(v: T)
      modifies this
      ensures value == v
    {
      value := v;
    }
  }

  /** A list node; the sentinel is the one node whose pair is null. */
  class LLNode<T> {
    const val: Pair?<T>
    var next: LLNode?<T>

    constructor (v: Pair?<T>, n: LLNode?<T>)
      ensures val == v && next == n
    {
      val, next := v, n;
    }

    constructor Single(v: Pair?<T>)
      ensures val == v && next == null
    {
      val, next := v, null;
    }
  }

  /** The node after position `i` of `ns`, or `last` after the final one. */
  ghost function Succ<T>(ns: seq<LLNode<T>>, i: int, last: LLNode?<T>): LLNode?<T> {
    if 0 <= i && i + 1 < |ns| then ns[i + 1] else last
  }

  /** The nodes `ns` are linked in order by their `next` fields, and the
      final one points to `last`. */
  ghost predicate Seg<T>(ns: seq<LLNode<T>>, last: LLNode?<T>)
    reads set i | 0 <= i < |ns| :: ns[i]
  {
    forall i :: 0 <= i < |ns| ==> ns[i].next == Succ(ns, i, last)
  }

  /** The first node of `ns`, or `last` when there is none. */
  ghost function Head<T>(ns: seq<LLNode<T>>, last: LLNode?<T>): LLNode?<T> {
    if |ns| == 0 then last else ns[0]
  }

  lemma SegCons<T>(x: LLNode<T>, ns: seq<LLNode<T>>, last: LLNode?<T>)
    requires Seg(ns, last) && x.next == Head(ns, last)
    ensures Seg([x] + ns, last)
  {
    var r := [x] + ns;
    assert forall i :: 0 < i < |r| ==> r[i] == ns[i - 1] && Succ(r, i, last) == Succ(ns, i - 1, last);
  }

  lemma SegTail<T>(x: LLNode<T>, ns: seq<LLNode<T>>, last: LLNode?<T>)
    requires Seg([x] + ns, last)
    ensures Seg(ns, last) && x.next == Head(ns, last)
  {
    var r := [x] + ns;
    assert r[0] == x;
    assert forall i :: 0 <= i < |ns| ==> ns[i] == r[i + 1] && Succ(ns, i, last) == Succ(r, i + 1, last);
  }

  /** Every node of `ns` holds a pair, and `cs` lists those pairs as values. */
  ghost predicate Holds<T>(ns: seq<LLNode<T>>, cs: seq<Entry<T>>)
    reads set i | 0 <= i < |ns| :: ns[i].val
  {
    |ns| == |cs| &&
    forall i :: 0 <= i < |ns| ==>
      ns[i].val != null && cs[i] == Entry(ns[i].val.key, ns[i].val.value)
  }

  lemma HoldsCons<T>(x: LLNode<T>, ns: seq<LLNode<T>>, cs: seq<Entry<T>>)
    requires Holds(ns, cs) && x.val != null
    ensures Holds([x] + ns, [Entry(x.val.key, x.val.value)] + cs)
  {
    var r, rc := [x] + ns, [Entry(x.val.key, x.val.value)] + cs;
    assert forall i :: 0 < i < |r| ==> r[i] == ns[i - 1] && rc[i] == cs[i - 1];
  }

  lemma HoldsRemove<T>(ns: seq<LLNode<T>>, cs: seq<Entry<T>>, k: nat)
    requires Holds(ns, cs) && k < |ns|
    ensures Holds(ns[..k] + ns[k + 1..], cs[..k] + cs[k + 1..])
  {
    var r, rc := ns[..k] + ns[k + 1..], cs[..k] + cs[k + 1..];
    assert forall i :: 0 <= i < |r| ==>
      r[i] == (if i < k then ns[i] else ns[i + 1]) && rc[i] == (if i < k then cs[i] else cs[i + 1]);
  }

  /** Pointing the `i`th node of a linked sequence past its successor, and
      leaving every other node alone, links the sequence without that
      successor. */
  twostate lemma SegUnlink<T>(new s: seq<LLNode<T>>, i: nat)
    requires forall j :: 0 <= j < |s| ==> old(allocated(s[j]))
    requires old(Seg(s, null)) && i + 1 < |s|
    requires s[i].next == old(s[i + 1].next)
    requires forall j :: 0 <= j < |s| && j != i ==> s[j].next == old(s[j].next)
    ensures Seg(s[..i + 1] + s[i + 2..], null)
  {
    var r := s[..i + 1] + s[i + 2..];
    forall j | 0 <= j < |r|
      ensures r[j].next == Succ(r, j, null)
    {
      if j < i {
        assert r[j] == s[j] && r[j + 1] == s[j + 1];
        assert old(s[j].next) == Succ(s, j, null);
      } else if j == i {
        assert r[j] == s[i];
        assert old(s[i + 1].next) == Succ(s, i + 1, null);
        assert Succ(r, j, null) == Succ(s, i + 1, null);
      } else {
        assert r[j] == s[j + 1];
        assert old(s[j + 1].next) == Succ(s, j + 1, null);
        assert Succ(r, j, null) == Succ(s, j + 1, null);
      }
    }
  }

  /** Cutting a node out keeps every remaining node and pair in `R`. */
  lemma CutInRepr<T>(ns: seq<LLNode<T>>, R: set<object>, k: nat)
    requires k < |ns| && forall j :: 0 <= j < |ns| ==> ns[j] in R && ns[j].val in R
    ensures var r := ns[..k] + ns[k + 1..];
      forall j :: 0 <= j < |r| ==> r[j] in R && r[j].val in R
  {
    var r := ns[..k] + ns[k + 1..];
    assert forall j :: 0 <= j < |r| ==> r[j] == if j < k then ns[j] else ns[j + 1];
  }

  /** How cutting the `i`th node out of `ns` looks on the list headed by `x`. */
  lemma SpineCut<X>(x: X, ns: seq<X>, i: nat)
    requires i < |ns|
    ensures ([x] + ns)[..i + 1] + ([x] + ns)[i + 2..] == [x] + (ns[..i] + ns[i + 1..])
  {
    var s := [x] + ns;
    var l, r := s[..i + 1] + s[i + 2..], [x] + (ns[..i] + ns[i + 1..]);
    assert |l| == |r|;
    assert forall j :: 0 <= j < |l| ==> l[j] == r[j];
  }

  /** A collision chain: `sentinel.next` is the first data node. */
  class LinkedList<T> {
    const sentinel: LLNode<T>
    /** The data nodes, in list order (the sentinel excluded). */
    ghost var nodes: seq<LLNode<T>>
    /** The (key, value) pairs the data nodes hold, in list order. */
    ghost var contents: seq<Entry<T>>
    ghost var Repr: set<object>

    ghost predicate Valid()
      reads this, Repr
    {
      this in Repr && sentinel in Repr && sentinel.val == null &&
      (forall i :: 0 <= i < |nodes| ==> nodes[i] in Repr && nodes[i].val in Repr) &&
      Seg([sentinel] + nodes, null) &&
      Holds(nodes, contents) &&
      DistinctKeys(contents)
    }

    /** The nodes of a valid list are pairwise distinct, the sentinel
        included: their pairs carry distinct keys. */
    lemma NodesDistinct(k: int)
      requires Valid() && -1 <= k < |nodes|
      ensures k >= 0 ==> nodes[k] != sentinel
      ensures forall j :: 0 <= j < |nodes| && j != k ==>
        nodes[j] != (if k < 0 then sentinel else nodes[k])
    {
      if k >= 0 {
        assert forall j :: 0 <= j < |nodes| && j != k ==>
          nodes[j].val.key == contents[j].key != contents[k].key == nodes[k].val.key;
      }
    }

    /** The same, stated on the whole spine `[sentinel] + nodes`. */
    lemma SpineDistinct(k: nat)
      requires Valid() && k <= |nodes|
      ensures var s := [sentinel] + nodes;
        forall j :: 0 <= j < |s| && j != k ==> s[j] != s[k]
    {
      var s := [sentinel] + nodes;
      NodesDistinct(k - 1);
      assert forall j :: 0 < j < |s| ==> s[j] == nodes[j - 1];
    }

    /** `new LinkedList(p)`: a fresh sentinel followed by the one pair. */
    constructor (pair: Pair<T>)
      ensures Valid() && fresh(Repr - {pair}) && pair in Repr
      ensures contents == [Entry(pair.key, pair.value)]
      ensures pair.value == old(pair.value)
    {
      sentinel := new LLNode.Single(null);
      nodes, contents := [], [];
      new;
      Repr := {this, sentinel};
      var _ := Add(pair);
    }

    /** `add(pair)`: scans for the key; on a hit the node's own pair takes
        the new value (the argument pair is not linked), otherwise a node
        for the argument pair is prepended after the sentinel.  The result
        says whether a node was added. */
    method Add(pair: Pair<T>) returns (inserted: bool)
      requires Valid() && pair !in Repr
      modifies Repr
      ensures Valid()
      ensures contents == Upsert(old(contents), pair.key, old(pair.value))
      ensures inserted <==> Find(old(contents), pair.key).None?
      ensures pair.value == old(pair.value)
      ensures inserted ==>
        fresh(nodes[0]) && nodes == [nodes[0]] + old(nodes) && Repr == old(Repr) + {nodes[0], pair}
      ensures !inserted ==> nodes == old(nodes) && Repr == old(Repr)
    {
      SegTail(sentinel, nodes, null);
      var p := sentinel.next;
      ghost var i := 0;
      while p != null && p.val.key != pair.key
        invariant 0 <= i <= |nodes|
        invariant p == if i < |nodes| then nodes[i] else null
        invariant forall j :: 0 <= j < i ==> contents[j].key != pair.key
        decreases |nodes| - i
      {
        assert Seg(nodes, null);
        p := p.next;
        i := i + 1;
      }
      if p != null {
        FindFirst(contents, pair.key, i);
        UpdateAt(p, i, pair.value);
        return false;
      }
      Prepend(pair);
      return true;
    }

    /** The update branch of `add`: the pair of `p`, the `i`th node, takes
        the new value. */
    method UpdateAt(p: LLNode<T>, ghost i: nat, v: T)
      requires Valid() && i < |nodes| && p == nodes[i]
      modifies this, p.val
      ensures Valid() && nodes == old(nodes) && Repr == old(Repr)
      ensures contents == old(contents[i := Entry(contents[i].key, v)])
    {
      var key := contents[i].key;
      UpsertDistinct(contents, key, v);
      FindUnique(contents, key, i);
      NodesDistinct(i);
      assert forall j :: 0 <= j < |nodes| && j != i ==> nodes[j].val != nodes[i].val;
      p.val.SetValue(v);
      contents := contents[i := Entry(key, v)];
    }

    /** The insert branch of `add`: a node for `pair` goes right after the
        sentinel. */
    method Prepend(pair: Pair<T>)
      requires Valid() && pair !in Repr && Find(contents, pair.key).None?
      modifies this, sentinel
      ensures Valid()
      ensures contents == [Entry(pair.key, pair.value)] + old(contents)
      ensures fresh(nodes[0]) && nodes == [nodes[0]] + old(nodes) && Repr == old(Repr) + {nodes[0], pair}
    {
      NodesDistinct(-1);
      SegTail(sentinel, nodes, null);
      var node := new LLNode(pair, sentinel.next);
      sentinel.next := node;
      SegCons(node, nodes, null);
      SegCons(sentinel, [node] + nodes, null);
      HoldsCons(node, nodes, contents);
      UpsertDistinct(contents, pair.key, pair.value);
      nodes := [node] + nodes;
      contents := [Entry(pair.key, pair.value)] + contents;
      Repr := Repr + {node, pair};
    }

    /** `get(key)`: the value of the first node holding the key. */
    method Get(key: string) returns (r: Option<T>)
      requires Valid()
      ensures r == Lookup(contents, key)
    {
      SegTail(sentinel, nodes, null);
      var p := sentinel.next;
      ghost var i := 0;
      while p != null
        invariant 0 <= i <= |nodes|
        invariant p == if i < |nodes| then nodes[i] else null
        invariant forall j :: 0 <= j < i ==> contents[j].key != key
        decreases |nodes| - i
      {
        if p.val.key == key {
          FindFirst(contents, key, i);
          return Some(p.val.value);
        }
        assert Seg(nodes, null);
        p := p.next;
        i := i + 1;
      }
      return None;
    }

    /** `remove(key)`: walks with a trailing pointer and unlinks the first
        node holding the key, returning its value. */
    method Remove(key: string) returns (r: Option<T>)
      requires Valid()
      modifies Repr
      ensures Valid() && Repr == old(Repr)
      ensures r == Lookup(old(contents), key)
      ensures contents == Chain.Remove(old(contents), key)
      ensures match Find(old(contents), key)
        case Some(i) => nodes == old(nodes[..i] + nodes[i + 1..])
        case None => nodes == old(nodes)
    {
      SegTail(sentinel, nodes, null);
      var p := sentinel;
      ghost var i := 0;
      while p.next != null && p.next.val.key != key
        invariant 0 <= i <= |nodes|
        invariant p == if i == 0 then sentinel else nodes[i - 1]
        invariant p.next == if i < |nodes| then nodes[i] else null
        invariant forall j :: 0 <= j < i ==> contents[j].key != key
        decreases |nodes| - i
      {
        assert Seg(nodes, null);
        p := p.next;
        i := i + 1;
      }
      if p.next == null {
        return None;
      }
      FindFirst(contents, key, i);
      var value := p.next.val.value;
      Unlink(p, i);
      return Some(value);
    }

    /** The unlinking step of `remove`: `p`, the node before the `i`th data
        node (the sentinel when `i` is 0), is pointed past it. */
    method Unlink(p: LLNode<T>, ghost i: nat)
      requires Valid() && i < |nodes| && p == ([sentinel] + nodes)[i]
      modifies this, p
      ensures Valid() && Repr == old(Repr)
      ensures nodes == old(nodes[..i] + nodes[i + 1..])
      ensures contents == old(contents[..i] + contents[i + 1..])
    {
      ghost var s := [sentinel] + nodes;
      SpineDistinct(i);
      SpineCut(sentinel, nodes, i);
      ghost var rest, restc := nodes[..i] + nodes[i + 1..], contents[..i] + contents[i + 1..];
      CutInRepr(nodes, Repr, i);
      HoldsRemove(nodes, contents, i);
      FindUnique(contents, contents[i].key, i);
      RemoveDistinct(contents, contents[i].key);
      assert p.next == s[i + 1];
      p.next := p.next.next;
      SegUnlink(s, i);
      nodes, contents := rest, restc;
    }
  }
}
