/**
  The doubly-linked list of somajo/doubly_linked_list.py.  Nodes are heap
  objects whose `prev`/`next` fields are updated in place; the list keeps
  `first`, `last` and `size`.  The ghost sequence `Nodes` is the chain from
  `first` to `last`, and `Repr` is the list object plus those nodes.
*/
module LinkedList {
  import opened Wrappers
  import opened Seqs

  /** What a node is built from: a value, or another node whose value is copied. */
  datatype Payload<T> = Value(v: T) | CopyOf(source: Node<T>)

  class Node<T> {
    var prev: Node?<T>
    var next: Node?<T>
    var value: T
    const list: DLL?<T>

    /** `DLLNode(val, prv, nxt, lst)`: links itself after `prv` and before `nxt`. */
    constructor (val: Payload<T>, prv: Node?<T>, nxt: Node?<T>, lst: DLL?<T>)
      modifies prv, nxt
      ensures prev == prv && next == nxt && list == lst
      ensures value == (match val case Value(v) => v case CopyOf(n) => n.value)
      ensures prv != null && prv != nxt ==> prv.next == this && prv.prev == old(prv.prev)
      ensures nxt != null && nxt != prv ==> nxt.prev == this && nxt.next == old(nxt.next)
      ensures prv != null && prv == nxt ==> prv.next == this && prv.prev == this
      ensures prv != null ==> prv.value == old(prv.value)
      ensures nxt != null ==> nxt.value == old(nxt.value)
    {
      value := match val case Value(v) => v case CopyOf(n) => n.value;
      prev := prv;
      next := nxt;
      list := lst;
      new;
      if prv != null {
        prv.next := this;
      }
      if nxt != null {
        nxt.prev := this;
      }
    }
  }

  /** The position of `n` in `ns`. */
  ghost function IndexIn<T>(ns: seq<Node<T>>, n: Node<T>): (k: nat)
    requires n in ns
    ensures k < |ns| && ns[k] == n
  {
    if ns[0] == n then 0 else 1 + IndexIn(ns[1..], n)
  }

  /**
    The test of `_find_matching_node` on one value: a node whose
    ignore-attribute equals the ignore value is skipped, otherwise it matches
    when its attribute equals `value`.
  */
  predicate Matches<T, A(==), B(==)>(v: T, attr: T -> A, value: A, ignore: Option<(T -> B, B)>)
  {
    !(ignore.Some? && ignore.value.0(v) == ignore.value.1) && attr(v) == value
  }

  /** No node occurs twice in `ns`. */
  ghost predicate Distinct<T>(ns: seq<Node<T>>) {
    forall i, j :: 0 <= i < j < |ns| ==> ns[i] != ns[j]
  }

  lemma DistinctIndex<T>(ns: seq<Node<T>>, i: nat, j: nat)
    requires Distinct(ns) && i < |ns| && j < |ns| && ns[i] == ns[j]
    ensures i == j
  {
  }

  lemma DistinctInsert<T>(ns: seq<Node<T>>, k: nat, n: Node<T>)
    requires Distinct(ns) && k <= |ns| && n !in ns
    ensures Distinct(ns[..k] + [n] + ns[k..])
  {
    var r := ns[..k] + [n] + ns[k..];
    forall i, j | 0 <= i < j < |r|
      ensures r[i] != r[j]
    {
      assert r[i] == (if i < k then ns[i] else if i == k then n else ns[i - 1]);
      assert r[j] == (if j < k then ns[j] else if j == k then n else ns[j - 1]);
    }
  }

  lemma DistinctRemove<T>(ns: seq<Node<T>>, k: nat)
    requires Distinct(ns) && k < |ns|
    ensures Distinct(ns[..k] + ns[k + 1..]) && ns[k] !in ns[..k] + ns[k + 1..]
  {
    var r := ns[..k] + ns[k + 1..];
    forall i, j | 0 <= i < j < |r|
      ensures r[i] != r[j]
    {
      assert r[i] == (if i < k then ns[i] else ns[i + 1]);
      assert r[j] == (if j < k then ns[j] else ns[j + 1]);
    }
    forall i | 0 <= i < |r|
      ensures r[i] != ns[k]
    {
      assert r[i] == (if i < k then ns[i] else ns[i + 1]);
    }
  }

  class DLL<T> {
    var first: Node?<T>
    var last: Node?<T>
    var size: int
    ghost var Nodes: seq<Node<T>>
    ghost var Repr: set<object>
    /** The values held by the list, from `first` to `last`. */
    ghost var Contents: seq<T>

    /** The pointer and size invariant of the list. */
    ghost predicate Valid()
      reads this, Repr
    {
      && this in Repr
      && (forall i :: 0 <= i < |Nodes| ==> Nodes[i] in Repr)
      && size == |Nodes|
      && (Nodes == [] ==> first == null && last == null)
      && (Nodes != [] ==> first == Nodes[0] && last == Nodes[|Nodes| - 1])
      && Distinct(Nodes)
      && |Contents| == |Nodes|
      && (forall i :: 0 <= i < |Nodes| ==> Nodes[i].value == Contents[i])
      && (forall i :: 0 <= i < |Nodes| ==> Nodes[i].list == this)
      && (Nodes != [] ==> Nodes[0].prev == null && Nodes[|Nodes| - 1].next == null)
      && (forall i :: 0 < i < |Nodes| ==> Nodes[i].prev == Nodes[i - 1])
      && (forall i :: 0 <= i < |Nodes| - 1 ==> Nodes[i].next == Nodes[i + 1])
    }

    ghost function IndexOf(n: Node<T>): (k: nat)
      reads this
      requires n in Nodes
      ensures k < |Nodes| && Nodes[k] == n
    {
      IndexIn(Nodes, n)
    }

    /** `DLL(iterable)`. */
    constructor (items: seq<T>)
      ensures Valid() && fresh(Repr)
      ensures Contents == items
    {
      first, last, size := null, null, 0;
      Nodes, Contents, Repr := [], [], {this};
      new;
      Extend(items);
    }

    /** The list is valid again after `c` was linked in after the old `last`. */
    twostate lemma AppendedValid(new o: seq<Node<T>>, new c: Node<T>)
      requires old(Valid()) && o == old(Nodes) && c !in o
      requires Repr == old(Repr) + {c}
      requires Nodes == o + [c] && size == |Nodes|
      requires first == (if o == [] then c else old(first)) && last == c
      requires c.list == this && c.prev == old(last) && c.next == null
      requires o != [] ==> o[|o| - 1].next == c && o[|o| - 1].prev == old(o[|o| - 1].prev) && o[|o| - 1].list == this
      requires forall i :: 0 <= i < |o| ==> o[i].value == old(o[i].value)
      requires forall i :: 0 <= i < |o| - 1 ==>
        o[i].prev == old(o[i].prev) && o[i].next == old(o[i].next)
      requires Contents == old(Contents) + [c.value]
      ensures Valid()
    {
      assert forall i :: 0 <= i < |o| ==> Nodes[i] == o[i];
      DistinctInsert(o, |o|, c);
      assert o[..|o|] + [c] + o[|o|..] == Nodes;
      forall i | 0 < i < |Nodes|
        ensures Nodes[i].prev == Nodes[i - 1]
      {
        if i < |o| {
          assert o[i].prev == old(o[i].prev);
        }
      }
    }

    /**
      The list is valid again after a node `c` was linked in at position `k`
      of the old chain `o`, provided every other node kept its fields.
    */
    twostate lemma InsertedValid(new o: seq<Node<T>>, k: int, new c: Node<T>)
      requires 0 <= k && old(Valid()) && o == old(Nodes) && k < |o| && c !in o
      requires Repr == old(Repr) + {c}
      requires Nodes == o[..k] + [c] + o[k..] && size == |Nodes|
      requires first == (if k == 0 then c else old(first)) && last == old(last)
      requires c.list == this && c.prev == (if k == 0 then null else o[k - 1]) && c.next == o[k]
      requires o[k].prev == c && o[k].next == old(o[k].next) && o[k].list == this
      requires k > 0 ==> o[k - 1].next == c && o[k - 1].prev == old(o[k - 1].prev) && o[k - 1].list == this
      requires forall i :: 0 <= i < |o| ==> o[i].value == old(o[i].value)
      requires forall i :: 0 <= i < |o| && i != k && i != k - 1 ==>
        o[i].prev == old(o[i].prev) && o[i].next == old(o[i].next)
      requires Contents == old(Contents)[..k] + [c.value] + old(Contents)[k..]
      ensures Valid()
    {
      DistinctInsert(o, k, c);
      assert forall i :: 0 <= i < k ==> Nodes[i] == o[i];
      assert forall i :: k < i < |Nodes| ==> Nodes[i] == o[i - 1];
      forall i | 0 < i < |Nodes|
        ensures Nodes[i].prev == Nodes[i - 1]
      {
        if i < k {
          assert o[i].prev == old(o[i].prev);
        } else if i > k + 1 {
          assert Nodes[i] == o[i - 1] && o[i - 1].prev == old(o[i - 1].prev);
        }
      }
      forall i | 0 <= i < |Nodes| - 1
        ensures Nodes[i].next == Nodes[i + 1]
      {
        if i < k - 1 {
          assert o[i].next == old(o[i].next);
        } else if i > k {
          assert Nodes[i] == o[i - 1] && o[i - 1].next == old(o[i - 1].next);
        }
      }
    }

    /**
      The list is valid again after the node at position `k` of the old
      chain `o` was unlinked, provided every other node kept its fields.
    */
    twostate lemma RemovedValid(new o: seq<Node<T>>, k: int)
      requires 0 <= k && old(Valid()) && o == old(Nodes) && k < |o| && Repr == old(Repr)
      requires Nodes == o[..k] + o[k + 1..] && size == |Nodes|
      requires first == (if k == 0 then old(o[k].next) else old(first))
      requires last == (if k == |o| - 1 then old(o[k].prev) else old(last))
      requires k > 0 ==> o[k - 1].next == old(o[k].next) && o[k - 1].prev == old(o[k - 1].prev) && o[k - 1].list == this
      requires k < |o| - 1 ==> o[k + 1].prev == old(o[k].prev) && o[k + 1].next == old(o[k + 1].next) && o[k + 1].list == this
      requires forall i :: 0 <= i < |o| ==> o[i].value == old(o[i].value)
      requires forall i :: 0 <= i < |o| && i != k - 1 && i != k + 1 ==>
        o[i].prev == old(o[i].prev) && o[i].next == old(o[i].next)
      requires Contents == old(Contents)[..k] + old(Contents)[k + 1..]
      ensures Valid()
    {
      DistinctRemove(o, k);
      assert forall i :: 0 <= i < k ==> Nodes[i] == o[i];
      assert forall i :: k <= i < |Nodes| ==> Nodes[i] == o[i + 1];
      forall i | 0 < i < |Nodes|
        ensures Nodes[i].prev == Nodes[i - 1]
      {
        if i < k {
          assert o[i].prev == old(o[i].prev);
        } else if i > k {
          assert Nodes[i] == o[i + 1] && o[i + 1].prev == old(o[i + 1].prev);
        }
      }
      forall i | 0 <= i < |Nodes| - 1
        ensures Nodes[i].next == Nodes[i + 1]
      {
        if i < k - 1 {
          assert o[i].next == old(o[i].next);
        } else if i >= k {
          assert Nodes[i] == o[i + 1] && o[i + 1].next == old(o[i + 1].next);
        }
      }
    }

    /** `append`: a new node after the old `last`; `first` moves only on an empty list. */
    method Append(item: T)
      requires Valid()
      modifies Repr
      ensures Valid() && Repr == old(Repr) + {last}
      ensures |Nodes| == |old(Nodes)| + 1 && Nodes[..|old(Nodes)|] == old(Nodes) && fresh(last)
      ensures last == Nodes[|Nodes| - 1] && last.value == item
      ensures old(first) != null ==> first == old(first)
      ensures Contents == old(Contents) + [item]
    {
      ghost var o := Nodes;
      var node := new Node(Value(item), last, null, this);
      if first == null {
        first := node;
      }
      last := node;
      size := size + 1;
      Nodes := Nodes + [node];
      Contents := Contents + [item];
      Repr := Repr + {node};
      AppendedValid(o, node);
    }


    /** `extend`: append every item in order. */
    method Extend(items: seq<T>)
      requires Valid()
      modifies Repr
      ensures Valid() && fresh(Repr - old(Repr))
      ensures |Nodes| == |old(Nodes)| + |items| && Nodes[..|old(Nodes)|] == old(Nodes)
      ensures Contents == old(Contents) + items
    {
      for i := 0 to |items|
        invariant Valid() && fresh(Repr - old(Repr))
        invariant |Nodes| == |old(Nodes)| + i && Nodes[..|old(Nodes)|] == old(Nodes)
        invariant Contents == old(Contents) + items[..i]
      {
        Append(items[i]);
      }
    }



    /** `insert_left`: a new node immediately before `refNode`, which sits at position `k`. */
    method InsertLeft(item: T, refNode: Node<T>, ghost k: nat) returns (ghost node: Node<T>)
      requires Valid() && k < |Nodes| && Nodes[k] == refNode
      modifies Repr
      ensures Valid() && fresh(node) && Repr == old(Repr) + {node}
      ensures node.value == item && node.next == refNode
      ensures Nodes == old(Nodes)[..k] + [node] + old(Nodes)[k..]
      ensures Contents == old(Contents)[..k] + [item] + old(Contents)[k..]
      ensures old(first) == refNode ==> first == node
      ensures old(first) != refNode ==> first == old(first)
      ensures last == old(last) && refNode.next == old(refNode.next) && refNode.value == old(refNode.value)
    {
      ghost var o := Nodes;
      assert k > 0 ==> o[k].prev == o[k - 1];
      assert k == 0 ==> o[k].prev == null;
      var created := new Node(Value(item), refNode.prev, refNode, this);
      refNode.prev := created;
      if first == refNode {
        first := created;
      }
      size := size + 1;
      Nodes := o[..k] + [created] + o[k..];
      Contents := Contents[..k] + [item] + Contents[k..];
      Repr := Repr + {created};
      node := created;
      InsertedValid(o, k, created);
    }


    /** `remove` of a node whose place in the chain `a + m + [node] + b` is known. */
    method RemoveMid(node: Node<T>, ghost a: seq<Node<T>>, ghost m: seq<Node<T>>, ghost b: seq<Node<T>>,
                     ghost ca: seq<T>, ghost cm: seq<T>, ghost cb: seq<T>)
      requires Valid() && Nodes == a + m + ([node] + b) && Contents == ca + cm + ([node.value] + cb)
      requires |ca| == |a| && |cm| == |m|
      modifies Repr
      ensures Valid() && Repr == old(Repr)
      ensures Nodes == a + m + b && Contents == ca + cm + cb
      ensures node.next == old(node.next)
    {
      ghost var k := |a| + |m|;
      ghost var ns, cs, v := Nodes, Contents, node.value;
      assert ns[k] == node;
      Remove(node, k);
      DropMiddle(Nodes, ns, a, m, node, b);
      DropMiddle(Contents, cs, ca, cm, v, cb);
    }

    /**
      `remove`: unlinks `node`, found at position `k` of the chain; the
      removed node keeps its own `prev` and `next`.
    */
    method Remove(node: Node<T>, ghost k: nat)
      requires Valid() && k < |Nodes| && Nodes[k] == node
      modifies Repr
      ensures Valid() && Repr == old(Repr)
      ensures Nodes == old(Nodes)[..k] + old(Nodes)[k + 1..]
      ensures Contents == old(Contents)[..k] + old(Contents)[k + 1..]
      ensures node.next == old(node.next) && node.prev == old(node.prev)
      ensures old(first) == node ==> first == old(node.next)
      ensures old(first) != node ==> first == old(first)
      ensures old(last) == node ==> last == old(node.prev)
      ensures old(last) != node ==> last == old(last)
    {
      ghost var o := Nodes;
      assert k > 0 ==> o[k].prev == o[k - 1];
      assert k == 0 ==> o[k].prev == null;
      assert k < |o| - 1 ==> o[k].next == o[k + 1];
      assert k == |o| - 1 ==> o[k].next == null;
      if first == node {
        first := node.next;
      }
      if last == node {
        last := node.prev;
      }
      if node.prev != null {
        node.prev.next := node.next;
      }
      if node.next != null {
        node.next.prev := node.prev;
      }
      size := size - 1;
      Nodes := o[..k] + o[k + 1..];
      Contents := Contents[..k] + Contents[k + 1..];
      RemovedValid(o, k);
    }

    /**
      Replaces the value a node holds: how the tokenizer passes rewrite the
      token of a node in place (`t.value.text = ...`).
    */
    method SetValue(node: Node<T>, v: T)
      requires Valid() && node in Nodes
      modifies this, node
      ensures Valid() && Nodes == old(Nodes) && Repr == old(Repr)
      ensures Contents == old(Contents)[old(IndexOf(node)) := v]
      ensures node.prev == old(node.prev) && node.next == old(node.next)
      ensures first == old(first) && last == old(last)
    {
      ghost var k := IndexOf(node);
      node.value := v;
      Contents := Contents[k := v];
      forall i | 0 <= i < |Nodes|
        ensures Nodes[i].value == Contents[i]
      {
        if i != k {
          assert Nodes[i] != Nodes[k];
        }
      }
    }

    /** `len(dll)`. */
    method Len() returns (n: int)
      requires Valid()
      ensures n == |Contents|
    {
      n := size;
    }

    /** `to_list`: follows `next` from `first` and collects the values. */
    method ToList() returns (values: seq<T>)
      requires Valid()
      ensures values == Contents
    {
      values := [];
      var current := first;
      var i := 0;
      while current != null
        invariant 0 <= i <= |Nodes|
        invariant Valid()
        invariant current == (if i < |Nodes| then Nodes[i] else null)
        invariant values == Contents[..i]
        decreases |Nodes| - i
      {
        assert i < |Nodes| - 1 ==> Nodes[i].next == Nodes[i + 1];
        values := values + [current.value];
        current := current.next;
        i := i + 1;
      }
    }

    /**
      `_find_matching_node`: walks from `item` along `next` (or `prev` when
      not `forward`) and returns the nearest node strictly beyond `item`
      that matches, or null.
    */
    method FindMatchingNode<A(==), B(==)>(item: Node<T>, attr: T -> A, value: A,
                                          ignore: Option<(T -> B, B)>, forward: bool)
      returns (r: Node?<T>)
      requires Valid() && item in Nodes
      ensures forward && r == null ==>
        forall j :: IndexOf(item) < j < |Nodes| ==> !Matches(Nodes[j].value, attr, value, ignore)
      ensures !forward && r == null ==>
        forall j :: 0 <= j < IndexOf(item) ==> !Matches(Nodes[j].value, attr, value, ignore)
      ensures r != null ==> r in Nodes && Matches(r.value, attr, value, ignore)
      ensures r != null && forward ==> IndexOf(item) < IndexOf(r) && forall j :: IndexOf(item) < j < IndexOf(r) ==> !Matches(Nodes[j].value, attr, value, ignore)
      ensures r != null && !forward ==> IndexOf(r) < IndexOf(item) && forall j :: IndexOf(r) < j < IndexOf(item) ==> !Matches(Nodes[j].value, attr, value, ignore)
    {
      ghost var start := IndexOf(item);
      var current := item;
      ghost var i := start;
      while (if forward then current.next else current.prev) != null
        invariant 0 <= i < |Nodes| && Nodes[i] == current
        invariant forward ==> start <= i && forall j :: start < j <= i ==> !Matches(Nodes[j].value, attr, value, ignore)
        invariant !forward ==> i <= start && forall j :: i <= j < start ==> !Matches(Nodes[j].value, attr, value, ignore)
        decreases if forward then |Nodes| - i else i
      {
        if forward {
          assert i < |Nodes| - 1 && Nodes[i].next == Nodes[i + 1];
          current := current.next;
          i := i + 1;
        } else {
          assert i > 0 && Nodes[i].prev == Nodes[i - 1];
          current := current.prev;
          i := i - 1;
        }
        if ignore.Some? && ignore.value.0(current.value) == ignore.value.1 {
          continue;
        }
        if attr(current.value) == value {
          assert IndexOf(current) == i by { DistinctIndex(Nodes, i, IndexOf(current)); }
          return current;
        }
      }
      assert i < |Nodes| - 1 ==> Nodes[i].next == Nodes[i + 1];
      assert 0 < i ==> Nodes[i].prev == Nodes[i - 1];
      r := null;
    }

    /** Building a list from `items` and reading it back gives `items`. */
    static method RoundTrip(items: seq<T>) returns (r: seq<T>)
      ensures r == items
    {
      var dll := new DLL(items);
      r := dll.ToList();
    }

    /** `next_matching`: runs the forward search and discards its result. */
    method NextMatching<A(==), B(==)>(item: Node<T>, attr: T -> A, value: A, ignore: Option<(T -> B, B)>)
      returns (r: Node?<T>)
      requires Valid() && item in Nodes
      ensures r == null
    {
      var _ := FindMatchingNode(item, attr, value, ignore, true);
      r := null;
    }

    /** `previous_matching`: runs the backward search and discards its result. */
    method PreviousMatching<A(==), B(==)>(item: Node<T>, attr: T -> A, value: A, ignore: Option<(T -> B, B)>)
      returns (r: Node?<T>)
      requires Valid() && item in Nodes
      ensures r == null
    {
      var _ := FindMatchingNode(item, attr, value, ignore, false);
      r := null;
    }
  }
}
