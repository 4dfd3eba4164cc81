/**
 The doubly linked lists of the eviction algorithms (pkg/eviction/arc.go arcList and arcGhostList,
 pkg/eviction/cawolfu.go CAWOLFULinkedList). Removed nodes may be linked into another list.
 */
module LinkedList {

  datatype Entry<V> = Entry(key: string, value: V)

  class Node<V> {
    const key: string
    var value: V
    var prev: Node?<V>
    var next: Node?<V>

    constructor (key: string, value: V)
      ensures this.key == key && this.value == value && prev == null && next == null
    {
      this.key, this.value, prev, next := key, value, null, null;
    }
  }

  // ---------- node sequences ----------

  /** `s` without position `i`. */
  ghost function Cut<T>(s: seq<T>, i: nat): seq<T>
    requires i < |s|
  {
    s[..i] + s[i + 1..]
  }

  /** `r` is `s` without position `i`, element by element. */
  ghost predicate IsCut<T>(r: seq<T>, s: seq<T>, i: nat) {
    && i < |s| && |r| == |s| - 1
    && (forall k {:trigger r[k]} :: 0 <= k < i ==> r[k] == s[k])
    && (forall k {:trigger r[k]} :: i <= k < |r| ==> r[k] == s[k + 1])
  }

  lemma CutSeq<T>(s: seq<T>, i: nat) returns (r: seq<T>)
    requires i < |s|
    ensures IsCut(r, s, i)
  {
    r := Cut(s, i);
  }

  lemma CutUnique<T>(r: seq<T>, s: seq<T>, i: nat)
    requires IsCut(r, s, i)
    ensures r == Cut(s, i)
  {
  }

  /** The nodes are distinct, and `repr` is the set of them. */
  ghost predicate Owned<V>(nodes: seq<Node<V>>, repr: set<Node<V>>) {
    && (forall i :: 0 <= i < |nodes| ==> nodes[i] in repr)
    && (forall n :: n in repr ==> n in nodes)
    && (forall i, j :: 0 <= i < j < |nodes| ==> nodes[i] != nodes[j])
  }

  /** Both link directions and both ends agree with the sequence. */
  ghost predicate Linked<V>(nodes: seq<Node<V>>, head: Node?<V>, tail: Node?<V>)
    reads nodes
  {
    && head == (if |nodes| == 0 then null else nodes[0])
    && tail == (if |nodes| == 0 then null else nodes[|nodes| - 1])
    && (forall i {:trigger nodes[i].prev} :: 0 <= i < |nodes| ==> nodes[i].prev == if i == 0 then null else nodes[i - 1])
    && (forall i {:trigger nodes[i].next} :: 0 <= i < |nodes| ==> nodes[i].next == if i == |nodes| - 1 then null else nodes[i + 1])
  }

  /** Linked except for position `i`, whose neighbours are joined to each other. */
  ghost predicate Skipping<V>(nodes: seq<Node<V>>, head: Node?<V>, tail: Node?<V>, i: nat)
    requires i < |nodes|
    reads nodes
  {
    && head == (if i > 0 then nodes[0] else if |nodes| > 1 then nodes[1] else null)
    && tail == (if i < |nodes| - 1 then nodes[|nodes| - 1] else if |nodes| > 1 then nodes[|nodes| - 2] else null)
    && (forall j {:trigger nodes[j].prev} :: 0 <= j < |nodes| && j != i ==>
          nodes[j].prev == if j == 0 then null else if j != i + 1 then nodes[j - 1] else if i == 0 then null else nodes[i - 1])
    && (forall j {:trigger nodes[j].next} :: 0 <= j < |nodes| && j != i ==>
          nodes[j].next == if j == |nodes| - 1 then null else if j != i - 1 then nodes[j + 1] else if i == |nodes| - 1 then null else nodes[i + 1])
  }

  ghost predicate Holds<V>(nodes: seq<Node<V>>, contents: seq<Entry<V>>)
    reads nodes
  {
    && |contents| == |nodes|
    && forall i {:trigger contents[i]} {:trigger nodes[i].value} :: 0 <= i < |nodes| ==> contents[i] == Entry(nodes[i].key, nodes[i].value)
  }

  lemma PushLinked<V>(node: Node<V>, ns: seq<Node<V>>, head: Node?<V>, tail: Node?<V>)
    requires head == node && tail == (if |ns| == 0 then node else ns[|ns| - 1])
    requires node.prev == null && node.next == if |ns| == 0 then null else ns[0]
    requires forall i {:trigger ns[i].prev} :: 0 <= i < |ns| ==> ns[i].prev == if i == 0 then node else ns[i - 1]
    requires forall i {:trigger ns[i].next} :: 0 <= i < |ns| ==> ns[i].next == if i == |ns| - 1 then null else ns[i + 1]
    ensures Linked([node] + ns, head, tail)
  {
    var ms := [node] + ns;
    forall k | 0 <= k < |ms|
      ensures ms[k].prev == if k == 0 then null else ms[k - 1]
      ensures ms[k].next == if k == |ms| - 1 then null else ms[k + 1]
    {
      if k > 0 {
        assert ms[k] == ns[k - 1];
      }
    }
  }

  lemma PushOwned<V>(node: Node<V>, ns: seq<Node<V>>, repr: set<Node<V>>)
    requires Owned(ns, repr) && node !in repr
    ensures Owned([node] + ns, repr + {node})
  {
  }

  lemma PushHolds<V>(node: Node<V>, ns: seq<Node<V>>, es: seq<Entry<V>>)
    requires Holds(ns, es)
    ensures Holds([node] + ns, [Entry(node.key, node.value)] + es)
  {
    var ms, fs := [node] + ns, [Entry(node.key, node.value)] + es;
    forall i | 0 <= i < |ms| ensures fs[i] == Entry(ms[i].key, ms[i].value) {
      if i > 0 {
        assert ms[i] == ns[i - 1] && fs[i] == es[i - 1];
      }
    }
  }

  lemma CutLinked<V>(ns: seq<Node<V>>, head: Node?<V>, tail: Node?<V>, i: nat, ms: seq<Node<V>>)
    requires i < |ns| && Skipping(ns, head, tail, i) && IsCut(ms, ns, i)
    ensures Linked(ms, head, tail)
  {
    forall k | 0 <= k < |ms|
      ensures ms[k].prev == if k == 0 then null else ms[k - 1]
      ensures ms[k].next == if k == |ms| - 1 then null else ms[k + 1]
    {
      if k < i {
        assert ms[k] == ns[k];
      } else {
        assert ms[k] == ns[k + 1];
      }
    }
  }

  lemma CutOwned<V>(ns: seq<Node<V>>, repr: set<Node<V>>, i: nat, ms: seq<Node<V>>)
    requires i < |ns| && Owned(ns, repr) && IsCut(ms, ns, i)
    ensures Owned(ms, repr - {ns[i]})
  {
    forall n | n in repr - {ns[i]} ensures n in ms {
      var j :| 0 <= j < |ns| && ns[j] == n;
      assert ms[if j < i then j else j - 1] == n;
    }
  }

  lemma CutHolds<V>(ns: seq<Node<V>>, es: seq<Entry<V>>, i: nat, ms: seq<Node<V>>, fs: seq<Entry<V>>)
    requires i < |ns| && Holds(ns, es) && IsCut(ms, ns, i) && IsCut(fs, es, i)
    ensures Holds(ms, fs)
  {
  }

  // ---------- the list ----------

  class List<V> {
    var head: Node?<V>
    var tail: Node?<V>
    var len: nat
    ghost var nodes: seq<Node<V>>
    ghost var repr: set<Node<V>>
    ghost var contents: seq<Entry<V>>

    /** A well-formed list; `contents` is what its nodes hold, front to back. */
    ghost predicate Valid()
      reads this, repr
    {
      Owned(nodes, repr) && Linked(nodes, head, tail) && Holds(nodes, contents) && len == |nodes|
    }

    constructor ()
      ensures Valid() && nodes == [] && contents == [] && repr == {}
    {
      head, tail, len, nodes, repr, contents := null, null, 0, [], {}, [];
    }

    lemma Lengths()
      requires Valid()
      ensures len == |nodes| == |contents|
    {
    }

    lemma NodeAt(i: nat)
      requires Valid() && i < |nodes|
      ensures nodes[i] in repr && contents[i] == Entry(nodes[i].key, nodes[i].value)
    {
      Lengths();
    }

    /** The pointer surgery of an insertion at the front. */
    method LinkFront(node: Node<V>)
      requires Owned(nodes, repr) && Linked(nodes, head, tail) && node !in repr
      modifies this`head, this`tail, node`prev, node`next, repr`prev
      ensures Linked([node] + nodes, head, tail)
    {
      node.prev := null;
      node.next := head;
      if head != null {
        head.prev := node;
      }
      head := node;
      if tail == null {
        tail := node;
      }
      PushLinked(node, nodes, head, tail);
    }

    method PushFront(node: Node<V>)
      requires Valid() && node !in repr
      modifies this, node`prev, node`next, repr`prev
      ensures Valid()
      ensures nodes == [node] + old(nodes) && repr == old(repr) + {node}
      ensures contents == [Entry(node.key, node.value)] + old(contents)
    {
      hide Linked;
      hide Owned;
      ghost var ns, es, r := nodes, contents, repr;
      LinkFront(node);
      len := len + 1;
      nodes := [node] + nodes;
      repr := repr + {node};
      contents := [Entry(node.key, node.value)] + contents;
      PushOwned(node, ns, r);
      PushHolds(node, ns, es);
    }

    /** The pointer surgery of a removal. */
    method Unlink(node: Node<V>, ghost i: nat)
      requires Owned(nodes, repr) && Linked(nodes, head, tail) && i < |nodes| && nodes[i] == node
      modifies this`head, this`tail, repr`prev, repr`next
      ensures Skipping(nodes, head, tail, i)
    {
      if head == tail {
        head := null;
        tail := null;
      } else if node == head {
        head := node.next;
        head.prev := null;
      } else if node == tail {
        tail := node.prev;
        tail.next := null;
      } else {
        node.prev.next := node.next;
        node.next.prev := node.prev;
      }
      node.prev := null;
      node.next := null;
    }

    /** Unlinks the node at position `i`. */
    method Remove(node: Node<V>, ghost i: nat)
      requires Valid() && i < |nodes| && nodes[i] == node
      modifies this, repr`prev, repr`next
      ensures Valid()
      ensures nodes == Cut(old(nodes), i) && repr == old(repr) - {node}
      ensures contents == Cut(old(contents), i)
    {
      ghost var ns, es, r := nodes, contents, repr;
      ghost var ms := CutSeq(ns, i);
      ghost var fs := CutSeq(es, i);
      Unlink(node, i);
      len := len - 1;
      nodes, contents, repr := ms, fs, repr - {node};
      CutLinked(ns, head, tail, i, ms);
      CutOwned(ns, r, i, ms);
      CutHolds(ns, es, i, ms, fs);
      CutUnique(ms, ns, i);
      CutUnique(fs, es, i);
    }

    method RemoveTail() returns (node: Node?<V>)
      requires Valid()
      modifies this, repr`prev, repr`next
      ensures Valid()
      ensures old(contents) == [] ==> node == null && contents == [] && repr == old(repr) && nodes == old(nodes)
      ensures old(contents) != [] ==>
                && node != null && node == old(nodes)[|old(nodes)| - 1]
                && nodes == old(nodes)[..|old(nodes)| - 1] && repr == old(repr) - {node}
                && contents == old(contents)[..|old(contents)| - 1]
                && Entry(node.key, node.value) == old(contents)[|old(contents)| - 1]
    {
      node := tail;
      if node != null {
        ghost var k := |nodes| - 1;
        assert Cut(nodes, k) == nodes[..k] && Cut(contents, k) == contents[..k];
        Remove(node, k);
      }
    }

    /** Overwrites the value held at position `i`. */
    method SetValue(node: Node<V>, value: V, ghost i: nat)
      requires Valid() && i < |nodes| && nodes[i] == node
      modifies this`contents, node`value
      ensures Valid() && contents == old(contents)[i := Entry(node.key, value)]
    {
      node.value := value;
      contents := contents[i := Entry(node.key, value)];
    }
  }

  // ---------- keyed sequences ----------

  function HasKey<V>(s: seq<Entry<V>>, k: string): bool {
    s != [] && (s[0].key == k || HasKey(s[1..], k))
  }

  /** Position of the first entry with key `k`. */
  function Pos<V>(s: seq<Entry<V>>, k: string): (i: nat)
    requires HasKey(s, k)
    ensures i < |s| && s[i].key == k
  {
    if s[0].key == k then 0 else 1 + Pos(s[1..], k)
  }

  function Drop<V>(s: seq<Entry<V>>, k: string): seq<Entry<V>>
    requires HasKey(s, k)
  {
    s[..Pos(s, k)] + s[Pos(s, k) + 1..]
  }

  lemma {:induction false} HasKeyAt<V>(s: seq<Entry<V>>, i: nat)
    requires i < |s|
    ensures HasKey(s, s[i].key)
  {
    if i > 0 {
      HasKeyAt(s[1..], i - 1);
    }
  }

  /** The index maps exactly the keys of the nodes, each to its node. */
  ghost predicate Indexed<V>(nodes: seq<Node<V>>, idx: map<string, Node<V>>) {
    && (forall i :: 0 <= i < |nodes| ==> nodes[i].key in idx && idx[nodes[i].key] == nodes[i])
    && (forall k :: k in idx ==> idx[k] in nodes && idx[k].key == k)
  }

  /** Entries with a given key sit where the index says. */
  lemma {:induction false} PosIs<V>(s: seq<Entry<V>>, k: string, i: nat)
    requires i < |s| && s[i].key == k && forall j :: 0 <= j < |s| && s[j].key == k ==> j == i
    ensures HasKey(s, k) && Pos(s, k) == i
  {
    if i > 0 {
      assert s[0].key != k;
      forall j | 0 <= j < |s[1..]| && s[1..][j].key == k ensures j == i - 1 {
        assert s[j + 1].key == k;
      }
      PosIs(s[1..], k, i - 1);
    }
  }

  lemma {:induction false} NoKey<V>(s: seq<Entry<V>>, k: string)
    requires forall j :: 0 <= j < |s| ==> s[j].key != k
    ensures !HasKey(s, k)
  {
    if s != [] {
      assert s[0].key != k;
      forall j | 0 <= j < |s[1..]| ensures s[1..][j].key != k {
        assert s[j + 1].key != k;
      }
      NoKey(s[1..], k);
    }
  }

  lemma CutIndexed<V>(nodes: seq<Node<V>>, idx: map<string, Node<V>>, i: nat, repr: set<Node<V>>)
    requires Indexed(nodes, idx) && Owned(nodes, repr) && i < |nodes|
    ensures nodes[i].key in idx && Indexed(Cut(nodes, i), idx - {nodes[i].key})
  {
    var ms := CutSeq(nodes, i);
    CutUnique(ms, nodes, i);
    var k0 := nodes[i].key;
    forall k | k in idx - {k0} ensures idx[k] in ms {
      var j :| 0 <= j < |nodes| && nodes[j] == idx[k];
      assert ms[if j < i then j else j - 1] == idx[k];
    }
    forall j | 0 <= j < |ms| ensures ms[j].key in idx && idx[ms[j].key] == ms[j] && ms[j].key != k0 {
      assert ms[j] == nodes[if j < i then j else j + 1];
    }
  }

  lemma PushIndexed<V>(nodes: seq<Node<V>>, idx: map<string, Node<V>>, node: Node<V>)
    requires Indexed(nodes, idx) && node.key !in idx
    ensures Indexed([node] + nodes, idx[node.key := node])
  {
    var ms := [node] + nodes;
    forall j | 0 <= j < |ms| ensures ms[j].key in idx[node.key := node] && idx[node.key := node][ms[j].key] == ms[j] {
      if j > 0 {
        assert ms[j] == nodes[j - 1];
      }
    }
  }

  /** Membership in the index is membership in the contents. */
  lemma KnownIn<V>(nodes: seq<Node<V>>, contents: seq<Entry<V>>, idx: map<string, Node<V>>, key: string) returns (i: nat)
    requires Indexed(nodes, idx) && Holds(nodes, contents)
    requires forall i, j :: 0 <= i < j < |nodes| ==> nodes[i] != nodes[j]
    ensures key in idx <==> HasKey(contents, key)
    ensures key in idx ==> i < |nodes| && nodes[i] == idx[key] && Pos(contents, key) == i
  {
    i := 0;
    if key in idx {
      i :| 0 <= i < |nodes| && nodes[i] == idx[key];
      forall j | 0 <= j < |contents| && contents[j].key == key ensures j == i {
        assert nodes[j].key == key;
      }
      assert contents[i].key == key;
      PosIs(contents, key, i);
    } else {
      forall j | 0 <= j < |contents| ensures contents[j].key != key {
        assert nodes[j].key in idx;
      }
      NoKey(contents, key);
    }
  }

  /** Moving a node to the front leaves the index as it was. */
  lemma FrontIndexed<V>(nodes: seq<Node<V>>, idx: map<string, Node<V>>, i: nat, repr: set<Node<V>>)
    requires Indexed(nodes, idx) && Owned(nodes, repr) && i < |nodes|
    ensures Indexed([nodes[i]] + Cut(nodes, i), idx)
  {
    var n := nodes[i];
    CutIndexed(nodes, idx, i, repr);
    PushIndexed(Cut(nodes, i), idx - {n.key}, n);
    assert (idx - {n.key})[n.key := n] == idx;
  }

  /** A linked list together with its key index. */
  class IndexedList<V> {
    const list: List<V>
    var idx: map<string, Node<V>>

    ghost predicate Valid()
      reads this, list, list.repr
    {
      list.Valid() && Indexed(list.nodes, idx)
    }

    constructor ()
      ensures Valid() && list.contents == [] && list.nodes == [] && fresh(list)
    {
      list := new List<V>();
      idx := map[];
    }

    /** Membership in the index is membership in the list. */
    lemma Known(key: string) returns (i: nat)
      requires Valid()
      ensures key in idx <==> HasKey(list.contents, key)
      ensures key in idx ==> i < |list.nodes| && list.nodes[i] == idx[key] && Pos(list.contents, key) == i
    {
      i := KnownIn(list.nodes, list.contents, idx, key);
    }

    /** Unlinks the node of a known key. */
    method Take(key: string) returns (node: Node<V>)
      requires Valid() && key in idx
      modifies this, list, list.repr`prev, list.repr`next
      ensures Valid()
      ensures HasKey(old(list.contents), key) && list.contents == Drop(old(list.contents), key)
      ensures node in old(list.repr) && list.repr == old(list.repr) - {node} && key !in idx
      ensures Entry(node.key, node.value) == old(list.contents)[Pos(old(list.contents), key)]
    {
      hide Owned;
      hide Linked;
      hide Holds;
      hide Indexed;
      node := idx[key];
      ghost var i := Known(key);
      CutIndexed(list.nodes, idx, i, list.repr);
      list.NodeAt(i);
      list.Remove(node, i);
      idx := idx - {key};
    }

    /** Links a node of an unknown key at the front. */
    method Push(node: Node<V>)
      requires Valid() && node !in list.repr && node.key !in idx
      modifies this, list, node`prev, node`next, list.repr`prev
      ensures Valid()
      ensures list.contents == [Entry(node.key, node.value)] + old(list.contents)
      ensures list.repr == old(list.repr) + {node} && idx == old(idx)[node.key := node]
    {
      hide Owned;
      hide Linked;
      hide Holds;
      hide Indexed;
      PushIndexed(list.nodes, idx, node);
      list.PushFront(node);
      idx := idx[node.key := node];
    }

    /** Unlinks the last node, if any. */
    method PopTail() returns (node: Node?<V>)
      requires Valid()
      modifies this, list, list.repr`prev, list.repr`next
      ensures Valid()
      ensures node == null <==> old(list.contents) == []
      ensures node == null ==> list.contents == [] && list.repr == old(list.repr) && idx == old(idx)
      ensures node != null ==>
                && list.contents == old(list.contents)[..|old(list.contents)| - 1]
                && Entry(node.key, node.value) == old(list.contents)[|old(list.contents)| - 1]
                && node in old(list.repr) && list.repr == old(list.repr) - {node}
                && idx == old(idx) - {node.key} && node.key in old(idx)
    {
      hide Owned;
      hide Linked;
      hide Holds;
      hide Indexed;
      list.Lengths();
      if list.contents != [] {
        ghost var k := |list.nodes| - 1;
        CutIndexed(list.nodes, idx, k, list.repr);
        assert Cut(list.nodes, k) == list.nodes[..k];
        list.NodeAt(k);
      }
      node := list.RemoveTail();
      if node != null {
        idx := idx - {node.key};
      }
    }
  }
}
