/**
 The CAWOLFU algorithm (pkg/eviction/cawolfu.go): a key index into a doubly linked list whose nodes
 also count accesses. The count never decides anything: the algorithm refines the recency policy.
 */
module CawolfuCache {
  import opened Items
  import opened LinkedList
  import opened Traces
  import P = Recency
  import LruCache

  datatype Counted = Counted(value: Value, count: nat)

  /** The entries without their access counts. */
  ghost function Plain(s: seq<Entry<Counted>>): seq<Entry<Value>> {
    seq(|s|, i requires 0 <= i < |s| => Entry(s[i].key, s[i].value.value))
  }

  lemma {:induction false} PlainKeys(s: seq<Entry<Counted>>, k: string)
    ensures HasKey(Plain(s), k) <==> HasKey(s, k)
    ensures HasKey(s, k) ==> Pos(Plain(s), k) == Pos(s, k)
  {
    if s != [] {
      assert Plain(s)[1..] == Plain(s[1..]);
      PlainKeys(s[1..], k);
    }
  }

  lemma PlainCut(s: seq<Entry<Counted>>, i: nat)
    requires i < |s|
    ensures Plain(Cut(s, i)) == Cut(Plain(s), i)
  {
  }

  lemma PlainFront(s: seq<Entry<Counted>>, i: nat, e: Entry<Counted>)
    requires i < |s|
    ensures Plain([e] + Cut(s, i)) == [Entry(e.key, e.value.value)] + Cut(Plain(s), i)
  {
  }

  lemma PlainCons(s: seq<Entry<Counted>>, e: Entry<Counted>)
    ensures Plain([e] + s) == [Entry(e.key, e.value.value)] + Plain(s)
  {
  }

  /** The first half of moveToFront: takes a node that is not the head out of the chain. */
  method SpliceOut(list: List<Counted>, node: Node<Counted>, ghost i: nat)
    requires list.Valid() && 0 < i < |list.nodes| && list.nodes[i] == node
    modifies list`tail, list.repr`prev, list.repr`next
    ensures Skipping(list.nodes, list.head, list.tail, i)
  {
    if node == list.tail {
      list.tail := node.prev;
    }
    if node.prev != null {
      node.prev.next := node.next;
    }
    if node.next != null {
      node.next.prev := node.prev;
    }
    node.prev := null;
  }

  lemma HeadIsFirst(list: List<Counted>, i: nat)
    requires list.Valid() && i < |list.nodes|
    ensures list.nodes[i] == list.head <==> i == 0
    ensures |list.nodes| == |list.contents| && list.nodes[i] in list.repr
    ensures list.contents[i] == Entry(list.nodes[i].key, list.nodes[i].value)
  {
  }

  /** The chain after SpliceOut and the ghost bookkeeping that goes with it. */
  method Detach(list: List<Counted>, node: Node<Counted>, ghost i: nat)
    requires list.Valid() && 0 < i < |list.nodes| && list.nodes[i] == node
    modifies list, list.repr`prev, list.repr`next
    ensures list.Valid() && list.repr == old(list.repr) - {node}
    ensures list.nodes == Cut(old(list.nodes), i) && list.contents == Cut(old(list.contents), i)
  {
    hide Linked;
    hide Skipping;
    hide Owned;
    ghost var ns, es, r := list.nodes, list.contents, list.repr;
    ghost var ms := CutSeq(ns, i);
    ghost var fs := CutSeq(es, i);
    SpliceOut(list, node, i);
    CutLinked(ns, list.head, list.tail, i, ms);
    CutOwned(ns, r, i, ms);
    CutHolds(ns, es, i, ms, fs);
    CutUnique(ms, ns, i);
    CutUnique(fs, es, i);
    list.len := list.len - 1;
    list.nodes, list.contents, list.repr := ms, fs, r - {node};
  }

  method MoveToFront(list: List<Counted>, node: Node<Counted>, ghost i: nat)
    requires list.Valid() && i < |list.nodes| && list.nodes[i] == node
    modifies list, list.repr`prev, list.repr`next
    ensures list.Valid() && list.repr == old(list.repr) && i < |old(list.contents)|
    ensures list.nodes == [node] + Cut(old(list.nodes), i)
    ensures list.contents == [old(list.contents[i])] + Cut(old(list.contents), i)
  {
    hide Linked;
    hide Owned;
    hide Holds;
    HeadIsFirst(list, i);
    if node == list.head {
      assert [list.nodes[0]] + Cut(list.nodes, 0) == list.nodes;
      assert [list.contents[0]] + Cut(list.contents, 0) == list.contents;
      return;
    }
    Detach(list, node, i);
    list.PushFront(node);
  }

  class CAWOLFU {
    const cap: nat
    const store: IndexedList<Counted>

    ghost predicate Valid()
      reads this, store, store.list, store.list.repr
    {
      store.Valid() && store.list.len <= cap
    }

    ghost function View(): P.State
      reads this, store, store.list
    {
      P.State(cap, Plain(store.list.contents))
    }

    constructor (cap: nat)
      ensures Valid() && View() == P.State(cap, []) && store.list.repr == {} && fresh(store) && fresh(store.list)
    {
      this.cap := cap;
      store := new IndexedList<Counted>();
    }

    lemma Known(key: string) returns (i: nat)
      requires Valid()
      ensures key in store.idx <==> HasKey(View().s, key)
      ensures key in store.idx ==>
                && i < |store.list.nodes| == |store.list.contents| && store.list.nodes[i] == store.idx[key]
                && Pos(View().s, key) == i && HasKey(store.list.contents, key) && Pos(store.list.contents, key) == i
                && store.list.nodes[i] in store.list.repr
                && store.list.contents[i] == Entry(key, store.list.nodes[i].value)
      ensures store.list.len == |store.list.contents| == |View().s|
    {
      i := store.Known(key);
      PlainKeys(store.list.contents, key);
      if key in store.idx {
        store.list.NodeAt(i);
      }
    }

    /** Counts an access to a tracked key, stores `value` and moves the key to the front. */
    method Touch(key: string, value: Value, ghost i: nat)
      requires Valid() && key in store.idx && i < |store.list.nodes| && store.list.nodes[i] == store.idx[key]
      modifies store.list, store.list.repr
      ensures Valid() && store.list.repr == old(store.list.repr) && i < |old(store.list.contents)|
      ensures View().s == [Entry(key, value)] + Cut(Plain(old(store.list.contents)), i)
    {
      hide Linked;
      hide Owned;
      hide Holds;
      ghost var s := store.list.contents;
      var node := store.idx[key];
      assert node.key == key;
      store.list.NodeAt(i);
      store.list.Lengths();
      store.list.SetValue(node, Counted(value, node.value.count + 1), i);
      FrontIndexed(store.list.nodes, store.idx, i, store.list.repr);
      ghost var t := store.list.contents;
      MoveToFront(store.list, node, i);
      PlainFront(t, i, t[i]);
      assert Cut(Plain(t), i) == Cut(Plain(s), i);
      store.list.Lengths();
    }

    method Get(key: string) returns (r: Option<Value>)
      requires Valid()
      modifies store, store.list, store.list.repr
      ensures Valid() && store.list.repr == old(store.list.repr)
      ensures (View(), r) == P.Get(old(View()), key)
    {
      ghost var i := Known(key);
      if key !in store.idx {
        return None;
      }
      r := Some(store.idx[key].value.value);
      Touch(key, store.idx[key].value.value, i);
    }

    method Delete(key: string)
      requires Valid()
      modifies store, store.list, store.list.repr
      ensures Valid() && store.list.repr <= old(store.list.repr)
      ensures View() == P.Delete(old(View()), key)
    {
      hide Owned;
      hide Linked;
      hide Holds;
      hide Indexed;
      ghost var i := Known(key);
      if key in store.idx {
        PlainCut(store.list.contents, i);
        var node := store.Take(key);
        store.list.Lengths();
      }
    }

    /** Drops the tail of a non-empty list. */
    method DropTail() returns (key: string)
      requires Valid() && store.list.len > 0
      modifies store, store.list, store.list.repr
      ensures Valid() && store.list.repr <= old(store.list.repr) && store.list.len == old(store.list.len) - 1
      ensures var s := old(View().s); |s| > 0 && View().s == s[..|s| - 1] && key == s[|s| - 1].key
      ensures store.idx.Keys <= old(store.idx.Keys)
    {
      hide Owned;
      hide Linked;
      hide Holds;
      hide Indexed;
      ghost var i := Known("");
      ghost var s := store.list.contents;
      assert Plain(s[..|s| - 1]) == Plain(s)[..|s| - 1];
      var node := store.PopTail();
      key := node.key;
      store.list.Lengths();
      i := Known("");
    }

    method Evict() returns (key: Option<string>)
      requires Valid()
      modifies store, store.list, store.list.repr
      ensures Valid() && store.list.repr <= old(store.list.repr)
      ensures (View(), key) == P.Evict(old(View()))
    {
      ghost var i := Known("");
      if cap == 0 || store.list.len == 0 {
        return None;
      }
      var k := DropTail();
      key := Some(k);
    }

    method Set(key: string, value: Value)
      requires Valid()
      modifies store, store.list, store.list.repr
      ensures Valid() && fresh(store.list.repr - old(store.list.repr))
      ensures View() == P.Set(old(View()), key, value)
    {
      hide Owned;
      hide Linked;
      hide Holds;
      hide Indexed;
      if cap == 0 {
        return;
      }
      ghost var i := Known(key);
      if key in store.idx {
        Touch(key, value, i);
        return;
      }
      if store.list.len == cap {
        var evicted := DropTail();
      }
      var node := new Node(key, Counted(value, 1));
      PlainCons(store.list.contents, Entry(key, Counted(value, 1)));
      store.Push(node);
      store.list.Lengths();
      i := Known(key);
    }

    /** One operation of the eviction interface. */
    method Apply(op: Op) returns (r: Option<string>)
      requires Valid()
      modifies store, store.list, store.list.repr
      ensures Valid() && fresh(store.list.repr - old(store.list.repr))
      ensures View() == P.Step(old(View()), op) && r == P.Reply(old(View()), op)
    {
      hide Valid;
      hide View;
      r := None;
      match op {
        case GetOp(k) => r := Get(k);
        case SetOp(k, v) => Set(k, v);
        case DeleteOp(k) => Delete(k);
        case EvictOp => r := Evict();
      }
    }
  }

  /** Any operations fed to a CAWOLFU get the policy's replies. */
  method RunCawolfu(capacity: nat, ops: seq<Op>) returns (replies: seq<Option<string>>)
    ensures replies == P.Replies(capacity, ops)
  {
    hide CAWOLFU.Valid;
    hide CAWOLFU.View;
    var c := new CAWOLFU(capacity);
    replies := [];
    for n := 0 to |ops|
      invariant fresh(c) && fresh(c.store) && fresh(c.store.list) && fresh(c.store.list.repr) && c.Valid()
      invariant c.View() == P.Run(capacity, ops[..n]) && replies == P.Replies(capacity, ops[..n])
    {
      assert ops[..n + 1][..n] == ops[..n];
      var r := c.Apply(ops[n]);
      replies := replies + [r];
    }
    assert ops[..|ops|] == ops;
  }

  /** Fed the same operations, LRU and CAWOLFU of one capacity give the same replies. */
  method RunBoth(capacity: nat, ops: seq<Op>) returns (a: seq<Option<string>>, b: seq<Option<string>>)
    ensures a == b == P.Replies(capacity, ops)
  {
    a := LruCache.RunLru(capacity, ops);
    b := RunCawolfu(capacity, ops);
  }
}
