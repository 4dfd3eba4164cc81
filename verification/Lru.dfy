/** The LRU algorithm (pkg/eviction/lru.go): a key index into a doubly linked list kept in the object itself. */
module LruCache {
  import opened Items
  import opened LinkedList
  import opened Traces
  import P = Recency

  class LRU {
    const capacity: nat
    var items: map<string, Node<Value>>
    var head: Node?<Value>
    var tail: Node?<Value>
    ghost var nodes: seq<Node<Value>>
    ghost var repr: set<Node<Value>>
    ghost var contents: seq<Entry<Value>>

    ghost predicate ListValid()
      reads this, repr
    {
      Owned(nodes, repr) && Linked(nodes, head, tail) && Holds(nodes, contents)
    }

    ghost predicate Valid()
      reads this, repr
    {
      ListValid() && Indexed(nodes, items) && |items| == |contents| <= capacity
    }

    ghost function View(): P.State
      reads this
    {
      P.State(capacity, contents)
    }

    constructor (capacity: nat)
      ensures Valid() && View() == P.State(capacity, []) && repr == {}
    {
      this.capacity, items, head, tail, nodes, repr, contents := capacity, map[], null, null, [], {}, [];
    }

    lemma Known(key: string) returns (i: nat)
      requires Valid()
      ensures key in items <==> HasKey(contents, key)
      ensures key in items ==>
                && i < |nodes| == |contents| && nodes[i] == items[key] && Pos(contents, key) == i && nodes[i] in repr
                && contents[i] == Entry(key, nodes[i].value)
    {
      i := KnownIn(nodes, contents, items, key);
    }

    /** The pointer surgery of removeFromList. */
    method Unlink(node: Node<Value>, ghost i: nat)
      requires Owned(nodes, repr) && Linked(nodes, head, tail) && i < |nodes| && nodes[i] == node
      modifies this`head, this`tail, repr`prev, repr`next
      ensures Skipping(nodes, head, tail, i) && node.prev == null && node.next == null
    {
      if node == head {
        head := node.next;
      } else if node.prev != null {
        node.prev.next := node.next;
      }
      if node == tail {
        tail := node.prev;
      } else if node.next != null {
        node.next.prev := node.prev;
      }
      node.prev := null;
      node.next := null;
    }

    method RemoveFromList(node: Node<Value>, ghost i: nat)
      requires ListValid() && i < |nodes| && nodes[i] == node
      modifies this`head, this`tail, this`nodes, this`repr, this`contents, repr`prev, repr`next
      ensures ListValid() && node.prev == null && node.next == null
      ensures nodes == Cut(old(nodes), i) && repr == old(repr) - {node} && contents == Cut(old(contents), i)
    {
      ghost var ns, es, r := nodes, contents, repr;
      ghost var ms := CutSeq(ns, i);
      ghost var fs := CutSeq(es, i);
      Unlink(node, i);
      nodes, contents, repr := ms, fs, repr - {node};
      CutLinked(ns, head, tail, i, ms);
      CutOwned(ns, r, i, ms);
      CutHolds(ns, es, i, ms, fs);
      CutUnique(ms, ns, i);
      CutUnique(fs, es, i);
    }

    /** The pointer surgery of addToFront. */
    method LinkFront(node: Node<Value>)
      requires Owned(nodes, repr) && Linked(nodes, head, tail) && node !in repr && node.prev == null && node.next == null
      modifies this`head, this`tail, node`next, repr`prev
      ensures Linked([node] + nodes, head, tail)
    {
      if head == null {
        head := node;
        tail := node;
      } else {
        node.next := head;
        head.prev := node;
        head := node;
      }
      PushLinked(node, nodes, head, tail);
    }

    method AddToFront(node: Node<Value>)
      requires ListValid() && node !in repr && node.prev == null && node.next == null
      modifies this`head, this`tail, this`nodes, this`repr, this`contents, node`next, repr`prev
      ensures ListValid()
      ensures nodes == [node] + old(nodes) && repr == old(repr) + {node}
      ensures contents == [Entry(node.key, node.value)] + old(contents)
    {
      hide Linked;
      hide Owned;
      ghost var ns, es, r := nodes, contents, repr;
      LinkFront(node);
      nodes := [node] + nodes;
      repr := repr + {node};
      contents := [Entry(node.key, node.value)] + contents;
      PushOwned(node, ns, r);
      PushHolds(node, ns, es);
    }

    method MoveToFront(node: Node<Value>, ghost i: nat)
      requires ListValid() && i < |nodes| == |contents| && nodes[i] == node && contents[i] == Entry(node.key, node.value)
      modifies this`head, this`tail, this`nodes, this`repr, this`contents, repr`prev, repr`next
      ensures ListValid() && repr == old(repr)
      ensures nodes == [node] + Cut(old(nodes), i)
      ensures contents == [old(contents[i])] + Cut(old(contents), i)
    {
      hide Holds;
      hide Linked;
      hide Owned;
      HeadIsFirst(i);
      if node == head {
        assert [nodes[0]] + Cut(nodes, 0) == nodes && [contents[0]] + Cut(contents, 0) == contents;
        return;
      }
      RemoveFromList(node, i);
      AddToFront(node);
    }

    lemma HeadIsFirst(i: nat)
      requires Owned(nodes, repr) && Linked(nodes, head, tail) && i < |nodes|
      ensures nodes[i] == head <==> i == 0
      ensures nodes[i] in repr
    {
    }

    method Get(key: string) returns (r: Option<Value>)
      requires Valid()
      modifies this, repr`prev, repr`next
      ensures Valid() && repr == old(repr)
      ensures (View(), r) == P.Get(old(View()), key)
    {
      hide Owned;
      hide Linked;
      hide Holds;
      hide Indexed;
      ghost var i := Known(key);
      if key !in items {
        return None;
      }
      FrontIndexed(nodes, items, i, repr);
      var node := items[key];
      MoveToFront(node, i);
      r := Some(node.value);
    }

    /** Takes a tracked key out of list and index. */
    method Untrack(key: string, ghost i: nat)
      requires Valid() && i < |nodes| && key in items && nodes[i] == items[key]
      modifies this, repr`prev, repr`next
      ensures Valid() && repr <= old(repr)
      ensures contents == Cut(old(contents), i) && items == old(items) - {key} && |contents| == |old(contents)| - 1
    {
      hide Owned;
      hide Linked;
      ghost var known := items;
      CutIndexed(nodes, items, i, repr);
      assert nodes[i].key == key;
      RemoveFromList(items[key], i);
      items := items - {key};
      assert known.Keys == items.Keys + {key};
    }

    method Delete(key: string)
      requires Valid()
      modifies this, repr`prev, repr`next
      ensures Valid() && repr <= old(repr)
      ensures View() == P.Delete(old(View()), key)
    {
      hide Owned;
      hide Linked;
      hide Holds;
      hide Indexed;
      ghost var i := Known(key);
      if key in items {
        Untrack(key, i);
      }
    }

    lemma TailIsLast()
      requires Valid()
      ensures tail == null <==> contents == []
      ensures |nodes| == |contents|
      ensures tail != null ==>
                && tail == nodes[|nodes| - 1] && tail.key == contents[|contents| - 1].key
                && tail.key in items && items[tail.key] == tail
                && Cut(contents, |contents| - 1) == contents[..|contents| - 1]
    {
    }

    method Evict() returns (key: Option<string>)
      requires Valid()
      modifies this, repr`prev, repr`next
      ensures Valid() && repr <= old(repr)
      ensures (View(), key) == P.Evict(old(View()))
    {
      hide Owned;
      hide Linked;
      hide Holds;
      hide Indexed;
      TailIsLast();
      if capacity == 0 || tail == null {
        return None;
      }
      key := Some(tail.key);
      Untrack(tail.key, |nodes| - 1);
    }

    method Overwrite(node: Node<Value>, value: Value, ghost i: nat)
      requires Valid() && i < |nodes| && nodes[i] == node
      modifies this`contents, node`value
      ensures Valid() && i < |old(contents)| && contents == old(contents)[i := Entry(node.key, value)] && node.value == value
    {
      node.value := value;
      contents := contents[i := Entry(node.key, value)];
    }

    method Track(key: string, value: Value)
      requires Valid() && key !in items && |items| < capacity
      modifies this, repr`prev
      ensures Valid() && fresh(repr - old(repr))
      ensures contents == [Entry(key, value)] + old(contents)
    {
      hide Owned;
      hide Linked;
      hide Holds;
      hide Indexed;
      var node := new Node(key, value);
      PushIndexed(nodes, items, node);
      AddToFront(node);
      items := items[key := node];
    }

    method Set(key: string, value: Value)
      requires Valid()
      modifies this, repr
      ensures Valid() && fresh(repr - old(repr))
      ensures View() == P.Set(old(View()), key, value)
    {
      hide Owned;
      hide Linked;
      hide Holds;
      hide Indexed;
      if capacity == 0 {
        return;
      }
      ghost var i := Known(key);
      if key in items {
        var node := items[key];
        ghost var s := contents;
        Overwrite(node, value, i);
        FrontIndexed(nodes, items, i, repr);
        MoveToFront(node, i);
        assert contents == [Entry(key, value)] + Cut(s, i);
        return;
      }
      if |items| == capacity {
        TailIsLast();
        Untrack(tail.key, |nodes| - 1);
      }
      Track(key, value);
    }

    /** One operation of the eviction interface. */
    method Apply(op: Op) returns (r: Option<string>)
      requires Valid()
      modifies this, repr
      ensures Valid() && fresh(repr - old(repr))
      ensures View() == P.Step(old(View()), op) && r == P.Reply(old(View()), op)
    {
      hide Valid;
      hide View;
      r := None;
      match op {
        case GetOp(k) => r := Get(k);
        case SetOp(k, v) => Set(k, v);
        case DeleteOp(k) => Delete(k);
        case EvictOp => r := Evict();
      }
    }
  }

  /** Any operations fed to an LRU get the policy's replies. */
  method RunLru(capacity: nat, ops: seq<Op>) returns (replies: seq<Option<string>>)
    ensures replies == P.Replies(capacity, ops)
  {
    hide LRU.Valid;
    hide LRU.View;
    var c := new LRU(capacity);
    replies := [];
    for n := 0 to |ops|
      invariant fresh(c) && fresh(c.repr) && c.Valid()
      invariant c.View() == P.Run(capacity, ops[..n]) && replies == P.Replies(capacity, ops[..n])
    {
      assert ops[..n + 1][..n] == ops[..n];
      var r := c.Apply(ops[n]);
      replies := replies + [r];
    }
    assert ops[..|ops|] == ops;
  }
}
