/**
 Least Frequently Used (pkg/eviction/lfu.go): a binary heap of nodes ordered by access count, then by
 least recent access, with each node recording its heap position. The sifts are those of Go's
 container/heap.
 */
module LfuCache {
  import opened Items
  import opened Traces
  import P = LfuPolicy

  type Rank = P.Rank
  type Cell = P.Cell
  type State = P.State

  predicate Before(a: Rank, b: Rank) {
    P.Before(a, b)
  }

  // ---------- heaps of ranks ----------

  function Parent(k: nat): nat
    requires k > 0
  {
    (k - 1) / 2
  }

  function Swapped<T>(s: seq<T>, i: nat, j: nat): seq<T>
    requires i < |s| && j < |s|
  {
    s[i := s[j]][j := s[i]]
  }

  predicate Ok(rs: seq<Rank>, k: nat)
    requires 0 < k < |rs|
  {
    !Before(rs[k], rs[Parent(k)])
  }

  /** The first `n` ranks are in heap order. */
  ghost predicate Heap(rs: seq<Rank>, n: nat)
    requires n <= |rs|
  {
    forall k :: 0 < k < n ==> Ok(rs, k)
  }

  /** The children of `i` do not precede the parent of `i`. */
  ghost predicate Bridged(rs: seq<Rank>, n: nat, i: nat)
    requires n <= |rs| && i < n
  {
    i > 0 ==> forall k :: 0 < k < n && Parent(k) == i ==> !Before(rs[k], rs[Parent(i)])
  }

  /** In order except that `j` may precede its parent. */
  ghost predicate HeapUp(rs: seq<Rank>, n: nat, j: nat)
    requires n <= |rs| && j < n
  {
    Bridged(rs, n, j) && forall k :: 0 < k < n && k != j ==> Ok(rs, k)
  }

  /** In order except below `i` and, while nothing has moved, at `i` itself. */
  ghost predicate HeapDown(rs: seq<Rank>, n: nat, i: nat, moved: bool)
    requires n <= |rs| && i < n
  {
    Bridged(rs, n, i) && forall k :: 0 < k < n && Parent(k) != i && (moved || k != i) ==> Ok(rs, k)
  }

  lemma UpStep(rs: seq<Rank>, n: nat, j: nat)
    requires n <= |rs| && 0 < j < n && HeapUp(rs, n, j) && Before(rs[j], rs[Parent(j)])
    ensures HeapUp(Swapped(rs, Parent(j), j), n, Parent(j))
  {
    var p := Parent(j);
    var s := Swapped(rs, p, j);
    assert s[p] == rs[j] && s[j] == rs[p];
    forall k | 0 < k < n && k != p ensures Ok(s, k) {
      assert k != j ==> Ok(rs, k);
    }
    if p > 0 {
      assert Ok(rs, p);
      forall k | 0 < k < n && Parent(k) == p ensures !Before(s[k], s[Parent(p)]) {
        assert k != j ==> Ok(rs, k);
      }
    }
  }

  lemma UpDone(rs: seq<Rank>, n: nat, j: nat)
    requires n <= |rs| && j < n && HeapUp(rs, n, j) && (j == 0 || !Before(rs[j], rs[Parent(j)]))
    ensures Heap(rs, n)
  {
  }

  /** `c` is the first child of `i` in heap order. */
  predicate FirstChild(rs: seq<Rank>, n: nat, i: nat, c: nat)
    requires n <= |rs| && i < n
  {
    && 0 < c < n && Parent(c) == i
    && (2 * i + 1 < n ==> !Before(rs[2 * i + 1], rs[c])) && (2 * i + 2 < n ==> !Before(rs[2 * i + 2], rs[c]))
  }

  lemma DownStep(rs: seq<Rank>, n: nat, i: nat, c: nat, moved: bool)
    requires n <= |rs| && i < n && HeapDown(rs, n, i, moved) && FirstChild(rs, n, i, c) && Before(rs[c], rs[i])
    ensures HeapDown(Swapped(rs, i, c), n, c, true)
  {
    var s := Swapped(rs, i, c);
    assert s[i] == rs[c] && s[c] == rs[i];
    forall k | 0 < k < n && Parent(k) != c ensures Ok(s, k) {
      if k == i {
        assert !Before(rs[c], rs[Parent(i)]);
      } else if Parent(k) == i {
        assert k == 2 * i + 1 || k == 2 * i + 2;
      } else {
        assert Ok(rs, k);
      }
    }
    forall k | 0 < k < n && Parent(k) == c ensures !Before(s[k], s[i]) {
      assert Ok(rs, k);
    }
  }

  lemma DownDone(rs: seq<Rank>, n: nat, i: nat, moved: bool)
    requires n <= |rs| && i < n && HeapDown(rs, n, i, moved)
    requires forall k :: 0 < k < n && Parent(k) == i ==> !Before(rs[k], rs[i])
    ensures if moved then Heap(rs, n) else HeapUp(rs, n, i)
  {
    forall k | 0 < k < n && (moved || k != i) ensures Ok(rs, k) {
      if Parent(k) == i {
        assert !Before(rs[k], rs[i]);
      }
    }
  }

  lemma NoChildren(rs: seq<Rank>, n: nat, i: nat, moved: bool)
    requires n <= |rs| && i < n && HeapDown(rs, n, i, moved) && 2 * i + 1 >= n
    ensures if moved then Heap(rs, n) else HeapUp(rs, n, i)
  {
    DownDone(rs, n, i, moved);
  }

  lemma ChildrenOk(rs: seq<Rank>, n: nat, i: nat, c: nat, moved: bool)
    requires n <= |rs| && i < n && HeapDown(rs, n, i, moved) && FirstChild(rs, n, i, c) && !Before(rs[c], rs[i])
    ensures if moved then Heap(rs, n) else HeapUp(rs, n, i)
  {
    forall k | 0 < k < n && Parent(k) == i ensures !Before(rs[k], rs[i]) {
      assert k == 2 * i + 1 || k == 2 * i + 2;
    }
    DownDone(rs, n, i, moved);
  }

  /** Changing one rank of a heap leaves it in order around that position. */
  lemma ChangeOne(rs: seq<Rank>, n: nat, i: nat, r: Rank)
    requires n <= |rs| && i < n && Heap(rs, n)
    ensures HeapDown(rs[i := r], n, i, false)
  {
    var s := rs[i := r];
    forall k | 0 < k < n && Parent(k) != i && k != i ensures Ok(s, k) {
      assert Ok(rs, k);
    }
    if i > 0 {
      forall k | 0 < k < n && Parent(k) == i ensures !Before(s[k], s[Parent(i)]) {
        assert Ok(rs, k) && Ok(rs, i);
      }
    }
  }

  /** The root of a heap precedes or equals every entry. */
  lemma {:induction false} RootFirst(rs: seq<Rank>, n: nat, k: nat)
    requires n <= |rs| && k < n && Heap(rs, n)
    ensures !Before(rs[k], rs[0])
  {
    if k > 0 {
      RootFirst(rs, n, Parent(k));
      assert Ok(rs, k);
    }
  }

  // ---------- nodes and the indexed heap ----------

  class Node {
    const key: string
    var value: Value
    var count: nat
    var index: int
    var last: nat

    constructor (key: string, value: Value, last: nat)
      ensures this.key == key && this.value == value && count == 1 && this.last == last
    {
      this.key, this.value, count, index, this.last := key, value, 1, 0, last;
    }

    ghost function RankOf(): Rank
      reads `count, `last
    {
      P.Rank(count, last)
    }
  }

  /** Every node of `repr` sits in the slice where its index says, and nothing else does. */
  ghost predicate Placed(fh: seq<Node>, repr: set<Node>)
    reads repr`index
  {
    && (forall i :: 0 <= i < |fh| ==> fh[i] in repr && fh[i].index == i)
    && (forall n :: n in repr ==> 0 <= n.index < |fh| && fh[n.index] == n)
  }

  /** `rs` lists the ranks of the slice. */
  ghost predicate Ranked(fh: seq<Node>, rs: seq<Rank>)
    reads fh`count, fh`last
  {
    |rs| == |fh| && forall i {:trigger rs[i]} {:trigger fh[i]} :: 0 <= i < |fh| ==> rs[i] == fh[i].RankOf()
  }

  /** `rs` lists the ranks of the slice except at position `i`. */
  ghost predicate RankedBut(fh: seq<Node>, rs: seq<Rank>, i: nat)
    reads fh`count, fh`last
  {
    |rs| == |fh| && forall k {:trigger rs[k]} {:trigger fh[k]} :: 0 <= k < |fh| && k != i ==> rs[k] == fh[k].RankOf()
  }

  class FrequencyHeap {
    var fh: seq<Node>
    ghost var repr: set<Node>
    ghost var rs: seq<Rank>

    ghost predicate Shape()
      reads this, repr
    {
      |rs| == |fh| && Placed(fh, repr) && Ranked(fh, rs)
    }

    ghost predicate Valid()
      reads this, repr
    {
      Shape() && Heap(rs, |rs|)
    }

    constructor ()
      ensures Valid() && fh == [] && repr == {}
    {
      fh, repr, rs := [], {}, [];
    }

    method Less(i: nat, j: nat) returns (b: bool)
      requires Shape() && i < |fh| && j < |fh|
      ensures b == Before(rs[i], rs[j])
    {
      assert rs[i] == fh[i].RankOf() && rs[j] == fh[j].RankOf();
      if fh[i].count == fh[j].count {
        return fh[i].last < fh[j].last;
      }
      return fh[i].count < fh[j].count;
    }

    method Swap(i: nat, j: nat)
      requires Shape() && i < |fh| && j < |fh|
      modifies this`fh, this`rs, repr`index
      ensures Shape() && fh == Swapped(old(fh), i, j) && rs == Swapped(old(rs), i, j)
    {
      fh := fh[i := fh[j]][j := fh[i]];
      fh[i].index := i;
      fh[j].index := j;
      rs := Swapped(rs, i, j);
    }

    /** Sift the entry at `start` towards the root; only the first `n` entries take part. */
    method Up(start: nat, ghost n: nat)
      requires Shape() && start < n <= |fh| && HeapUp(rs, n, start)
      modifies this`fh, this`rs, repr`index
      ensures Shape() && |fh| == |old(fh)| && Heap(rs, n) && fh[n..] == old(fh)[n..]
    {
      var j: nat := start;
      while true
        invariant j < n <= |fh| == |old(fh)| && Shape() && HeapUp(rs, n, j) && fh[n..] == old(fh)[n..]
        decreases j
      {
        var i := if j == 0 then 0 else (j - 1) / 2;
        if i == j {
          break;
        }
        var less := Less(j, i);
        if !less {
          break;
        }
        UpStep(rs, n, j);
        Swap(i, j);
        j := i;
      }
      UpDone(rs, n, j);
    }

    /** Sift the entry at `start` towards the leaves of the first `n` entries; reports whether it moved. */
    method Down(start: nat, n: nat) returns (moved: bool)
      requires Shape() && start < n <= |fh| && HeapDown(rs, n, start, false)
      modifies this`fh, this`rs, repr`index
      ensures Shape() && |fh| == |old(fh)| && fh[n..] == old(fh)[n..]
      ensures if moved then Heap(rs, n) else HeapUp(rs, n, start)
    {
      hide Placed;
      hide FrequencyHeap.Valid;
      hide Ranked;
      hide HeapDown;
      hide HeapUp;
      hide Heap;
      var i: nat := start;
      while true
        invariant start <= i < n <= |fh| == |old(fh)| && Shape() && HeapDown(rs, n, i, i > start) && fh[n..] == old(fh)[n..]
        invariant |rs| == |fh|
        decreases n - i
      {
        if 2 * i + 1 >= n {
          NoChildren(rs, n, i, i > start);
          return i > start;
        }
        var j := PickChild(i, n);
        var less := Less(j, i);
        if !less {
          ChildrenOk(rs, n, i, j, i > start);
          return i > start;
        }
        DownStep(rs, n, i, j, i > start);
        Swap(i, j);
        i := j;
      }
    }

    /** The child to compare with: the right one only if it precedes the left. */
    method PickChild(i: nat, n: nat) returns (j: nat)
      requires Shape() && i < n <= |fh| && 2 * i + 1 < n
      ensures |rs| == |fh| && FirstChild(rs, n, i, j) && j > i
    {
      var j1 := 2 * i + 1;
      j := j1;
      var j2 := j1 + 1;
      if j2 < n {
        var less := Less(j2, j1);
        if less {
          j := j2;
        }
      }
    }

    /** Restore the order after the rank of entry `i` has changed. */
    method Fix(i: nat)
      requires Placed(fh, repr) && i < |fh| && RankedBut(fh, rs, i) && Heap(rs, |rs|)
      modifies this`fh, this`rs, repr`index
      ensures Valid() && |fh| == |old(fh)|
    {
      ChangeOne(rs, |rs|, i, fh[i].RankOf());
      rs := rs[i := fh[i].RankOf()];
      var moved := Down(i, |fh|);
      if !moved {
        Up(i, |fh|);
      }
    }

    /** heap.Push. */
    method Push(node: Node)
      requires Valid() && node !in repr
      modifies this, node`index, repr`index
      ensures Valid() && |fh| == |old(fh)| + 1 && repr == old(repr) + {node}
    {
      ghost var n := |fh|;
      node.index := |fh|;
      fh := fh + [node];
      repr := repr + {node};
      ghost var before := rs;
      rs := rs + [node.RankOf()];
      AppendUp(before, node.RankOf());
      Up(|fh| - 1, |fh|);
    }

    /** Drops the last slot of the slice. */
    method PopLast() returns (node: Node)
      requires Shape() && |fh| > 0 && Heap(rs, |rs| - 1)
      modifies this, repr`index
      ensures Valid() && node == old(fh)[|old(fh)| - 1] && |fh| == |old(fh)| - 1 && repr == old(repr) - {node}
      ensures node in old(repr)
    {
      var n := |fh|;
      node := fh[n - 1];
      node.index := -1;
      fh := fh[..n - 1];
      repr := repr - {node};
      ghost var before := rs;
      rs := rs[..n - 1];
      forall k | 0 < k < n - 1 ensures Ok(rs, k) {
        assert Ok(before, k);
      }
    }

    /** heap.Remove: moves entry `i` to the end, restores the order of the others, and drops it. */
    method Remove(i: nat) returns (node: Node)
      requires Valid() && i < |fh|
      modifies this, repr`index
      ensures Valid() && node == old(fh)[i] && node in old(repr) && |fh| == |old(fh)| - 1 && repr == old(repr) - {node}
    {
      var n := |fh| - 1;
      ghost var target := fh[i];
      if n != i {
        SwapOut(rs, i);
        Swap(i, n);
        var moved := Down(i, n);
        if !moved {
          Up(i, n);
        }
        assert fh[n..][0] == target;
      } else {
        SwapOut(rs, i);
      }
      node := PopLast();
    }

    /** heap.Pop: removes the root. */
    method Pop() returns (node: Node)
      requires Valid() && |fh| > 0
      modifies this, repr`index
      ensures Valid() && node == old(fh)[0] && node in old(repr) && |fh| == |old(fh)| - 1 && repr == old(repr) - {node}
    {
      var n := |fh| - 1;
      ghost var target := fh[0];
      SwapOut(rs, 0);
      Swap(0, n);
      if n > 0 {
        var moved := Down(0, n);
        if !moved {
          UpDone(rs, n, 0);
        }
        assert fh[n..][0] == target;
      }
      node := PopLast();
    }
  }

  lemma AppendUp(rs: seq<Rank>, r: Rank)
    requires Heap(rs, |rs|)
    ensures HeapUp(rs + [r], |rs| + 1, |rs|)
  {
    var s := rs + [r];
    forall k | 0 < k < |rs| ensures Ok(s, k) {
      assert Ok(rs, k);
    }
  }

  /** Swapping entry `i` with the last one leaves the rest in order around `i`. */
  lemma SwapOut(rs: seq<Rank>, i: nat)
    requires i < |rs| && Heap(rs, |rs|)
    ensures var n := |rs| - 1;
            if i < n then HeapDown(Swapped(rs, i, n), n, i, false) else Heap(Swapped(rs, i, n), n)
  {
    var n := |rs| - 1;
    var s := Swapped(rs, i, n);
    forall k | 0 < k < n && k != i && (i < n ==> Parent(k) != i) ensures Ok(s, k) {
      assert Ok(rs, k);
    }
    if 0 < i < n {
      forall k | 0 < k < n && Parent(k) == i ensures !Before(s[k], s[Parent(i)]) {
        assert Ok(rs, k) && Ok(rs, i);
      }
    }
  }

  // ---------- the cache object ----------

  ghost function Cells(items: map<string, Node>): map<string, Cell>
    reads items.Values`value, items.Values`count, items.Values`last
  {
    map k | k in items :: P.Cell(items[k].value, items[k].count, items[k].last)
  }

  /** The map and the node set agree. */
  ghost predicate TiedTo(items: map<string, Node>, repr: set<Node>) {
    && (forall k :: k in items ==> items[k] in repr && items[k].key == k)
    && (forall n :: n in repr ==> n.key in items && items[n.key] == n)
  }

  lemma TiedDrop(items: map<string, Node>, repr: set<Node>, node: Node)
    requires TiedTo(items, repr) && node in repr
    ensures node.key in items && items[node.key] == node
    ensures TiedTo(items - {node.key}, repr - {node}) && |items - {node.key}| == |items| - 1
  {
    assert items.Keys == (items - {node.key}).Keys + {node.key};
  }

  lemma TiedAdd(items: map<string, Node>, repr: set<Node>, node: Node)
    requires TiedTo(items, repr) && node.key !in items
    ensures node !in repr && TiedTo(items[node.key := node], repr + {node}) && |items[node.key := node]| == |items| + 1
  {
    assert items[node.key := node].Keys == items.Keys + {node.key};
  }

  lemma CellOf(items: map<string, Node>, k: string)
    ensures k in Cells(items) <==> k in items
    ensures k in items ==> Cells(items)[k] == P.Cell(items[k].value, items[k].count, items[k].last)
    ensures |Cells(items)| == |items|
  {
    assert Cells(items).Keys == items.Keys;
  }

  class LFU {
    const cap: nat
    var items: map<string, Node>
    const freqs: FrequencyHeap
    var length: nat
    var clock: nat

    /** Heap and map hold the same nodes. */
    ghost predicate Tied()
      reads this, freqs
    {
      TiedTo(items, freqs.repr) && length == |items| == |freqs.fh|
    }

    ghost predicate Valid()
      reads this, freqs, freqs.repr, items.Values
    {
      freqs.Valid() && Tied() && P.Inv(View())
    }

    ghost function View(): State
      reads this, items.Values`value, items.Values`count, items.Values`last
    {
      P.State(cap, Cells(items), clock)
    }

    constructor (cap: nat)
      ensures Valid() && View() == P.State(cap, map[], 0) && fresh(freqs) && freqs.repr == {}
    {
      this.cap, items, length, clock := cap, map[], 0, 0;
      freqs := new FrequencyHeap();
    }

    /** The heap's root is the victim. */
    lemma RootIsVictim()
      requires Valid() && |freqs.fh| > 0
      ensures freqs.fh[0] in freqs.repr && View().m != map[] && P.DistinctLasts(View().m)
      ensures freqs.fh[0].key == P.Victim(View().m)
    {
      assert freqs.fh[0].key in items;
      RootComesFirst();
      P.VictimUnique(View().m, freqs.fh[0].key, P.Victim(View().m));
    }

    lemma RootComesFirst()
      requires Valid() && |freqs.fh| > 0
      ensures P.IsVictim(View().m, freqs.fh[0].key)
    {
      var m, root := View().m, freqs.fh[0];
      forall j | j in m && j != root.key ensures Before(P.RankOfCell(m[root.key]), P.RankOfCell(m[j])) {
        var i := items[j].index;
        RootFirst(freqs.rs, |freqs.rs|, i);
        assert freqs.rs[i] == items[j].RankOf() && freqs.rs[0] == root.RankOf();
        assert m[j].last != m[root.key].last;
      }
    }

    /** Updates the access data of a tracked node. */
    method Mark(node: Node)
      requires Valid() && node.key in items && items[node.key] == node
      modifies this`clock, node`count, node`last
      ensures Tied() && View() == P.Touch(old(View()), node.key, node.value)
      ensures Placed(freqs.fh, freqs.repr) && 0 <= node.index < |freqs.fh| && RankedBut(freqs.fh, freqs.rs, node.index)
    {
      hide Heap;
      hide P.Inv;
      NodeOf(node.key);
      ghost var v := View();
      node.count := node.count + 1;
      clock := clock + 1;
      node.last := clock;
      assert View().m == P.Touch(v, node.key, node.value).m;
    }

    /** Records an access to a tracked node and re-sorts it. */
    method Bump(node: Node)
      requires Valid() && node.key in items && items[node.key] == node
      modifies this`clock, freqs, freqs.repr`count, freqs.repr`last, freqs.repr`index
      ensures Valid() && freqs.repr == old(freqs.repr)
      ensures View() == P.Touch(old(View()), node.key, node.value)
    {
      hide Heap;
      hide P.Inv;
      hide Placed;
      hide Ranked;
      hide RankedBut;
      hide Cells;
      CellOf(items, node.key);
      P.TouchInv(View(), node.key, node.value);
      Mark(node);
      ghost var v := View();
      freqs.Fix(node.index);
      assert View().m == v.m;
    }

    /** Drops the map entry of a node already taken off the heap. */
    method Forget(key: string)
      requires freqs.Valid() && key in items && length == |items| == |freqs.fh| + 1
      requires TiedTo(items - {key}, freqs.repr) && P.Inv(P.State(cap, Cells(items) - {key}, clock))
      modifies this`items, this`length
      ensures Valid() && View() == old(P.State(cap, Cells(items) - {key}, clock)) && length == old(length) - 1
    {
      hide Heap;
      hide P.Inv;
      hide FrequencyHeap.Valid;
      hide Cells;
      hide TiedTo;
      CellsDrop(items, key);
      assert items.Keys == (items - {key}).Keys + {key};
      items := items - {key};
      length := length - 1;
    }

    /** Drops the heap's root. */
    method InternalEvict() returns (key: Option<string>)
      requires Valid()
      modifies this, freqs, freqs.repr`index
      ensures Valid() && freqs.repr <= old(freqs.repr)
      ensures old(length) == |old(View()).m|
      ensures old(length) == 0 ==> key == None && View() == old(View())
      ensures old(length) > 0 ==>
                && length == old(length) - 1
                && old(View()).m != map[] && key == Some(P.Victim(old(View()).m)) && View() == P.DropVictim(old(View()))
    {
      hide Heap;
      hide P.Inv;
      hide Placed;
      hide FrequencyHeap.Valid;
      hide Ranked;
      hide Cells;
      hide TiedTo;
      hide P.IsVictim;
      CellOf(items, "");
      if length == 0 {
        return None;
      }
      RootIsVictim();
      ghost var v := View();
      P.DropInv(v);
      TiedDrop(items, freqs.repr, freqs.fh[0]);
      var node := freqs.Pop();
      Forget(node.key);
      key := Some(node.key);
    }

    method Evict() returns (key: Option<string>)
      requires Valid()
      modifies this, freqs, freqs.repr`index
      ensures Valid() && freqs.repr <= old(freqs.repr)
      ensures (View(), key) == P.Evict(old(View()))
    {
      hide Heap;
      hide P.Inv;
      hide Cells;
      if cap == 0 {
        return None;
      }
      key := InternalEvict();
    }

    method Get(key: string) returns (r: Option<Value>)
      requires Valid()
      modifies this`clock, freqs, freqs.repr`count, freqs.repr`last, freqs.repr`index
      ensures Valid() && freqs.repr == old(freqs.repr)
      ensures (View(), r) == P.Get(old(View()), key)
    {
      hide Heap;
      hide P.Inv;
      hide Placed;
      hide FrequencyHeap.Valid;
      hide Ranked;
      hide Cells;
      hide TiedTo;
      CellOf(items, key);
      if key !in items {
        return None;
      }
      NodeOf(key);
      var node := items[key];
      Bump(node);
      r := Some(node.value);
    }

    method Delete(key: string)
      requires Valid()
      modifies this, freqs, freqs.repr`index
      ensures Valid() && freqs.repr <= old(freqs.repr)
      ensures View() == P.Delete(old(View()), key)
    {
      hide Heap;
      hide P.Inv;
      hide Placed;
      hide FrequencyHeap.Valid;
      hide Ranked;
      hide Cells;
      hide TiedTo;
      P.OtherInv(View(), key);
      CellOf(items, key);
      if key !in items {
        assert View().m - {key} == View().m;
        return;
      }
      NodeOf(key);
      var node := items[key];
      TiedDrop(items, freqs.repr, node);
      var removed := freqs.Remove(node.index);
      Forget(key);
    }

    lemma Fits()
      requires Valid()
      ensures length == |items| <= cap
    {
      CellOf(items, "");
    }

    /** A tracked key's node sits in the heap where its index says. */
    lemma NodeOf(key: string)
      requires Valid() && key in items
      ensures var n := items[key]; n in freqs.repr && n.key == key && 0 <= n.index < |freqs.fh| && freqs.fh[n.index] == n
    {
    }

    /** Overwrites the value of a tracked node. */
    method Store(node: Node, value: Value)
      requires Valid() && node.key in items && items[node.key] == node
      modifies node`value
      ensures Valid() && node.value == value && node.key in old(View()).m
      ensures View() == old(View()).(m := old(View()).m[node.key := old(View()).m[node.key].(value := value)])
    {
      ghost var v := View();
      CellOf(items, node.key);
      P.RevalueInv(v, node.key, value);
      hide Heap;
      hide P.Inv;
      hide Placed;
      hide FrequencyHeap.Valid;
      hide Ranked;
      node.value := value;
      assert View().m == v.m[node.key := v.m[node.key].(value := value)];
    }

    /** Adds the map entry of a node already on the heap. */
    method Remember(node: Node)
      requires freqs.Valid() && node.key !in items && length == |items| && |freqs.fh| == |items| + 1
      requires TiedTo(items[node.key := node], freqs.repr)
      requires P.Inv(P.State(cap, Cells(items[node.key := node]), clock))
      modifies this`items, this`length
      ensures Valid() && View() == old(P.State(cap, Cells(items[node.key := node]), clock))
    {
      hide Heap;
      hide P.Inv;
      hide FrequencyHeap.Valid;
      hide Cells;
      hide TiedTo;
      assert items[node.key := node].Keys == items.Keys + {node.key};
      items := items[node.key := node];
      length := length + 1;
    }

    /** Tracks a new key. */
    method Insert(key: string, value: Value)
      requires Valid() && key !in items && length < cap
      modifies this, freqs, freqs.repr`index
      ensures Valid() && fresh(freqs.repr - old(freqs.repr))
      ensures var v := old(View());
              View() == v.(m := v.m[key := P.Cell(value, 1, v.clock + 1)], clock := v.clock + 1)
    {
      hide Heap;
      hide P.Inv;
      hide Placed;
      hide FrequencyHeap.Valid;
      hide Ranked;
      hide Cells;
      hide TiedTo;
      CellOf(items, key);
      P.InsertInv(View(), key, value);
      clock := clock + 1;
      var node := new Node(key, value, clock);
      CellsAdd(items, node);
      TiedAdd(items, freqs.repr, node);
      freqs.Push(node);
      Remember(node);
    }

    method Set(key: string, value: Value)
      requires Valid()
      modifies this, freqs, freqs.repr
      ensures Valid() && fresh(freqs.repr - old(freqs.repr))
      ensures View() == P.Set(old(View()), key, value)
    {
      hide Heap;
      hide P.Inv;
      hide Placed;
      hide FrequencyHeap.Valid;
      hide Ranked;
      hide Cells;
      hide TiedTo;
      CellOf(items, key);
      Fits();
      if cap == 0 {
        return;
      }
      if key in items {
        NodeOf(key);
        var node := items[key];
        ghost var v := View();
        Store(node, value);
        Bump(node);
        assert View().m == P.Touch(v, key, value).m;
        return;
      }
      if length == cap {
        ghost var v := View();
        var _ := InternalEvict();
        CellOf(items, key);
      }
      Insert(key, value);
    }

    /** One operation of the eviction interface. */
    method Apply(op: Op) returns (r: Option<string>)
      requires Valid()
      modifies this, freqs, freqs.repr
      ensures Valid() && fresh(freqs.repr - old(freqs.repr)) && P.Inv(old(View()))
      ensures View() == P.Step(old(View()), op) && r == P.Reply(old(View()), op)
    {
      InvHolds();
      hide Valid;
      hide View;
      hide P.Inv;
      r := None;
      match op {
        case GetOp(k) => r := Get(k);
        case SetOp(k, v) => Set(k, v);
        case DeleteOp(k) => Delete(k);
        case EvictOp => r := Evict();
      }
    }

    lemma InvHolds()
      requires Valid()
      ensures P.Inv(View())
    {
    }
  }

  /** Any operations fed to an LFU get the policy's replies. */
  method RunLfu(capacity: nat, ops: seq<Op>) returns (replies: seq<Option<string>>)
    ensures replies == P.Replies(capacity, ops)
  {
    hide LFU.Valid;
    hide LFU.View;
    hide P.Inv;
    hide P.Step;
    hide P.Reply;
    var c := new LFU(capacity);
    replies := [];
    for n := 0 to |ops|
      invariant fresh(c) && fresh(c.freqs) && fresh(c.freqs.repr) && c.Valid()
      invariant c.View() == P.Run(capacity, ops[..n]) && replies == P.Replies(capacity, ops[..n])
    {
      assert ops[..n + 1][..n] == ops[..n];
      var r := c.Apply(ops[n]);
      replies := replies + [r];
    }
    assert ops[..|ops|] == ops;
  }

  lemma CellsDrop(items: map<string, Node>, k: string)
    ensures Cells(items - {k}) == Cells(items) - {k}
  {
  }

  lemma CellsAdd(items: map<string, Node>, node: Node)
    requires node.key !in items
    ensures Cells(items[node.key := node]) == Cells(items)[node.key := P.Cell(node.value, node.count, node.last)]
  {
  }
}
