/** Pointer-level ARC (pkg/eviction/arc.go): four linked lists with index maps, refining ArcPolicy. */
module ArcCache {
  import opened LinkedList
  import opened Items
  import opened Traces
  import P = ArcPolicy

  class ARC {
    const capacity: nat
    var p: int
    const t1: IndexedList<Value>
    const t2: IndexedList<Value>
    const b1: IndexedList<()>
    const b2: IndexedList<()>
    var length: int

    /** The four lists are well formed, indexed and share no node. */
    ghost predicate Valid()
      reads this, t1, t2, b1, b2, t1.list, t2.list, b1.list, b2.list
      reads t1.list.repr, t2.list.repr, b1.list.repr, b2.list.repr
    {
      && t1 != t2 && b1 != b2 && t1.list != t2.list && b1.list != b2.list
      && t1.Valid() && t2.Valid() && b1.Valid() && b2.Valid()
      && t1.list.repr !! t2.list.repr && b1.list.repr !! b2.list.repr
    }

    ghost function Model(): P.Arc
      reads this, t1.list, t2.list, b1.list, b2.list
    {
      P.Arc(capacity, p, t1.list.contents, t2.list.contents, b1.list.contents, b2.list.contents, length)
    }

    constructor (capacity: nat)
      ensures Valid() && Model() == P.New(capacity) && Residents() == {} && Ghosts() == {}
      ensures fresh(t1) && fresh(t2) && fresh(b1) && fresh(b2)
      ensures fresh(t1.list) && fresh(t2.list) && fresh(b1.list) && fresh(b2.list)
    {
      this.capacity, p, length := capacity, 0, 0;
      t1 := new IndexedList<Value>();
      t2 := new IndexedList<Value>();
      b1 := new IndexedList<()>();
      b2 := new IndexedList<()>();
    }

    /** Each index agrees with its list, and a key is in at most one of them. */
    lemma Where(key: string)
      requires Valid() && P.NoDup(Model())
      ensures key in t1.idx <==> HasKey(t1.list.contents, key)
      ensures key in t2.idx <==> HasKey(t2.list.contents, key)
      ensures key in b1.idx <==> HasKey(b1.list.contents, key)
      ensures key in b2.idx <==> HasKey(b2.list.contents, key)
      ensures key in t1.idx ==> key !in t2.idx && key !in b1.idx && key !in b2.idx
      ensures key in t2.idx ==> key !in b1.idx && key !in b2.idx
      ensures key in b1.idx ==> key !in b2.idx
    {
      hide Owned;
      hide Linked;
      hide Holds;
      hide Indexed;
      var i1 := t1.Known(key);
      var i2 := t2.Known(key);
      var i3 := b1.Known(key);
      var i4 := b2.Known(key);
      P.KeysOf(Model(), key);
      assert P.Population(Model(), key) <= 1;
    }

    ghost function Residents(): set<Node<Value>>
      reads t1.list, t2.list
    {
      t1.list.repr + t2.list.repr
    }

    ghost function Ghosts(): set<Node<()>>
      reads b1.list, b2.list
    {
      b1.list.repr + b2.list.repr
    }

    /** Moves a T1 entry to the front of T2, with a new value if one is given. */
    method MoveToT2(key: string, update: Option<Value>) returns (value: Value)
      requires Valid() && P.NoDup(Model()) && key in t1.idx
      modifies this, t1, t2, t1.list, t2.list, Residents()
      ensures Valid() && Residents() == old(Residents()) && HasKey(old(t1.list.contents), key)
      ensures value == if update.Some? then update.value else old(t1.list.contents[Pos(t1.list.contents, key)].value)
      ensures Model() == P.Promote(old(Model()), Entry(key, value))
    {
      hide Pos;
      hide Drop;
      hide List.Valid;
      hide Owned;
      hide Linked;
      hide Holds;
      hide Indexed;
      hide HasKey;
      hide P.NoDup;
      Where(key);
      var node := t1.Take(key);
      if update.Some? {
        node.value := update.value;
      }
      t2.Push(node);
      value := node.value;
    }

    /** Moves a T2 entry to the front, with a new value if one is given. */
    method RefreshInT2(key: string, update: Option<Value>) returns (value: Value)
      requires Valid() && P.NoDup(Model()) && key in t2.idx
      modifies this, t2, t2.list, Residents()
      ensures Valid() && Residents() == old(Residents()) && HasKey(old(t2.list.contents), key)
      ensures value == if update.Some? then update.value else old(t2.list.contents[Pos(t2.list.contents, key)].value)
      ensures Model() == P.Refresh(old(Model()), Entry(key, value))
    {
      hide List.Valid;
      hide Owned;
      hide Linked;
      hide Holds;
      hide Indexed;
      hide HasKey;
      hide P.NoDup;
      Where(key);
      var node := t2.Take(key);
      if update.Some? {
        node.value := update.value;
      }
      t2.Push(node);
      value := node.value;
    }

    lemma GetKeeps(key: string)
      ensures P.Inv(Model()) ==> P.Inv(P.Get(Model(), key).0)
    {
      if P.Inv(Model()) {
        P.GetInv(Model(), key);
      }
    }

    method Get(key: string) returns (r: Option<Value>)
      requires Valid() && P.NoDup(Model())
      modifies this, t1, t2, t1.list, t2.list, Residents()
      ensures Valid() && (Model(), r) == P.Get(old(Model()), key)
      ensures Residents() == old(Residents())
      ensures old(P.Inv(Model())) ==> P.Inv(Model())
    {
      GetKeeps(key);
      hide Owned;
      hide Linked;
      hide Holds;
      hide Indexed;
      hide HasKey;
      hide P.NoDup;
      Where(key);
      if key in t1.idx {
        var value := MoveToT2(key, None);
        return Some(value);
      }
      if key in t2.idx {
        var value := RefreshInT2(key, None);
        return Some(value);
      }
      return None;
    }

    /** Links a new ghost at the front of B1. */
    method PushB1(key: string)
      requires Valid() && key !in b1.idx
      modifies b1, b1.list, Ghosts()
      ensures Valid() && fresh(Ghosts() - old(Ghosts()))
      ensures Model() == old(Model()).(b1 := [Entry(key, ())] + old(Model()).b1)
    {
      hide Owned;
      hide Linked;
      hide Holds;
      hide Indexed;
      var node := new Node<()>(key, ());
      b1.Push(node);
    }

    /** Demotes the last T1 entry to a B1 ghost. */
    method DemoteT1() returns (key: string)
      requires Valid() && P.NoDup(Model()) && t1.list.contents != []
      modifies this, t1, t1.list, b1, b1.list, Residents(), Ghosts()
      ensures Valid() && Residents() <= old(Residents()) && fresh(Ghosts() - old(Ghosts()))
      ensures key == P.Last(old(t1.list.contents)).key
      ensures var a := old(Model());
              Model() == a.(t1 := P.Init(a.t1), b1 := [Entry(key, ())] + a.b1, length := a.length - 1)
    {
      hide List.Valid;
      hide Owned;
      hide Linked;
      hide Holds;
      hide Indexed;
      hide HasKey;
      hide P.NoDup;
      HasKeyAt(t1.list.contents, |t1.list.contents| - 1);
      Where(P.Last(t1.list.contents).key);
      var node := t1.PopTail();
      key := node.key;
      PushB1(key);
      length := length - 1;
    }

    /** Links a new ghost at the front of B2. */
    method PushB2(key: string)
      requires Valid() && key !in b2.idx
      modifies b2, b2.list, Ghosts()
      ensures Valid() && fresh(Ghosts() - old(Ghosts()))
      ensures Model() == old(Model()).(b2 := [Entry(key, ())] + old(Model()).b2)
    {
      hide Owned;
      hide Linked;
      hide Holds;
      hide Indexed;
      var node := new Node<()>(key, ());
      b2.Push(node);
    }

    /** Demotes the last T2 entry to a B2 ghost. */
    method DemoteT2() returns (key: string)
      requires Valid() && P.NoDup(Model()) && t2.list.contents != []
      modifies this, t2, t2.list, b2, b2.list, Residents(), Ghosts()
      ensures Valid() && Residents() <= old(Residents()) && fresh(Ghosts() - old(Ghosts()))
      ensures key == P.Last(old(t2.list.contents)).key
      ensures var a := old(Model());
              Model() == a.(t2 := P.Init(a.t2), b2 := [Entry(key, ())] + a.b2, length := a.length - 1)
    {
      hide List.Valid;
      hide Owned;
      hide Linked;
      hide Holds;
      hide Indexed;
      hide HasKey;
      hide P.NoDup;
      HasKeyAt(t2.list.contents, |t2.list.contents| - 1);
      Where(P.Last(t2.list.contents).key);
      var node := t2.PopTail();
      key := node.key;
      PushB2(key);
      length := length - 1;
    }

    /** Evicts one resident into a ghost list; returns its key, or "" when there is none to evict. */
    method Replace(x: string) returns (key: string)
      requires Valid() && P.NoDup(Model())
      modifies this, t1, t2, b1, b2, t1.list, t2.list, b1.list, b2.list, Residents(), Ghosts()
      ensures Valid() && Residents() <= old(Residents()) && fresh(Ghosts() - old(Ghosts()))
      ensures (Model(), key) == P.Replace(old(Model()), x)
    {
      hide Owned;
      hide Linked;
      hide Holds;
      hide Indexed;
      hide HasKey;
      hide P.NoDup;
      Where(x);
      t1.list.Lengths();
      t2.list.Lengths();
      var fromT1 := t1.list.len > 0 && ((x != "" && x in b2.idx && t1.list.len == p) || t1.list.len > p);
      if fromT1 {
        key := DemoteT1();
      } else if t2.list.len > 0 {
        key := DemoteT2();
      } else {
        key := "";
      }
    }

    /** Links a new resident at the front of T2. */
    method AddToT2(key: string, value: Value)
      requires Valid() && key !in t2.idx
      modifies this, t2, t2.list, Residents()
      ensures Valid() && fresh(Residents() - old(Residents()))
      ensures var a := old(Model());
              Model() == a.(t2 := [Entry(key, value)] + a.t2, length := a.length + 1)
    {
      hide Owned;
      hide Linked;
      hide Holds;
      hide Indexed;
      var node := new Node<Value>(key, value);
      t2.Push(node);
      length := length + 1;
    }

    /** Moves p after a ghost hit. */
    method Adapt(inB1: bool)
      requires Valid()
      modifies this`p
      ensures Valid() && Model() == old(Model()).(p := P.Adapted(old(Model()), inB1))
    {
      hide Owned;
      hide Linked;
      hide Holds;
      hide Indexed;
      b1.list.Lengths();
      b2.list.Lengths();
      if inB1 {
        var increment := b2.list.len / (if 1 > b1.list.len then 1 else b1.list.len);
        p := p + (if increment < 1 then 1 else increment);
        if p > capacity {
          p := capacity;
        }
      } else {
        var decrement := b1.list.len / (if 1 > b2.list.len then 1 else b2.list.len);
        p := p - (if decrement < 1 then 1 else decrement);
        if p < 0 {
          p := 0;
        }
      }
    }

    method ForgetB1(key: string)
      requires Valid() && key in b1.idx
      modifies b1, b1.list, Ghosts()
      ensures Valid() && Ghosts() <= old(Ghosts())
      ensures Residents() == old(Residents()) && t2.idx == old(t2.idx)
      ensures HasKey(old(Model()).b1, key) && Model() == old(Model()).(b1 := Drop(old(Model()).b1, key))
    {
      hide Owned;
      hide Linked;
      hide Holds;
      hide Indexed;
      var _ := b1.Take(key);
    }

    /** Adapts p, then replaces one resident; the ghost that was hit stays a ghost. */
    method AdaptAndReplace(key: string, inB1: bool)
      requires Valid() && P.Inv(Model()) && key in if inB1 then b1.idx else b2.idx
      modifies this, t1, t2, b1, b2, t1.list, t2.list, b1.list, b2.list, Residents(), Ghosts()
      ensures Valid() && Residents() <= old(Residents()) && fresh(Ghosts() - old(Ghosts()))
      ensures var a := old(Model()); Model() == P.Replace(a.(p := P.Adapted(a, inB1)), key).0
      ensures key !in t2.idx
      ensures inB1 ==> key in b1.idx && HasKey(Model().b1, key) && HasKey(old(Model()).b1, key)
      ensures !inB1 ==> key in b2.idx && HasKey(Model().b2, key) && HasKey(old(Model()).b2, key)
    {
      hide Valid;
      hide P.NoDup;
      hide P.Replace;
      hide P.Adapted;
      hide HasKey;
      hide P.Population;
      hide P.FromT1;
      hide P.Sizes;
      ghost var a := Model();
      Where(key);
      Adapt(inB1);
      ghost var q := Model();
      AdaptedInv(a, inB1);
      P.ReplaceInv(q, key);
      P.ReplacePopulation(q, key, key);
      var _ := Replace(key);
      Where(key);
    }

    /** The ghost becomes resident in T2. */
    method AdmitFromB1(key: string, value: Value)
      requires Valid() && key in b1.idx && key !in t2.idx
      modifies this, t2, t2.list, b1, b1.list, Residents(), Ghosts()
      ensures Valid() && fresh(Residents() - old(Residents())) && Ghosts() <= old(Ghosts())
      ensures var a := old(Model());
              && HasKey(a.b1, key)
              && Model() == a.(b1 := Drop(a.b1, key), t2 := [Entry(key, value)] + a.t2, length := a.length + 1)
    {
      hide Valid;
      hide HasKey;
      hide Drop;
      ForgetB1(key);
      AddToT2(key, value);
    }

    /** A hit in B1: p adapts, one resident is replaced, and the key becomes resident in T2. */
    method GhostHitB1(key: string, value: Value)
      requires Valid() && P.Inv(Model()) && key in b1.idx
      modifies this, t1, t2, b1, b2, t1.list, t2.list, b1.list, b2.list, Residents(), Ghosts()
      ensures Valid() && fresh(Residents() - old(Residents())) && fresh(Ghosts() - old(Ghosts()))
      ensures HasKey(old(Model()).b1, key) && Model() == P.GhostHitB1(old(Model()), key, value)
    {
      hide Valid;
      hide Model;
      hide Ghosts;
      hide P.Inv;
      hide P.Replace;
      hide P.Adapted;
      hide HasKey;
      hide Drop;
      AdaptAndReplace(key, true);
      AdmitFromB1(key, value);
    }

    method ForgetB2(key: string)
      requires Valid() && key in b2.idx
      modifies b2, b2.list, Ghosts()
      ensures Valid() && Ghosts() <= old(Ghosts())
      ensures Residents() == old(Residents()) && t2.idx == old(t2.idx)
      ensures HasKey(old(Model()).b2, key) && Model() == old(Model()).(b2 := Drop(old(Model()).b2, key))
    {
      hide Owned;
      hide Linked;
      hide Holds;
      hide Indexed;
      var _ := b2.Take(key);
    }

    /** The ghost becomes resident in T2. */
    method AdmitFromB2(key: string, value: Value)
      requires Valid() && key in b2.idx && key !in t2.idx
      modifies this, t2, t2.list, b2, b2.list, Residents(), Ghosts()
      ensures Valid() && fresh(Residents() - old(Residents())) && Ghosts() <= old(Ghosts())
      ensures var a := old(Model());
              && HasKey(a.b2, key)
              && Model() == a.(b2 := Drop(a.b2, key), t2 := [Entry(key, value)] + a.t2, length := a.length + 1)
    {
      hide Valid;
      hide HasKey;
      hide Drop;
      ForgetB2(key);
      AddToT2(key, value);
    }

    /** A hit in B2: p adapts, one resident is replaced, and the key becomes resident in T2. */
    method GhostHitB2(key: string, value: Value)
      requires Valid() && P.Inv(Model()) && key in b2.idx
      modifies this, t1, t2, b1, b2, t1.list, t2.list, b1.list, b2.list, Residents(), Ghosts()
      ensures Valid() && fresh(Residents() - old(Residents())) && fresh(Ghosts() - old(Ghosts()))
      ensures HasKey(old(Model()).b2, key) && Model() == P.GhostHitB2(old(Model()), key, value)
    {
      hide Valid;
      hide Model;
      hide Ghosts;
      hide P.Inv;
      hide P.Replace;
      hide P.Adapted;
      hide HasKey;
      hide Drop;
      AdaptAndReplace(key, false);
      AdmitFromB2(key, value);
    }

    /** Adapting p keeps the structure. */
    lemma AdaptedInv(a: P.Arc, inB1: bool)
      requires P.Inv(a)
      ensures P.Inv(a.(p := P.Adapted(a, inB1)))
    {
      var q := a.(p := P.Adapted(a, inB1));
      forall k ensures P.Population(q, k) <= 1 {
        assert P.Population(a, k) <= 1;
      }
    }

    /** |T1| + |B1| has reached the capacity: drop a ghost, or demote T1's oldest when T1 alone fills it. */
    method TrimForHistoryLimit()
      requires Valid() && P.NoDup(Model())
      modifies this, t1, t1.list, b1, b1.list, Residents(), Ghosts()
      ensures Valid() && Residents() <= old(Residents()) && fresh(Ghosts() - old(Ghosts()))
      ensures Model() == P.TrimHistory(old(Model()))
    {
      hide Owned;
      hide Linked;
      hide Holds;
      hide Indexed;
      hide P.NoDup;
      t1.list.Lengths();
      if t1.list.len < capacity {
        var _ := b1.PopTail();
        return;
      }
      if t1.list.len > 0 {
        var _ := DemoteT1();
      }
    }

    method DropOldestB2()
      requires Valid()
      modifies b2, b2.list, Ghosts()
      ensures Valid() && Ghosts() <= old(Ghosts())
      ensures var a := old(Model()); Model() == if a.b2 == [] then a else a.(b2 := P.Init(a.b2))
    {
      hide Owned;
      hide Linked;
      hide Holds;
      hide Indexed;
      var _ := b2.PopTail();
    }

    method TrimForTotalLimit()
      requires Valid() && P.NoDup(Model())
      modifies this, t1, t2, b1, b2, t1.list, t2.list, b1.list, b2.list, Residents(), Ghosts()
      ensures Valid() && Residents() <= old(Residents()) && fresh(Ghosts() - old(Ghosts()))
      ensures Model() == P.TrimTotal(old(Model()))
    {
      hide Valid;
      hide P.NoDup;
      hide P.Replace;
      ListLengths();
      var total := t1.list.len + t2.list.len + b1.list.len + b2.list.len;
      if total >= 2 * capacity {
        ghost var a := Model();
        DropOldestB2();
        FewerGhosts(a, Model());
      }
      var _ := Replace("");
    }

    lemma ListLengths()
      requires Valid()
      ensures t1.list.len == |t1.list.contents| && t2.list.len == |t2.list.contents|
      ensures b1.list.len == |b1.list.contents| && b2.list.len == |b2.list.contents|
    {
      hide Owned;
      hide Linked;
      hide Holds;
      hide Indexed;
      t1.list.Lengths();
      t2.list.Lengths();
      b1.list.Lengths();
      b2.list.Lengths();
    }

    lemma FewerGhosts(a: P.Arc, q: P.Arc)
      requires P.NoDup(a) && q == if a.b2 == [] then a else a.(b2 := P.Init(a.b2))
      ensures P.NoDup(q)
    {
      forall k ensures P.Population(q, k) <= 1 {
        assert P.Population(a, k) <= 1;
      }
    }

    /** Links a new resident at the front of T1. */
    method AddToT1(key: string, value: Value)
      requires Valid() && key !in t1.idx
      modifies this, t1, t1.list, Residents()
      ensures Valid() && fresh(Residents() - old(Residents()))
      ensures var a := old(Model());
              Model() == a.(t1 := [Entry(key, value)] + a.t1, length := a.length + 1)
    {
      hide Owned;
      hide Linked;
      hide Holds;
      hide Indexed;
      var node := new Node<Value>(key, value);
      t1.Push(node);
      length := length + 1;
    }

    /** Frees space for a new resident when the cache is full. */
    method EnsureCapacityForNew()
      requires Valid() && P.NoDup(Model())
      modifies this, t1, t2, b1, b2, t1.list, t2.list, b1.list, b2.list, Residents(), Ghosts()
      ensures Valid() && Residents() <= old(Residents()) && fresh(Ghosts() - old(Ghosts()))
      ensures Model() == P.MakeRoom(old(Model()))
    {
      hide Valid;
      hide P.NoDup;
      hide P.TrimTotal;
      hide P.TrimHistory;
      ListLengths();
      if length >= capacity {
        if t1.list.len + b1.list.len >= capacity {
          TrimForHistoryLimit();
        } else {
          TrimForTotalLimit();
        }
      }
    }

    /** Inserts an unknown key at the front of T1. */
    method InsertNew(key: string, value: Value)
      requires Valid() && P.Inv(Model()) && capacity > 0 && P.Population(Model(), key) == 0
      modifies this, t1, t2, b1, b2, t1.list, t2.list, b1.list, b2.list, Residents(), Ghosts()
      ensures Valid() && fresh(Residents() - old(Residents())) && fresh(Ghosts() - old(Ghosts()))
      ensures Model() == P.InsertNew(old(Model()), key, value)
    {
      hide Valid;
      hide P.NoDup;
      hide P.MakeRoom;
      hide P.Population;
      hide HasKey;
      ghost var a := Model();
      RoomFor(a, key);
      EnsureCapacityForNew();
      Where(key);
      AddToT1(key, value);
    }

    lemma RoomFor(a: P.Arc, key: string)
      requires P.Inv(a) && a.cap > 0 && P.Population(a, key) == 0
      ensures P.NoDup(P.MakeRoom(a)) && !HasKey(P.MakeRoom(a).t1, key)
    {
      if a.length >= a.cap {
        if |a.t1| + |a.b1| >= a.cap {
          P.TrimHistoryInv(a);
        } else {
          P.TrimTotalInv(a);
        }
      }
      assert P.Population(P.MakeRoom(a), key) <= P.Population(a, key);
      P.KeysOf(P.MakeRoom(a), key);
    }

    method Set(key: string, value: Value)
      requires Valid() && P.Inv(Model())
      modifies this, t1, t2, b1, b2, t1.list, t2.list, b1.list, b2.list, Residents(), Ghosts()
      ensures Valid() && fresh(Residents() - old(Residents())) && fresh(Ghosts() - old(Ghosts()))
      ensures Model() == P.Set(old(Model()), key, value)
      ensures P.Inv(Model())
    {
      hide Valid;
      hide P.NoDup;
      hide HasKey;
      hide P.InsertNew;
      hide P.GhostHitB1;
      hide P.GhostHitB2;
      hide P.Promote;
      hide P.Refresh;
      P.SetInv(Model(), key, value);
      if capacity == 0 {
        return;
      }
      Where(key);
      P.KeysOf(Model(), key);
      if key in t1.idx {
        var _ := MoveToT2(key, Some(value));
        return;
      }
      if key in t2.idx {
        var _ := RefreshInT2(key, Some(value));
        return;
      }
      if key in b1.idx {
        GhostHitB1(key, value);
        return;
      }
      if key in b2.idx {
        GhostHitB2(key, value);
        return;
      }
      InsertNew(key, value);
    }

    method ForgetT1(key: string)
      requires Valid() && key in t1.idx
      modifies this, t1, t1.list, Residents()
      ensures Valid() && Residents() <= old(Residents())
      ensures var a := old(Model());
              HasKey(a.t1, key) && Model() == a.(t1 := Drop(a.t1, key), length := a.length - 1)
    {
      hide Owned;
      hide Linked;
      hide Holds;
      hide Indexed;
      var _ := t1.Take(key);
      length := length - 1;
    }

    method ForgetT2(key: string)
      requires Valid() && key in t2.idx
      modifies this, t2, t2.list, Residents()
      ensures Valid() && Residents() <= old(Residents())
      ensures var a := old(Model());
              HasKey(a.t2, key) && Model() == a.(t2 := Drop(a.t2, key), length := a.length - 1)
    {
      hide Owned;
      hide Linked;
      hide Holds;
      hide Indexed;
      var _ := t2.Take(key);
      length := length - 1;
    }

    method Delete(key: string)
      requires Valid() && P.Inv(Model())
      modifies this, t1, t2, b1, b2, t1.list, t2.list, b1.list, b2.list, Residents(), Ghosts()
      ensures Valid() && Residents() <= old(Residents()) && Ghosts() <= old(Ghosts())
      ensures Model() == P.Delete(old(Model()), key)
      ensures P.Inv(Model())
    {
      hide Valid;
      hide P.NoDup;
      hide HasKey;
      hide Drop;
      P.DeleteInv(Model(), key);
      Where(key);
      if key in t1.idx {
        ForgetT1(key);
      } else if key in t2.idx {
        ForgetT2(key);
      } else if key in b1.idx {
        ForgetB1(key);
      } else if key in b2.idx {
        ForgetB2(key);
      }
    }

    method Evict() returns (r: Option<string>)
      requires Valid() && P.Inv(Model())
      modifies this, t1, t2, b1, b2, t1.list, t2.list, b1.list, b2.list, Residents(), Ghosts()
      ensures Valid() && Residents() <= old(Residents()) && fresh(Ghosts() - old(Ghosts()))
      ensures (Model(), r) == P.Evict(old(Model()))
      ensures P.Inv(Model())
    {
      hide Valid;
      hide P.NoDup;
      hide P.Replace;
      P.ReplaceInv(Model(), "");
      if capacity == 0 || length == 0 {
        return None;
      }
      var key := Replace("");
      r := if key == "" then None else Some(key);
    }

    /** One operation of the eviction interface. */
    method Apply(op: Op) returns (r: Option<string>)
      requires Valid() && P.Inv(Model())
      modifies this, t1, t2, b1, b2, t1.list, t2.list, b1.list, b2.list, Residents(), Ghosts()
      ensures Valid() && P.Inv(Model()) && fresh(Residents() - old(Residents())) && fresh(Ghosts() - old(Ghosts()))
      ensures Model() == P.Step(old(Model()), op) && r == P.Reply(old(Model()), op)
    {
      NoDupHolds();
      hide Valid;
      hide P.Inv;
      hide P.NoDup;
      r := None;
      match op {
        case GetOp(k) => r := Get(k);
        case SetOp(k, v) => Set(k, v);
        case DeleteOp(k) => Delete(k);
        case EvictOp => r := Evict();
      }
    }

    lemma NoDupHolds()
      requires P.Inv(Model())
      ensures P.NoDup(Model())
    {
    }
  }

  /** Any operations fed to an ARC get the policy's replies. */
  method RunArc(capacity: nat, ops: seq<Op>) returns (replies: seq<Option<string>>)
    ensures replies == P.Replies(capacity, ops)
  {
    hide ARC.Valid;
    hide ARC.Model;
    hide P.Inv;
    hide P.Step;
    hide P.Reply;
    var c := new ARC(capacity);
    Start(capacity);
    replies := [];
    for n := 0 to |ops|
      invariant fresh(c) && fresh(c.t1) && fresh(c.t2) && fresh(c.b1) && fresh(c.b2)
      invariant fresh(c.t1.list) && fresh(c.t2.list) && fresh(c.b1.list) && fresh(c.b2.list)
      invariant fresh(c.Residents()) && fresh(c.Ghosts()) && c.Valid() && P.Inv(c.Model())
      invariant c.Model() == P.Run(capacity, ops[..n]) && replies == P.Replies(capacity, ops[..n])
    {
      assert ops[..n + 1][..n] == ops[..n];
      var r := c.Apply(ops[n]);
      replies := replies + [r];
    }
    assert ops[..|ops|] == ops;
  }

  lemma Start(capacity: nat)
    ensures P.Inv(P.New(capacity))
  {
    P.Reachable(capacity, []);
  }
}
