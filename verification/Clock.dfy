/** The Clock algorithm (pkg/eviction/clock.go): an array of slots, a key index into it and a hand. */
module ClockCache {
  import opened Items
  import opened Traces
  import P = ClockPolicy

  type Slot = P.Slot

  // ---------- slots and their key index ----------

  /** Slots and key index are in bijection. */
  ghost predicate Keyed(keys: map<string, nat>, s: seq<Slot>) {
    && (forall k :: k in keys ==> P.Holds(s, k, keys[k]))
    && (forall j :: 0 <= j < |s| && s[j].Full? ==> s[j].key in keys && keys[s[j].key] == j)
  }

  /** The index finds exactly the tracked keys, and no key is in two slots. */
  lemma Known(keys: map<string, nat>, s: seq<Slot>, key: string)
    requires Keyed(keys, s)
    ensures P.Unique(s) && (key in keys <==> P.Tracked(s, key))
    ensures key in keys ==> keys[key] == P.Where(s, key) && P.Holds(s, key, keys[key])
  {
    if key in keys {
      assert P.Holds(s, key, keys[key]);
    }
  }

  lemma KeyedFree(keys: map<string, nat>, s: seq<Slot>, j: nat)
    requires Keyed(keys, s) && j < |s| && s[j].Full?
    ensures s[j].key in keys && Keyed(keys - {s[j].key}, s[j := P.Free])
  {
    var r := s[j := P.Free];
    forall k | k in keys - {s[j].key} ensures P.Holds(r, k, keys[k]) {
      assert P.Holds(s, k, keys[k]);
    }
  }

  lemma KeyedPut(keys: map<string, nat>, s: seq<Slot>, j: nat, x: Slot)
    requires Keyed(keys, s) && j < |s| && x.Full?
    requires if s[j].Full? then x.key == s[j].key else x.key !in keys
    ensures Keyed(keys[x.key := j], s[j := x])
  {
    var r, after := s[j := x], keys[x.key := j];
    forall k | k in after ensures P.Holds(r, k, after[k]) {
      if k != x.key {
        assert P.Holds(s, k, keys[k]);
      }
    }
  }

  lemma KeyedCount(keys: map<string, nat>, s: seq<Slot>, j: nat, x: Slot)
    requires Keyed(keys, s) && j < |s| && s[j].Full? && x.Full? && x.key == s[j].key
    ensures Keyed(keys, s[j := x])
  {
    KeyedPut(keys, s, j, x);
    assert keys[x.key := j] == keys;
  }

  lemma LoweredStep(s: seq<Slot>, hand: nat, d: nat)
    requires hand < |s| && d < |s|
    ensures var j := P.At(|s|, hand, d);
            P.Lowered(s, hand, d)[j] == s[j] && P.Lowered(s, hand, d + 1) == P.Lowered(s, hand, d)[j := P.Lower(s[j])]
  {
    P.DistAt(|s|, hand, d);
    var j := P.At(|s|, hand, d);
    forall i | 0 <= i < |s| && i != j ensures P.Dist(|s|, hand, i) != d {
    }
  }

  class ClockAlgorithm {
    const items: array<Slot>
    var keys: map<string, nat>
    var hand: nat

    ghost predicate Valid()
      reads this, items
    {
      P.WF(View()) && Keyed(keys, items[..])
    }

    ghost function View(): P.State
      reads this, items
    {
      P.State(items[..], hand)
    }

    constructor (capacity: nat)
      ensures Valid() && View() == P.State(seq(capacity, _ => P.Free), 0) && fresh(items)
    {
      items := new Slot[capacity](_ => P.Free);
      keys, hand := map[], 0;
    }

    method Get(key: string) returns (r: Option<Value>)
      requires Valid()
      modifies this, items
      ensures Valid() && (View(), r) == P.Get(old(View()), key)
    {
      ghost var s := items[..];
      Known(keys, s, key);
      if key !in keys {
        return None;
      }
      var j := keys[key];
      KeyedCount(keys, s, j, s[j].(count := s[j].count + 1));
      items[j] := items[j].(count := items[j].count + 1);
      r := Some(items[j].value);
    }

    method Delete(key: string)
      requires Valid()
      modifies this, items
      ensures Valid() && View() == P.Delete(old(View()), key)
    {
      ghost var s := items[..];
      Known(keys, s, key);
      if key !in keys {
        return;
      }
      var j := keys[key];
      KeyedFree(keys, s, j);
      keys := keys - {key};
      items[j] := P.Free;
    }

    method AdvanceHand()
      requires items.Length > 0
      modifies this`hand
      ensures hand == (old(hand) + 1) % items.Length
    {
      hand := (hand + 1) % items.Length;
    }

    /**
     The sweep of Evict and evictAndInsert: passes at most one full turn of slots, taking a second
     chance from each occupied one, and stops at the first idle slot.
     */
    method Sweep() returns (found: bool, ghost d: nat)
      requires Valid() && items.Length > 0
      modifies this`hand, items
      ensures Valid()
      ensures d == P.First(old(items[..]), old(hand), 0, P.IsIdle)
      ensures items[..] == P.Lowered(old(items[..]), old(hand), d)
      ensures found == (d < items.Length)
      ensures hand == if found then P.At(items.Length, old(hand), d) else old(hand)
      ensures found ==> items[hand] == old(items[..])[hand] && P.IsIdle(items[hand])
    {
      hide Keyed;
      ghost var s, h := items[..], hand;
      var n := items.Length;
      assert P.Lowered(s, h, 0) == s;
      for t := 0 to n
        invariant hand == if t < n then P.At(n, h, t) else h
        invariant items[..] == P.Lowered(s, h, t) && Keyed(keys, items[..])
        invariant forall i :: 0 <= i < t ==> !P.IsIdle(s[P.At(n, h, i)])
      {
        P.DistAt(n, h, t);
        LoweredStep(s, h, t);
        var item := items[hand];
        assert item == items[..][hand] == s[hand];
        if item.Free? {
          AdvanceHand();
          continue;
        }
        if item.count > 0 {
          KeyedCount(keys, items[..], hand, P.Lower(item));
          items[hand] := item.(count := item.count - 1);
          AdvanceHand();
          continue;
        }
        P.FirstUnique(s, h, t, P.IsIdle);
        return true, t;
      }
      P.FirstUnique(s, h, n, P.IsIdle);
      return false, n;
    }

    method Evict() returns (key: Option<string>)
      requires Valid()
      modifies this, items
      ensures Valid() && (View(), key) == P.Evict(old(View()))
    {
      hide Keyed;
      hide P.First;
      hide P.Lowered;
      if items.Length == 0 {
        return None;
      }
      var found, d := Sweep();
      if !found {
        return None;
      }
      KeyedFree(keys, items[..], hand);
      key := Some(items[hand].key);
      keys := keys - {items[hand].key};
      items[hand] := P.Free;
    }

    method UpdateIfExists(key: string, value: Value) returns (found: bool)
      requires Valid()
      modifies items
      ensures Valid() && found == P.Tracked(old(items[..]), key)
      ensures found ==> View() == P.Set(old(View()), key, value)
      ensures !found ==> View() == old(View()) && key !in keys
    {
      ghost var s := items[..];
      Known(keys, s, key);
      if key !in keys {
        return false;
      }
      var j := keys[key];
      KeyedCount(keys, s, j, P.Full(key, value, s[j].count + 1));
      items[j] := items[j].(value := value, count := items[j].count + 1);
      found := true;
    }

    /** Looks once around the dial for a free slot. */
    method TryInsertInFreeSlot(key: string, value: Value) returns (done: bool)
      requires Valid() && items.Length > 0 && key !in keys
      modifies this, items
      ensures Valid()
      ensures var n, e := items.Length, P.First(old(items[..]), old(hand), 0, P.IsFree);
              if e < n then done && items[..] == old(items[..])[P.At(n, old(hand), e) := P.Full(key, value, 1)] && hand == P.At(n, old(hand), e)
              else !done && View() == old(View()) && keys == old(keys)
    {
      hide Keyed;
      ghost var s, h, d := items[..], hand, 0;
      var start, n := hand, items.Length;
      while true
        invariant d < n && hand == P.At(n, h, d) && items[..] == s && keys == old(keys)
        invariant forall i :: 0 <= i < d ==> !P.IsFree(s[P.At(n, h, i)])
        decreases n - d
      {
        if items[hand].Free? {
          P.FirstUnique(s, h, d, P.IsFree);
          KeyedPut(keys, s, hand, P.Full(key, value, 1));
          items[hand] := P.Full(key, value, 1);
          keys := keys[key := hand];
          return true;
        }
        P.DistAt(n, h, d);
        AdvanceHand();
        if hand == start {
          P.FirstUnique(s, h, n, P.IsFree);
          return false;
        }
        d := d + 1;
      }
    }

    method EvictAndInsert(key: string, value: Value)
      requires Valid() && items.Length > 0 && key !in keys
      requires P.First(items[..], hand, 0, P.IsFree) == items.Length
      modifies this, items
      ensures Valid() && View() == P.Insert(old(View()), key, value)
    {
      hide Keyed;
      hide P.First;
      hide P.Lowered;
      var found, d := Sweep();
      if found {
        KeyedFree(keys, items[..], hand);
        KeyedPut(keys - {items[hand].key}, items[..][hand := P.Free], hand, P.Full(key, value, 1));
        keys := keys - {items[hand].key};
        items[hand] := P.Free;
        items[hand] := P.Full(key, value, 1);
        keys := keys[key := hand];
        AdvanceHand();
      }
    }

    method Set(key: string, value: Value)
      requires Valid()
      modifies this, items
      ensures Valid() && View() == P.Set(old(View()), key, value)
    {
      hide Keyed;
      hide P.First;
      if items.Length == 0 {
        return;
      }
      var found := UpdateIfExists(key, value);
      if found {
        return;
      }
      var done := TryInsertInFreeSlot(key, value);
      if done {
        AdvanceHand();
        return;
      }
      EvictAndInsert(key, value);
    }

    /** One operation of the eviction interface. */
    method Apply(op: Op) returns (r: Option<string>)
      requires Valid()
      modifies this, items
      ensures Valid() && P.WF(old(View()))
      ensures View() == P.Step(old(View()), op) && r == P.Reply(old(View()), op)
    {
      WellFormed();
      hide Valid;
      hide View;
      r := None;
      match op {
        case GetOp(k) => r := Get(k);
        case SetOp(k, v) => Set(k, v);
        case DeleteOp(k) => Delete(k);
        case EvictOp => r := Evict();
      }
    }

    lemma WellFormed()
      requires Valid()
      ensures P.WF(View())
    {
    }
  }

  /** Any operations fed to a clock get the policy's replies. */
  method RunClock(capacity: nat, ops: seq<Op>) returns (replies: seq<Option<string>>)
    ensures replies == P.Replies(capacity, ops)
  {
    hide ClockAlgorithm.Valid;
    hide ClockAlgorithm.View;
    hide P.Step;
    hide P.Reply;
    var c := new ClockAlgorithm(capacity);
    replies := [];
    for n := 0 to |ops|
      invariant fresh(c) && fresh(c.items) && c.Valid()
      invariant c.View() == P.Run(capacity, ops[..n]) && replies == P.Replies(capacity, ops[..n])
    {
      assert ops[..n + 1][..n] == ops[..n];
      var r := c.Apply(ops[n]);
      replies := replies + [r];
    }
    assert ops[..|ops|] == ops;
  }
}
