/** The local cache object (hypercache_io.go, hypercache_eviction.go) over an in-memory store. */
module HyperCaches {
  import opened Items
  import Bits
  import A = Algorithm
  import T = Sharding
  import Tr = ShardedCache
  import P = CachePolicy

  class HyperCache {
    const cfg: P.Config
    const tracker: Tr.Sharded
    var store: map<string, P.Stored>
    var memoryAllocation: int

    ghost predicate Valid()
      reads this, tracker
    {
      tracker.hash == cfg.hash && P.Inv(cfg, View())
    }

    ghost function View(): P.State
      reads this, tracker
    {
      P.State(store, tracker.View(), memoryAllocation)
    }

    constructor (cfg: P.Config, tracker: Tr.Sharded)
      requires tracker.Valid() && tracker.hash == cfg.hash && forall k :: !T.Tracks(tracker.View(), cfg.hash, k)
      ensures Valid() && this.cfg == cfg && this.tracker == tracker && P.Empty(cfg, View())
    {
      this.cfg, this.tracker, store, memoryAllocation := cfg, tracker, map[], 0;
    }

    method Get(key: string, expired: bool) returns (r: P.Reply)
      requires Valid()
      ensures r == P.Get(View(), key, expired)
    {
      if key !in store || expired {
        return P.Miss;
      }
      r := P.Hit(store[key].value);
    }

    method Remove(keys: seq<string>)
      requires Valid()
      modifies this, tracker
      ensures Valid() && View() == P.Remove(cfg, old(View()), keys)
    {
      hide T.AllInv;
      hide T.Routed;
      hide T.Shape;
      hide T.Tracks;
      hide T.Delete;
      P.RemoveInv(cfg, View(), keys);
      ghost var st := View();
      for i := 0 to |keys|
        invariant tracker.Valid() && store == st.store
        invariant tracker.View() == P.Untrack(st.tracker, cfg.hash, st.store, keys[..i])
        invariant memoryAllocation == st.alloc - P.Charge(st.store, keys[..i])
      {
        assert keys[..i + 1][..i] == keys[..i];
        if keys[i] in store {
          memoryAllocation := memoryAllocation - store[keys[i]].size;
          tracker.Delete(keys[i]);
        }
      }
      assert keys[..|keys|] == keys;
      store := store - (set k | k in keys);
    }

    method EvictItem() returns (key: Option<string>)
      requires Valid()
      modifies this, tracker
      ensures Valid() && View() == P.EvictItem(cfg, old(View())) && key == T.Evict(old(tracker.View())).1
    {
      hide T.AllInv;
      hide T.Routed;
      hide T.Shape;
      hide T.Tracks;
      hide T.Evict;
      T.EvictTracks(tracker.View(), cfg.hash);
      key := tracker.Evict();
      if key.None? {
        return;
      }
      Remove([key.value]);
    }

    /** The part of a write after its size has been counted and its checks passed. */
    method Insert(key: string, value: P.Value, size: int)
      requires Valid()
      modifies this, tracker
      ensures Valid()
      ensures View() == P.Insert(cfg, old(View()).(alloc := old(memoryAllocation) - size), key, P.Stored(value, size))
    {
      hide T.AllInv;
      hide T.Routed;
      hide T.Shape;
      hide T.Tracks;
      hide T.Evict;
      hide T.Set;
      hide P.EvictItem;
      P.InsertInv(cfg, View().(alloc := memoryAllocation - size), key, P.Stored(value, size));
      P.MarkedInv(cfg, View().(alloc := memoryAllocation - size), key, P.Stored(value, size));
      store := store[key := P.Stored(value, size)];
      tracker.Set(key, value);
      if cfg.interval == 0 && cfg.capacity > 0 && |store| > cfg.capacity {
        var evicted := EvictItem();
      }
    }

    /** A rejected item comes back wiped, its size zero, before that size is taken off the counter. */
    method Set(w: P.Write) returns (r: P.Reply)
      requires Valid()
      modifies this, tracker
      ensures Valid() && (View(), r) == P.Set(cfg, old(View()), w)
    {
      hide T.Inv;
      hide T.Tracks;
      hide P.Insert;
      if w.size.None? {
        return P.ErrInvalidSize;
      }
      var size := w.size.value;
      memoryAllocation := memoryAllocation + size;
      if cfg.maxSize > 0 && memoryAllocation > cfg.maxSize {
        memoryAllocation := memoryAllocation - size;
        return P.ErrCacheFull;
      }
      if !w.valid {
        size := 0;
        memoryAllocation := memoryAllocation - size;
        return P.ErrInvalidItem;
      }
      Insert(w.key, w.value, size);
      r := P.Done;
    }

    method GetOrSet(w: P.Write, expired: bool) returns (r: P.Reply)
      requires Valid()
      modifies this, tracker
      ensures Valid() && (View(), r) == P.GetOrSet(cfg, old(View()), w, expired)
    {
      hide T.Inv;
      hide T.Tracks;
      hide P.Set;
      if w.key in store {
        if expired {
          return P.ErrKeyExpired;
        }
        return P.Hit(store[w.key].value);
      }
      r := Set(w);
      if r == P.Done {
        r := P.Hit(w.value);
      }
    }

    /** Clears the store, then the tracker key by key in the order the backend listed the items. */
    method Clear(order: seq<string>)
      requires Valid() && P.Lists(order, store)
      modifies this, tracker
      ensures Valid() && View() == P.Clear(cfg, old(View()), order)
    {
      hide T.AllInv;
      hide T.Routed;
      hide T.Shape;
      hide T.Tracks;
      hide T.Delete;
      P.ClearInv(cfg, View(), order);
      ghost var st := View();
      store := map[];
      for i := 0 to |order|
        invariant tracker.Valid() && store == map[]
        invariant tracker.View() == P.Untrack(st.tracker, cfg.hash, st.store, order[..i])
      {
        assert order[..i + 1][..i] == order[..i] && order[i] in order;
        tracker.Delete(order[i]);
      }
      assert order[..|order|] == order;
      memoryAllocation := 0;
    }
  }

  const MAX_INT: nat := 0x7fff_ffff_ffff_ffff

  /**
   The tracker's capacity is the configured eviction count, by default the cache's capacity, split over the
   shards; one shard or fewer means a bare algorithm. No name means LRU. An eviction count beyond an int, a
   shard count the wrapper refuses or an unregistered name is an error.
   */
  method NewHyperCache(cfg: P.Config, name: string, maxEvictionCount: nat, shardCount: int) returns (r: Option<HyperCache>)
    ensures r.None? <==>
            || maxEvictionCount > MAX_INT
            || name !in ["", "lru", "lfu", "clock", "cawolfu"]
            || (shardCount > 1 && (!Bits.IsPow2(shardCount) || shardCount > T.WRAP))
    ensures r.Some? ==>
              && fresh(r.value) && fresh(r.value.tracker) && r.value.Valid() && r.value.cfg == cfg && P.Empty(cfg, r.value.View())
              && Some(r.value.tracker.View()) == T.New(if name == "" then "lru" else name,
                                                       if maxEvictionCount == 0 then cfg.capacity else maxEvictionCount,
                                                       if shardCount > 1 then shardCount else 1)
              && (name != "clock" && P.ShouldEvict(cfg) && shardCount < T.WRAP ==> T.Orderly(r.value.tracker.View()))
  {
    if maxEvictionCount > MAX_INT {
      return None;
    }
    var total := if maxEvictionCount == 0 then cfg.capacity else maxEvictionCount;
    var algorithm := if name == "" then "lru" else name;
    assert Bits.Pow2(0) == 1;
    var tracker := Tr.NewSharded(algorithm, total, if shardCount > 1 then shardCount else 1, cfg.hash);
    if tracker.None? {
      return None;
    }
    var h := new HyperCache(cfg, tracker.value);
    r := Some(h);
  }
}
