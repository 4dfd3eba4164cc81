/**
 The local cache over the in-memory backend (hypercache_io.go, hypercache_eviction.go): a store, an
 eviction tracker and a byte counter that move together.
 */
module CachePolicy {
  import opened Items
  import Traces
  import Seqs
  import A = Algorithm
  import T = Sharding
  import C = ClockPolicy

  type Value = Traces.Value

  datatype Stored = Stored(value: Value, size: int)

  /** `interval` zero means eviction on every write; `maxSize` zero means no byte limit. */
  datatype Config = Config(capacity: nat, interval: nat, maxSize: nat, hash: string -> nat)

  datatype State = State(store: map<string, Stored>, tracker: T.State, alloc: int)

  predicate ShouldEvict(cfg: Config) {
    cfg.interval == 0 && cfg.capacity > 0
  }

  // ---------- operations ----------

  /** What the removal loop subtracts: a size for every listed key that is stored, repeats included. */
  ghost function Charge(store: map<string, Stored>, keys: seq<string>): int {
    if keys == [] then 0
    else
      var k := keys[|keys| - 1];
      Charge(store, keys[..|keys| - 1]) + if k in store then store[k].size else 0
  }

  /** The tracker after the removal loop. */
  ghost function Untrack(tr: T.State, hash: string -> nat, store: map<string, Stored>, keys: seq<string>): (r: T.State)
    requires T.Shape(|tr.shards|)
    ensures |r.shards| == |tr.shards|
  {
    if keys == [] then tr
    else
      var k, r := keys[|keys| - 1], Untrack(tr, hash, store, keys[..|keys| - 1]);
      if k in store then T.Delete(r, hash, k) else r
  }

  ghost function KeySet(keys: seq<string>): set<string> {
    set k | k in keys
  }

  ghost function Remove(cfg: Config, st: State, keys: seq<string>): State
    requires T.Shape(|st.tracker.shards|)
  {
    State(st.store - KeySet(keys), Untrack(st.tracker, cfg.hash, st.store, keys), st.alloc - Charge(st.store, keys))
  }

  ghost function EvictItem(cfg: Config, st: State): State
    requires T.Inv(st.tracker, cfg.hash)
  {
    T.EvictTracks(st.tracker, cfg.hash);
    var (tr, k) := T.Evict(st.tracker);
    if k.None? then st.(tracker := tr) else Remove(cfg, st.(tracker := tr), [k.value])
  }

  /** The tracker once a key has been set. */
  ghost function Marked(cfg: Config, st: State, k: string, v: Value): (r: T.State)
    requires T.Inv(st.tracker, cfg.hash)
    ensures T.Inv(r, cfg.hash)
  {
    T.SetTracks(st.tracker, cfg.hash, k, v);
    T.Set(st.tracker, cfg.hash, k, v)
  }

  /** The store, tracker and counter once a write has passed its checks. */
  ghost function Insert(cfg: Config, st: State, k: string, x: Stored): State
    requires T.Inv(st.tracker, cfg.hash)
  {
    var r := State(st.store[k := x], Marked(cfg, st, k, x.value), st.alloc + x.size);
    if ShouldEvict(cfg) && |r.store| > cfg.capacity then EvictItem(cfg, r) else r
  }

  datatype Reply = Done | Hit(value: Value) | Miss | ErrInvalidSize | ErrCacheFull | ErrInvalidItem | ErrKeyExpired

  /** A write: `size` is None when sizing fails, `valid` says whether the backend accepts the item. */
  datatype Write = Write(key: string, value: Value, size: Option<int>, valid: bool)

  /** An item the backend refuses is wiped before its size is given back, so the counter keeps it. */
  ghost function Set(cfg: Config, st: State, w: Write): (State, Reply)
    requires T.Inv(st.tracker, cfg.hash)
  {
    if w.size.None? then (st, ErrInvalidSize)
    else if cfg.maxSize > 0 && st.alloc + w.size.value > cfg.maxSize then (st, ErrCacheFull)
    else if !w.valid then (st.(alloc := st.alloc + w.size.value), ErrInvalidItem)
    else (Insert(cfg, st, w.key, Stored(w.value, w.size.value)), Done)
  }

  ghost function GetOrSet(cfg: Config, st: State, w: Write, expired: bool): (State, Reply)
    requires T.Inv(st.tracker, cfg.hash)
  {
    if w.key in st.store then (st, if expired then ErrKeyExpired else Hit(st.store[w.key].value))
    else
      var (r, e) := Set(cfg, st, w);
      (r, if e == Done then Hit(w.value) else e)
  }

  /** Expired items are misses; the store still holds them. */
  ghost function Get(st: State, k: string, expired: bool): Reply {
    if k in st.store && !expired then Hit(st.store[k].value) else Miss
  }

  ghost predicate Lists(order: seq<string>, store: map<string, Stored>) {
    forall k :: k in order <==> k in store
  }

  /** Clear, with the backend's items listed in some order. */
  ghost function Clear(cfg: Config, st: State, order: seq<string>): State
    requires T.Shape(|st.tracker.shards|)
  {
    State(map[], Untrack(st.tracker, cfg.hash, st.store, order), 0)
  }

  // ---------- tracked keys are stored ----------

  ghost predicate Inv(cfg: Config, st: State) {
    T.Inv(st.tracker, cfg.hash) && forall k :: T.Tracks(st.tracker, cfg.hash, k) ==> k in st.store
  }

  lemma {:induction false} UntrackTracks(tr: T.State, hash: string -> nat, store: map<string, Stored>, keys: seq<string>, k: string)
    requires T.Inv(tr, hash)
    ensures var r := Untrack(tr, hash, store, keys);
            && T.Inv(r, hash) && (T.Tracks(r, hash, k) <==> T.Tracks(tr, hash, k) && !(k in keys && k in store))
            && (T.Orderly(tr) ==> T.Orderly(r))
  {
    hide T.AllInv;
    hide T.Routed;
    hide T.Shape;
    hide T.Orderly;
    hide T.Tracks;
    hide T.Delete;
    if keys != [] {
      var pre, j := keys[..|keys| - 1], keys[|keys| - 1];
      UntrackTracks(tr, hash, store, pre, k);
      if j in store {
        T.DeleteTracks(Untrack(tr, hash, store, pre), hash, j);
      }
      assert k in keys <==> k in pre || k == j;
    }
  }

  lemma RemoveInv(cfg: Config, st: State, keys: seq<string>)
    requires T.Inv(st.tracker, cfg.hash)
    requires forall k :: T.Tracks(st.tracker, cfg.hash, k) ==> k in st.store
    ensures Inv(cfg, Remove(cfg, st, keys))
    ensures T.Orderly(st.tracker) ==> T.Orderly(Remove(cfg, st, keys).tracker)
  {
    hide T.AllInv;
    hide T.Routed;
    hide T.Shape;
    hide T.Orderly;
    hide T.Tracks;
    forall k ensures T.Tracks(Remove(cfg, st, keys).tracker, cfg.hash, k) ==> k in Remove(cfg, st, keys).store {
      UntrackTracks(st.tracker, cfg.hash, st.store, keys, k);
    }
    UntrackTracks(st.tracker, cfg.hash, st.store, keys, "");
  }

  /** Eviction removes one stored item exactly when the tracker has a victim. */
  lemma EvictItemInv(cfg: Config, st: State)
    requires Inv(cfg, st)
    ensures Inv(cfg, EvictItem(cfg, st))
    ensures T.Orderly(st.tracker) ==> T.Orderly(EvictItem(cfg, st).tracker)
    ensures |EvictItem(cfg, st).store| == |st.store| - if T.Evict(st.tracker).1.Some? then 1 else 0
  {
    hide T.AllInv;
    hide T.Routed;
    hide T.Shape;
    hide T.Orderly;
    hide T.Tracks;
    hide T.Evict;
    T.EvictTracks(st.tracker, cfg.hash);
    var (tr, k) := T.Evict(st.tracker);
    if k.Some? {
      RemoveInv(cfg, st.(tracker := tr), [k.value]);
      var r := EvictItem(cfg, st);
      assert KeySet([k.value]) == {k.value};
      assert st.store.Keys == r.store.Keys + {k.value};
    }
  }

  lemma MarkedInv(cfg: Config, st: State, k: string, x: Stored)
    requires Inv(cfg, st)
    ensures Marked(cfg, st, k, x.value) == T.Set(st.tracker, cfg.hash, k, x.value)
    ensures Inv(cfg, State(st.store[k := x], Marked(cfg, st, k, x.value), st.alloc + x.size))
  {
    hide T.AllInv;
    hide T.Routed;
    hide T.Shape;
    hide T.Tracks;
    hide T.Set;
    T.SetTracks(st.tracker, cfg.hash, k, x.value);
  }

  /** An accepted write keeps the tracked keys stored; it evicts iff it overfills and the tracker has a victim. */
  lemma InsertInv(cfg: Config, st: State, k: string, x: Stored)
    requires Inv(cfg, st)
    ensures Inv(cfg, Insert(cfg, st, k, x))
    ensures T.Orderly(st.tracker) ==> T.Orderly(Insert(cfg, st, k, x).tracker)
    ensures var n := if k in st.store then |st.store| else |st.store| + 1;
            |Insert(cfg, st, k, x).store| ==
            if ShouldEvict(cfg) && n > cfg.capacity && T.Evict(Marked(cfg, st, k, x.value)).1.Some? then n - 1 else n
  {
    hide T.AllInv;
    hide T.Routed;
    hide T.Shape;
    hide T.Orderly;
    hide T.Tracks;
    hide T.Evict;
    hide T.Set;
    hide EvictItem;
    T.SetTracks(st.tracker, cfg.hash, k, x.value);
    var r := State(st.store[k := x], Marked(cfg, st, k, x.value), st.alloc + x.size);
    assert r.store.Keys == st.store.Keys + {k};
    EvictItemInv(cfg, r);
  }

  // ---------- runs ----------

  datatype Op = SetOp(w: Write) | GetOrSetOp(w: Write, expired: bool) | RemoveOp(keys: seq<string>) | ClearOp(order: seq<string>)

  /** One call. A listing that is not the store's cannot happen and changes nothing. */
  ghost function Step(cfg: Config, st: State, op: Op): State
    requires Inv(cfg, st)
  {
    match op
    case SetOp(w) => Set(cfg, st, w).0
    case GetOrSetOp(w, expired) => GetOrSet(cfg, st, w, expired).0
    case RemoveOp(keys) => Remove(cfg, st, keys)
    case ClearOp(order) => if Lists(order, st.store) then Clear(cfg, st, order) else st
  }

  lemma SetInv(cfg: Config, st: State, w: Write)
    requires Inv(cfg, st)
    ensures Inv(cfg, Set(cfg, st, w).0)
    ensures T.Orderly(st.tracker) ==> T.Orderly(Set(cfg, st, w).0.tracker)
  {
    hide Insert;
    hide T.Orderly;
    hide T.Tracks;
    hide T.AllInv;
    hide T.Routed;
    hide T.Shape;
    if w.size.Some? {
      InsertInv(cfg, st, w.key, Stored(w.value, w.size.value));
    }
  }

  lemma StepInv(cfg: Config, st: State, op: Op)
    requires Inv(cfg, st)
    ensures Inv(cfg, Step(cfg, st, op))
    ensures T.Orderly(st.tracker) ==> T.Orderly(Step(cfg, st, op).tracker)
  {
    hide Set;
    hide T.Orderly;
    hide T.AllInv;
    hide T.Routed;
    hide T.Shape;
    hide T.Tracks;
    match op
    case SetOp(w) => SetInv(cfg, st, w);
    case GetOrSetOp(w, expired) => SetInv(cfg, st, w);
    case RemoveOp(keys) => RemoveInv(cfg, st, keys);
    case ClearOp(order) =>
      if Lists(order, st.store) {
        ClearInv(cfg, st, order);
      }
  }

  lemma ClearInv(cfg: Config, st: State, order: seq<string>)
    requires Inv(cfg, st) && Lists(order, st.store)
    ensures Inv(cfg, Clear(cfg, st, order))
    ensures T.Orderly(st.tracker) ==> T.Orderly(Clear(cfg, st, order).tracker)
  {
    hide T.AllInv;
    hide T.Routed;
    hide T.Shape;
    hide T.Orderly;
    hide T.Tracks;
    UntrackTracks(st.tracker, cfg.hash, st.store, order, "");
    forall k ensures !T.Tracks(Clear(cfg, st, order).tracker, cfg.hash, k) {
      UntrackTracks(st.tracker, cfg.hash, st.store, order, k);
    }
  }

  ghost function Run(cfg: Config, st: State, ops: seq<Op>): (r: State)
    requires Inv(cfg, st)
    ensures Inv(cfg, r)
  {
    if ops == [] then st
    else
      var r := Run(cfg, st, ops[..|ops| - 1]);
      StepInv(cfg, r, ops[|ops| - 1]);
      Step(cfg, r, ops[|ops| - 1])
  }

  /** A newly built cache. */
  ghost predicate Empty(cfg: Config, st: State) {
    Inv(cfg, st) && st.store == map[] && st.alloc == 0
  }

  // ---------- the item bound ----------

  ghost predicate Bounded(cfg: Config, st: State) {
    cfg.interval == 0 && cfg.capacity > 0 ==> |st.store| <= cfg.capacity
  }

  /** From within the bound, a write leaves it exactly when it overfills and the tracker has no victim. */
  lemma InsertBoundedIff(cfg: Config, st: State, k: string, x: Stored)
    requires Inv(cfg, st) && ShouldEvict(cfg) && |st.store| <= cfg.capacity
    ensures Bounded(cfg, Insert(cfg, st, k, x)) <==>
            k in st.store || |st.store| < cfg.capacity || T.Evict(Marked(cfg, st, k, x.value)).1.Some?
  {
    hide T.Evict;
    hide T.AllInv;
    hide T.Routed;
    hide T.Shape;
    hide Marked;
    hide Insert;
    InsertInv(cfg, st, k, x);
  }

  /** Trackers without clocks always have a victim after a write. */
  lemma OrderlyVictim(cfg: Config, st: State, k: string, v: Value)
    requires T.Inv(st.tracker, cfg.hash) && T.Orderly(st.tracker)
    ensures T.Evict(Marked(cfg, st, k, v)).1.Some?
  {
    hide T.AllInv;
    hide T.Routed;
    hide T.Shape;
    hide T.Orderly;
    hide T.Tracks;
    hide T.Evict;
    hide T.Set;
    T.SetTracks(st.tracker, cfg.hash, k, v);
    T.EvictTracks(Marked(cfg, st, k, v), cfg.hash);
  }

  lemma SetBounded(cfg: Config, st: State, w: Write)
    requires Inv(cfg, st) && T.Orderly(st.tracker) && Bounded(cfg, st)
    ensures Bounded(cfg, Set(cfg, st, w).0)
  {
    hide T.Orderly;
    hide T.Evict;
    hide T.AllInv;
    hide T.Routed;
    hide T.Shape;
    hide Marked;
    if w.size.Some? && ShouldEvict(cfg) {
      var x := Stored(w.value, w.size.value);
      InsertBoundedIff(cfg, st, w.key, x);
      OrderlyVictim(cfg, st, w.key, w.value);
    }
  }

  lemma SubsetCount(m: map<string, Stored>, ks: set<string>)
    ensures |m - ks| <= |m|
  {
    var r := m - ks;
    assert r.Keys <= m.Keys;
    Seqs.SubsetSize(r.Keys, m.Keys);
  }

  lemma StepBounded(cfg: Config, st: State, op: Op)
    requires Inv(cfg, st) && T.Orderly(st.tracker) && Bounded(cfg, st)
    ensures Bounded(cfg, Step(cfg, st, op))
  {
    hide T.Orderly;
    hide T.AllInv;
    hide T.Routed;
    hide T.Shape;
    hide Set;
    match op
    case SetOp(w) => SetBounded(cfg, st, w);
    case GetOrSetOp(w, expired) => SetBounded(cfg, st, w);
    case RemoveOp(keys) => SubsetCount(st.store, KeySet(keys));
    case ClearOp(order) =>
  }

  /**
   Proactive eviction, LRU, CAWOLFU or LFU, sharded or not: over every run the tracked keys are stored
   and the store never exceeds its capacity after an operation.
   */
  lemma {:induction false} ItemBound(cfg: Config, st: State, ops: seq<Op>)
    requires Empty(cfg, st) && T.Orderly(st.tracker)
    ensures Inv(cfg, Run(cfg, st, ops)) && T.Orderly(Run(cfg, st, ops).tracker) && Bounded(cfg, Run(cfg, st, ops))
  {
    hide T.Orderly;
    hide T.AllInv;
    hide T.Routed;
    hide T.Shape;
    hide Step;
    if ops != [] {
      var pre := ops[..|ops| - 1];
      ItemBound(cfg, st, pre);
      StepInv(cfg, Run(cfg, st, pre), ops[|ops| - 1]);
      StepBounded(cfg, Run(cfg, st, pre), ops[|ops| - 1]);
    }
  }

  // ---------- what is stored ----------

  lemma EvictItemStore(cfg: Config, st: State)
    requires T.Inv(st.tracker, cfg.hash)
    ensures var k := T.Evict(st.tracker).1;
            EvictItem(cfg, st).store == if k.Some? then st.store - {k.value} else st.store
  {
    hide T.AllInv;
    hide T.Routed;
    hide T.Shape;
    hide T.Evict;
    T.EvictTracks(st.tracker, cfg.hash);
    var k := T.Evict(st.tracker).1;
    if k.Some? {
      assert KeySet([k.value]) == {k.value};
    }
  }

  /** An accepted write stores its item; another leaves only as the tracker's victim of an overfull cache. */
  lemma InsertStore(cfg: Config, st: State, k: string, x: Stored)
    requires T.Inv(st.tracker, cfg.hash)
    ensures var store := st.store[k := x]; var e := T.Evict(Marked(cfg, st, k, x.value)).1;
            Insert(cfg, st, k, x).store ==
            if ShouldEvict(cfg) && |store| > cfg.capacity && e.Some? then store - {e.value} else store
  {
    hide T.Inv;
    hide T.Evict;
    hide EvictItem;
    EvictItemStore(cfg, State(st.store[k := x], Marked(cfg, st, k, x.value), st.alloc + x.size));
  }

  /** The write is sized, fits the byte limit and is one the backend takes. */
  ghost predicate Accepted(cfg: Config, st: State, w: Write) {
    w.size.Some? && (cfg.maxSize == 0 || st.alloc + w.size.value <= cfg.maxSize) && w.valid
  }

  /** The value of the latest accepted write of `k`. */
  ghost function LastWrite(cfg: Config, st: State, ops: seq<Op>, k: string): Option<Value>
    requires Inv(cfg, st)
  {
    if ops == [] then None
    else
      var pre, op := ops[..|ops| - 1], ops[|ops| - 1];
      var r := Run(cfg, st, pre);
      if (op.SetOp? || (op.GetOrSetOp? && k !in r.store)) && op.w.key == k && Accepted(cfg, r, op.w) then Some(op.w.value)
      else LastWrite(cfg, st, pre, k)
  }

  lemma SetStore(cfg: Config, st: State, w: Write, k: string)
    requires T.Inv(st.tracker, cfg.hash) && k in Set(cfg, st, w).0.store
    ensures var x := Set(cfg, st, w).0.store[k];
            if w.key == k && Accepted(cfg, st, w) then x.value == w.value else k in st.store && x == st.store[k]
  {
    hide T.Inv;
    hide T.Evict;
    hide Insert;
    if w.size.Some? {
      InsertStore(cfg, st, w.key, Stored(w.value, w.size.value));
    }
  }

  /** Over every run, whatever is stored under a key is the value of its latest accepted write. */
  lemma {:induction false} StoredIsLastWrite(cfg: Config, st: State, ops: seq<Op>, k: string)
    requires Empty(cfg, st) && k in Run(cfg, st, ops).store
    ensures Some(Run(cfg, st, ops).store[k].value) == LastWrite(cfg, st, ops, k)
  {
    hide T.AllInv;
    hide T.Routed;
    hide T.Shape;
    hide Set;
    hide Untrack;
    var pre, op := ops[..|ops| - 1], ops[|ops| - 1];
    var r := Run(cfg, st, pre);
    if op.SetOp? || (op.GetOrSetOp? && op.w.key !in r.store) {
      SetStore(cfg, r, op.w, k);
    }
    if k in r.store {
      StoredIsLastWrite(cfg, st, pre, k);
    }
  }

  /** A Get after any run: a hit is the latest accepted write, and only an expired or absent key is missed. */
  lemma HitReturnsLastWrite(cfg: Config, st: State, ops: seq<Op>, k: string, expired: bool)
    requires Empty(cfg, st)
    ensures match Get(Run(cfg, st, ops), k, expired)
            case Hit(v) => LastWrite(cfg, st, ops, k) == Some(v) && !expired
            case Miss => expired || k !in Run(cfg, st, ops).store
            case _ => false
  {
    hide Run;
    hide LastWrite;
    if k in Run(cfg, st, ops).store {
      StoredIsLastWrite(cfg, st, ops, k);
    }
  }

  // ---------- the byte counter ----------

  /** Total size of the stored items. */
  ghost function Total(m: map<string, Stored>): int {
    if m == map[] then 0
    else
      var k :| k in m;
      m[k].size + Total(m - {k})
  }

  lemma {:induction false} TotalPick(m: map<string, Stored>, k: string)
    requires k in m
    ensures Total(m) == m[k].size + Total(m - {k})
    decreases |m|
  {
    var j :| j in m && Total(m) == m[j].size + Total(m - {j});
    if j != k {
      TotalPick(m - {j}, k);
      TotalPick(m - {k}, j);
      assert m - {j} - {k} == m - {k} - {j};
    }
  }

  lemma TotalPut(m: map<string, Stored>, k: string, x: Stored)
    ensures Total(m[k := x]) == Total(m) - (if k in m then m[k].size else 0) + x.size
  {
    var r := m[k := x];
    TotalPick(r, k);
    assert r - {k} == m - {k};
    if k in m {
      TotalPick(m, k);
    } else {
      assert m - {k} == m;
    }
  }

  lemma TotalDrop(m: map<string, Stored>, k: string)
    ensures Total(m - {k}) == Total(m) - if k in m then m[k].size else 0
  {
    if k in m {
      TotalPick(m, k);
    } else {
      assert m - {k} == m;
    }
  }

  /** Sizes a removal subtracts once too often: those of stored keys listed earlier already. */
  ghost function Repeats(store: map<string, Stored>, keys: seq<string>): int {
    if keys == [] then 0
    else
      var pre, k := keys[..|keys| - 1], keys[|keys| - 1];
      Repeats(store, pre) + if k in store && k in pre then store[k].size else 0
  }

  lemma {:induction false} ChargeTotal(store: map<string, Stored>, keys: seq<string>)
    ensures Total(store - KeySet(keys)) == Total(store) - Charge(store, keys) + Repeats(store, keys)
  {
    if keys == [] {
      assert store - KeySet(keys) == store;
    } else {
      var pre, k := keys[..|keys| - 1], keys[|keys| - 1];
      ChargeTotal(store, pre);
      assert KeySet(keys) == KeySet(pre) + {k};
      assert store - KeySet(keys) == (store - KeySet(pre)) - {k};
      TotalDrop(store - KeySet(pre), k);
    }
  }

  /** How far the counter is above the stored total. */
  ghost function Excess(st: State): int {
    st.alloc - Total(st.store)
  }

  lemma RemoveExcess(cfg: Config, st: State, keys: seq<string>)
    requires T.Shape(|st.tracker.shards|)
    ensures Excess(Remove(cfg, st, keys)) == Excess(st) - Repeats(st.store, keys)
  {
    ChargeTotal(st.store, keys);
  }

  lemma EvictItemExcess(cfg: Config, st: State)
    requires Inv(cfg, st)
    ensures Excess(EvictItem(cfg, st)) == Excess(st)
  {
    hide T.AllInv;
    hide T.Routed;
    hide T.Shape;
    hide T.Tracks;
    hide T.Evict;
    hide Remove;
    T.EvictTracks(st.tracker, cfg.hash);
    var (tr, k) := T.Evict(st.tracker);
    if k.Some? {
      RemoveExcess(cfg, st.(tracker := tr), [k.value]);
    }
  }

  /** An accepted write adds the size it overwrites to the excess. */
  lemma InsertExcess(cfg: Config, st: State, k: string, x: Stored)
    requires Inv(cfg, st)
    ensures Excess(Insert(cfg, st, k, x)) == Excess(st) + if k in st.store then st.store[k].size else 0
  {
    hide T.AllInv;
    hide T.Routed;
    hide T.Shape;
    hide T.Tracks;
    hide T.Set;
    hide EvictItem;
    T.SetTracks(st.tracker, cfg.hash, k, x.value);
    var r := State(st.store[k := x], Marked(cfg, st, k, x.value), st.alloc + x.size);
    TotalPut(st.store, k, x);
    EvictItemExcess(cfg, r);
  }

  predicate Refused(cfg: Config, st: State, w: Write) {
    w.size.None? || (cfg.maxSize > 0 && st.alloc + w.size.value > cfg.maxSize)
  }

  /** What one write adds to the excess: the size it overwrites, or its own when the backend rejects it. */
  ghost function Leak(cfg: Config, st: State, w: Write): int {
    if Refused(cfg, st, w) then 0
    else if !w.valid then w.size.value
    else if w.key in st.store then st.store[w.key].size
    else 0
  }

  lemma SetExcess(cfg: Config, st: State, w: Write)
    requires Inv(cfg, st)
    ensures Excess(Set(cfg, st, w).0) == Excess(st) + Leak(cfg, st, w)
  {
    hide T.AllInv;
    hide T.Routed;
    hide T.Shape;
    hide Insert;
    if !Refused(cfg, st, w) && w.valid {
      InsertExcess(cfg, st, w.key, Stored(w.value, w.size.value));
    }
  }

  /** The sizes overwritten or rejected since the last Clear, less those removed twice in one call. */
  ghost function Overcount(cfg: Config, st: State, ops: seq<Op>): int
    requires Inv(cfg, st)
  {
    if ops == [] then 0
    else
      var pre, op := ops[..|ops| - 1], ops[|ops| - 1];
      var r := Run(cfg, st, pre);
      match op
      case SetOp(w) => Overcount(cfg, st, pre) + Leak(cfg, r, w)
      case GetOrSetOp(w, _) => Overcount(cfg, st, pre) + if w.key in r.store then 0 else Leak(cfg, r, w)
      case RemoveOp(keys) => Overcount(cfg, st, pre) - Repeats(r.store, keys)
      case ClearOp(order) => if Lists(order, r.store) then 0 else Overcount(cfg, st, pre)
  }

  /** Conservation: over every run, the counter is the stored total plus the overcount, exactly. */
  lemma {:induction false} CounterExact(cfg: Config, st: State, ops: seq<Op>)
    requires Empty(cfg, st)
    ensures Run(cfg, st, ops).alloc == Total(Run(cfg, st, ops).store) + Overcount(cfg, st, ops)
  {
    hide T.AllInv;
    hide T.Routed;
    hide T.Shape;
    hide Set;
    hide Remove;
    hide Leak;
    if ops != [] {
      var pre, op := ops[..|ops| - 1], ops[|ops| - 1];
      CounterExact(cfg, st, pre);
      var r := Run(cfg, st, pre);
      match op
      case SetOp(w) => SetExcess(cfg, r, w);
      case GetOrSetOp(w, _) => SetExcess(cfg, r, w);
      case RemoveOp(keys) => RemoveExcess(cfg, r, keys);
      case ClearOp(order) =>
    }
  }

  // ---------- what writes reply ----------

  /** After the run, the write would take the counter past the byte limit. */
  ghost predicate TooBig(cfg: Config, st: State, ops: seq<Op>, w: Write)
    requires Inv(cfg, st)
  {
    w.size.Some? && cfg.maxSize > 0 && Total(Run(cfg, st, ops).store) + Overcount(cfg, st, ops) + w.size.value > cfg.maxSize
  }

  /** A Set after any run: which check decides the reply, and that only an accepted write touches store and tracker. */
  lemma SetReplies(cfg: Config, st: State, ops: seq<Op>, w: Write)
    requires Empty(cfg, st)
    ensures var r := Run(cfg, st, ops); var (r', e) := Set(cfg, r, w);
            && (e == ErrInvalidSize <==> w.size.None?)
            && (e == ErrCacheFull <==> TooBig(cfg, st, ops, w))
            && (e == ErrInvalidItem <==> w.size.Some? && !TooBig(cfg, st, ops, w) && !w.valid)
            && (e == Done <==> w.size.Some? && !TooBig(cfg, st, ops, w) && w.valid)
            && (e != Done ==> r'.store == r.store && r'.tracker == r.tracker)
            && (e == Done ==> WrittenOr(cfg, r, r', w))
  {
    hide T.Inv;
    hide T.Tracks;
    hide Run;
    hide Overcount;
    hide WrittenOr;
    hide Set;
    CounterExact(cfg, st, ops);
    SetChecks(cfg, Run(cfg, st, ops), w);
  }

  /** The item is stored as written, the others as they were; one of them all leaves only from an overfull cache. */
  ghost predicate WrittenOr(cfg: Config, st: State, r: State, w: Write)
    requires w.size.Some?
  {
    var x := Stored(w.value, w.size.value);
    var over := cfg.interval == 0 && cfg.capacity > 0 && |st.store[w.key := x]| > cfg.capacity;
    && (if w.key in r.store then r.store[w.key] == x else over)
    && (forall j :: j != w.key && j in r.store ==> j in st.store && r.store[j] == st.store[j])
    && (forall j :: j in st.store && j !in r.store ==> over)
    && (w.key !in r.store ==> forall j :: j != w.key && j in st.store ==> j in r.store)
  }

  lemma SetChecks(cfg: Config, st: State, w: Write)
    requires T.Inv(st.tracker, cfg.hash)
    ensures var (r, e) := Set(cfg, st, w);
            var full := w.size.Some? && cfg.maxSize > 0 && st.alloc + w.size.value > cfg.maxSize;
            && (e == ErrInvalidSize <==> w.size.None?)
            && (e == ErrCacheFull <==> full)
            && (e == ErrInvalidItem <==> w.size.Some? && !full && !w.valid)
            && (e == Done <==> w.size.Some? && !full && w.valid)
            && e in {ErrInvalidSize, ErrCacheFull, ErrInvalidItem, Done}
            && (e != Done ==> r.store == st.store && r.tracker == st.tracker)
            && (e == Done ==> WrittenOr(cfg, st, r, w))
  {
    hide T.Inv;
    hide T.Evict;
    hide Insert;
    if w.size.Some? {
      InsertStore(cfg, st, w.key, Stored(w.value, w.size.value));
    }
  }

  /**
   A GetOrSet after any run: a stored key that has not expired gives its latest accepted write and changes
   nothing; an expired one is an error; an absent one is written, and the reply is the value written or the
   error of the check that failed.
   */
  lemma GetOrSetReplies(cfg: Config, st: State, ops: seq<Op>, w: Write, expired: bool)
    requires Empty(cfg, st)
    ensures var r := Run(cfg, st, ops); var (r', e) := GetOrSet(cfg, r, w, expired);
            && (e == ErrKeyExpired <==> w.key in r.store && expired)
            && (w.key in r.store ==> r' == r)
            && (w.key in r.store && !expired ==> e.Hit? && LastWrite(cfg, st, ops, w.key) == Some(e.value))
            && (w.key !in r.store ==>
                  && r' == Set(cfg, r, w).0
                  && (e == Hit(w.value) <==> w.size.Some? && !TooBig(cfg, st, ops, w) && w.valid)
                  && (e == ErrInvalidSize <==> w.size.None?)
                  && (e == ErrCacheFull <==> TooBig(cfg, st, ops, w))
                  && (e == ErrInvalidItem <==> w.size.Some? && !TooBig(cfg, st, ops, w) && !w.valid))
  {
    hide Run;
    hide TooBig;
    hide LastWrite;
    hide Set;
    SetReplies(cfg, st, ops, w);
    if w.key in Run(cfg, st, ops).store {
      StoredIsLastWrite(cfg, st, ops, w.key);
    }
  }

  // ---------- when the counter bounds the stored bytes ----------

  ghost predicate SizesOk(m: map<string, Stored>) {
    forall k :: k in m ==> m[k].size >= 0
  }

  ghost predicate NoRepeat(keys: seq<string>) {
    forall i, j :: 0 <= i < j < |keys| ==> keys[i] != keys[j]
  }

  /** Sizes are not negative, and no Remove lists a key twice. */
  ghost predicate Fair(op: Op) {
    match op
    case SetOp(w) => w.size.Some? ==> w.size.value >= 0
    case GetOrSetOp(w, _) => w.size.Some? ==> w.size.value >= 0
    case RemoveOp(keys) => NoRepeat(keys)
    case ClearOp(_) => true
  }

  /** With sizes not negative, a removal is charged exactly iff no stored key of positive size is listed twice. */
  lemma {:induction false} RemoveExactIff(store: map<string, Stored>, keys: seq<string>)
    requires SizesOk(store)
    ensures Repeats(store, keys) >= 0
    ensures Repeats(store, keys) == 0 <==>
            forall i, j :: 0 <= i < j < |keys| && keys[i] == keys[j] && keys[i] in store ==> store[keys[i]].size == 0
  {
    if keys != [] {
      var n := |keys| - 1;
      var pre, k := keys[..n], keys[n];
      RemoveExactIff(store, pre);
      if k in store && k in pre && store[k].size > 0 {
        var i :| 0 <= i < n && keys[i] == k;
        assert keys[i] == keys[n];
      } else if Repeats(store, pre) != 0 {
        var i, j :| 0 <= i < j < n && pre[i] == pre[j] && pre[i] in store && store[pre[i]].size != 0;
        assert keys[i] == keys[j];
      } else {
        forall i, j | 0 <= i < j < |keys| && keys[i] == keys[j] && keys[i] in store ensures store[keys[i]].size == 0 {
          if j < n {
            assert pre[i] == pre[j];
          } else {
            assert k == pre[i];
          }
        }
      }
    }
  }

  lemma {:induction false} ChargeNotNegative(store: map<string, Stored>, keys: seq<string>)
    requires SizesOk(store)
    ensures Charge(store, keys) >= 0
  {
    if keys != [] {
      ChargeNotNegative(store, keys[..|keys| - 1]);
    }
  }

  lemma EvictItemSizes(cfg: Config, st: State)
    requires T.Inv(st.tracker, cfg.hash) && SizesOk(st.store)
    ensures SizesOk(EvictItem(cfg, st).store) && EvictItem(cfg, st).alloc <= st.alloc
  {
    hide T.AllInv;
    hide T.Routed;
    hide T.Shape;
    hide T.Evict;
    T.EvictTracks(st.tracker, cfg.hash);
    var k := T.Evict(st.tracker).1;
    if k.Some? {
      ChargeNotNegative(st.store, [k.value]);
    }
  }

  /** Within the byte limit, item sizes not negative and counter not below the stored total. */
  ghost predicate BytesOk(cfg: Config, st: State) {
    SizesOk(st.store) && Excess(st) >= 0 && (cfg.maxSize > 0 ==> st.alloc <= cfg.maxSize)
  }

  lemma SetBytes(cfg: Config, st: State, w: Write)
    requires Inv(cfg, st) && BytesOk(cfg, st) && (w.size.Some? ==> w.size.value >= 0)
    ensures BytesOk(cfg, Set(cfg, st, w).0)
  {
    hide T.AllInv;
    hide T.Routed;
    hide T.Shape;
    hide T.Tracks;
    hide T.Set;
    hide EvictItem;
    hide Total;
    SetExcess(cfg, st, w);
    if !Refused(cfg, st, w) && w.valid {
      var x := Stored(w.value, w.size.value);
      T.SetTracks(st.tracker, cfg.hash, w.key, w.value);
      EvictItemSizes(cfg, State(st.store[w.key := x], Marked(cfg, st, w.key, w.value), st.alloc + x.size));
    }
  }

  lemma RemoveBytes(cfg: Config, st: State, keys: seq<string>)
    requires Inv(cfg, st) && BytesOk(cfg, st) && NoRepeat(keys)
    ensures BytesOk(cfg, Remove(cfg, st, keys))
  {
    hide Total;
    hide T.AllInv;
    hide T.Routed;
    hide T.Shape;
    RemoveExcess(cfg, st, keys);
    RemoveExactIff(st.store, keys);
    ChargeNotNegative(st.store, keys);
  }

  /**
   Over every run with sizes not negative and no key listed twice in one Remove, the stored bytes are at
   most the counter, which is at most the configured maximum.
   */
  lemma {:induction false} ByteBound(cfg: Config, st: State, ops: seq<Op>)
    requires Empty(cfg, st) && forall i :: 0 <= i < |ops| ==> Fair(ops[i])
    ensures BytesOk(cfg, Run(cfg, st, ops))
  {
    hide T.AllInv;
    hide T.Routed;
    hide T.Shape;
    hide Set;
    hide Remove;
    hide BytesOk;
    if ops == [] {
      EmptyBytes(cfg, st);
    } else {
      var pre, op := ops[..|ops| - 1], ops[|ops| - 1];
      ByteBound(cfg, st, pre);
      var r := Run(cfg, st, pre);
      assert Fair(op);
      match op
      case SetOp(w) => SetBytes(cfg, r, w);
      case GetOrSetOp(w, _) => SetBytes(cfg, r, w);
      case RemoveOp(keys) => RemoveBytes(cfg, r, keys);
      case ClearOp(order) => EmptyBytes(cfg, Clear(cfg, r, order));
    }
  }

  lemma EmptyBytes(cfg: Config, st: State)
    requires st.store == map[] && st.alloc == 0
    ensures BytesOk(cfg, st)
  {
  }

  // ---------- where the code falls short, exactly ----------

  /**
   With clocks as trackers, one or sharded, a write that overfills the store leaves it over capacity exactly
   when the Set leaves no idle slot in the key's own dial and no other dial has one.
   */
  lemma ClockBoundedIff(cfg: Config, st: State, k: string, x: Stored)
    requires Inv(cfg, st) && T.Clocks(st.tracker) && ShouldEvict(cfg) && |st.store| <= cfg.capacity
    ensures var shards, home := st.tracker.shards, T.Home(st.tracker, cfg.hash, k);
            Bounded(cfg, Insert(cfg, st, k, x)) <==>
            || k in st.store || |st.store| < cfg.capacity
            || (|shards| < T.WRAP && (C.LeavesIdle(shards[home].c, k) ||
                                      exists j :: 0 <= j < |shards| && j != home && T.HasIdle(shards[j].c.slots)))
  {
    hide T.Shape;
    hide T.Evict;
    hide T.Inv;
    hide T.Clocks;
    hide T.HasIdle;
    hide C.LeavesIdle;
    hide Insert;
    InsertBoundedIff(cfg, st, k, x);
    ClockMarked(cfg, st, k, x.value);
  }

  /** Which clocks have a victim after a Set. */
  lemma ClockMarked(cfg: Config, st: State, k: string, v: Value)
    requires T.Inv(st.tracker, cfg.hash) && T.Clocks(st.tracker)
    ensures var shards, home := st.tracker.shards, T.Home(st.tracker, cfg.hash, k);
            T.Evict(Marked(cfg, st, k, v)).1.Some? <==>
            |shards| < T.WRAP && (C.LeavesIdle(shards[home].c, k) ||
                                  exists j :: 0 <= j < |shards| && j != home && T.HasIdle(shards[j].c.slots))
  {
    hide T.Shape;
    hide T.Evict;
    hide A.Set;
    hide A.Inv;
    hide C.LeavesIdle;
    hide T.HasIdle;
    hide T.Routed;
    var s, home := st.tracker.shards, T.Home(st.tracker, cfg.hash, k);
    ClockSet(s[home], k, v);
    var marked := Marked(cfg, st, k, v);
    var b := A.Set(s[home], k, v);
    assert marked.shards == s[home := b];
    T.ClocksEvictFailsIff(marked);
    OneChanged(s, marked.shards, home);
  }

  lemma OneChanged(s: seq<A.Algorithm>, r: seq<A.Algorithm>, home: nat)
    requires home < |s| == |r| && (forall j :: 0 <= j < |s| ==> s[j].Dial?) && forall j :: 0 <= j < |r| ==> r[j].Dial?
    requires forall j :: 0 <= j < |s| && j != home ==> r[j] == s[j]
    ensures (forall j :: 0 <= j < |r| ==> !T.HasIdle(r[j].c.slots)) <==>
            !T.HasIdle(r[home].c.slots) && forall j :: 0 <= j < |s| && j != home ==> !T.HasIdle(s[j].c.slots)
  {
    hide T.HasIdle;
  }

  lemma ClockSet(a: A.Algorithm, k: string, v: Value)
    requires A.Inv(a) && a.Dial?
    ensures A.Set(a, k, v).Dial? && (T.HasIdle(A.Set(a, k, v).c.slots) <==> C.LeavesIdle(a.c, k))
  {
    hide C.LeavesIdle;
    A.SetInv(a, k, v);
    C.EvictAfterSetIff(a.c, k, v);
    T.ClockYieldsIff(A.Set(a, k, v));
  }

  /** A write on a one-slot clock, spelled out. */
  lemma ClockWrite(cfg: Config, st: State, c: C.State, k: string, x: Stored)
    requires T.Inv(st.tracker, cfg.hash) && st.tracker.shards == [A.Dial(c)] && C.Inv(c) && ShouldEvict(cfg)
    ensures C.Inv(C.Set(c, k, x.value))
    ensures var m := C.Set(c, k, x.value); var (e, j) := C.Evict(m);
            var store := st.store[k := x];
            var r := Insert(cfg, st, k, x);
            if |store| <= cfg.capacity then r.store == store && r.tracker.shards == [A.Dial(m)]
            else if j.None? then r.store == store && r.tracker.shards == [A.Dial(e)]
            else r.store == store - {j.value} && r.tracker.shards == [A.Dial(if j.value in store then C.Delete(e, j.value) else e)]
  {
    hide T.AllInv;
    hide T.Routed;
    hide T.Shape;
    hide T.Tracks;
    hide T.Evict;
    hide T.Set;
    hide T.Delete;
    hide C.Evict;
    hide C.Set;
    hide C.Delete;
    var a, cur := A.Dial(c), st.tracker.cursor;
    T.OneShard(a, cur, cfg.hash, k, x.value);
    A.SetInv(a, k, x.value);
    var b := A.Set(a, k, x.value);
    T.OneShard(b, cur, cfg.hash, k, x.value);
    A.EvictTracks(b, "");
    var j := A.Evict(b).1;
    if j.Some? {
      T.OneShard(A.Evict(b).0, T.Next(cur), cfg.hash, j.value, x.value);
      assert KeySet([j.value]) == {j.value};
      UntrackOne(T.State([A.Evict(b).0], T.Next(cur)), cfg.hash, st.store[k := x], j.value);
    }
  }

  lemma UntrackOne(tr: T.State, hash: string -> nat, store: map<string, Stored>, k: string)
    requires T.Shape(|tr.shards|)
    ensures Untrack(tr, hash, store, [k]) == if k in store then T.Delete(tr, hash, k) else tr
  {
    assert [k][..0] == [];
    assert Untrack(tr, hash, store, []) == tr;
  }

  ghost predicate IsClock1(st: State, slot: C.Slot) {
    st.tracker.shards == [A.Dial(C.State([slot], 0))]
  }

  ghost function Put(k: string, v: Value): Op {
    SetOp(Write(k, v, Some(1), true))
  }

  /** With capacity one and a one-slot clock, three writes of different keys leave two items stored. */
  lemma ClockExceedsCapacity(hash: string -> nat, v: Value)
    ensures var cfg := Config(1, 0, 0, hash);
            var st := State(map[], T.State([A.New(A.Clock, 1)], 0), 0);
            Empty(cfg, st) && |Run(cfg, st, [Put("a", v), Put("b", v), Put("c", v)]).store| == 2
  {
    hide T.Inv;
    hide Insert;
    hide Run;
    var cfg := Config(1, 0, 0, hash);
    var st := State(map[], T.State([A.New(A.Clock, 1)], 0), 0);
    var x := Stored(v, 1);
    ClockStart(cfg);
    RunNone(cfg, st);
    RunOne(cfg, st, [], Put("a", v));
    var s1 := Run(cfg, st, [] + [Put("a", v)]);
    ClockFree(cfg, st, "a", x);
    RunOne(cfg, st, [] + [Put("a", v)], Put("b", v));
    var s2 := Run(cfg, st, [] + [Put("a", v)] + [Put("b", v)]);
    ClockSwap(cfg, s1, "a", "b", x);
    RunOne(cfg, st, [] + [Put("a", v)] + [Put("b", v)], Put("c", v));
    ClockOver(cfg, s2, "b", "c", x);
    assert [] + [Put("a", v)] + [Put("b", v)] + [Put("c", v)] == [Put("a", v), Put("b", v), Put("c", v)];
    assert map["b" := x, "c" := x].Keys == {"b", "c"};
  }

  lemma ClockStart(cfg: Config)
    ensures Empty(cfg, State(map[], T.State([A.New(A.Clock, 1)], 0), 0))
    ensures A.New(A.Clock, 1) == A.Dial(C.State([C.Free], 0))
  {
    var a := A.New(A.Clock, 1);
    assert a.c.slots == [C.Free];
    assert A.Inv(a);
    T.OneShard(a, 0, cfg.hash, "", "");
    forall k ensures !T.Tracks(T.State([a], 0), cfg.hash, k) {
      T.OneShard(a, 0, cfg.hash, k, "");
    }
  }

  lemma RunNone(cfg: Config, st: State)
    requires Inv(cfg, st)
    ensures Run(cfg, st, []) == st
  {
  }

  lemma RunOne(cfg: Config, st: State, ops: seq<Op>, op: Op)
    requires Inv(cfg, st)
    ensures Run(cfg, st, ops + [op]) == Step(cfg, Run(cfg, st, ops), op)
  {
    assert (ops + [op])[..|ops|] == ops;
  }

  /** First write: the key takes the free slot. */
  lemma ClockFree(cfg: Config, st: State, k: string, x: Stored)
    requires Inv(cfg, st) && cfg.capacity == 1 && cfg.interval == 0 && IsClock1(st, C.Free) && st.store == map[]
    ensures Insert(cfg, st, k, x).store == map[k := x] && IsClock1(Insert(cfg, st, k, x), C.Full(k, x.value, 1))
  {
    hide T.Inv;
    hide C.Set;
    hide C.Evict;
    hide C.Delete;
    hide Insert;
    ClockWrite(cfg, st, C.State([C.Free], 0), k, x);
    C.OneSlotFree(k, x.value);
  }

  /** Second write: the slot is spent, its key is evicted and the new key goes untracked. */
  lemma ClockSwap(cfg: Config, st: State, j: string, k: string, x: Stored)
    requires Inv(cfg, st) && cfg.capacity == 1 && cfg.interval == 0 && IsClock1(st, C.Full(j, x.value, 1)) && st.store == map[j := x] && j != k
    ensures Insert(cfg, st, k, x).store == map[k := x] && IsClock1(Insert(cfg, st, k, x), C.Free)
  {
    hide T.Inv;
    hide C.Set;
    hide C.Evict;
    hide C.Delete;
    hide Insert;
    var c := C.State([C.Full(j, x.value, 1)], 0);
    ClockWrite(cfg, st, c, k, x);
    C.OneSlotSpent(j, x.value, k, x.value);
    C.OneSlotEvict(j, x.value);
    C.OneSlotFree(j, x.value);
  }

  /** Third write: the new key has a second chance, so nothing is evicted. */
  lemma ClockOver(cfg: Config, st: State, j: string, k: string, x: Stored)
    requires Inv(cfg, st) && cfg.capacity == 1 && cfg.interval == 0 && IsClock1(st, C.Free) && st.store == map[j := x] && j != k
    ensures Insert(cfg, st, k, x).store == map[j := x, k := x]
  {
    hide T.Inv;
    hide C.Set;
    hide C.Evict;
    hide C.Delete;
    hide Insert;
    var c := C.State([C.Free], 0);
    ClockWrite(cfg, st, c, k, x);
    C.OneSlotFree(k, x.value);
    C.OneSlotEvict(k, x.value);
  }

  /** Listing a key twice in one Remove takes its size off twice: the counter then falls below the stored total. */
  lemma RepeatedRemoveUndercounts(cfg: Config, st: State, k: string)
    requires T.Inv(st.tracker, cfg.hash) && k in st.store && st.store[k].size > 0 && Excess(st) == 0
    ensures Excess(Remove(cfg, st, [k, k])) < 0
  {
    RemoveExcess(cfg, st, [k, k]);
    assert [k, k][..1] == [k] && [k][..0] == [];
    assert Repeats(st.store, [k]) == 0;
  }

  /**
   Writing one key of size `s` over and over uses up the byte limit: after `n` accepted writes the counter
   is `n * s` while one item of size `s` is stored, and the next write is refused iff it would pass the limit.
   */
  lemma {:induction false} RewritesFillTheCache(cfg: Config, st: State, w: Write, n: nat)
    requires Empty(cfg, st) && w.valid && w.size.Some? && w.size.value >= 0 && cfg.maxSize > 0
    requires n * w.size.value <= cfg.maxSize
    ensures var r := Run(cfg, st, seq(n, _ => SetOp(w)));
            && r.alloc == n * w.size.value
            && r.store == (if n == 0 then map[] else map[w.key := Stored(w.value, w.size.value)])
            && (Set(cfg, r, w).1 == ErrCacheFull <==> (n + 1) * w.size.value > cfg.maxSize)
  {
    hide T.Inv;
    hide Set;
    var ops, s := seq(n, _ => SetOp(w)), w.size.value;
    if n == 0 {
      assert ops == [];
    } else {
      assert (n - 1) * s + s == n * s;
      RewritesFillTheCache(cfg, st, w, n - 1);
      assert ops[..n - 1] == seq(n - 1, _ => SetOp(w));
      RewriteOnce(cfg, Run(cfg, st, ops[..n - 1]), w);
    }
    RewriteOnce(cfg, Run(cfg, st, ops), w);
    assert (n + 1) * s == n * s + s;
  }

  /** One write of a key that is the only one stored, if any is. */
  lemma RewriteOnce(cfg: Config, st: State, w: Write)
    requires T.Inv(st.tracker, cfg.hash) && w.valid && w.size.Some? && cfg.maxSize > 0 && forall k :: k in st.store ==> k == w.key
    ensures var (r, e) := Set(cfg, st, w);
            if st.alloc + w.size.value > cfg.maxSize then e == ErrCacheFull
            else e == Done && r.alloc == st.alloc + w.size.value && r.store == map[w.key := Stored(w.value, w.size.value)]
  {
    hide T.Inv;
    hide EvictItem;
    hide Marked;
    var x := Stored(w.value, w.size.value);
    assert st.store[w.key := x] == map[w.key := x];
    assert |map[w.key := x]| == 1;
  }
}
