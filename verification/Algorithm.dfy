/**
 The eviction interface (pkg/eviction/eviction.go) over the registered algorithms, and what each
 operation does to the set of tracked keys. LRU and CAWOLFU are both the recency policy.
 */
module Algorithm {
  import opened Items
  import opened Traces
  import LinkedList
  import R = Recency
  import L = LfuPolicy
  import C = ClockPolicy

  datatype Algorithm = Recent(r: R.State) | Frequent(f: L.State) | Dial(c: C.State)

  datatype Name = Lru | Cawolfu | Lfu | Clock

  /** The default registry. */
  function Registered(name: string): Option<Name> {
    match name
    case "lru" => Some(Lru)
    case "clock" => Some(Clock)
    case "lfu" => Some(Lfu)
    case "cawolfu" => Some(Cawolfu)
    case _ => None
  }

  function New(name: Name, cap: nat): Algorithm {
    match name
    case Lru => Recent(R.State(cap, []))
    case Cawolfu => Recent(R.State(cap, []))
    case Lfu => Frequent(L.State(cap, map[], 0))
    case Clock => Dial(C.State(seq(cap, _ => C.Free), 0))
  }

  /** Each registered name builds its own algorithm, new and of the given capacity. */
  lemma RegisteredBuilds(name: string, cap: nat)
    ensures Registered(name).Some? <==> name in ["lru", "lfu", "clock", "cawolfu"]
    ensures Registered(name).Some? ==>
              var a := New(Registered(name).value, cap);
              && (name == "lru" || name == "cawolfu" ==> a == Recent(R.Run(cap, [])))
              && (name == "lfu" ==> a == Frequent(L.Run(cap, [])))
              && (name == "clock" ==> a == Dial(C.Run(cap, [])))
  {
  }

  function Cap(a: Algorithm): nat {
    match a
    case Recent(r) => r.cap
    case Frequent(f) => f.cap
    case Dial(c) => |c.slots|
  }

  ghost predicate Inv(a: Algorithm) {
    match a
    case Recent(r) => R.NoDup(r.s) && |r.s| <= r.cap
    case Frequent(f) => L.Inv(f)
    case Dial(c) => C.Inv(c)
  }

  /** `k` is tracked. */
  predicate Tracks(a: Algorithm, k: string) {
    match a
    case Recent(r) => LinkedList.HasKey(r.s, k)
    case Frequent(f) => k in f.m
    case Dial(c) => C.Tracked(c.slots, k)
  }

  function Set(a: Algorithm, k: string, v: Value): Algorithm
    requires Inv(a)
  {
    match a
    case Recent(r) => Recent(R.Set(r, k, v))
    case Frequent(f) => Frequent(L.Set(f, k, v))
    case Dial(c) => Dial(C.Set(c, k, v))
  }

  function Delete(a: Algorithm, k: string): Algorithm {
    match a
    case Recent(r) => Recent(R.Delete(r, k))
    case Frequent(f) => Frequent(L.Delete(f, k))
    case Dial(c) => Dial(C.Delete(c, k))
  }

  function Evict(a: Algorithm): (Algorithm, Option<string>)
    requires Inv(a)
  {
    match a
    case Recent(r) => var (s, k) := R.Evict(r); (Recent(s), k)
    case Frequent(f) => var (s, k) := L.Evict(f); (Frequent(s), k)
    case Dial(c) => var (s, k) := C.Evict(c); (Dial(s), k)
  }

  // ---------- what the operations do to the tracked keys ----------

  lemma SetInv(a: Algorithm, k: string, v: Value)
    requires Inv(a)
    ensures Inv(Set(a, k, v)) && Cap(Set(a, k, v)) == Cap(a) && (Set(a, k, v).Dial? <==> a.Dial?)
  {
    match a
    case Recent(r) => R.StepNoDup(r, SetOp(k, v));
    case Frequent(f) => L.SetInv(f, k, v);
    case Dial(c) => C.StepUnique(c, SetOp(k, v));
  }

  /** Set tracks nothing but old keys and its own; only a clock, or a capacity of zero, may not track its own. */
  lemma SetTracks(a: Algorithm, k: string, v: Value, j: string)
    requires Inv(a)
    ensures Tracks(Set(a, k, v), j) ==> j == k || Tracks(a, j)
    ensures Cap(a) > 0 && !a.Dial? ==> Tracks(Set(a, k, v), k)
  {
    match a
    case Recent(r) =>
      R.StepKeeps(r, SetOp(k, v), j);
      R.StepKeeps(r, SetOp(k, v), k);
    case Frequent(f) =>
    case Dial(c) =>
      if Tracks(Set(a, k, v), j) {
        var s := C.Set(c, k, v).slots;
        var i := C.Where(s, j);
        C.SlotSteps(c, SetOp(k, v), i);
        assert j == k || C.Holds(c.slots, j, i);
      }
  }

  lemma DeleteTracks(a: Algorithm, k: string, j: string)
    requires Inv(a)
    ensures Inv(Delete(a, k)) && Cap(Delete(a, k)) == Cap(a) && (Delete(a, k).Dial? <==> a.Dial?)
    ensures Tracks(Delete(a, k), j) <==> Tracks(a, j) && j != k
  {
    match a
    case Recent(r) =>
      R.StepNoDup(r, DeleteOp(k));
      R.StepKeeps(r, DeleteOp(k), j);
    case Frequent(f) => L.OtherInv(f, k);
    case Dial(c) =>
      C.StepUnique(c, DeleteOp(k));
      DialDelete(c, k, j);
  }

  lemma DialDelete(c: C.State, k: string, j: string)
    requires C.Inv(c)
    ensures C.Tracked(C.Delete(c, k).slots, j) <==> C.Tracked(c.slots, j) && j != k
  {
    var s := C.Delete(c, k).slots;
    if C.Tracked(c.slots, j) && j != k {
      assert C.Holds(s, j, C.Where(c.slots, j));
    }
    if C.Tracked(s, j) {
      assert C.Holds(c.slots, j, C.Where(s, j));
    }
  }

  lemma DialEvict(c: C.State, j: string)
    requires C.Inv(c)
    ensures var (r, k) := C.Evict(c);
            && (C.Tracked(r.slots, j) <==> C.Tracked(c.slots, j) && k != Some(j))
            && (k.Some? ==> C.Tracked(c.slots, k.value))
  {
    var (r, k) := C.Evict(c);
    if c.slots != [] {
      C.FirstIs(c.slots, c.hand, 0, C.IsIdle);
      hide C.First;
      if k.Some? {
        assert C.Holds(c.slots, k.value, r.hand);
      }
      if C.Tracked(c.slots, j) && k != Some(j) {
        assert C.Holds(r.slots, j, C.Where(c.slots, j));
      }
      if C.Tracked(r.slots, j) {
        assert C.Holds(c.slots, j, C.Where(r.slots, j));
      }
    }
  }

  /** Evict untracks exactly its victim; only a clock can fail to find one while it tracks a key. */
  lemma EvictTracks(a: Algorithm, j: string)
    requires Inv(a)
    ensures var (r, k) := Evict(a);
            && Inv(r) && Cap(r) == Cap(a) && (r.Dial? <==> a.Dial?)
            && (Tracks(r, j) <==> Tracks(a, j) && k != Some(j))
            && (k.Some? ==> Tracks(a, k.value))
            && (!a.Dial? && Tracks(a, j) ==> k.Some?)
  {
    match a
    case Recent(r) =>
      R.StepNoDup(r, EvictOp);
      R.StepKeeps(r, EvictOp, j);
      if r.s != [] {
        LinkedList.HasKeyAt(r.s, |r.s| - 1);
      }
    case Frequent(f) => L.OtherInv(f, j);
    case Dial(c) =>
      C.StepUnique(c, EvictOp);
      DialEvict(c, j);
  }
}
