/**
 The sharded eviction wrapper (pkg/eviction/sharded.go): one algorithm per shard, keys routed by a
 masked hash, victims taken round-robin under a cursor that wraps at 2^32. One shard behaves as the
 bare algorithm.
 */
module Sharding {
  import opened Items
  import opened Traces
  import opened Bits
  import A = Algorithm
  import C = ClockPolicy

  const WRAP: nat := 0x1_0000_0000

  datatype State = State(shards: seq<A.Algorithm>, cursor: nat)

  /** Where a key hash or a cursor position lands. */
  function Route(x: nat, n: nat): nat
    requires n > 0
  {
    And(x % WRAP, n - 1)
  }

  ghost predicate Shape(n: nat) {
    exists p: nat :: p <= 32 && n == Pow2(p)
  }

  lemma WrapIsPow2()
    ensures WRAP == Pow2(32)
  {
    assert Pow2(8) == 256;
    assert Pow2(16) == 65536 by {
      assert Pow2(12) == 16 * Pow2(8);
      assert Pow2(16) == 16 * Pow2(12);
    }
    assert Pow2(24) == 256 * Pow2(16) by {
      assert Pow2(20) == 16 * Pow2(16);
      assert Pow2(24) == 16 * Pow2(20);
    }
    assert Pow2(28) == 16 * Pow2(24);
    assert Pow2(32) == 16 * Pow2(28);
  }

  /** Wrapping at 2^32 and masking is taking the remainder by the shard count. */
  lemma RouteIsMod(x: nat, n: nat)
    requires Shape(n)
    ensures n > 0 && Route(x, n) == x % n < n
  {
    hide And;
    var p: nat :| p <= 32 && n == Pow2(p);
    hide Pow2;
    AndLowMask(x % WRAP, p);
    WrapMod(x, n);
  }

  lemma WrapMod(x: nat, n: nat)
    requires Shape(n) && n > 0
    ensures x % WRAP % n == x % n
  {
    var p: nat :| p <= 32 && n == Pow2(p);
    hide Pow2;
    WrapIsPow2();
    Pow2Divides(p, 32);
    Divide(WRAP, n);
    ModMod(x, n, WRAP / n);
  }

  // ---------- construction ----------

  /** Total capacity split over the shards, rounded up. */
  function PerShard(total: nat, count: nat): nat
    requires count > 0
  {
    (total + count - 1) / count
  }

  function New(name: string, total: int, count: int): Option<State> {
    var a := A.Registered(name);
    if count <= 0 || And(count, count - 1) != 0 || total < 0 || a.None? || count - 1 >= WRAP then None
    else Some(State(seq(count, _ => A.New(a.value, PerShard(total, count))), 0))
  }

  lemma {:induction false} SmallPow2(p: nat)
    requires Pow2(p) <= WRAP
    ensures p <= 32
  {
    WrapIsPow2();
    if p > 32 {
      Pow2Grows(32, p);
    }
  }

  lemma {:induction false} Pow2Grows(p: nat, q: nat)
    requires p < q
    ensures Pow2(p) < Pow2(q)
    decreases q
  {
    if p < q - 1 {
      Pow2Grows(p, q - 1);
    }
  }

  /** Construction fails exactly on a count that is no power of two up to 2^32, a negative capacity or an unknown name. */
  lemma NewShape(name: string, total: int, count: int)
    ensures New(name, total, count).None? <==>
            count <= 0 || !IsPow2(count) || total < 0 || count > WRAP || name !in ["lru", "lfu", "clock", "cawolfu"]
    ensures New(name, total, count).Some? ==> Shape(count)
  {
    if count > 0 {
      PowerOfTwoTest(count);
      if count <= WRAP && IsPow2(count) {
        var p: nat :| count == Pow2(p);
        SmallPow2(p);
      }
    }
  }

  lemma ShapeIsPow2(n: nat)
    requires Shape(n)
    ensures IsPow2(n) && 0 < n <= WRAP
  {
    var p: nat :| p <= 32 && n == Pow2(p);
    WrapIsPow2();
    if p < 32 {
      Pow2Grows(p, 32);
    }
  }

  /**
   The shards' capacities sum to at least the total and exceed it by less than one per shard; they sum
   to exactly the total only when the shard count divides it.
   */
  lemma CapacitySplit(total: nat, count: nat)
    requires count > 0
    ensures total <= count * PerShard(total, count) < total + count
    ensures count * PerShard(total, count) == total <==> total % count == 0
    ensures total > 0 ==> PerShard(total, count) > 0
  {
    var x, per := total + count - 1, PerShard(total, count);
    Divide(x, count);
    if total % count == 0 {
      Divide(total, count);
      NotAbove(count, per, x % count, total / count, count - 1);
      NotAbove(count, total / count, count - 1, per, x % count);
    } else if count * per == total {
      ModUnique(total, count, per, 0);
    }
  }

  // ---------- the policy ----------

  ghost predicate AllInv(s: seq<A.Algorithm>) {
    forall j :: 0 <= j < |s| ==> A.Inv(s[j])
  }

  /** Every tracked key is in its own shard. */
  ghost predicate Routed(s: seq<A.Algorithm>, hash: string -> nat)
    requires |s| > 0
  {
    forall j, k :: 0 <= j < |s| && A.Tracks(s[j], k) ==> Route(hash(k), |s|) == j
  }

  ghost predicate Inv(st: State, hash: string -> nat) {
    Shape(|st.shards|) && |st.shards| > 0 && AllInv(st.shards) && Routed(st.shards, hash)
  }

  function Home(st: State, hash: string -> nat, k: string): (j: nat)
    requires Shape(|st.shards|)
    ensures j < |st.shards|
  {
    RouteIsMod(hash(k), |st.shards|);
    Route(hash(k), |st.shards|)
  }

  predicate Tracks(st: State, hash: string -> nat, k: string)
    requires Shape(|st.shards|)
  {
    A.Tracks(st.shards[Home(st, hash, k)], k)
  }

  /** The shard count fits the cursor, no shard is a clock, and every shard has room for a key. */
  ghost predicate Orderly(st: State) {
    |st.shards| < WRAP && forall j :: 0 <= j < |st.shards| ==> !st.shards[j].Dial? && A.Cap(st.shards[j]) > 0
  }

  function Set(st: State, hash: string -> nat, k: string, v: Value): State
    requires Inv(st, hash)
  {
    var j := Home(st, hash, k);
    st.(shards := st.shards[j := A.Set(st.shards[j], k, v)])
  }

  function Delete(st: State, hash: string -> nat, k: string): State
    requires Shape(|st.shards|)
  {
    var j := Home(st, hash, k);
    st.(shards := st.shards[j := A.Delete(st.shards[j], k)])
  }

  predicate Yields(a: A.Algorithm)
    requires A.Inv(a)
  {
    A.Evict(a).1.Some?
  }

  /** Steps from shard `from`, at least `d`, to the first shard with a victim; the shard count when none has one. */
  function FirstYield(s: seq<A.Algorithm>, from: nat, d: nat): (r: nat)
    requires from < |s| && d <= |s| && AllInv(s)
    ensures d <= r <= |s|
    decreases |s| - d
  {
    if d == |s| || Yields(s[C.At(|s|, from, d)]) then d else FirstYield(s, from, d + 1)
  }

  lemma {:induction false} FirstYieldIs(s: seq<A.Algorithm>, from: nat, d: nat)
    requires from < |s| && d <= |s| && AllInv(s)
    ensures var r := FirstYield(s, from, d);
            && (r < |s| ==> Yields(s[C.At(|s|, from, r)]))
            && forall i :: d <= i < r ==> !Yields(s[C.At(|s|, from, i)])
    decreases |s| - d
  {
    if d < |s| && !Yields(s[C.At(|s|, from, d)]) {
      FirstYieldIs(s, from, d + 1);
    }
  }

  /** The shards after asking the first `d` of them, from shard `from` on, for a victim. */
  function Asked(s: seq<A.Algorithm>, from: nat, d: nat): (r: seq<A.Algorithm>)
    requires from < |s| && AllInv(s)
    ensures |r| == |s|
  {
    seq(|s|, j requires 0 <= j < |s| => if C.Dist(|s|, from, j) < d then A.Evict(s[j]).0 else s[j])
  }

  /** The cursor after one more call. */
  function Next(cursor: nat): nat {
    (cursor + 1) % WRAP
  }

  /** The shard the cursor points at. */
  function From(st: State): (j: nat)
    requires Shape(|st.shards|)
    ensures j < |st.shards|
  {
    RouteIsMod(st.cursor, |st.shards|);
    Route(st.cursor, |st.shards|)
  }

  /** Asks the shards in turn from the cursor's shard; the first with a victim gives it. 2^32 shards are never asked. */
  function Evict(st: State): (State, Option<string>)
    requires Shape(|st.shards|) && AllInv(st.shards)
  {
    var n := |st.shards|;
    var from := From(st);
    var d := FirstYield(st.shards, from, 0);
    var next := Next(st.cursor);
    if n >= WRAP then (st, None)
    else if d == n then (State(Asked(st.shards, from, n), next), None)
    else (State(Asked(st.shards, from, d + 1), next), A.Evict(st.shards[C.At(n, from, d)]).1)
  }

  lemma TooMany(st: State)
    requires Shape(|st.shards|) && AllInv(st.shards) && |st.shards| >= WRAP
    ensures Evict(st) == (st, None)
  {
  }

  lemma EvictIs(st: State)
    requires Shape(|st.shards|) && AllInv(st.shards) && |st.shards| < WRAP
    ensures var n := |st.shards|; var d := FirstYield(st.shards, From(st), 0);
            && Evict(st).0.shards == Asked(st.shards, From(st), if d == n then n else d + 1)
            && Evict(st).1 == (if d == n then None else A.Evict(st.shards[C.At(n, From(st), d)]).1)
            && Evict(st).0.cursor == Next(st.cursor)
  {
  }

  /** Evict finds no victim exactly when no shard has one, or there are too many shards to ask. */
  lemma EvictFailsIff(st: State)
    requires Shape(|st.shards|) && AllInv(st.shards)
    ensures Evict(st).1 == None <==> |st.shards| >= WRAP || forall j :: 0 <= j < |st.shards| ==> !Yields(st.shards[j])
  {
    hide From;
    var n, from := |st.shards|, From(st);
    FirstYieldIs(st.shards, from, 0);
    if Evict(st).1 == None && n < WRAP {
      forall j | 0 <= j < n ensures !Yields(st.shards[j]) {
        assert C.At(n, from, C.Dist(n, from, j)) == j;
      }
    }
  }

  /** Every shard is a clock. */
  ghost predicate Clocks(st: State) {
    forall j :: 0 <= j < |st.shards| ==> st.shards[j].Dial?
  }

  ghost predicate HasIdle(s: seq<C.Slot>) {
    exists i :: 0 <= i < |s| && C.IsIdle(s[i])
  }

  lemma ClockYieldsIff(a: A.Algorithm)
    requires A.Inv(a) && a.Dial?
    ensures Yields(a) <==> HasIdle(a.c.slots)
  {
    C.EvictFailsIff(a.c);
  }

  /** Over clocks, Evict fails exactly when no slot of any shard is occupied with count zero. */
  lemma ClocksEvictFailsIff(st: State)
    requires Shape(|st.shards|) && AllInv(st.shards) && Clocks(st)
    ensures Evict(st).1 == None <==> |st.shards| >= WRAP || forall j :: 0 <= j < |st.shards| ==> !HasIdle(st.shards[j].c.slots)
  {
    hide Evict;
    hide Yields;
    EvictFailsIff(st);
    forall j | 0 <= j < |st.shards| ensures Yields(st.shards[j]) <==> HasIdle(st.shards[j].c.slots) {
      ClockYieldsIff(st.shards[j]);
    }
  }

  // ---------- what the operations do to the tracked keys ----------

  lemma SetTracks(st: State, hash: string -> nat, k: string, v: Value)
    requires Inv(st, hash)
    ensures Inv(Set(st, hash, k, v), hash)
    ensures forall j :: Tracks(Set(st, hash, k, v), hash, j) ==> j == k || Tracks(st, hash, j)
    ensures Orderly(st) ==> Orderly(Set(st, hash, k, v)) && Tracks(Set(st, hash, k, v), hash, k)
  {
    hide A.Inv;
    hide A.Tracks;
    hide A.Set;
    hide A.Cap;
    hide And;
    hide Shape;
    var i := Home(st, hash, k);
    A.SetInv(st.shards[i], k, v);
    forall j ensures A.Tracks(A.Set(st.shards[i], k, v), j) ==> j == k || A.Tracks(st.shards[i], j) {
      A.SetTracks(st.shards[i], k, v, j);
    }
    A.SetTracks(st.shards[i], k, v, k);
  }

  lemma NewInv(name: string, total: int, count: int, hash: string -> nat)
    requires New(name, total, count).Some?
    ensures var st := New(name, total, count).value;
            && |st.shards| == count && st.cursor == 0 && Inv(st, hash) && (forall k :: !Tracks(st, hash, k))
            && forall j :: 0 <= j < count ==> total <= count * A.Cap(st.shards[j]) < total + count
  {
    NewShape(name, total, count);
    ShapeIsPow2(count);
    CapacitySplit(total, count);
    var st := New(name, total, count).value;
    forall j | 0 <= j < count ensures total <= count * A.Cap(st.shards[j]) < total + count {
      assert A.Cap(st.shards[j]) == PerShard(total, count);
    }
  }

  /** A one-slot clock takes its first key with a second chance. */
  lemma FirstKey(k: string, v: Value)
    ensures C.Set(C.State([C.Free], 0), k, v) == C.State([C.Full(k, v, 1)], 0)
  {
    var s := C.State([C.Free], 0);
    assert !C.Tracked(s.slots, k);
    C.FirstIs(s.slots, 0, 0, C.IsFree);
  }

  /** So it can fail while every shard tracks a key: two clocks of one slot, after one Set to each. */
  lemma FullClocksCanFail(a: string, b: string, v: Value, hash: string -> nat)
    requires hash(a) % 2 == 0 && hash(b) % 2 == 1
    ensures New("clock", 2, 2).Some? && Inv(New("clock", 2, 2).value, hash)
    ensures var st := Set(New("clock", 2, 2).value, hash, a, v);
            Inv(st, hash) &&
            var st' := Set(st, hash, b, v);
            Inv(st', hash) && Tracks(st', hash, a) && Tracks(st', hash, b) && Evict(st').1 == None
  {
    assert Pow2(1) == 2;
    NewShape("clock", 2, 2);
    NewInv("clock", 2, 2, hash);
    var s0 := New("clock", 2, 2).value;
    SetTracks(s0, hash, a, v);
    var s1 := Set(s0, hash, a, v);
    SetTracks(s1, hash, b, v);
    var s2 := Set(s1, hash, b, v);
    RouteIsMod(hash(a), 2);
    RouteIsMod(hash(b), 2);
    FirstKey(a, v);
    FirstKey(b, v);
    hide And;
    hide C.Insert;
    var free := A.Dial(C.State([C.Free], 0));
    assert s0.shards == [free, free] by {
      assert PerShard(2, 2) == 1;
      assert A.New(A.Clock, 1) == free by {
        assert seq(1, _ => C.Free) == [C.Free];
      }
      assert s0.shards[0] == free && s0.shards[1] == free;
    }
    assert s1.shards == [A.Dial(C.State([C.Full(a, v, 1)], 0)), free];
    assert s2.shards == [A.Dial(C.State([C.Full(a, v, 1)], 0)), A.Dial(C.State([C.Full(b, v, 1)], 0))];
    assert C.Holds(s2.shards[0].c.slots, a, 0) && C.Holds(s2.shards[1].c.slots, b, 0);
    ClocksEvictFailsIff(s2);
  }

  lemma DeleteTracks(st: State, hash: string -> nat, k: string)
    requires Inv(st, hash)
    ensures Inv(Delete(st, hash, k), hash)
    ensures forall j :: Tracks(Delete(st, hash, k), hash, j) <==> Tracks(st, hash, j) && j != k
    ensures Orderly(st) ==> Orderly(Delete(st, hash, k))
  {
    hide A.Inv;
    hide A.Tracks;
    hide A.Delete;
    hide A.Cap;
    hide And;
    hide Shape;
    var i := Home(st, hash, k);
    A.DeleteTracks(st.shards[i], k, k);
    forall j
      ensures A.Tracks(A.Delete(st.shards[i], k), j) <==> A.Tracks(st.shards[i], j) && j != k
    {
      A.DeleteTracks(st.shards[i], k, j);
    }
  }

  /** A shard without a victim keeps its keys. */
  lemma AskedTracks(s: seq<A.Algorithm>, from: nat, d: nat, i: nat, j: string)
    requires from < |s| && i < |s| && AllInv(s)
    ensures var a := Asked(s, from, d)[i];
            && A.Inv(a) && A.Cap(a) == A.Cap(s[i]) && (a.Dial? <==> s[i].Dial?)
            && (A.Tracks(a, j) <==> A.Tracks(s[i], j) && !(C.Dist(|s|, from, i) < d && A.Evict(s[i]).1 == Some(j)))
  {
    hide A.Inv;
    hide A.Tracks;
    hide A.Evict;
    hide And;
    hide Shape;
    A.EvictTracks(s[i], j);
  }

  lemma EvictInv(st: State)
    requires Shape(|st.shards|) && AllInv(st.shards)
    ensures AllInv(Evict(st).0.shards) && |Evict(st).0.shards| == |st.shards|
  {
    hide A.Inv;
    hide A.Tracks;
    hide A.Evict;
    hide A.Cap;
    hide And;
    hide Shape;
    hide From;
    hide FirstYield;
    hide Evict;
    if |st.shards| >= WRAP {
      TooMany(st);
      return;
    }
    EvictIs(st);
    var n, d := |st.shards|, FirstYield(st.shards, From(st), 0);
    var asked := if d == n then n else d + 1;
    forall i | 0 <= i < n ensures A.Inv(Asked(st.shards, From(st), asked)[i]) {
      AskedTracks(st.shards, From(st), asked, i, "");
    }
  }

  /** The shard that gives the victim is the victim's own; the others keep their keys. */
  lemma EvictShard(st: State, hash: string -> nat, i: nat, j: string)
    requires Inv(st, hash) && i < |st.shards|
    ensures var (r, k) := Evict(st);
            && |r.shards| == |st.shards|
            && A.Inv(r.shards[i]) && A.Cap(r.shards[i]) == A.Cap(st.shards[i]) && (r.shards[i].Dial? <==> st.shards[i].Dial?)
            && (A.Tracks(r.shards[i], j) <==> A.Tracks(st.shards[i], j) && k != Some(j))
            && (k.Some? ==> Tracks(st, hash, k.value))
  {
    hide A.Inv;
    hide A.Tracks;
    hide A.Evict;
    hide A.Cap;
    hide And;
    hide Shape;
    hide From;
    hide FirstYield;
    hide Evict;
    hide Asked;
    if |st.shards| >= WRAP {
      TooMany(st);
      return;
    }
    EvictIs(st);
    var s, n, from := st.shards, |st.shards|, From(st);
    FirstYieldIs(s, from, 0);
    var d := FirstYield(s, from, 0);
    AskedTracks(s, from, if d == n then n else d + 1, i, j);
    C.DistAt(n, from, if d == n then 0 else d);
    assert C.At(n, from, C.Dist(n, from, i)) == i;
    if d < n {
      var at := C.At(n, from, d);
      A.EvictTracks(s[at], j);
      var k := A.Evict(s[at]).1.value;
      assert A.Tracks(s[at], k);
      assert Home(st, hash, k) == at;
      assert C.Dist(n, from, i) < d ==> !Yields(s[i]);
      assert i != at && A.Tracks(s[i], j) ==> j != k;
      assert i != at ==> C.Dist(n, from, i) != d;
    } else {
      assert !Yields(s[i]);
    }
  }

  /** Evict untracks exactly its victim; without clocks it finds one whenever a key is tracked. */
  lemma EvictTracks(st: State, hash: string -> nat)
    requires Inv(st, hash)
    ensures var (r, k) := Evict(st);
            && Inv(r, hash)
            && (forall j :: Tracks(r, hash, j) <==> Tracks(st, hash, j) && k != Some(j))
            && (k.Some? ==> Tracks(st, hash, k.value))
            && (Orderly(st) ==> Orderly(r))
            && (Orderly(st) && k == None ==> forall j :: !Tracks(st, hash, j))
  {
    hide A.Inv;
    hide A.Tracks;
    hide A.Evict;
    hide A.Cap;
    hide And;
    hide Shape;
    hide Evict;
    var (r, k) := Evict(st);
    EvictInv(st);
    forall i: nat | i < |st.shards|
      ensures A.Inv(r.shards[i]) && A.Cap(r.shards[i]) == A.Cap(st.shards[i]) && (r.shards[i].Dial? <==> st.shards[i].Dial?)
    {
      EvictShard(st, hash, i, "");
    }
    forall i: nat, j | i < |r.shards| && A.Tracks(r.shards[i], j) ensures Route(hash(j), |r.shards|) == i {
      EvictShard(st, hash, i, j);
    }
    forall j ensures Tracks(r, hash, j) <==> Tracks(st, hash, j) && k != Some(j) {
      EvictShard(st, hash, Home(st, hash, j), j);
    }
    EvictShard(st, hash, Home(st, hash, ""), "");
    if Orderly(st) && k == None {
      EvictFailsIff(st);
      forall j ensures !Tracks(st, hash, j) {
        A.EvictTracks(st.shards[Home(st, hash, j)], j);
        assert !Yields(st.shards[Home(st, hash, j)]);
      }
    }
  }

  // ---------- one shard ----------

  lemma OneShape()
    ensures Shape(1)
  {
    assert Pow2(0) == 1;
  }

  /** A single shard forwards every operation to its algorithm. */
  lemma OneShard(a: A.Algorithm, cursor: nat, hash: string -> nat, k: string, v: Value)
    requires A.Inv(a)
    ensures Shape(1) && Inv(State([a], cursor), hash)
    ensures Tracks(State([a], cursor), hash, k) <==> A.Tracks(a, k)
    ensures Set(State([a], cursor), hash, k, v) == State([A.Set(a, k, v)], cursor)
    ensures Delete(State([a], cursor), hash, k) == State([A.Delete(a, k)], cursor)
    ensures Evict(State([a], cursor)) == (State([A.Evict(a).0], Next(cursor)), A.Evict(a).1)
  {
    hide And;
    hide A.Inv;
    hide A.Tracks;
    hide A.Evict;
    OneShape();
    var st := State([a], cursor);
    forall j ensures Route(hash(j), 1) == 0 {
      RouteIsMod(hash(j), 1);
    }
    EvictIs(st);
    FirstYieldIs([a], 0, 0);
    assert From(st) == 0;
    AskedPut([a], 0, 0);
    AskedNone([a], 0);
    assert Asked([a], 0, 1) == [A.Evict(a).0];
    assert Evict(st).1 == A.Evict(a).1 by {
      assert C.At(1, 0, 0) == 0;
      assert FirstYield([a], 0, 0) == 1 ==> !Yields(a);
    }
  }

  // ---------- fairness ----------

  function EvictMany(st: State, t: nat): (r: (State, seq<Option<string>>))
    requires Shape(|st.shards|) && AllInv(st.shards)
    ensures |r.0.shards| == |st.shards| && AllInv(r.0.shards)
  {
    if t == 0 then (st, [])
    else
      var (s, ks) := EvictMany(st, t - 1);
      EvictInv(s);
      var (r, k) := Evict(s);
      (r, ks + [k])
  }

  lemma TurnAt(n: nat, c: nat, t: nat)
    requires n > 0 && t < n
    ensures (c + t) % n == C.At(n, c % n, t)
  {
    Divide(c, n);
    TurnAtParts(n, c, t, c / n, c % n);
  }

  lemma TurnAtParts(n: nat, c: nat, t: nat, q: nat, r: nat)
    requires t < n && r < n && c == n * q + r
    ensures (c + t) % n == C.At(n, r, t)
  {
    if r + t < n {
      ModUnique(c + t, n, q, r + t);
    } else {
      assert n * (q + 1) == n * q + n;
      ModUnique(c + t, n, q + 1, r + t - n);
    }
  }

  lemma AskedStep(s: seq<A.Algorithm>, from: nat, t: nat)
    requires from < |s| && t < |s| && AllInv(s) && AllInv(Asked(s, from, t))
    ensures var j := C.At(|s|, from, t);
            Asked(s, from, t)[j] == s[j] && Asked(Asked(s, from, t), j, 1) == Asked(s, from, t + 1)
  {
    C.DistAt(|s|, from, t);
    var j := C.At(|s|, from, t);
    forall i | 0 <= i < |s|
      ensures Asked(Asked(s, from, t), j, 1)[i] == Asked(s, from, t + 1)[i]
    {
      assert C.Dist(|s|, j, i) == 0 <==> i == j;
      assert C.Dist(|s|, from, i) == t <==> i == j;
    }
  }

  /** The shard the loop visits at step `t`, cursor wrap included. */
  lemma RouteAt(start: nat, t: nat, n: nat)
    requires Shape(n) && n > 0 && t < n
    ensures Route(start, n) < n && Route(start + t, n) == C.At(n, Route(start, n), t)
  {
    hide Route;
    RouteIsMod(start, n);
    RouteIsMod(start + t, n);
    TurnAt(n, start, t);
  }

  /** Asking one more shard changes that shard only. */
  lemma AskedPut(s: seq<A.Algorithm>, from: nat, t: nat)
    requires from < |s| && t < |s| && AllInv(s)
    ensures var j := C.At(|s|, from, t);
            Asked(s, from, t)[j] == s[j] && Asked(s, from, t + 1) == Asked(s, from, t)[j := A.Evict(s[j]).0]
  {
    C.DistAt(|s|, from, t);
    var j := C.At(|s|, from, t);
    forall i | 0 <= i < |s| && i != j ensures C.Dist(|s|, from, i) != t {
    }
  }

  lemma FirstYieldUnique(s: seq<A.Algorithm>, from: nat, r: nat)
    requires from < |s| && r <= |s| && AllInv(s)
    requires r < |s| ==> Yields(s[C.At(|s|, from, r)])
    requires forall i :: 0 <= i < r ==> !Yields(s[C.At(|s|, from, i)])
    ensures FirstYield(s, from, 0) == r
  {
    FirstYieldIs(s, from, 0);
  }

  lemma AskedNone(s: seq<A.Algorithm>, from: nat)
    requires from < |s| && AllInv(s)
    ensures Asked(s, from, 0) == s
  {
  }

  lemma OneTurn(s: State, j: nat)
    requires Shape(|s.shards|) && AllInv(s.shards) && j == From(s) && Yields(s.shards[j]) && |s.shards| < WRAP
    ensures Evict(s) == (State(Asked(s.shards, j, 1), Next(s.cursor)), A.Evict(s.shards[j]).1)
  {
    hide From;
    assert C.At(|s.shards|, j, 0) == j;
    assert FirstYield(s.shards, j, 0) == 0;
  }

  lemma FromAt(st: State, c: nat, t: nat)
    requires Shape(|st.shards|) && t < |st.shards| && st.cursor % |st.shards| == (c + t) % |st.shards|
    ensures From(st) == C.At(|st.shards|, c % |st.shards|, t)
  {
    RouteIsMod(st.cursor, |st.shards|);
    TurnAt(|st.shards|, c, t);
  }

  /** The state and victims after `t` calls of a round. */
  ghost predicate Round(st: State, t: nat)
    requires Shape(|st.shards|) && AllInv(st.shards)
  {
    var n := |st.shards|;
    var (r, ks) := EvictMany(st, t);
    && n > 0 && |ks| == t && r.shards == Asked(st.shards, st.cursor % n, t) && r.cursor % n == (st.cursor + t) % n
    && forall i :: 0 <= i < t ==> ks[i] == A.Evict(st.shards[(st.cursor + i) % n]).1
  }

  /**
   Round robin: while every shard has a victim, call `i` takes shard `(cursor + i) mod n`'s, across the
   wrap of the cursor.
   */
  lemma {:induction false} RoundRobin(st: State, t: nat)
    requires Shape(|st.shards|) && AllInv(st.shards) && t <= |st.shards| < WRAP
    requires forall j :: 0 <= j < |st.shards| ==> Yields(st.shards[j])
    ensures Round(st, t)
    decreases t
  {
    hide A.Inv;
    hide A.Tracks;
    hide A.Evict;
    hide A.Cap;
    hide And;
    hide Shape;
    hide From;
    hide Evict;
    hide Asked;
    hide FirstYield;
    RouteIsMod(0, |st.shards|);
    var n := |st.shards|;
    if t == 0 {
      AskedNone(st.shards, st.cursor % n);
    } else {
      RoundRobin(st, t - 1);
      var s := EvictMany(st, t - 1).0;
      var j := C.At(n, st.cursor % n, t - 1);
      FromAt(s, st.cursor, t - 1);
      TurnAt(n, st.cursor, t - 1);
      AskedStep(st.shards, st.cursor % n, t - 1);
      OneTurn(s, j);
      CursorTurns(s.cursor, st.cursor + (t - 1), n);
    }
  }

  /** A full round takes exactly one victim from every shard. */
  lemma FullRound(st: State)
    requires Shape(|st.shards|) && AllInv(st.shards) && |st.shards| < WRAP
    requires forall j :: 0 <= j < |st.shards| ==> Yields(st.shards[j])
    ensures forall j :: 0 <= j < |st.shards| ==> EvictMany(st, |st.shards|).0.shards[j] == A.Evict(st.shards[j]).0
  {
    RoundRobin(st, |st.shards|);
  }

  lemma CursorTurns(c: nat, d: nat, n: nat)
    requires Shape(n) && n > 0 && c % n == d % n
    ensures Next(c) % n == (d + 1) % n
  {
    WrapMod(c + 1, n);
    SuccMod(c, n);
    SuccMod(d, n);
  }

  lemma SuccMod(c: nat, n: nat)
    requires n > 0
    ensures (c + 1) % n == if c % n + 1 == n then 0 else c % n + 1
  {
    if n == 1 {
      assert (c + 1) % 1 == 0;
    } else {
      TurnAt(n, c, 1);
    }
  }
}

/** The wrapper object. */
module ShardedCache {
  import opened Items
  import opened Traces
  import opened Bits
  import A = Algorithm
  import C = ClockPolicy
  import P = Sharding

  class Sharded {
    const hash: string -> nat
    var shards: seq<A.Algorithm>
    var evictCursor: nat

    ghost predicate Valid()
      reads this
    {
      P.Inv(View(), hash)
    }

    ghost function View(): P.State
      reads this
    {
      P.State(shards, evictCursor)
    }

    constructor (name: string, total: nat, count: nat, hash: string -> nat)
      requires P.Shape(count) && count > 0 && A.Registered(name).Some?
      ensures Valid() && this.hash == hash && Some(View()) == P.New(name, total, count)
      ensures forall k :: !P.Tracks(View(), hash, k)
      ensures name != "clock" && total > 0 && count < P.WRAP ==> P.Orderly(View())
    {
      this.hash := hash;
      var a := A.Registered(name).value;
      shards := seq(count, _ => A.New(a, P.PerShard(total, count)));
      evictCursor := 0;
      P.NewShape(name, total, count);
      P.ShapeIsPow2(count);
      P.CapacitySplit(total, count);
    }

    method Set(key: string, value: Value)
      requires Valid()
      modifies this
      ensures Valid() && View() == P.Set(old(View()), hash, key, value)
    {
      P.SetTracks(View(), hash, key, value);
      P.RouteIsMod(hash(key), |shards|);
      var j := P.Route(hash(key), |shards|);
      shards := shards[j := A.Set(shards[j], key, value)];
    }

    method Delete(key: string)
      requires Valid()
      modifies this
      ensures Valid() && View() == P.Delete(old(View()), hash, key)
    {
      P.DeleteTracks(View(), hash, key);
      P.RouteIsMod(hash(key), |shards|);
      var j := P.Route(hash(key), |shards|);
      shards := shards[j := A.Delete(shards[j], key)];
    }

    method Evict() returns (key: Option<string>)
      requires Valid()
      modifies this
      ensures Valid() && (View(), key) == P.Evict(old(View()))
    {
      hide A.Inv;
      hide A.Evict;
      hide A.Tracks;
      hide P.Shape;
      hide P.Evict;
      hide P.Asked;
      hide P.FirstYield;
      hide P.Route;
      hide P.Next;
      hide C.At;
      P.EvictTracks(View(), hash);
      if |shards| >= P.WRAP {
        P.TooMany(View());
        return None;
      }
      P.EvictIs(View());
      P.RouteIsMod(evictCursor, |shards|);
      ghost var s, from := shards, P.From(View());
      assert from == P.Route(evictCursor, |shards|);
      var start := evictCursor;
      evictCursor := P.Next(evictCursor);
      var n := |shards|;
      P.AskedNone(s, from);
      for i := 0 to n
        invariant shards == P.Asked(s, from, i) && evictCursor == P.Next(start)
        invariant forall t :: 0 <= t < i ==> !P.Yields(s[C.At(n, from, t)])
      {
        P.RouteAt(start, i, n);
        P.AskedPut(s, from, i);
        var j := P.Route(start + i, n);
        var (a, k) := A.Evict(shards[j]);
        shards := shards[j := a];
        if k.Some? {
          P.FirstYieldUnique(s, from, i);
          return k;
        }
      }
      P.FirstYieldUnique(s, from, n);
      key := None;
    }
  }

  /** A wrapper, or an error for a shard count that is no power of two up to 2^32, a negative capacity or an unknown name. */
  method NewSharded(name: string, total: int, count: int, hash: string -> nat) returns (r: Option<Sharded>)
    ensures r.None? <==>
            count <= 0 || !IsPow2(count) || total < 0 || count > P.WRAP || name !in ["lru", "lfu", "clock", "cawolfu"]
    ensures r.Some? ==>
              && fresh(r.value) && r.value.Valid() && r.value.hash == hash && Some(r.value.View()) == P.New(name, total, count)
              && (forall k :: !P.Tracks(r.value.View(), hash, k))
              && (name != "clock" && total > 0 && count < P.WRAP ==> P.Orderly(r.value.View()))
  {
    P.NewShape(name, total, count);
    if count <= 0 || And(count, count - 1) != 0 || total < 0 || A.Registered(name).None? || count - 1 >= P.WRAP {
      return None;
    }
    var s := new Sharded(name, total, count, hash);
    r := Some(s);
  }
}
