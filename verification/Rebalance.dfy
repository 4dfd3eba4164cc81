/**
 Rebalancing (pkg/backend/dist_memory.go): one tick of a node forwards the keys whose primary moved
 away, releases the keys it no longer owns, and sends keys it still leads to replicas added since the
 recorded owner list.

 The ring is fixed and agreed, removal grace is zero and there is no per-tick limit. Hints are
 uncapped; they may be switched off. Iteration orders (map order, concurrent batches) are arbitrary.
 */
module Rebalance {
  import opened Items
  import opened Seqs

  type NodeID = string

  datatype NodeState = NodeState(items: map<Key, Item>, primaries: map<Key, NodeID>, baselines: map<Key, seq<NodeID>>)

  datatype Hint = Hint(target: NodeID, item: Item)

  /** `sent` counts forward attempts. */
  datatype State = State(nodes: map<NodeID, NodeState>, hints: seq<Hint>, sent: nat)

  /** The ticking node, the nodes the transport reaches, the ring, and whether hints are kept. */
  datatype Env = Env(self: NodeID, up: set<NodeID>, owners: Key -> seq<NodeID>, hintsOn: bool) {
    predicate Owns(n: NodeID, k: Key) {
      owners(k) == [] || n in owners(k)
    }
  }

  ghost predicate Valid(s: State, env: Env) {
    && env.self in s.nodes && env.up <= s.nodes.Keys
    && (forall k :: k in s.nodes[env.self].items ==> s.nodes[env.self].items[k].key == k)
    && (forall k :: Distinct(env.owners(k)))
  }

  // ---------- storing an item at a node ----------

  /** First sight of a key records its primary and, if missing, its owner list. */
  function Record(n: NodeState, env: Env, k: Key): NodeState {
    if k in n.primaries || env.owners(k) == [] then n
    else n.(primaries := n.primaries[k := env.owners(k)[0]],
            baselines := if k in n.baselines then n.baselines else n.baselines[k := env.owners(k)])
  }

  function Stored(n: NodeState, env: Env, it: Item): NodeState {
    var r := Record(n, env, it.key);
    r.(items := r.items[it.key := it])
  }

  /** applySet without fan-out. */
  function Plant(s: State, env: Env, n: NodeID, it: Item): State {
    if n in s.nodes then s.(nodes := s.nodes[n := Stored(s.nodes[n], env, it)]) else s
  }

  /** A forwarded arrival without fan-out: unreachable nodes and non-owners store nothing. */
  function Arrive(s: State, env: Env, n: NodeID, it: Item): State {
    if n in env.up && env.Owns(n, it.key) then Plant(s, env, n, it) else s
  }

  function FanOut(s: State, env: Env, from: NodeID, it: Item, targets: seq<NodeID>): State {
    if targets == [] then s
    else
      var s' := FanOut(s, env, from, it, targets[..|targets| - 1]);
      var o := targets[|targets| - 1];
      if o == from then s' else Arrive(s', env, o, it)
  }

  /** A forwarded write that its receiver, the primary, replicates. */
  function ForwardReplicated(s: State, env: Env, primary: NodeID, it: Item): State {
    if env.Owns(primary, it.key) && env.owners(it.key) != []
    then FanOut(Plant(s, env, primary, it), env, primary, it, env.owners(it.key)[1..])
    else s
  }

  // ---------- migration ----------

  predicate ShouldRebalance(n: NodeState, env: Env, k: Key) {
    || !env.Owns(env.self, k)
    || (env.owners(k) != [] && k in n.primaries && n.primaries[k] == env.self && env.owners(k)[0] != env.self)
  }

  function SetPrimary(s: State, env: Env, k: Key): State
    requires env.self in s.nodes && env.owners(k) != []
  {
    var n := s.nodes[env.self];
    s.(nodes := s.nodes[env.self := n.(primaries := n.primaries[k := env.owners(k)[0]])])
  }

  function Release(s: State, env: Env, k: Key): State
    requires env.self in s.nodes
  {
    var n := s.nodes[env.self];
    if env.Owns(env.self, k) then s else s.(nodes := s.nodes[env.self := n.(items := n.items - {k})])
  }

  /** Hand the item over: forward to the new primary, or queue a hint for it. */
  function HandOver(s: State, env: Env, it: Item): State
    requires env.owners(it.key) != []
  {
    var p := env.owners(it.key)[0];
    var s1 := s.(sent := s.sent + 1);
    if p in env.up then ForwardReplicated(s1, env, p, it)
    else if env.hintsOn then s1.(hints := s1.hints + [Hint(p, it)])
    else s1
  }

  function Migrate(s: State, env: Env, it: Item): State {
    var o := env.owners(it.key);
    if o == [] || o[0] == env.self then s
    else
      var s1 := HandOver(s, env, it);
      if env.self !in s1.nodes then s1 else Release(SetPrimary(s1, env, it.key), env, it.key)
  }

  function MigrateAll(s: State, env: Env, its: seq<Item>): State {
    if its == [] then s else Migrate(MigrateAll(s, env, its[..|its| - 1]), env, its[|its| - 1])
  }

  // ---------- replica diff ----------

  function NewReplicas(owners: seq<NodeID>, base: seq<NodeID>): seq<NodeID> {
    if owners == [] then []
    else
      var rest := NewReplicas(owners[..|owners| - 1], base);
      if owners[|owners| - 1] in base then rest else rest + [owners[|owners| - 1]]
  }

  function SetBaseline(s: State, env: Env, k: Key): State
    requires env.self in s.nodes
  {
    var n := s.nodes[env.self];
    s.(nodes := s.nodes[env.self := n.(baselines := n.baselines[k := env.owners(k)])])
  }

  function SendDiff(s: State, env: Env, it: Item, repls: seq<NodeID>): State {
    if repls == [] then s
    else
      var s' := SendDiff(s, env, it, repls[..|repls| - 1]);
      var o := repls[|repls| - 1];
      if o == env.self then s' else Arrive(s'.(sent := s'.sent + 1), env, o, it)
  }

  function Diff(s: State, env: Env, it: Item): State {
    var o := env.owners(it.key);
    if o == [] || o[0] != env.self || env.self !in s.nodes then s
    else if it.key !in s.nodes[env.self].baselines then SetBaseline(s, env, it.key)
    else
      var news := NewReplicas(o[1..], s.nodes[env.self].baselines[it.key]);
      if news == [] then s
      else
        var s1 := SendDiff(s, env, it, news);
        if env.self in s1.nodes then SetBaseline(s1, env, it.key) else s1
  }

  function DiffAll(s: State, env: Env, its: seq<Item>): State {
    if its == [] then s else Diff(DiffAll(s, env, its[..|its| - 1]), env, its[|its| - 1])
  }

  // ---------- one key at one node ----------

  datatype Slice = Slice(item: Option<Item>, primary: Option<NodeID>, baseline: Option<seq<NodeID>>)

  ghost function At(s: State, n: NodeID, k: Key): Slice {
    if n !in s.nodes then Slice(None, None, None)
    else
      var x := s.nodes[n];
      Slice(if k in x.items then Some(x.items[k]) else None,
            if k in x.primaries then Some(x.primaries[k]) else None,
            if k in x.baselines then Some(x.baselines[k]) else None)
  }

  ghost function StoredSlice(env: Env, sl: Slice, it: Item): Slice {
    var o := env.owners(it.key);
    if sl.primary.Some? || o == [] then sl.(item := Some(it))
    else Slice(Some(it), Some(o[0]), if sl.baseline.Some? then sl.baseline else Some(o))
  }

  lemma PlantAt(s: State, env: Env, m: NodeID, it: Item, n: NodeID, k: Key)
    requires m in s.nodes
    ensures At(Plant(s, env, m, it), n, k) == if n == m && k == it.key then StoredSlice(env, At(s, n, k), it) else At(s, n, k)
    ensures Plant(s, env, m, it).nodes.Keys == s.nodes.Keys
  {
  }

  /** A fan-out stores the item at every reachable owner among the targets, and nothing else changes. */
  lemma {:induction false} FanOutAt(s: State, env: Env, from: NodeID, it: Item, targets: seq<NodeID>, n: NodeID, k: Key)
    requires Distinct(targets) && env.up <= s.nodes.Keys
    ensures var s' := FanOut(s, env, from, it, targets);
            && s'.nodes.Keys == s.nodes.Keys && s'.hints == s.hints && s'.sent == s.sent
            && At(s', n, k) ==
               if k == it.key && n in targets && n != from && n in env.up && env.Owns(n, k)
               then StoredSlice(env, At(s, n, k), it) else At(s, n, k)
  {
    if targets != [] {
      var init, last := targets[..|targets| - 1], targets[|targets| - 1];
      assert targets == init + [last];
      FanOutAt(s, env, from, it, init, n, k);
      assert last !in init;
      if last != from && last in env.up && env.Owns(last, it.key) {
        PlantAt(FanOut(s, env, from, it, init), env, last, it, n, k);
      }
    }
  }

  lemma {:induction false} SendDiffAt(s: State, env: Env, it: Item, repls: seq<NodeID>, n: NodeID, k: Key)
    requires env.up <= s.nodes.Keys
    ensures var s' := SendDiff(s, env, it, repls);
            && s'.nodes.Keys == s.nodes.Keys && s'.hints == s.hints
            && (k != it.key || n == env.self ==> At(s', n, k) == At(s, n, k))
            && (At(s, n, k).item.Some? ==> At(s', n, k).item.Some?)
            && (k == it.key && At(s, n, k).item == Some(it) ==> At(s', n, k).item == Some(it))
  {
    if repls != [] {
      var init, last := repls[..|repls| - 1], repls[|repls| - 1];
      SendDiffAt(s, env, it, init, n, k);
      var s1 := SendDiff(s, env, it, init);
      if last != env.self && last in env.up && env.Owns(last, it.key) {
        PlantAt(s1.(sent := s1.sent + 1), env, last, it, n, k);
      }
    }
  }

  // ---------- what one migration does ----------

  lemma HandOverAt(s: State, env: Env, it: Item, n: NodeID, k: Key)
    requires Valid(s, env) && env.owners(it.key) != [] && env.owners(it.key)[0] != env.self
    ensures var s', p := HandOver(s, env, it), env.owners(it.key)[0];
            && s'.nodes.Keys == s.nodes.Keys
            && s.hints <= s'.hints
            && (k != it.key ==> At(s', n, k) == At(s, n, k))
            && (k == it.key && n == env.self ==>
                  At(s', n, k) == At(s, n, k) || (env.Owns(n, k) && At(s', n, k) == StoredSlice(env, At(s, n, k), it)))
            && (p in env.up ==> At(s', p, it.key).item == Some(it) && s'.hints == s.hints)
            && (p !in env.up ==> At(s', n, k) == At(s, n, k) && s'.hints == s.hints + (if env.hintsOn then [Hint(p, it)] else []))
  {
    var o := env.owners(it.key);
    var p := o[0];
    if p in env.up {
      var s1 := s.(sent := s.sent + 1);
      assert Distinct(o) && Distinct(o[1..]) && p in o && p !in o[1..];
      var s2 := Plant(s1, env, p, it);
      PlantAt(s1, env, p, it, n, k);
      PlantAt(s1, env, p, it, p, it.key);
      FanOutAt(s2, env, p, it, o[1..], n, k);
      FanOutAt(s2, env, p, it, o[1..], p, it.key);
    }
  }

  /** The effect of migrating one item from the ticking node. */
  lemma MigrateAt(s: State, env: Env, it: Item, n: NodeID, k: Key)
    requires Valid(s, env)
    ensures var s' := Migrate(s, env, it);
            && s'.nodes.Keys == s.nodes.Keys
            && s.hints <= s'.hints
            && (k != it.key ==> At(s', n, k) == At(s, n, k))
            && (env.owners(it.key) != [] && env.owners(it.key)[0] != env.self ==>
                  var p := env.owners(it.key)[0];
                  && At(s', env.self, it.key).primary == Some(p)
                  && (!env.Owns(env.self, it.key) ==> At(s', env.self, it.key).item == None)
                  && (env.Owns(env.self, it.key) ==>
                        At(s', env.self, it.key).item == At(s, env.self, it.key).item || At(s', env.self, it.key).item == Some(it))
                  && (p in env.up ==> At(s', p, it.key).item == Some(it))
                  && (p !in env.up && env.hintsOn ==> Hint(p, it) in s'.hints))
            && (!(env.owners(it.key) != [] && env.owners(it.key)[0] != env.self) ==> s' == s)
  {
    var o := env.owners(it.key);
    if o != [] && o[0] != env.self {
      HandOverAt(s, env, it, n, k);
      HandOverAt(s, env, it, env.self, it.key);
      HandOverAt(s, env, it, o[0], it.key);
      var s1 := HandOver(s, env, it);
      var s2 := SetPrimary(s1, env, it.key);
      assert At(s2, n, k) == if n == env.self && k == it.key then At(s1, n, k).(primary := Some(o[0])) else At(s1, n, k);
      assert At(s2, env.self, it.key) == At(s1, env.self, it.key).(primary := Some(o[0]));
      assert At(s2, o[0], it.key) == At(s1, o[0], it.key);
    }
  }

  lemma MigrateValid(s: State, env: Env, it: Item)
    requires Valid(s, env)
    ensures Valid(Migrate(s, env, it), env)
  {
    var s' := Migrate(s, env, it);
    MigrateAt(s, env, it, env.self, it.key);
    forall k | k in s'.nodes[env.self].items ensures s'.nodes[env.self].items[k].key == k {
      MigrateAt(s, env, it, env.self, k);
      assert At(s', env.self, k).item == Some(s'.nodes[env.self].items[k]);
    }
  }

  // ---------- what all migrations of a tick do ----------

  ghost predicate DistinctKeys(its: seq<Item>) {
    forall i, j :: 0 <= i < j < |its| ==> its[i].key != its[j].key
  }

  /** Every listed item is the one the ticking node holds. */
  ghost predicate Snapshot(s: State, env: Env, its: seq<Item>) {
    DistinctKeys(its) && forall it :: it in its ==> At(s, env.self, it.key).item == Some(it)
  }

  /** The item has been handed over: its new primary holds it, or a hint for that primary does. */
  ghost predicate HandedOver(s: State, env: Env, it: Item) {
    var o := env.owners(it.key);
    o != [] && if o[0] in env.up then At(s, o[0], it.key).item == Some(it)
               else env.hintsOn ==> Hint(o[0], it) in s.hints
  }

  /** What migration leaves for an item whose primary is another node. */
  ghost predicate Moved(s: State, env: Env, it: Item) {
    && HandedOver(s, env, it)
    && At(s, env.self, it.key).primary == Some(env.owners(it.key)[0])
    && At(s, env.self, it.key).item == if env.Owns(env.self, it.key) then Some(it) else None
  }

  ghost predicate LedElsewhere(env: Env, k: Key) {
    env.owners(k) != [] && env.owners(k)[0] != env.self
  }

  lemma {:induction false} MigrateAllAt(s: State, env: Env, its: seq<Item>)
    requires Valid(s, env) && Snapshot(s, env, its)
    ensures var s' := MigrateAll(s, env, its);
            && Valid(s', env) && s'.nodes.Keys == s.nodes.Keys && s.hints <= s'.hints
            && (forall n, k :: (forall it :: it in its ==> it.key != k) ==> At(s', n, k) == At(s, n, k))
            && (forall it :: it in its && LedElsewhere(env, it.key) ==> Moved(s', env, it))
  {
    if its != [] {
      var init, last := its[..|its| - 1], its[|its| - 1];
      assert its == init + [last];
      MigrateAllAt(s, env, init);
      var s1, s' := MigrateAll(s, env, init), MigrateAll(s, env, its);
      MigrateValid(s1, env, last);
      MigrateAt(s1, env, last, env.self, last.key);
      assert last in its;
      assert At(s1, env.self, last.key) == At(s, env.self, last.key);
      forall n, k | forall it :: it in its ==> it.key != k ensures At(s', n, k) == At(s, n, k) {
        MigrateAt(s1, env, last, n, k);
        assert last.key != k;
      }
      forall it | it in its && LedElsewhere(env, it.key) ensures Moved(s', env, it) {
        if it != last {
          assert it in init;
          KeysDiffer(init, last, it);
          MigrateAt(s1, env, last, env.self, it.key);
          MigrateAt(s1, env, last, env.owners(it.key)[0], it.key);
        }
      }
    }
  }

  lemma KeysDiffer(init: seq<Item>, last: Item, it: Item)
    requires DistinctKeys(init + [last]) && it in init
    ensures it.key != last.key
  {
    var i :| 0 <= i < |init| && init[i] == it;
    assert (init + [last])[i] == it && (init + [last])[|init|] == last;
  }

  // ---------- what the replica diff does ----------

  /** The recorded owner list of `k` covers every current replica. */
  ghost predicate Covered(s: State, env: Env, k: Key) {
    var b := At(s, env.self, k).baseline;
    b.Some? && forall x :: env.owners(k) != [] && x in env.owners(k)[1..] ==> x in b.value
  }

  lemma {:induction false} NewReplicasEmpty(owners: seq<NodeID>, base: seq<NodeID>)
    ensures NewReplicas(owners, base) == [] <==> forall x :: x in owners ==> x in base
  {
    if owners != [] {
      NewReplicasEmpty(owners[..|owners| - 1], base);
      assert owners == owners[..|owners| - 1] + [owners[|owners| - 1]];
    }
  }

  lemma DiffAt(s: State, env: Env, it: Item, n: NodeID, k: Key)
    requires Valid(s, env)
    ensures var s' := Diff(s, env, it);
            && s'.nodes.Keys == s.nodes.Keys && s'.hints == s.hints
            && (k != it.key || !(env.owners(k) != [] && env.owners(k)[0] == env.self) ==> At(s', n, k) == At(s, n, k))
            && At(s', env.self, k).item == At(s, env.self, k).item && At(s', env.self, k).primary == At(s, env.self, k).primary
            && (k == it.key && env.owners(k) != [] && env.owners(k)[0] == env.self ==> Covered(s', env, k))
            && (Covered(s, env, it.key) ==> s' == s)
  {
    var o := env.owners(it.key);
    if o != [] && o[0] == env.self {
      var me := s.nodes[env.self];
      if it.key in me.baselines {
        var news := NewReplicas(o[1..], me.baselines[it.key]);
        NewReplicasEmpty(o[1..], me.baselines[it.key]);
        if news != [] {
          SendDiffAt(s, env, it, news, n, k);
          SendDiffAt(s, env, it, news, env.self, k);
        }
      }
    }
  }

  lemma DiffValid(s: State, env: Env, it: Item)
    requires Valid(s, env)
    ensures Valid(Diff(s, env, it), env)
  {
    var s' := Diff(s, env, it);
    DiffAt(s, env, it, env.self, it.key);
    forall k | k in s'.nodes[env.self].items ensures s'.nodes[env.self].items[k].key == k {
      DiffAt(s, env, it, env.self, k);
      assert At(s', env.self, k).item == Some(s'.nodes[env.self].items[k]);
      assert At(s, env.self, k).item == Some(s'.nodes[env.self].items[k]);
    }
  }

  lemma {:induction false} DiffAllAt(s: State, env: Env, its: seq<Item>)
    requires Valid(s, env) && DistinctKeys(its)
    ensures var s' := DiffAll(s, env, its);
            && Valid(s', env) && s'.nodes.Keys == s.nodes.Keys && s'.hints == s.hints
            && (forall n, k :: LedElsewhere(env, k) ==> At(s', n, k) == At(s, n, k))
            && (forall k :: At(s', env.self, k).item == At(s, env.self, k).item && At(s', env.self, k).primary == At(s, env.self, k).primary)
            && (forall it :: it in its && env.owners(it.key) != [] && env.owners(it.key)[0] == env.self ==> Covered(s', env, it.key))
            && ((forall it :: it in its && env.owners(it.key) != [] && env.owners(it.key)[0] == env.self ==> Covered(s, env, it.key)) ==> s' == s)
  {
    if its != [] {
      var init, last := its[..|its| - 1], its[|its| - 1];
      assert its == init + [last];
      DiffAllAt(s, env, init);
      var s1, s' := DiffAll(s, env, init), DiffAll(s, env, its);
      DiffValid(s1, env, last);
      DiffAt(s1, env, last, env.self, last.key);
      forall n, k | LedElsewhere(env, k) ensures At(s', n, k) == At(s, n, k) {
        DiffAt(s1, env, last, n, k);
      }
      forall k ensures At(s', env.self, k).item == At(s, env.self, k).item && At(s', env.self, k).primary == At(s, env.self, k).primary {
        DiffAt(s1, env, last, env.self, k);
      }
      forall it | it in its && env.owners(it.key) != [] && env.owners(it.key)[0] == env.self ensures Covered(s', env, it.key) {
        if it != last {
          assert it in init;
          KeysDiffer(init, last, it);
          DiffAt(s1, env, last, env.self, it.key);
        }
      }
      if forall it :: it in its && env.owners(it.key) != [] && env.owners(it.key)[0] == env.self ==> Covered(s, env, it.key) {
        assert s1 == s;
        assert last in its;
      }
    }
  }

  // ---------- the tick ----------

  /**
   The key is held here, another node is its primary now, and this node lost it or is on record as the primary
   it had.
   */
  ghost predicate Displaced(s: State, env: Env, k: Key) {
    var me, o := At(s, env.self, k), env.owners(k);
    me.item.Some? && o != [] && o[0] != env.self && (env.self !in o || me.primary == Some(env.self))
  }

  lemma RebalanceIff(s: State, env: Env, k: Key)
    requires env.self in s.nodes
    ensures Displaced(s, env, k) <==> k in s.nodes[env.self].items && ShouldRebalance(s.nodes[env.self], env, k)
  {
    Head(env.owners(k));
  }

  /** `its` lists, in some order, the local items to migrate. */
  ghost predicate Candidates(s: State, env: Env, its: seq<Item>) {
    && Snapshot(s, env, its)
    && forall k :: (exists it :: it in its && it.key == k) <==>
                   Displaced(s, env, k)
  }

  /** `its` lists, in some order, all local items. */
  ghost predicate AllItems(s: State, env: Env, its: seq<Item>) {
    && Snapshot(s, env, its)
    && forall k :: (exists it :: it in its && it.key == k) <==> env.self in s.nodes && k in s.nodes[env.self].items
  }

  /** `s'` is the state after one tick from `s`, for some iteration orders. */
  ghost predicate Tick(s: State, env: Env, its: seq<Item>, its': seq<Item>, s': State) {
    && Candidates(s, env, its)
    && AllItems(MigrateAll(s, env, its), env, its')
    && s' == DiffAll(MigrateAll(s, env, its), env, its')
  }

  /** Nothing left to do: every local key is owned, no primary shift is pending, every baseline is current. */
  ghost predicate Settled(s: State, env: Env) {
    env.self in s.nodes &&
    forall k :: k in s.nodes[env.self].items ==>
      && env.Owns(env.self, k) && !Displaced(s, env, k)
      && (env.owners(k) != [] && env.owners(k)[0] == env.self ==> Covered(s, env, k))
  }

  lemma MigratedNotPending(s: State, env: Env, its: seq<Item>, k: Key)
    requires Valid(s, env) && Candidates(s, env, its)
    ensures var s1 := MigrateAll(s, env, its);
            && env.self in s1.nodes
            && (k in s1.nodes[env.self].items ==>
                  && env.Owns(env.self, k) && !Displaced(s1, env, k)
                  && k in s.nodes[env.self].items && s1.nodes[env.self].items[k] == s.nodes[env.self].items[k])
            && (k in s.nodes[env.self].items && env.Owns(env.self, k) ==> k in s1.nodes[env.self].items)
  {
    MigrateAllAt(s, env, its);
    var s1 := MigrateAll(s, env, its);
    var me, me1 := s.nodes[env.self], s1.nodes[env.self];
    if it :| it in its && it.key == k {
      assert Displaced(s, env, k);
      assert LedElsewhere(env, k);
      assert Moved(s1, env, it);
      assert me.items[k] == it;
    } else {
      assert At(s1, env.self, k) == At(s, env.self, k);
      Head(env.owners(k));
      assert !Displaced(s, env, k);
    }
  }

  /** What one tick does to one key of the node. */
  lemma TickAt(s: State, env: Env, its: seq<Item>, its': seq<Item>, s': State, k: Key)
    requires Valid(s, env) && Tick(s, env, its, its', s')
    ensures env.self in s.nodes && env.self in s'.nodes
    ensures var me, me' := s.nodes[env.self], s'.nodes[env.self];
            && (k in me'.items <==> k in me.items && env.Owns(env.self, k))
            && (k in me'.items ==> me'.items[k] == me.items[k] && !Displaced(s', env, k))
            && (k in me'.items && env.owners(k) != [] && env.owners(k)[0] == env.self ==> Covered(s', env, k))
  {
    var s1 := MigrateAll(s, env, its);
    MigrateAllAt(s, env, its);
    DiffAllAt(s1, env, its');
    MigratedNotPending(s, env, its, k);
    hide MigrateAll;
    hide DiffAll;
    assert At(s', env.self, k).item == At(s1, env.self, k).item && At(s', env.self, k).primary == At(s1, env.self, k).primary;
    if k in s'.nodes[env.self].items {
      assert k in s1.nodes[env.self].items;
      var it :| it in its' && it.key == k;
    }
  }

  lemma TickValid(s: State, env: Env, its: seq<Item>, its': seq<Item>, s': State)
    requires Valid(s, env) && Tick(s, env, its, its', s')
    ensures Valid(s', env)
  {
    hide MigrateAll;
    hide DiffAll;
    MigrateAllAt(s, env, its);
    DiffAllAt(MigrateAll(s, env, its), env, its');
  }

  /** After one tick the node is settled; it keeps exactly the items it owns. */
  lemma TickSettles(s: State, env: Env, its: seq<Item>, its': seq<Item>, s': State)
    requires Valid(s, env) && Tick(s, env, its, its', s')
    ensures Valid(s', env) && Settled(s', env)
    ensures s'.nodes[env.self].items == map k | k in s.nodes[env.self].items && env.Owns(env.self, k) :: s.nodes[env.self].items[k]
  {
    hide Tick;
    hide Covered;
    hide Displaced;
    TickValid(s, env, its, its', s');
    var me, me' := s.nodes[env.self], s'.nodes[env.self];
    forall k
      ensures k in me'.items <==> k in me.items && env.Owns(env.self, k)
      ensures k in me'.items ==> me'.items[k] == me.items[k]
      ensures k in me'.items ==> !Displaced(s', env, k)
      ensures k in me'.items && env.owners(k) != [] && env.owners(k)[0] == env.self ==> Covered(s', env, k)
    {
      TickAt(s, env, its, its', s', k);
    }
  }

  lemma Head<T>(s: seq<T>)
    ensures s != [] ==> s[0] in s
  {
  }

  /** A settled node's next tick, in any order, changes nothing and forwards nothing. */
  lemma SettledTickIsIdle(s: State, env: Env, its: seq<Item>, its': seq<Item>, s': State)
    requires Valid(s, env) && Settled(s, env) && Tick(s, env, its, its', s')
    ensures s' == s
  {
    assert forall it :: it in its ==> Displaced(s, env, it.key);
    Head(its);
    assert MigrateAll(s, env, its) == s;
    DiffAllAt(s, env, its');
    forall it | it in its' && env.owners(it.key) != [] && env.owners(it.key)[0] == env.self ensures Covered(s, env, it.key) {
      assert it.key in s.nodes[env.self].items;
    }
  }

  /**
   Rebalancing settles in one tick: two successive ticks, whatever their iteration orders, end in the
   state the first one reached; the second forwards nothing.
   */
  lemma SecondTickForwardsNothing(s: State, env: Env, its: seq<Item>, its': seq<Item>, s1: State,
                                  jts: seq<Item>, jts': seq<Item>, s2: State)
    requires Valid(s, env) && Tick(s, env, its, its', s1) && Tick(s1, env, jts, jts', s2)
    ensures s2 == s1 && s2.sent == s1.sent
  {
    TickSettles(s, env, its, its', s1);
    SettledTickIsIdle(s1, env, jts, jts', s2);
  }

  /** Where in the cluster, or in the hint queue, an item still is. */
  ghost predicate Survives(s: State, it: Item) {
    (exists n :: n in s.nodes && At(s, n, it.key).item == Some(it)) || (exists h :: h in s.hints && h.item == it)
  }

  /** A hint for an item is queued by a tick only if hints are on. */
  lemma {:induction false} HintsOff(s: State, env: Env, its: seq<Item>)
    requires !env.hintsOn && Valid(s, env) && Snapshot(s, env, its)
    ensures MigrateAll(s, env, its).hints == s.hints
  {
    if its != [] {
      var init, last := its[..|its| - 1], its[|its| - 1];
      assert its == init + [last];
      HintsOff(s, env, init);
      MigrateAllAt(s, env, init);
      var s1 := MigrateAll(s, env, init);
      if LedElsewhere(env, last.key) {
        HandOverAt(s1, env, last, env.self, last.key);
      }
    }
  }

  /** When the new primary cannot be reached, no other node's copy of the key changes. */
  lemma {:induction false} UnreachedUnchanged(s: State, env: Env, its: seq<Item>, k: Key)
    requires Valid(s, env) && Snapshot(s, env, its) && LedElsewhere(env, k) && env.owners(k)[0] !in env.up
    ensures forall n :: n != env.self ==> At(MigrateAll(s, env, its), n, k) == At(s, n, k)
  {
    if its != [] {
      var init, last := its[..|its| - 1], its[|its| - 1];
      assert its == init + [last];
      UnreachedUnchanged(s, env, init, k);
      MigrateAllAt(s, env, init);
      var s1 := MigrateAll(s, env, init);
      forall n | n != env.self ensures At(Migrate(s1, env, last), n, k) == At(s1, n, k) {
        MigrateAt(s1, env, last, n, k);
        if last.key == k {
          HandOverAt(s1, env, last, n, k);
        }
      }
    }
  }

  /**
   Every item the tick released is at its new primary or in a hint for it; with neither to be had, no other
   node's copy and no hint changes, so the item goes unless it was elsewhere already.
   */
  lemma ReleasedIsHandedOver(s: State, env: Env, its: seq<Item>, its': seq<Item>, s': State, k: Key)
    requires Valid(s, env) && Tick(s, env, its, its', s')
    requires k in s.nodes[env.self].items && !env.Owns(env.self, k)
    ensures At(s', env.self, k).item == None
    ensures HandedOver(s', env, s.nodes[env.self].items[k])
    ensures env.owners(k)[0] !in env.up && !env.hintsOn ==>
              s'.hints == s.hints && forall n :: n != env.self ==> At(s', n, k) == At(s, n, k)
  {
    var s1 := MigrateAll(s, env, its);
    MigrateAllAt(s, env, its);
    DiffAllAt(s1, env, its');
    Head(env.owners(k));
    assert Displaced(s, env, k);
    var it :| it in its && it.key == k;
    assert s.nodes[env.self].items[k] == it;
    assert LedElsewhere(env, k);
    assert Moved(s1, env, it);
    assert At(s', env.owners(k)[0], k) == At(s1, env.owners(k)[0], k);
    assert At(s', env.self, k) == At(s1, env.self, k);
    if env.owners(k)[0] !in env.up && !env.hintsOn {
      HintsOff(s, env, its);
      UnreachedUnchanged(s, env, its, k);
    }
  }

  /**
   The one way to lose an item: when the ticking node holds the only copy of a key it does not own, the
   item survives the tick if and only if its new primary is reachable or hints are kept.
   */
  lemma OnlyCopySurvivesIff(s: State, env: Env, its: seq<Item>, its': seq<Item>, s': State, k: Key)
    requires Valid(s, env) && Tick(s, env, its, its', s')
    requires k in s.nodes[env.self].items && !env.Owns(env.self, k)
    requires forall n :: n in s.nodes && n != env.self ==> At(s, n, k).item != Some(s.nodes[env.self].items[k])
    requires forall h :: h in s.hints ==> h.item != s.nodes[env.self].items[k]
    ensures Survives(s', s.nodes[env.self].items[k]) <==> env.owners(k)[0] in env.up || env.hintsOn
  {
    hide Tick;
    var it := s.nodes[env.self].items[k];
    var p := env.owners(k)[0];
    ReleasedIsHandedOver(s, env, its, its', s', k);
    if p in env.up {
      assert At(s', p, it.key).item == Some(it);
    } else if env.hintsOn {
      assert Hint(p, it) in s'.hints;
    } else {
      forall n | n in s'.nodes ensures At(s', n, k).item != Some(it) {
        assert At(s, n, k).item == Some(it) ==> n in s.nodes;
      }
    }
  }

  // ---------- what a tick does to the other nodes ----------

  /** The owners other than `env.self` whom a migration of `k` reaches. */
  ghost predicate MovesTo(env: Env, n: NodeID, k: Key) {
    LedElsewhere(env, k) && env.owners(k)[0] in env.up && n in env.up && n in env.owners(k)
  }

  /** The replicas added since the owner list recorded for `k`, as far as they are reachable. */
  ghost predicate AddedReplica(s: State, env: Env, n: NodeID, k: Key) {
    var o, b := env.owners(k), At(s, env.self, k).baseline;
    o != [] && o[0] == env.self && n in o[1..] && b.Some? && n !in b.value && n in env.up
  }

  ghost predicate Lists(its: seq<Item>, k: Key) {
    exists it :: it in its && it.key == k
  }

  lemma ListsInit(its: seq<Item>, k: Key)
    requires its != []
    ensures Lists(its, k) <==> Lists(its[..|its| - 1], k) || its[|its| - 1].key == k
  {
    var init, last := its[..|its| - 1], its[|its| - 1];
    assert its == init + [last];
    if Lists(init, k) {
      var it :| it in init && it.key == k;
      assert it in its;
    }
    assert last in its;
  }

  lemma HandOverElsewhere(s: State, env: Env, it: Item, n: NodeID)
    requires Valid(s, env) && LedElsewhere(env, it.key) && n != env.self
    ensures At(HandOver(s, env, it), n, it.key) ==
            if MovesTo(env, n, it.key) then StoredSlice(env, At(s, n, it.key), it) else At(s, n, it.key)
  {
    var o, k := env.owners(it.key), it.key;
    if o[0] in env.up {
      assert Distinct(o[1..]) && o == [o[0]] + o[1..];
      var s0 := s.(sent := s.sent + 1);
      var s1 := Plant(s0, env, o[0], it);
      PlantAt(s0, env, o[0], it, n, k);
      FanOutAt(s1, env, o[0], it, o[1..], n, k);
      hide Plant;
      hide FanOut;
    }
  }

  lemma MigrateElsewhere(s: State, env: Env, it: Item, n: NodeID)
    requires Valid(s, env) && n != env.self
    ensures At(Migrate(s, env, it), n, it.key) ==
            if MovesTo(env, n, it.key) then StoredSlice(env, At(s, n, it.key), it) else At(s, n, it.key)
  {
    hide HandOver;
    if LedElsewhere(env, it.key) {
      HandOverElsewhere(s, env, it, n);
      HandOverAt(s, env, it, n, it.key);
      assert At(SetPrimary(HandOver(s, env, it), env, it.key), n, it.key) == At(HandOver(s, env, it), n, it.key);
    }
  }

  lemma {:induction false} MigrateAllElsewhere(s: State, env: Env, its: seq<Item>, n: NodeID, k: Key)
    requires Valid(s, env) && Snapshot(s, env, its) && n != env.self
    ensures Lists(its, k) ==> At(s, env.self, k).item.Some?
    ensures At(MigrateAll(s, env, its), n, k) ==
            if Lists(its, k) && MovesTo(env, n, k) then StoredSlice(env, At(s, n, k), At(s, env.self, k).item.value) else At(s, n, k)
  {
    if its != [] {
      var init, last := its[..|its| - 1], its[|its| - 1];
      assert its == init + [last];
      assert last in its;
      ListsInit(its, k);
      MigrateAllElsewhere(s, env, init, n, k);
      MigrateAllAt(s, env, init);
      var s1 := MigrateAll(s, env, init);
      if last.key == k {
        MigrateElsewhere(s1, env, last, n);
      } else {
        MigrateAt(s1, env, last, n, k);
      }
    }
  }

  lemma {:induction false} NewReplicasAre(owners: seq<NodeID>, base: seq<NodeID>, n: NodeID)
    ensures n in NewReplicas(owners, base) <==> n in owners && n !in base
  {
    if owners != [] {
      NewReplicasAre(owners[..|owners| - 1], base, n);
      assert owners == owners[..|owners| - 1] + [owners[|owners| - 1]];
    }
  }

  lemma {:induction false} SendDiffElsewhere(s: State, env: Env, it: Item, repls: seq<NodeID>, n: NodeID)
    requires env.up <= s.nodes.Keys && n != env.self
    ensures At(SendDiff(s, env, it, repls), n, it.key) ==
            if n in repls && n in env.up && env.Owns(n, it.key) then StoredSlice(env, At(s, n, it.key), it) else At(s, n, it.key)
  {
    if repls != [] {
      var init, last := repls[..|repls| - 1], repls[|repls| - 1];
      assert repls == init + [last];
      SendDiffElsewhere(s, env, it, init, n);
      SendDiffAt(s, env, it, init, n, it.key);
      var s1 := SendDiff(s, env, it, init);
      if last != env.self && last in env.up && env.Owns(last, it.key) {
        PlantAt(s1.(sent := s1.sent + 1), env, last, it, n, it.key);
      }
    }
  }

  lemma DiffElsewhere(s: State, env: Env, it: Item, n: NodeID)
    requires Valid(s, env) && n != env.self
    ensures At(Diff(s, env, it), n, it.key) ==
            if AddedReplica(s, env, n, it.key) then StoredSlice(env, At(s, n, it.key), it) else At(s, n, it.key)
  {
    var o, me := env.owners(it.key), s.nodes[env.self];
    if o != [] && o[0] == env.self && it.key in me.baselines {
      var news := NewReplicas(o[1..], me.baselines[it.key]);
      NewReplicasAre(o[1..], me.baselines[it.key], n);
      SendDiffElsewhere(s, env, it, news, n);
      SendDiffAt(s, env, it, news, env.self, it.key);
    }
  }

  lemma {:induction false} DiffAllElsewhere(s: State, env: Env, its: seq<Item>, n: NodeID, k: Key)
    requires Valid(s, env) && Snapshot(s, env, its) && n != env.self
    ensures var s' := DiffAll(s, env, its);
            && (Lists(its, k) ==> At(s, env.self, k).item.Some?)
            && At(s', n, k) ==
               (if Lists(its, k) && AddedReplica(s, env, n, k) then StoredSlice(env, At(s, n, k), At(s, env.self, k).item.value)
                else At(s, n, k))
            && (!Lists(its, k) ==> At(s', env.self, k) == At(s, env.self, k))
  {
    if its != [] {
      var init, last := its[..|its| - 1], its[|its| - 1];
      assert its == init + [last];
      assert last in its;
      ListsInit(its, k);
      DiffAllElsewhere(s, env, init, n, k);
      DiffAllAt(s, env, init);
      var s1 := DiffAll(s, env, init);
      if last.key == k {
        assert !Lists(init, k) by {
          forall it | it in init ensures it.key != k {
            KeysDiffer(init, last, it);
          }
        }
        DiffElsewhere(s1, env, last, n);
      } else {
        DiffAt(s1, env, last, n, k);
        DiffAt(s1, env, last, env.self, k);
      }
    }
  }

  /**
   The nodes a tick sends its copy of `k` to, by the owner list and what it has on record: the replicas added
   since, when it leads the key; else, when it lost the key or was its primary and the new one is reachable,
   every owner. All as far as they are reachable.
   */
  ghost predicate Receives(s: State, env: Env, n: NodeID, k: Key) {
    var me, o := At(s, env.self, k), env.owners(k);
    && me.item.Some? && n in o && n in env.up
    && if o[0] == env.self then n in o[1..] && me.baseline.Some? && n !in me.baseline.value
       else o[0] in env.up && (env.self !in o || me.primary == Some(env.self))
  }

  /**
   A tick leaves its own copy of a key at exactly those nodes, which put its primary and owners on record if they
   had none, and every other node's copy and record as it was.
   */
  lemma TickDelivers(s: State, env: Env, its: seq<Item>, its': seq<Item>, s': State, n: NodeID, k: Key)
    requires Valid(s, env) && Tick(s, env, its, its', s') && n != env.self
    ensures var was, o := At(s, n, k), env.owners(k);
            At(s', n, k) ==
            if Receives(s, env, n, k) then
              Slice(At(s, env.self, k).item,
                    if was.primary.Some? then was.primary else Some(o[0]),
                    if was.primary.Some? || was.baseline.Some? then was.baseline else Some(o))
            else was
  {
    var s1 := MigrateAll(s, env, its);
    MigrateAllAt(s, env, its);
    MigrateAllElsewhere(s, env, its, n, k);
    DiffAllElsewhere(s1, env, its', n, k);
    MigratedNotPending(s, env, its, k);
    hide MigrateAll;
    hide DiffAll;
    assert Lists(its, k) <==> Displaced(s, env, k);
    assert Lists(its', k) <==> k in s1.nodes[env.self].items;
    if !Lists(its, k) {
      assert At(s1, env.self, k) == At(s, env.self, k);
    }
  }

  /**
   A held key whose primary is another node is handed over and put on record under it exactly when this node lost
   the key or was on record as its primary; otherwise no node's copy or record of it changes.
   */
  lemma PrimaryShiftMoves(s: State, env: Env, its: seq<Item>, its': seq<Item>, s': State, k: Key)
    requires Valid(s, env) && Tick(s, env, its, its', s')
    requires k in s.nodes[env.self].items && env.owners(k) != [] && env.owners(k)[0] != env.self
    ensures if env.self !in env.owners(k) || At(s, env.self, k).primary == Some(env.self) then
              HandedOver(s', env, s.nodes[env.self].items[k]) && At(s', env.self, k).primary == Some(env.owners(k)[0])
            else forall n :: At(s', n, k) == At(s, n, k)
  {
    var s1 := MigrateAll(s, env, its);
    MigrateAllAt(s, env, its);
    DiffAllAt(s1, env, its');
    hide MigrateAll;
    hide DiffAll;
    assert LedElsewhere(env, k);
    if Displaced(s, env, k) {
      var it :| it in its && it.key == k;
      assert s.nodes[env.self].items[k] == it;
      assert Moved(s1, env, it);
      assert At(s', env.owners(k)[0], k) == At(s1, env.owners(k)[0], k);
      assert At(s', env.self, k) == At(s1, env.self, k);
    } else {
      forall n ensures At(s', n, k) == At(s, n, k) {
        assert At(s', n, k) == At(s1, n, k);
      }
    }
  }

  lemma {:induction false} MigrateAllHints(s: State, env: Env, its: seq<Item>, h: Hint)
    requires Valid(s, env) && Snapshot(s, env, its)
    ensures h in MigrateAll(s, env, its).hints <==>
            || h in s.hints
            || (env.hintsOn && h.item in its && LedElsewhere(env, h.item.key) && h.target == env.owners(h.item.key)[0] && h.target !in env.up)
  {
    if its != [] {
      var init, last := its[..|its| - 1], its[|its| - 1];
      assert its == init + [last];
      MigrateAllHints(s, env, init, h);
      MigrateAllAt(s, env, init);
      if LedElsewhere(env, last.key) {
        HandOverAt(MigrateAll(s, env, init), env, last, env.self, last.key);
      }
    }
  }

  /** The hints a tick adds: one for each item it would hand over to a primary it cannot reach, if hints are kept. */
  lemma TickHints(s: State, env: Env, its: seq<Item>, its': seq<Item>, s': State, h: Hint)
    requires Valid(s, env) && Tick(s, env, its, its', s')
    ensures var me, o := At(s, env.self, h.item.key), env.owners(h.item.key);
            h in s'.hints <==>
            || h in s.hints
            || (&& env.hintsOn && me.item == Some(h.item) && o != [] && h.target == o[0] && o[0] != env.self && o[0] !in env.up
                && (env.self !in o || me.primary == Some(env.self)))
  {
    MigrateAllAt(s, env, its);
    DiffAllAt(MigrateAll(s, env, its), env, its');
    MigrateAllHints(s, env, its, h);
    hide MigrateAll;
    hide DiffAll;
    if Displaced(s, env, h.item.key) {
      var it :| it in its && it.key == h.item.key;
    }
  }

  // ---------- what a tick sends ----------

  /** This node leads `k`, has an owner list on record, and some other current replica is not on it. */
  ghost predicate Lacks(s: State, env: Env, k: Key) {
    var o, b := env.owners(k), At(s, env.self, k).baseline;
    o != [] && o[0] == env.self && b.Some? && exists n :: n in o[1..] && n !in b.value
  }

  lemma {:induction false} SendDiffSent(s: State, env: Env, it: Item, repls: seq<NodeID>)
    requires env.self !in repls
    ensures SendDiff(s, env, it, repls).sent == s.sent + |repls|
  {
    if repls != [] {
      assert repls == repls[..|repls| - 1] + [repls[|repls| - 1]];
      SendDiffSent(s, env, it, repls[..|repls| - 1]);
    }
  }

  lemma DiffSent(s: State, env: Env, it: Item)
    requires Valid(s, env)
    ensures var s' := Diff(s, env, it); s'.sent >= s.sent && (s'.sent > s.sent <==> Lacks(s, env, it.key))
  {
    var o, me := env.owners(it.key), s.nodes[env.self];
    if o != [] && o[0] == env.self && it.key in me.baselines {
      var news := NewReplicas(o[1..], me.baselines[it.key]);
      NewReplicasEmpty(o[1..], me.baselines[it.key]);
      NewReplicasAre(o[1..], me.baselines[it.key], env.self);
      assert Distinct(o) && env.self !in o[1..];
      SendDiffSent(s, env, it, news);
      SendDiffAt(s, env, it, news, env.self, it.key);
    }
  }

  lemma {:induction false} DiffAllUnlisted(s: State, env: Env, its: seq<Item>, k: Key)
    requires Valid(s, env) && DistinctKeys(its) && !Lists(its, k)
    ensures At(DiffAll(s, env, its), env.self, k) == At(s, env.self, k)
  {
    if its != [] {
      ListsInit(its, k);
      DiffAllUnlisted(s, env, its[..|its| - 1], k);
      DiffAllAt(s, env, its[..|its| - 1]);
      DiffAt(DiffAll(s, env, its[..|its| - 1]), env, its[|its| - 1], env.self, k);
    }
  }

  lemma {:induction false} DiffAllSent(s: State, env: Env, its: seq<Item>)
    requires Valid(s, env) && Snapshot(s, env, its)
    ensures var s' := DiffAll(s, env, its);
            s'.sent >= s.sent && (s'.sent > s.sent <==> exists it :: it in its && Lacks(s, env, it.key))
  {
    if its != [] {
      var init, last := its[..|its| - 1], its[|its| - 1];
      assert its == init + [last];
      assert last in its;
      DiffAllSent(s, env, init);
      DiffAllAt(s, env, init);
      var s1 := DiffAll(s, env, init);
      DiffSent(s1, env, last);
      assert At(s1, env.self, last.key) == At(s, env.self, last.key) by {
        assert !Lists(init, last.key) by {
          forall it | it in init ensures it.key != last.key {
            KeysDiffer(init, last, it);
          }
        }
        DiffAllUnlisted(s, env, init, last.key);
      }
    }
  }

  lemma {:induction false} MigrateAllSent(s: State, env: Env, its: seq<Item>)
    requires Valid(s, env) && Snapshot(s, env, its)
    ensures var s' := MigrateAll(s, env, its);
            s'.sent >= s.sent && (s'.sent > s.sent <==> exists it :: it in its && LedElsewhere(env, it.key))
  {
    if its != [] {
      var init, last := its[..|its| - 1], its[|its| - 1];
      assert its == init + [last];
      assert last in its;
      MigrateAllSent(s, env, init);
      MigrateAllAt(s, env, init);
      MigrateSent(MigrateAll(s, env, init), env, last);
    }
  }

  lemma MigrateSent(s: State, env: Env, it: Item)
    requires Valid(s, env)
    ensures Migrate(s, env, it).sent == s.sent + if LedElsewhere(env, it.key) then 1 else 0
  {
    var o := env.owners(it.key);
    if LedElsewhere(env, it.key) && o[0] in env.up {
      var s1 := s.(sent := s.sent + 1);
      assert Distinct(o[1..]);
      FanOutAt(Plant(s1, env, o[0], it), env, o[0], it, o[1..], o[0], it.key);
    }
  }

  lemma LackingSame(s: State, s1: State, env: Env, its: seq<Item>, k: Key)
    requires Valid(s, env) && Candidates(s, env, its) && s1 == MigrateAll(s, env, its) && env.self in s1.nodes
    ensures Lacks(s, env, k) <==> Lacks(s1, env, k)
    ensures Lacks(s, env, k) ==> (k in s.nodes[env.self].items <==> k in s1.nodes[env.self].items)
  {
    hide MigrateAll;
    if env.owners(k) != [] && env.owners(k)[0] == env.self {
      LedUntouched(s, env, its, k);
    }
  }

  /** Migration leaves what this node leads, and what it has on record of it, as it was. */
  lemma LedUntouched(s: State, env: Env, its: seq<Item>, k: Key)
    requires Valid(s, env) && Candidates(s, env, its) && env.owners(k) != [] && env.owners(k)[0] == env.self
    ensures At(MigrateAll(s, env, its), env.self, k) == At(s, env.self, k)
  {
    MigrateAllAt(s, env, its);
    hide MigrateAll;
    assert !Displaced(s, env, k);
    assert forall it :: it in its ==> it.key != k;
  }

  /** A tick attempts a forward if and only if some held key has to be handed over or lacks a replica. */
  lemma TickSendsIff(s: State, env: Env, its: seq<Item>, its': seq<Item>, s': State)
    requires Valid(s, env) && Tick(s, env, its, its', s')
    ensures s'.sent >= s.sent
    ensures s'.sent > s.sent <==> exists k :: k in s.nodes[env.self].items && (Displaced(s, env, k) || Lacks(s, env, k))
  {
    var s1 := MigrateAll(s, env, its);
    MigrateAllAt(s, env, its);
    MigrateAllSent(s, env, its);
    DiffAllSent(s1, env, its');
    hide MigrateAll;
    hide DiffAll;
    hide Lacks;
    forall k | k in s.nodes[env.self].items && Displaced(s, env, k) ensures exists it :: it in its && LedElsewhere(env, it.key) {
      var it :| it in its && it.key == k;
    }
    forall k | k in s.nodes[env.self].items && Lacks(s, env, k) ensures exists it :: it in its' && Lacks(s1, env, it.key) {
      LackingSame(s, s1, env, its, k);
      var it :| it in its' && it.key == k;
    }
    forall it | it in its' && Lacks(s1, env, it.key) ensures it.key in s.nodes[env.self].items && Lacks(s, env, it.key) {
      LackingSame(s, s1, env, its, it.key);
    }
    forall it | it in its && LedElsewhere(env, it.key) ensures it.key in s.nodes[env.self].items && Displaced(s, env, it.key) {
    }
  }

  /** Node `n` had an item for `k` and is left without one, or with one its own beats. */
  ghost predicate PushedBack(s: State, s': State, n: NodeID, k: Key) {
    var was, now := At(s, n, k).item, At(s', n, k).item;
    was.Some? && (now.None? || Beats(was.value, now.value))
  }

  /**
   Ticks send without comparing versions. One pushes another node back if and only if it sends it the key
   while that node holds an item that beats the ticking node's.
   */
  lemma TickPushesBackIff(s: State, env: Env, its: seq<Item>, its': seq<Item>, s': State, n: NodeID, k: Key)
    requires Valid(s, env) && Tick(s, env, its, its', s') && n != env.self
    ensures PushedBack(s, s', n, k) <==>
            Receives(s, env, n, k) && At(s, n, k).item.Some? && Beats(At(s, n, k).item.value, s.nodes[env.self].items[k])
  {
    hide Tick;
    TickDelivers(s, env, its, its', s', n, k);
    if At(s, n, k).item.Some? {
      AtLeastTotal(At(s, n, k).item.value, At(s, n, k).item.value);
    }
  }

  /** The ring moved `k` to a node that has since accepted a newer write; the old primary's tick undoes it. */
  lemma LateTickUndoesWrite() returns (s: State, env: Env, its: seq<Item>, its': seq<Item>, s': State)
    ensures Valid(s, env) && Tick(s, env, its, its', s')
    ensures At(s, "b", "k").item == Some(Item("k", "new", 2, "b")) && At(s', "b", "k").item == Some(Item("k", "old", 1, "a"))
    ensures PushedBack(s, s', "b", "k")
  {
    hide MigrateAll;
    hide Covered;
    var older, newer := Item("k", "old", 1, "a"), Item("k", "new", 2, "b");
    var a := NodeState(map["k" := older], map["k" := "a"], map["k" := ["a"]]);
    var b := NodeState(map["k" := newer], map["k" := "b"], map["k" := ["b"]]);
    s := State(map["a" := a, "b" := b], [], 0);
    env := Env("a", {"a", "b"}, _ => ["b"], true);
    its := [older];
    var s1 := MigrateAll(s, env, its);
    assert older in its && Displaced(s, env, "k");
    forall k ensures (exists it :: it in its && it.key == k) <==> Displaced(s, env, k) {
      assert k in a.items <==> k == "k";
    }
    MigrateAllAt(s, env, its);
    assert s1.nodes["a"].items == map[] by {
      forall k ensures k !in s1.nodes["a"].items {
        MigratedNotPending(s, env, its, k);
      }
    }
    its' := [];
    s' := DiffAll(s1, env, its');
    TickDelivers(s, env, its, its', s', "b", "k");
  }

  // ---------- the loops of a tick ----------

  /** Scan the local items for those to migrate. */
  method CollectRebalanceCandidates(s: State, env: Env) returns (its: seq<Item>)
    requires Valid(s, env)
    ensures Candidates(s, env, its)
  {
    var me := s.nodes[env.self];
    its := [];
    var todo := me.items.Keys;
    while todo != {}
      invariant todo <= me.items.Keys
      invariant Snapshot(s, env, its)
      invariant forall k :: (exists it :: it in its && it.key == k) <==> k in me.items && k !in todo && ShouldRebalance(me, env, k)
    {
      var k :| k in todo;
      ghost var before := its;
      assert forall it :: it in before ==> it.key != k;
      if ShouldRebalance(me, env, k) {
        its := its + [me.items[k]];
        assert me.items[k] in its;
        assert forall it :: it in before ==> it in its;
      }
      todo := todo - {k};
    }
    forall k ensures (exists it :: it in its && it.key == k) <==> Displaced(s, env, k) {
      RebalanceIff(s, env, k);
    }
  }

  /** What the running batches still have to do. */
  ghost function Flat(running: seq<seq<Item>>): seq<Item> {
    if running == [] then [] else Flat(running[..|running| - 1]) + running[|running| - 1]
  }

  lemma FlatPush(running: seq<seq<Item>>, batch: seq<Item>)
    ensures Flat(running + [batch]) == Flat(running) + batch
  {
    assert (running + [batch])[..|running|] == running;
  }

  lemma {:induction false} FlatStep(running: seq<seq<Item>>, b: nat)
    requires b < |running| && running[b] != []
    ensures |Flat(running)| == |Flat(running[b := running[b][1..]])| + 1
    ensures multiset(Flat(running)) == multiset(Flat(running[b := running[b][1..]])) + multiset{running[b][0]}
  {
    var n := |running| - 1;
    var after := running[b := running[b][1..]];
    if b == n {
      assert after[..n] == running[..n];
      assert running[n] == [running[n][0]] + running[n][1..];
      assert multiset(running[n]) == multiset{running[n][0]} + multiset(running[n][1..]);
    } else {
      assert after[..n] == running[..n][b := running[b][1..]];
      FlatStep(running[..n], b);
    }
  }

  lemma {:induction false} FlatDrop(running: seq<seq<Item>>, b: nat)
    requires b < |running| && running[b] == []
    ensures Flat(running[..b] + running[b + 1..]) == Flat(running)
  {
    var n := |running| - 1;
    if b == n {
      assert running[..b] + running[b + 1..] == running[..n];
    } else {
      var r := running[..b] + running[b + 1..];
      assert r[..|r| - 1] == running[..n][..b] + running[..n][b + 1..];
      FlatDrop(running[..n], b);
    }
  }

  /** Every item has been migrated, is in a running batch, or is not started: once. */
  ghost predicate Accounted(order: seq<Item>, running: seq<seq<Item>>, rest: seq<Item>, its: seq<Item>) {
    multiset(order) + multiset(Flat(running)) + multiset(rest) == multiset(its)
  }

  lemma AccountedLaunch(order: seq<Item>, running: seq<seq<Item>>, its: seq<Item>, start: nat, end: nat)
    requires start <= end <= |its| && Accounted(order, running, its[start..], its)
    ensures Accounted(order, running + [its[start..end]], its[end..], its)
  {
    FlatPush(running, its[start..end]);
    assert its[start..] == its[start..end] + its[end..];
  }

  lemma AccountedStep(order: seq<Item>, running: seq<seq<Item>>, rest: seq<Item>, its: seq<Item>, b: nat)
    requires b < |running| && running[b] != [] && Accounted(order, running, rest, its)
    ensures Accounted(order + [running[b][0]], running[b := running[b][1..]], rest, its)
  {
    FlatStep(running, b);
    hide Flat;
    assert multiset(order + [running[b][0]]) == multiset(order) + multiset{running[b][0]};
  }

  lemma AccountedDone(order: seq<Item>, its: seq<Item>)
    requires Accounted(order, [], [], its)
    ensures multiset(order) == multiset(its)
  {
  }

  lemma MigrateSnoc(s: State, env: Env, order: seq<Item>, it: Item)
    ensures MigrateAll(s, env, order + [it]) == Migrate(MigrateAll(s, env, order), env, it)
  {
    assert (order + [it])[..|order|] == order;
  }

  /**
   Migrate in batches that run concurrently, at most `maxConcurrent` at a time: at every point the next batch is
   started or some running batch migrates its next item. `order` is the order in which the items went.
   */
  method MigrateItems(s: State, env: Env, its: seq<Item>, batchSize: nat, maxConcurrent: nat) returns (s': State, ghost order: seq<Item>)
    requires batchSize > 0 && maxConcurrent > 0
    ensures multiset(order) == multiset(its) && s' == MigrateAll(s, env, order)
  {
    s', order := s, [];
    var start: nat, running: seq<seq<Item>> := 0, [];
    assert its[0..] == its;
    assert Accounted(order, running, its[start..], its);
    hide Accounted;
    hide Flat;
    hide Migrate;
    while start < |its| || running != []
      invariant start <= |its| && |running| <= maxConcurrent
      invariant s' == MigrateAll(s, env, order)
      invariant Accounted(order, running, its[start..], its)
      decreases |its| - start, |Flat(running)|, |running|
    {
      var launch := *;
      if start < |its| && |running| < maxConcurrent && (launch || running == []) {
        var end := if start + batchSize < |its| then start + batchSize else |its|;
        AccountedLaunch(order, running, its, start, end);
        running, start := running + [its[start..end]], end;
      } else {
        var b: nat :| b < |running|;
        if running[b] == [] {
          AccountedDrop(order, running, its[start..], its, b);
          running := running[..b] + running[b + 1..];
        } else {
          AccountedStep(order, running, its[start..], its, b);
          FlatStep(running, b);
          MigrateSnoc(s, env, order, running[b][0]);
          s' := Migrate(s', env, running[b][0]);
          order := order + [running[b][0]];
          running := running[b := running[b][1..]];
        }
      }
    }
    assert its[start..] == [];
    AccountedDone(order, its);
  }

  lemma AccountedDrop(order: seq<Item>, running: seq<seq<Item>>, rest: seq<Item>, its: seq<Item>, b: nat)
    requires b < |running| && running[b] == [] && Accounted(order, running, rest, its)
    ensures Accounted(order, running[..b] + running[b + 1..], rest, its)
    ensures Flat(running[..b] + running[b + 1..]) == Flat(running)
  {
    FlatDrop(running, b);
  }

  /** Reordering the candidates gives candidates. */
  lemma CandidatesPermute(s: State, env: Env, its: seq<Item>, order: seq<Item>)
    requires Candidates(s, env, its) && multiset(order) == multiset(its)
    ensures Candidates(s, env, order)
  {
    DistinctPermutation(its, order);
    forall it ensures it in order <==> it in its {
      assert it in multiset(order) <==> it in multiset(its);
    }
    forall i, j | 0 <= i < j < |order| ensures order[i].key != order[j].key {
      assert order[i] in its && order[j] in its;
    }
  }

  /** Replica diff over a snapshot of the local items. */
  method ReplicateNewReplicas(s: State, env: Env) returns (s': State, ghost its: seq<Item>)
    requires Valid(s, env)
    ensures AllItems(s, env, its) && s' == DiffAll(s, env, its)
  {
    var me := s.nodes[env.self];
    var snapshot: seq<Item> := [];
    var todo := me.items.Keys;
    while todo != {}
      invariant todo <= me.items.Keys
      invariant Snapshot(s, env, snapshot)
      invariant forall k :: (exists it :: it in snapshot && it.key == k) <==> k in me.items && k !in todo
    {
      var k :| k in todo;
      ghost var before := snapshot;
      assert forall it :: it in before ==> it.key != k;
      snapshot := snapshot + [me.items[k]];
      assert me.items[k] in snapshot;
      assert forall it :: it in before ==> it in snapshot;
      todo := todo - {k};
    }
    its := snapshot;
    s' := s;
    for i := 0 to |snapshot|
      invariant s' == DiffAll(s, env, snapshot[..i])
    {
      assert snapshot[..i + 1][..i] == snapshot[..i];
      s' := Diff(s', env, snapshot[i]);
    }
    assert snapshot[..|snapshot|] == snapshot;
  }

  method RunRebalanceTick(s: State, env: Env, batchSize: nat, maxConcurrent: nat)
    returns (s': State, ghost its: seq<Item>, ghost its': seq<Item>)
    requires Valid(s, env) && batchSize > 0 && maxConcurrent > 0
    ensures Tick(s, env, its, its', s')
  {
    var candidates := CollectRebalanceCandidates(s, env);
    s', its := MigrateItems(s, env, candidates, batchSize, maxConcurrent);
    CandidatesPermute(s, env, candidates, its);
    MigrateAllAt(s, env, its);
    s', its' := ReplicateNewReplicas(s', env);
  }
}
