/**
 Quorum reads with repair and quorum writes (pkg/backend/dist_memory.go).

 The cluster is a value: one item map per node. A call fixes the nodes the transport reaches and,
 for the key at hand, the nodes whose own ring view makes them owners (the receiver's guard).
 */
module Quorum {
  import opened Lex
  import opened Items
  import opened Ring
  import opened Seqs

  datatype Level = One | Majority | All

  function RequiredAcks(total: nat, lvl: Level): nat {
    match lvl
    case All => total
    case Majority => total / 2 + 1
    case One => 1
  }

  // ---------- gathering responses ----------

  /** One owner's answer; None is a miss or an unreachable owner. */
  datatype Response = Response(owner: NodeID, item: Option<Item>)

  datatype Progress = Progress(chosen: Option<Item>, acks: nat, stale: seq<NodeID>)

  const START := Progress(None, 0, [])

  predicate Satisfied(st: Progress, needed: nat) {
    st.acks >= needed && st.chosen.Some?
  }

  /** A response that beats the choice so far is recorded for targeted repair. */
  function Absorb(st: Progress, r: Response): Progress {
    if r.item.None? then st
    else
      Progress(ChooseNewer(st.chosen, r.item), st.acks + 1,
               if st.chosen.Some? && Beats(r.item.value, st.chosen.value) then st.stale + [r.owner] else st.stale)
  }

  function AbsorbAll(rs: seq<Response>): Progress {
    if rs == [] then START else Absorb(AbsorbAll(rs[..|rs| - 1]), rs[|rs| - 1])
  }

  /** How many responses are consumed before the read is satisfied or the responses run out. */
  function Consumed(rs: seq<Response>, needed: nat, from: nat): (n: nat)
    requires from <= |rs|
    ensures from <= n <= |rs|
    ensures n < |rs| ==> Satisfied(AbsorbAll(rs[..n]), needed)
    ensures forall m :: from <= m < n ==> !Satisfied(AbsorbAll(rs[..m]), needed)
    decreases |rs| - from
  {
    if from == |rs| || Satisfied(AbsorbAll(rs[..from]), needed) then from else Consumed(rs, needed, from + 1)
  }

  /** The outcome of a read over responses arriving in the order `rs`. */
  function Gather(rs: seq<Response>, needed: nat): Progress {
    AbsorbAll(rs[..Consumed(rs, needed, 0)])
  }

  ghost predicate Succeeds(st: Progress, needed: nat) {
    st.acks >= needed && st.chosen.Some?
  }

  ghost function Answered(rs: seq<Response>): set<NodeID> {
    set r | r in rs && r.item.Some? :: r.owner
  }

  ghost predicate DistinctOwners(rs: seq<Response>) {
    forall i, j :: 0 <= i < j < |rs| ==> rs[i].owner != rs[j].owner
  }

  /** `st` chose the newest of the answers `rs`. */
  ghost predicate Newest(st: Progress, rs: seq<Response>) {
    && (st.chosen.Some? ==> exists r :: r in rs && r.item == st.chosen)
    && (forall r :: r in rs && r.item.Some? ==> st.chosen.Some? && AtLeast(st.chosen.value, r.item.value))
  }

  lemma AbsorbNewest(st: Progress, rs: seq<Response>, last: Response)
    requires Newest(st, rs)
    ensures Newest(Absorb(st, last), rs + [last])
  {
    var st', rs' := Absorb(st, last), rs + [last];
    ChooseNewerBound(st.chosen, last.item);
    forall r | r in rs' && r.item.Some? ensures st'.chosen.Some? && AtLeast(st'.chosen.value, r.item.value) {
      if r in rs && last.item.Some? {
        AtLeastTransitive(st'.chosen.value, st.chosen.value, r.item.value);
      }
    }
    if st'.chosen.Some? {
      if st'.chosen == last.item {
        assert last in rs';
      } else {
        var r :| r in rs && r.item == st.chosen;
        assert r in rs';
      }
    }
  }

  lemma AbsorbCounts(rs: seq<Response>, last: Response)
    requires DistinctOwners(rs + [last])
    ensures |Answered(rs + [last])| == |Answered(rs)| + (if last.item.Some? then 1 else 0)
  {
    var rs' := rs + [last];
    assert last in rs' && rs'[|rs|] == last;
    if last.item.Some? {
      assert Answered(rs') == Answered(rs) + {last.owner};
      forall r | r in rs ensures r.owner != last.owner {
        var i :| 0 <= i < |rs| && rs[i] == r;
        assert rs'[i] == r;
      }
    } else {
      assert Answered(rs') == Answered(rs);
    }
  }

  /** The choice is the newest answer, and acknowledgements count distinct owners. */
  lemma {:induction false} AbsorbAllSummary(rs: seq<Response>)
    requires DistinctOwners(rs)
    ensures AbsorbAll(rs).acks == |Answered(rs)|
    ensures Newest(AbsorbAll(rs), rs)
  {
    if rs != [] {
      var init, last := rs[..|rs| - 1], rs[|rs| - 1];
      assert rs == init + [last];
      AbsorbAllSummary(init);
      AbsorbNewest(AbsorbAll(init), init, last);
      AbsorbCounts(init, last);
    }
  }

  /** Answer `i` comes after another and beats all before it. */
  ghost predicate Overtakes(rs: seq<Response>, i: int) {
    && 0 <= i < |rs| && rs[i].item.Some?
    && (exists j :: 0 <= j < i && rs[j].item.Some?)
    && forall j :: 0 <= j < i && rs[j].item.Some? ==> Beats(rs[i].item.value, rs[j].item.value)
  }

  lemma OvertakesInit(rs: seq<Response>, i: int)
    requires rs != [] && i < |rs| - 1
    ensures Overtakes(rs, i) <==> Overtakes(rs[..|rs| - 1], i)
  {
    hide Beats;
    var init := rs[..|rs| - 1];
    assert forall j :: 0 <= j < |init| ==> init[j] == rs[j];
  }

  /** The last answer is recorded exactly when it overtakes. */
  lemma LastOvertakes(rs: seq<Response>)
    requires rs != [] && DistinctOwners(rs)
    ensures var init, last := rs[..|rs| - 1], rs[|rs| - 1]; var x := AbsorbAll(init).chosen;
            Overtakes(rs, |rs| - 1) <==> last.item.Some? && x.Some? && Beats(last.item.value, x.value)
  {
    var init, last := rs[..|rs| - 1], rs[|rs| - 1];
    var x := AbsorbAll(init).chosen;
    AbsorbAllSummary(init);
    hide AbsorbAll;
    hide Beats;
    hide AtLeast;
    hide Answered;
    if x.Some? {
      var q :| q in init && q.item == x;
      var i :| 0 <= i < |init| && init[i] == q;
      assert rs[i] == q;
      if last.item.Some? && Beats(last.item.value, x.value) {
        forall j | 0 <= j < |rs| - 1 && rs[j].item.Some? ensures Beats(last.item.value, rs[j].item.value) {
          assert init[j] in init;
          BeatsAtLeast(last.item.value, x.value, rs[j].item.value);
        }
      }
    } else {
      forall j | 0 <= j < |rs| - 1 ensures rs[j].item.None? {
        assert init[j] in init;
      }
    }
  }

  /** The owners recorded for targeted repair are those whose answer beat every one before it. */
  lemma {:induction false} StaleOvertake(rs: seq<Response>, o: NodeID)
    requires DistinctOwners(rs)
    ensures o in AbsorbAll(rs).stale <==> exists i :: Overtakes(rs, i) && rs[i].owner == o
  {
    hide Beats;
    hide Overtakes;
    if rs == [] {
      assert !exists i :: Overtakes(rs, i) by {
        NoneOvertakes(rs);
      }
    } else {
      var init, last := rs[..|rs| - 1], rs[|rs| - 1];
      StaleOvertake(init, o);
      LastOvertakes(rs);
      forall i ensures i < |init| ==> (Overtakes(rs, i) <==> Overtakes(init, i)) {
        if i < |init| {
          OvertakesInit(rs, i);
        }
      }
      forall i ensures Overtakes(rs, i) ==> 0 <= i < |rs| {
        OvertakesWithin(rs, i);
      }
      forall i ensures Overtakes(init, i) ==> 0 <= i < |init| && rs[i] == init[i] {
        OvertakesWithin(init, i);
      }
    }
  }

  lemma NoneOvertakes(rs: seq<Response>)
    requires rs == []
    ensures forall i :: !Overtakes(rs, i)
  {
  }

  lemma OvertakesWithin(rs: seq<Response>, i: int)
    ensures Overtakes(rs, i) ==> 0 <= i < |rs|
  {
  }

  // ---------- quorum intersection ----------

  /** `rs` holds one answer per owner, in some arrival order; holders that answer are at or above `x`. */
  ghost predicate Snapshot(rs: seq<Response>, owners: set<NodeID>, holders: set<NodeID>, x: Item) {
    && DistinctOwners(rs)
    && (forall o :: o in owners <==> exists r :: r in rs && r.owner == o)
    && holders <= owners
    && (forall r :: r in rs && r.owner in holders && r.item.Some? ==> AtLeast(r.item.value, x))
  }

  lemma {:induction false} Overlap<T>(a: set<T>, b: set<T>, u: set<T>)
    requires a <= u && b <= u && |a| + |b| > |u|
    ensures a * b != {}
  {
    if a * b == {} {
      assert |a + b| == |a| + |b|;
      SubsetSize(a + b, u);
    }
  }

  /**
   Quorum intersection: when at least W owners hold an item at or above `x` and R + W exceeds the
   number of owners, every successful read, in every arrival order, returns an item at or above `x`.
   */
  lemma QuorumIntersection(rs: seq<Response>, owners: set<NodeID>, holders: set<NodeID>, x: Item, r: nat, w: nat)
    requires Snapshot(rs, owners, holders, x) && |holders| >= w && r + w > |owners|
    requires Succeeds(Gather(rs, r), r)
    ensures AtLeast(Gather(rs, r).chosen.value, x)
  {
    var used := rs[..Consumed(rs, r, 0)];
    AbsorbAllSummary(used);
    var answered := Answered(used);
    assert answered <= owners;
    Overlap(answered, holders, owners);
    var o :| o in answered * holders;
    var p :| p in used && p.item.Some? && p.owner == o;
    AtLeastTransitive(Gather(rs, r).chosen.value, p.item.value, x);
  }

  ghost predicate AlwaysSeen(owners: set<NodeID>, r: nat, w: nat) {
    forall rs, holders, x: Item ::
      Snapshot(rs, owners, holders, x) && |holders| >= w && Succeeds(Gather(rs, r), r) ==>
        AtLeast(Gather(rs, r).chosen.value, x)
  }

  /** The arithmetic condition is exact. */
  lemma QuorumIntersectionIff(owners: set<NodeID>, r: nat, w: nat)
    requires 1 <= r <= |owners| && w <= |owners|
    ensures AlwaysSeen(owners, r, w) <==> r + w > |owners|
  {
    if r + w > |owners| {
      forall rs, holders, x: Item
        | Snapshot(rs, owners, holders, x) && |holders| >= w && Succeeds(Gather(rs, r), r)
        ensures AtLeast(Gather(rs, r).chosen.value, x)
      {
        QuorumIntersection(rs, owners, holders, x, r, w);
      }
    } else {
      StaleRead(owners, r, w);
    }
  }

  lemma {:induction false} Subset(s: set<NodeID>, n: nat) returns (t: set<NodeID>)
    requires n <= |s|
    ensures t <= s && |t| == n
  {
    if n == 0 {
      t := {};
    } else {
      var x :| x in s;
      var t' := Subset(s - {x}, n - 1);
      t := t' + {x};
    }
  }

  /** Answers of a set of owners, all alike. */
  lemma {:induction false} Answers(s: set<NodeID>, it: Item) returns (rs: seq<Response>)
    ensures DistinctOwners(rs) && |rs| == |s|
    ensures forall r :: r in rs <==> r.owner in s && r.item == Some(it)
  {
    if s == {} {
      rs := [];
    } else {
      var x :| x in s;
      var rest := Answers(s - {x}, it);
      rs := [Response(x, Some(it))] + rest;
    }
  }

  lemma {:induction false} UniformAbsorb(rs: seq<Response>, it: Item)
    requires rs != [] && forall r :: r in rs ==> r.item == Some(it)
    ensures AbsorbAll(rs).acks == |rs| && AbsorbAll(rs).chosen == Some(it)
  {
    var init, last := rs[..|rs| - 1], rs[|rs| - 1];
    assert last in rs;
    if init != [] {
      UniformAbsorb(init, it);
      AtLeastTotal(it, it);
    } else {
      assert AbsorbAll(init) == START;
    }
  }

  /** With r + w at most n, a read served by the other owners misses the write. */
  lemma StaleRead(owners: set<NodeID>, r: nat, w: nat)
    requires 1 <= r && r + w <= |owners|
    ensures !AlwaysSeen(owners, r, w)
  {
    var new', old' := Item("k", "new", 1, ""), Item("k", "old", 0, "");
    var holders := Subset(owners, w);
    assert |owners - holders| == |owners| - w;
    var before := Answers(owners - holders, old');
    var after := Answers(holders, new');
    SplitSnapshot(owners, holders, before, after, old', new');
    OldAnswersFirst(before, after, old', r);
    Missed(before + after, owners, holders, new', r, w);
  }

  lemma Missed(rs: seq<Response>, owners: set<NodeID>, holders: set<NodeID>, x: Item, r: nat, w: nat)
    requires Snapshot(rs, owners, holders, x) && |holders| >= w && Succeeds(Gather(rs, r), r)
    requires !AtLeast(Gather(rs, r).chosen.value, x)
    ensures !AlwaysSeen(owners, r, w)
  {
  }

  lemma SplitSnapshot(owners: set<NodeID>, holders: set<NodeID>, before: seq<Response>, after: seq<Response>, old': Item, new': Item)
    requires holders <= owners && DistinctOwners(before) && DistinctOwners(after)
    requires forall r :: r in before <==> r.owner in owners - holders && r.item == Some(old')
    requires forall r :: r in after <==> r.owner in holders && r.item == Some(new')
    ensures Snapshot(before + after, owners, holders, new')
  {
    var rs := before + after;
    forall o | o in owners ensures exists a :: a in rs && a.owner == o {
      assert (if o in holders then Response(o, Some(new')) else Response(o, Some(old'))) in rs;
    }
    forall i, j | 0 <= i < j < |rs| ensures rs[i].owner != rs[j].owner {
      if i < |before| <= j {
        assert before[i] in before && after[j - |before|] in after;
      }
    }
    AtLeastTotal(new', new');
  }

  lemma OldAnswersFirst(before: seq<Response>, after: seq<Response>, it: Item, r: nat)
    requires 1 <= r <= |before| && forall a :: a in before ==> a.item == Some(it)
    ensures Succeeds(Gather(before + after, r), r) && Gather(before + after, r).chosen == Some(it)
  {
    var rs := before + after;
    var n := Consumed(rs, r, 0);
    assert rs[..r] == before[..r];
    UniformAbsorb(before[..r], it);
    assert Satisfied(AbsorbAll(rs[..r]), r);
    assert AbsorbAll(rs[..0]) == START;
    assert 0 < n <= r;
    assert rs[..n] == before[..n];
    UniformAbsorb(before[..n], it);
  }

  /** The level pairs whose read and write sets overlap for n owners. */
  lemma LevelsOverlapIff(n: nat, read: Level, write: Level)
    requires n >= 1
    ensures RequiredAcks(n, read) + RequiredAcks(n, write) > n <==>
            || read.All? || write.All? || (read.Majority? && write.Majority?) || n == 1
            || (n == 2 && (read.Majority? || write.Majority?))
  {
  }

  // ---------- the cluster ----------

  /** Items of each node, and what a call sees of the network for one key. */
  type Stores = map<NodeID, map<Key, Item>>

  datatype Net = Net(reach: set<NodeID>, accepts: set<NodeID>)

  function Held(c: Stores, n: NodeID, k: Key): Option<Item> {
    if n in c && k in c[n] then Some(c[n][k]) else None
  }

  /** applySet on one node: overwrite, no version comparison. */
  function Put(c: Stores, n: NodeID, it: Item): Stores {
    if n in c then c[n := c[n][it.key := it]] else c
  }

  /** ForwardSet without fan-out: unreachable nodes fail, non-owners drop the write silently. */
  function Forward(c: Stores, net: Net, to: NodeID, it: Item): Stores {
    if to in net.reach && to in net.accepts then Put(c, to, it) else c
  }

  function FetchOwner(c: Stores, net: Net, self: NodeID, k: Key, owner: NodeID): Response {
    Response(owner, if owner == self || owner in net.reach then Held(c, owner, k) else None)
  }

  function Fetches(c: Stores, net: Net, self: NodeID, k: Key, order: seq<NodeID>): seq<Response> {
    seq(|order|, i requires 0 <= i < |order| => FetchOwner(c, net, self, k, order[i]))
  }

  function RepairOne(c: Stores, net: Net, self: NodeID, chosen: Item, owner: NodeID): Stores {
    if owner != self then Forward(c, net, owner, chosen)
    else
      var local := Held(c, self, chosen.key);
      if local.None? || Beats(chosen, local.value) then Put(c, self, chosen) else c
  }

  function RepairAll(c: Stores, net: Net, self: NodeID, chosen: Item, owners: seq<NodeID>): Stores {
    if owners == [] then c
    else RepairOne(RepairAll(c, net, self, chosen, owners[..|owners| - 1]), net, self, chosen, owners[|owners| - 1])
  }

  /** Targeted repair of the remote owners listed as stale. */
  function RepairStale(c: Stores, net: Net, self: NodeID, chosen: Item, stale: seq<NodeID>): Stores {
    if stale == [] then c
    else
      var c' := RepairStale(c, net, self, chosen, stale[..|stale| - 1]);
      if stale[|stale| - 1] == self then c' else Forward(c', net, stale[|stale| - 1], chosen)
  }

  /** The cluster after a successful read: targeted repairs first, then every owner. */
  function Repaired(c: Stores, net: Net, self: NodeID, st: Progress, owners: seq<NodeID>): Stores
    requires st.chosen.Some?
  {
    RepairAll(RepairStale(c, net, self, st.chosen.value, st.stale), net, self, st.chosen.value, owners)
  }

  // ---------- the read methods ----------

  /** Sequential gathering: ask the owners in order until satisfied. */
  method CollectQuorum(c: Stores, net: Net, self: NodeID, k: Key, owners: seq<NodeID>, needed: nat) returns (st: Progress)
    requires needed > 0
    ensures st == Gather(Fetches(c, net, self, k, owners), needed)
  {
    ghost var rs := Fetches(c, net, self, k, owners);
    var chosen: Option<Item>, acks, stale := None, 0, [];
    assert rs[..0] == [];
    for i := 0 to |owners|
      invariant Progress(chosen, acks, stale) == AbsorbAll(rs[..i])
      invariant !Satisfied(AbsorbAll(rs[..i]), needed)
      invariant Consumed(rs, needed, 0) == Consumed(rs, needed, i)
    {
      var r := FetchOwner(c, net, self, k, owners[i]);
      assert rs[..i + 1][..i] == rs[..i] && rs[..i + 1][i] == r;
      if r.item.Some? {
        var prev := chosen;
        chosen := ChooseNewer(prev, r.item);
        acks := acks + 1;
        if prev.Some? && Beats(r.item.value, prev.value) {
          stale := stale + [owners[i]];
        }
        if acks >= needed && chosen.Some? {
          return Progress(chosen, acks, stale);
        }
      }
    }
    assert rs[..|owners|] == rs;
    st := Progress(chosen, acks, stale);
  }

  method RepairReplicas(c: Stores, net: Net, self: NodeID, chosen: Item, owners: seq<NodeID>) returns (c': Stores)
    ensures c' == RepairAll(c, net, self, chosen, owners)
  {
    c' := c;
    for i := 0 to |owners|
      invariant c' == RepairAll(c, net, self, chosen, owners[..i])
    {
      assert owners[..i + 1][..i] == owners[..i];
      if owners[i] == self {
        var local := Held(c', self, chosen.key);
        if local.None? || local.value.version < chosen.version
           || (local.value.version == chosen.version && Less(chosen.origin, local.value.origin)) {
          c' := Put(c', self, chosen);
        }
      } else {
        c' := Forward(c', net, owners[i], chosen);
      }
    }
    assert owners[..|owners|] == owners;
  }

  method RepairStaleOwners(c: Stores, net: Net, self: NodeID, chosen: Item, stale: seq<NodeID>) returns (c': Stores)
    ensures c' == RepairStale(c, net, self, chosen, stale)
  {
    c' := c;
    for i := 0 to |stale|
      invariant c' == RepairStale(c, net, self, chosen, stale[..i])
    {
      assert stale[..i + 1][..i] == stale[..i];
      if stale[i] != self {
        c' := Forward(c', net, stale[i], chosen);
      }
    }
    assert stale[..|stale|] == stale;
  }

  method GetWithConsistency(c: Stores, net: Net, self: NodeID, k: Key, owners: seq<NodeID>, lvl: Level)
    returns (c': Stores, res: Option<Item>)
    requires owners != [] && !lvl.One?
    ensures var needed := RequiredAcks(|owners|, lvl);
            var st := Gather(Fetches(c, net, self, k, owners), needed);
            if Succeeds(st, needed) then res == st.chosen && c' == Repaired(c, net, self, st, owners)
            else res == None && c' == c
  {
    var needed := RequiredAcks(|owners|, lvl);
    var st := CollectQuorum(c, net, self, k, owners, needed);
    if st.acks < needed || st.chosen.None? {
      return c, None;
    }
    c' := RepairStaleOwners(c, net, self, st.chosen.value, st.stale);
    c' := RepairReplicas(c', net, self, st.chosen.value, owners);
    res := st.chosen;
  }

  /** Parallel reads: answers are consumed in the order they arrive, any permutation of the owners. */
  method GetWithConsistencyParallel(c: Stores, net: Net, self: NodeID, k: Key, owners: seq<NodeID>,
                                    arrivals: seq<NodeID>, lvl: Level)
    returns (c': Stores, res: Option<Item>)
    requires owners != [] && !lvl.One? && multiset(arrivals) == multiset(owners)
    ensures var needed := RequiredAcks(|owners|, lvl);
            var st := Gather(Fetches(c, net, self, k, arrivals), needed);
            if Succeeds(st, needed) then res == st.chosen && c' == Repaired(c, net, self, st, owners)
            else res == None && c' == c
  {
    var needed := RequiredAcks(|owners|, lvl);
    var st := CollectQuorum(c, net, self, k, arrivals, needed);
    if st.acks < needed || st.chosen.None? {
      return c, None;
    }
    c' := RepairStaleOwners(c, net, self, st.chosen.value, st.stale);
    c' := RepairReplicas(c', net, self, st.chosen.value, owners);
    res := st.chosen;
  }

  // ---------- what repair leaves behind ----------

  lemma {:induction false} RepairAllEffect(c: Stores, net: Net, self: NodeID, chosen: Item, owners: seq<NodeID>, n: NodeID)
    requires self in c && forall o :: o in owners ==> o in c
    ensures var c' := RepairAll(c, net, self, chosen, owners);
            && c'.Keys == c.Keys
            && (forall k :: k != chosen.key ==> Held(c', n, k) == Held(c, n, k))
            && Held(c', n, chosen.key) ==
               if n !in owners then Held(c, n, chosen.key)
               else if n == self then
                 (if Held(c, n, chosen.key).None? || Beats(chosen, Held(c, n, chosen.key).value) then Some(chosen) else Held(c, n, chosen.key))
               else if n in net.reach && n in net.accepts then Some(chosen)
               else Held(c, n, chosen.key)
  {
    if owners != [] {
      var init, last := owners[..|owners| - 1], owners[|owners| - 1];
      assert owners == init + [last];
      RepairAllEffect(c, net, self, chosen, init, n);
      RepairAllEffect(c, net, self, chosen, init, self);
      AtLeastTotal(chosen, chosen);
    }
  }

  lemma {:induction false} RepairStaleEffect(c: Stores, net: Net, self: NodeID, chosen: Item, stale: seq<NodeID>, n: NodeID)
    requires forall o :: o in stale ==> o in c
    ensures var c' := RepairStale(c, net, self, chosen, stale);
            && c'.Keys == c.Keys
            && (forall k :: k != chosen.key ==> Held(c', n, k) == Held(c, n, k))
            && Held(c', n, chosen.key) ==
               if n in stale && n != self && n in net.reach && n in net.accepts then Some(chosen) else Held(c, n, chosen.key)
  {
    if stale != [] {
      var init, last := stale[..|stale| - 1], stale[|stale| - 1];
      assert stale == init + [last];
      RepairStaleEffect(c, net, self, chosen, init, n);
    }
  }

  lemma {:induction false} StaleAreConsumed(rs: seq<Response>, o: NodeID)
    requires o in AbsorbAll(rs).stale
    ensures exists r :: r in rs && r.owner == o
  {
    var init, last := rs[..|rs| - 1], rs[|rs| - 1];
    assert rs == init + [last];
    if o in AbsorbAll(init).stale {
      StaleAreConsumed(init, o);
      var r :| r in init && r.owner == o;
      assert r in rs;
    } else {
      assert last in rs;
    }
  }

  /** A read over the owners in the order `arrivals`. */
  ghost predicate ReadOf(c: Stores, net: Net, self: NodeID, k: Key, owners: seq<NodeID>, arrivals: seq<NodeID>, needed: nat) {
    && Distinct(owners) && multiset(arrivals) == multiset(owners) && owners != []
    && self in c && (forall o :: o in owners ==> o in c)
    && (forall n, j :: n in c && j in c[n] ==> c[n][j].key == j)
    && Succeeds(Gather(Fetches(c, net, self, k, arrivals), needed), needed)
  }

  lemma SameMembers(owners: seq<NodeID>, arrivals: seq<NodeID>)
    requires multiset(arrivals) == multiset(owners)
    ensures |arrivals| == |owners| && forall o :: o in arrivals <==> o in owners
  {
    assert |arrivals| == |multiset(arrivals)| == |multiset(owners)| == |owners|;
    assert forall o :: o in arrivals <==> o in multiset(arrivals);
    assert forall o :: o in owners <==> o in multiset(owners);
  }

  lemma ReadFacts(c: Stores, net: Net, self: NodeID, k: Key, owners: seq<NodeID>, arrivals: seq<NodeID>, needed: nat)
    requires ReadOf(c, net, self, k, owners, arrivals, needed)
    ensures var rs := Fetches(c, net, self, k, arrivals);
            var st := Gather(rs, needed);
            && DistinctOwners(rs) && |rs| == |owners|
            && (forall o :: o in arrivals <==> o in owners)
            && st.chosen.value.key == k
            && (forall o :: o in st.stale ==> o in owners)
  {
    var rs := Fetches(c, net, self, k, arrivals);
    SameMembers(owners, arrivals);
    DistinctPermutation(owners, arrivals);
    var used := rs[..Consumed(rs, needed, 0)];
    AbsorbAllSummary(used);
    hide AbsorbAll;
    hide Consumed;
    var st := Gather(rs, needed);
    var r :| r in used && r.item == st.chosen;
    forall o | o in st.stale ensures o in owners {
      StaleAreConsumed(used, o);
      var q :| q in used && q.owner == o;
    }
  }

  /**
   After a successful read each owner that could be told holds the choice; the reader itself, if an owner, keeps
   anything at least as new. No other node and no other key changes.
   */
  lemma RepairedEffect(c: Stores, net: Net, self: NodeID, k: Key, owners: seq<NodeID>, arrivals: seq<NodeID>, needed: nat, n: NodeID)
    requires ReadOf(c, net, self, k, owners, arrivals, needed)
    ensures var st := Gather(Fetches(c, net, self, k, arrivals), needed);
            var c' := Repaired(c, net, self, st, owners);
            && c'.Keys == c.Keys
            && (forall j :: j != k ==> Held(c', n, j) == Held(c, n, j))
            && Held(c', n, k) ==
               if n !in owners || (n != self && !(n in net.reach && n in net.accepts)) then Held(c, n, k)
               else if n == self && Held(c, n, k).Some? && AtLeast(Held(c, n, k).value, st.chosen.value) then Held(c, n, k)
               else st.chosen
  {
    ReadFacts(c, net, self, k, owners, arrivals, needed);
    var st := Gather(Fetches(c, net, self, k, arrivals), needed);
    hide Gather;
    var it := st.chosen.value;
    RepairStaleEffect(c, net, self, it, st.stale, n);
    RepairAllEffect(RepairStale(c, net, self, it, st.stale), net, self, it, owners, n);
    hide RepairAll;
    hide RepairStale;
  }

  /** An ALL read asks every owner, so its choice is the newest item any owner holds. */
  lemma AllReadChoosesMaximum(c: Stores, net: Net, self: NodeID, k: Key, owners: seq<NodeID>, arrivals: seq<NodeID>, o: NodeID)
    requires ReadOf(c, net, self, k, owners, arrivals, |owners|) && o in owners
    ensures var st := Gather(Fetches(c, net, self, k, arrivals), |owners|);
            Held(c, o, k).Some? && AtLeast(st.chosen.value, Held(c, o, k).value)
  {
    ReadFacts(c, net, self, k, owners, arrivals, |owners|);
    var rs := Fetches(c, net, self, k, arrivals);
    var used := rs[..Consumed(rs, |owners|, 0)];
    AbsorbAllSummary(used);
    // acks == number of owners, so every owner answered
    var all := set x | x in owners;
    DistinctSize(owners);
    assert Answered(used) <= all;
    if o !in Answered(used) {
      SubsetSize(Answered(used), all - {o});
    }
    var r :| r in used && r.item.Some? && r.owner == o;
  }

  /**
   ALL-read convergence: with every owner reachable and agreeing on the ring, a successful ALL read
   leaves every owner at the maximum (version, origin) any owner held before.
   */
  lemma AllReadConverges(c: Stores, net: Net, self: NodeID, k: Key, owners: seq<NodeID>, arrivals: seq<NodeID>, n: NodeID, o: NodeID)
    requires ReadOf(c, net, self, k, owners, arrivals, |owners|) && n in owners && o in owners
    requires forall m :: m in owners && m != self ==> m in net.reach && m in net.accepts
    ensures var st := Gather(Fetches(c, net, self, k, arrivals), |owners|);
            var after := Held(Repaired(c, net, self, st, owners), n, k);
            && after.Some?
            && after.value.version == st.chosen.value.version && after.value.origin == st.chosen.value.origin
            && Held(c, o, k).Some? && AtLeast(after.value, Held(c, o, k).value)
  {
    RepairedEffect(c, net, self, k, owners, arrivals, |owners|, n);
    AllReadChoosesMaximum(c, net, self, k, owners, arrivals, o);
    AllReadChoosesMaximum(c, net, self, k, owners, arrivals, n);
    var st := Gather(Fetches(c, net, self, k, arrivals), |owners|);
    var after := Held(Repaired(c, net, self, st, owners), n, k);
    AtLeastTotal(after.value, st.chosen.value);
    AtLeastTransitive(after.value, st.chosen.value, Held(c, o, k).value);
  }

  /** No owner ends below what it held. */
  ghost predicate NoRegress(c: Stores, c': Stores, owners: seq<NodeID>, k: Key) {
    forall o :: o in owners && Held(c, o, k).Some? ==> Held(c', o, k).Some? && AtLeast(Held(c', o, k).value, Held(c, o, k).value)
  }

  /**
   Repair sends the choice without comparing versions, so a read below ALL can push an owner it did not
   ask backwards: it does so exactly when some remote owner holds something newer than the choice.
   */
  lemma ReadRegressesIff(c: Stores, net: Net, self: NodeID, k: Key, owners: seq<NodeID>, arrivals: seq<NodeID>, needed: nat)
    requires ReadOf(c, net, self, k, owners, arrivals, needed)
    requires forall m :: m in owners && m != self ==> m in net.reach && m in net.accepts
    ensures var st := Gather(Fetches(c, net, self, k, arrivals), needed);
            NoRegress(c, Repaired(c, net, self, st, owners), owners, k) <==>
            !exists o :: o in owners && o != self && Held(c, o, k).Some? && Beats(Held(c, o, k).value, st.chosen.value)
  {
    var st := Gather(Fetches(c, net, self, k, arrivals), needed);
    var c' := Repaired(c, net, self, st, owners);
    forall o | o in owners
      ensures o != self ==> Held(c', o, k) == st.chosen
      ensures o == self && Held(c, o, k).Some? ==> Held(c', o, k).Some? && AtLeast(Held(c', o, k).value, Held(c, o, k).value)
    {
      RepairedEffect(c, net, self, k, owners, arrivals, needed, o);
      if o == self && Held(c, o, k).Some? {
        AtLeastTotal(Held(c, o, k).value, st.chosen.value);
        AtLeastTotal(Held(c, o, k).value, Held(c, o, k).value);
      }
    }
  }

  /** The regression is real: three owners, a majority read that meets the two older copies first. */
  lemma MajorityReadCanRegress(old': Item, new': Item)
    requires old'.key == new'.key == "k" && Beats(new', old')
    ensures var c: Stores := map["a" := map["k" := old'], "b" := map["k" := old'], "c" := map["k" := new'], "r" := map[]];
            var owners := ["a", "b", "c"];
            var net := Net({"a", "b", "c"}, {"a", "b", "c"});
            var st := Gather(Fetches(c, net, "r", "k", owners), RequiredAcks(3, Majority));
            && st.chosen == Some(old')
            && !NoRegress(c, Repaired(c, net, "r", st, owners), owners, "k")
  {
    var c: Stores := map["a" := map["k" := old'], "b" := map["k" := old'], "c" := map["k" := new'], "r" := map[]];
    var owners := ["a", "b", "c"];
    var net := Net({"a", "b", "c"}, {"a", "b", "c"});
    var rs := Fetches(c, net, "r", "k", owners);
    TwoOldFirst(rs, old');
    assert multiset(owners) == multiset(owners);
    assert ReadOf(c, net, "r", "k", owners, owners, 2);
    assert "c" in owners && Held(c, "c", "k") == Some(new');
    ReadRegressesIff(c, net, "r", "k", owners, owners, 2);
  }

  lemma TwoOldFirst(rs: seq<Response>, old': Item)
    requires |rs| == 3 && rs[0].item == rs[1].item == Some(old')
    ensures Gather(rs, 2).chosen == Some(old') && Gather(rs, 2).acks == 2
  {
    assert rs[..2] == [rs[0], rs[1]] && rs[..1] == [rs[0]];
    UniformAbsorb(rs[..1], old');
    UniformAbsorb(rs[..2], old');
    assert AbsorbAll(rs[..0]) == START;
    assert Consumed(rs, 2, 0) == 2;
  }
}
