/**
 Quorum writes (pkg/backend/dist_memory.go, setImpl) and what reads see afterwards.

 A node writes as primary, or as a promoted replica when the primary cannot be reached; otherwise it
 hands the item to the primary, which stores it as received.
 */
module Writes {
  import opened Items
  import opened Ring
  import opened Quorum
  import opened Reads
  import opened Seqs

  datatype Result = Draining | NotOwner | ForwardFailed | Forwarded | QuorumFailed | Stored

  datatype Fanout = Fanout(stores: Stores, acks: nat, hinted: seq<NodeID>)

  /** Replication fan-out: a node that cannot be reached gets a hint; every other call counts as an ack. */
  function Replicate(c: Stores, net: Net, self: NodeID, it: Item, targets: seq<NodeID>): Fanout {
    if targets == [] then Fanout(c, 0, [])
    else
      var f := Replicate(c, net, self, it, targets[..|targets| - 1]);
      var o := targets[|targets| - 1];
      if o == self then f
      else if o in net.reach then Fanout(Forward(f.stores, net, o, it), f.acks + 1, f.hinted)
      else f.(hinted := f.hinted + [o])
  }

  method ReplicateTo(c: Stores, net: Net, self: NodeID, it: Item, targets: seq<NodeID>) returns (f: Fanout)
    ensures f == Replicate(c, net, self, it, targets)
  {
    var c', acks, hinted := c, 0, [];
    for i := 0 to |targets|
      invariant Fanout(c', acks, hinted) == Replicate(c, net, self, it, targets[..i])
    {
      assert targets[..i + 1][..i] == targets[..i];
      if targets[i] != self {
        if targets[i] in net.reach {
          c', acks := Forward(c', net, targets[i], it), acks + 1;
        } else {
          hinted := hinted + [targets[i]];
        }
      }
    }
    assert targets[..|targets|] == targets;
    f := Fanout(c', acks, hinted);
  }

  /** A forwarded arrival that the primary fans out to the other owners: no version is assigned. */
  function ForwardToPrimary(c: Stores, net: Net, primaryNet: Net, owners: seq<NodeID>, it: Item): Stores
    requires owners != []
  {
    if owners[0] in net.accepts then Replicate(Put(c, owners[0], it), primaryNet, owners[0], it, owners[1..]).stores else c
  }

  /** `self` takes the primary's role: it is the primary, or a replica whose forward failed. */
  predicate ActsAsPrimary(net: Net, self: NodeID, owners: seq<NodeID>)
    requires owners != []
  {
    owners[0] == self || (owners[0] !in net.reach && self in owners[1..])
  }

  /** The targets that acknowledge. */
  ghost function Acked(net: Net, self: NodeID, targets: seq<NodeID>): set<NodeID> {
    set o | o in targets && o != self && o in net.reach
  }

  lemma ForwardAt(c: Stores, net: Net, o: NodeID, it: Item, n: NodeID, k: Key)
    ensures Forward(c, net, o, it).Keys == c.Keys
    ensures Held(Forward(c, net, o, it), n, k) ==
            if k == it.key && n == o && n in c && n in net.reach && n in net.accepts then Some(it) else Held(c, n, k)
  {
  }

  /** What every node holds of every key after a fan-out. */
  lemma {:induction false} ReplicateAt(c: Stores, net: Net, self: NodeID, it: Item, targets: seq<NodeID>, n: NodeID, k: Key)
    ensures var f := Replicate(c, net, self, it, targets);
            && f.stores.Keys == c.Keys
            && Held(f.stores, n, k) ==
               if k == it.key && n in c && n in Acked(net, self, targets) && n in net.accepts then Some(it) else Held(c, n, k)
  {
    if targets != [] {
      var init, last := targets[..|targets| - 1], targets[|targets| - 1];
      assert targets == init + [last];
      ReplicateAt(c, net, self, it, init, n, k);
      ForwardAt(Replicate(c, net, self, it, init).stores, net, last, it, n, k);
      hide Forward;
      hide Held;
    }
  }

  lemma ForwardStores(c: Stores, net: Net, primaryNet: Net, owners: seq<NodeID>, it: Item)
    requires owners != []
    ensures var c' := ForwardToPrimary(c, net, primaryNet, owners, it);
            c'.Keys == c.Keys && forall n, k ::
              Held(c', n, k) ==
                if k == it.key && n in c && owners[0] in net.accepts
                   && (n == owners[0] || (n in owners && n in primaryNet.reach && n in primaryNet.accepts))
                then Some(it) else Held(c, n, k)
  {
    assert owners == [owners[0]] + owners[1..];
    var c' := ForwardToPrimary(c, net, primaryNet, owners, it);
    ReplicateAt(Put(c, owners[0], it), primaryNet, owners[0], it, owners[1..], owners[0], it.key);
    forall n, k
      ensures Held(c', n, k) ==
              if k == it.key && n in c && owners[0] in net.accepts
                 && (n == owners[0] || (n in owners && n in primaryNet.reach && n in primaryNet.accepts))
              then Some(it) else Held(c, n, k)
    {
      ReplicateAt(Put(c, owners[0], it), primaryNet, owners[0], it, owners[1..], n, k);
    }
  }

  /** A write as primary: stored here and, with a transport, sent to the other owners. */
  function Written(c: Stores, connected: bool, net: Net, self: NodeID, owners: seq<NodeID>, it: Item): Fanout
    requires owners != []
  {
    if connected then Replicate(Put(c, self, it), net, self, it, if owners[0] == self then owners[1..] else owners)
    else Fanout(Put(c, self, it), 0, [])
  }

  lemma WrittenAt(c: Stores, connected: bool, net: Net, self: NodeID, owners: seq<NodeID>, it: Item, n: NodeID, k: Key)
    requires owners != [] && self in c
    ensures var f := Written(c, connected, net, self, owners, it);
            && f.stores.Keys == c.Keys
            && Held(f.stores, n, k) ==
               if k == it.key && n in c && (n == self || (connected && n in owners && n in net.reach && n in net.accepts))
               then Some(it) else Held(c, n, k)
  {
    assert owners == [owners[0]] + owners[1..];
    if connected {
      ReplicateAt(Put(c, self, it), net, self, it, if owners[0] == self then owners[1..] else owners, n, k);
    }
  }

  lemma WrittenCounts(c: Stores, connected: bool, net: Net, self: NodeID, owners: seq<NodeID>, it: Item)
    requires owners != [] && Distinct(owners)
    ensures var f := Written(c, connected, net, self, owners, it);
            && f.acks == |set o | o in owners && connected && o != self && o in net.reach|
            && forall o :: o in f.hinted <==> o in owners && connected && o != self && o !in net.reach
  {
    var targets := if owners[0] == self then owners[1..] else owners;
    assert owners == [owners[0]] + owners[1..];
    if connected {
      ReplicateCounts(Put(c, self, it), net, self, it, targets);
      assert Acked(net, self, targets) == set o | o in owners && connected && o != self && o in net.reach;
    } else {
      assert (set o | o in owners && connected && o != self && o in net.reach) == {};
    }
  }

  /**
   One Set at node `self`. `version` is its version counter, `connected` whether it has a transport, `net`
   what that reaches, `primaryNet` what the primary reaches when it fans out a forwarded write. Without a
   transport nothing is forwarded, replicated or hinted.
   */
  method Set(c: Stores, draining: bool, connected: bool, net: Net, primaryNet: Net, self: NodeID, version: nat,
             owners: seq<NodeID>, item: Item, lvl: Level)
    returns (c': Stores, version': nat, outcome: Result, hinted: seq<NodeID>)
    requires self in c
    ensures outcome.Draining? <==> draining
    ensures outcome.NotOwner? <==> !draining && (owners == [] || (!connected && owners[0] != self))
    ensures outcome.Draining? || outcome.NotOwner? || outcome.ForwardFailed? ==> c' == c && version' == version && hinted == []
    ensures outcome.Forwarded? <==> !draining && owners != [] && connected && owners[0] != self && owners[0] in net.reach
    ensures outcome.Forwarded? ==> c' == ForwardToPrimary(c, net, primaryNet, owners, item) && version' == version && hinted == []
    ensures outcome.Forwarded? ==> c'.Keys == c.Keys && forall n, k ::
              Held(c', n, k) ==
                if k == item.key && n in c && owners[0] in net.accepts
                   && (n == owners[0] || (n in owners && n in primaryNet.reach && n in primaryNet.accepts))
                then Some(item) else Held(c, n, k)
    ensures outcome.Stored? || outcome.QuorumFailed? <==>
              !draining && owners != [] && (owners[0] == self || (connected && owners[0] !in net.reach && self in owners[1..]))
    ensures outcome.Stored? || outcome.QuorumFailed? ==>
              var it := Item(item.key, item.value, version + 1, self);
              var f := Written(c, connected, net, self, owners, it);
              && version' == version + 1 && c' == f.stores && hinted == f.hinted
              && (outcome.Stored? <==> 1 + f.acks >= RequiredAcks(|owners|, lvl))
    ensures outcome.Stored? || outcome.QuorumFailed? ==> c'.Keys == c.Keys && forall n, k ::
              Held(c', n, k) ==
                if k == item.key && n in c && (n == self || (connected && n in owners && n in net.reach && n in net.accepts))
                then Some(Item(item.key, item.value, version + 1, self)) else Held(c, n, k)
    ensures (outcome.Stored? || outcome.QuorumFailed?) && Distinct(owners) ==>
              var acked := set o | o in owners && connected && o != self && o in net.reach;
              && (outcome.Stored? <==> 1 + |acked| >= RequiredAcks(|owners|, lvl))
              && (forall o :: o in hinted <==> o in owners && connected && o != self && o !in net.reach)
  {
    c', version', hinted := c, version, [];
    if draining {
      return c', version', Draining, hinted;
    }
    if |owners| == 0 {
      return c', version', NotOwner, hinted;
    }
    var promoted := false;
    if owners[0] != self {
      if !connected {
        return c', version', NotOwner, hinted;
      }
      if owners[0] in net.reach {
        ForwardStores(c, net, primaryNet, owners, item);
        if owners[0] in net.accepts {
          c' := Put(c, owners[0], item);
          var f := ReplicateTo(c', primaryNet, owners[0], item, owners[1..]);
          c' := f.stores;
        }
        return c', version', Forwarded, hinted;
      }
      if self !in owners[1..] {
        return c', version', ForwardFailed, hinted;
      }
      promoted := true;
    }
    version' := version + 1;
    var it := item.(version := version', origin := self);
    c' := Put(c, self, it);
    var acks := 1;
    WrittenAt(c, connected, net, self, owners, it, self, item.key);
    forall n, k
      ensures Held(Written(c, connected, net, self, owners, it).stores, n, k) ==
              if k == item.key && n in c && (n == self || (connected && n in owners && n in net.reach && n in net.accepts))
              then Some(it) else Held(c, n, k)
    {
      WrittenAt(c, connected, net, self, owners, it, n, k);
    }
    if Distinct(owners) {
      WrittenCounts(c, connected, net, self, owners, it);
    }
    if connected {
      var f := ReplicateTo(c', net, self, it, if promoted then owners else owners[1..]);
      c', hinted := f.stores, f.hinted;
      acks := acks + f.acks;
    }
    outcome := if acks < RequiredAcks(|owners|, lvl) then QuorumFailed else Stored;
  }

  lemma {:induction false} ReplicateEffect(c: Stores, net: Net, self: NodeID, it: Item, targets: seq<NodeID>, n: NodeID)
    requires Distinct(targets) && forall o :: o in targets ==> o in c
    ensures var f := Replicate(c, net, self, it, targets);
            && f.stores.Keys == c.Keys
            && f.acks == |Acked(net, self, targets)|
            && (forall o :: o in f.hinted <==> o in targets && o != self && o !in net.reach)
            && Held(f.stores, n, it.key) ==
               if n in Acked(net, self, targets) && n in net.accepts then Some(it) else Held(c, n, it.key)
  {
    hide Replicate;
    hide Acked;
    ReplicateCounts(c, net, self, it, targets);
    ReplicateAt(c, net, self, it, targets, n, it.key);
    AckedAreTargets(net, self, targets);
  }

  lemma AckedAreTargets(net: Net, self: NodeID, targets: seq<NodeID>)
    ensures forall o :: o in Acked(net, self, targets) ==> o in targets
  {
  }

  lemma {:induction false} ReplicateCounts(c: Stores, net: Net, self: NodeID, it: Item, targets: seq<NodeID>)
    requires Distinct(targets)
    ensures var f := Replicate(c, net, self, it, targets);
            && f.acks == |Acked(net, self, targets)|
            && (forall o :: o in f.hinted <==> o in targets && o != self && o !in net.reach)
  {
    if targets != [] {
      hide Acked;
      var init, last := targets[..|targets| - 1], targets[|targets| - 1];
      ReplicateCounts(c, net, self, it, init);
      AckedSnoc(net, self, targets);
      assert targets == init + [last];
    } else {
      assert Acked(net, self, targets) == {};
    }
  }

  lemma AckedSnoc(net: Net, self: NodeID, targets: seq<NodeID>)
    requires Distinct(targets) && targets != []
    ensures var init, last := targets[..|targets| - 1], targets[|targets| - 1];
            var acks := last != self && last in net.reach;
            && Acked(net, self, targets) == (if acks then Acked(net, self, init) + {last} else Acked(net, self, init))
            && |Acked(net, self, targets)| == |Acked(net, self, init)| + if acks then 1 else 0
  {
    var init, last := targets[..|targets| - 1], targets[|targets| - 1];
    assert targets == init + [last] && last !in init;
  }

  /** The owners that hold the item after a write at `self` with agreed ring views. */
  lemma WriteHolders(c: Stores, net: Net, self: NodeID, owners: seq<NodeID>, it: Item) returns (holders: set<NodeID>)
    requires owners != [] && Distinct(owners) && ActsAsPrimary(net, self, owners)
    requires self in c && (forall o :: o in owners ==> o in c && o in net.accepts)
    ensures var f := Replicate(Put(c, self, it), net, self, it, if owners[0] == self then owners[1..] else owners);
            && holders <= (set o | o in owners)
            && |holders| == 1 + f.acks
            && (forall o :: o in holders ==> Held(f.stores, o, it.key) == Some(it))
  {
    hide Replicate;
    var targets := if owners[0] == self then owners[1..] else owners;
    var c1 := Put(c, self, it);
    assert forall o :: o in targets ==> o in owners;
    holders := {self} + Acked(net, self, targets);
    ReplicateEffect(c1, net, self, it, targets, self);
    forall o | o in holders ensures Held(Replicate(c1, net, self, it, targets).stores, o, it.key) == Some(it) {
      ReplicateEffect(c1, net, self, it, targets, o);
    }
  }

  /** The stores right after an acting primary's Set. */
  function AfterWrite(c: Stores, net: Net, self: NodeID, owners: seq<NodeID>, it: Item): Fanout
    requires owners != []
  {
    Written(c, true, net, self, owners, it)
  }

  /** The owners an acting primary's Set reached, itself included. */
  ghost function Reached(net: Net, self: NodeID, owners: seq<NodeID>): set<NodeID>
    requires owners != []
  {
    {self} + Acked(net, self, if owners[0] == self then owners[1..] else owners)
  }

  lemma {:induction false} ReplicateKeyed(c: Stores, net: Net, self: NodeID, it: Item, targets: seq<NodeID>)
    requires Keyed(c)
    ensures Keyed(Replicate(c, net, self, it, targets).stores)
  {
    if targets != [] {
      ReplicateKeyed(c, net, self, it, targets[..|targets| - 1]);
    }
  }

  /** Exactly the reached nodes hold the new item; all others hold what they held. */
  lemma AfterWriteHeld(c: Stores, net: Net, self: NodeID, owners: seq<NodeID>, it: Item, n: NodeID)
    requires owners != [] && Distinct(owners) && self in c && (forall o :: o in owners ==> o in c && o in net.accepts)
    ensures var f := AfterWrite(c, net, self, owners, it);
            && f.stores.Keys == c.Keys
            && Held(f.stores, n, it.key) == if n in Reached(net, self, owners) then Some(it) else Held(c, n, it.key)
  {
    hide Replicate;
    var targets := if owners[0] == self then owners[1..] else owners;
    assert forall o :: o in targets ==> o in owners;
    ReplicateEffect(Put(c, self, it), net, self, it, targets, n);
  }

  /**
   Write then read: with agreed ring views, once a Set has been stored with W acknowledgements, every
   gathered read with R + W > n, by any node over any network in any arrival order, right after it or after
   any run of such reads and of ONE reads without further writes, returns the written item or a newer one.
   A read that returns its version and origin returns its value, unless an owner had used them already.
   */
  lemma WriteThenRead(c: Stores, net: Net, self: NodeID, version: nat, owners: seq<NodeID>, item: Item, write: Level,
                      gs: seq<GetCall>, g: GetCall)
    requires owners != [] && Distinct(owners) && ActsAsPrimary(net, self, owners) && Keyed(c)
    requires self in c && (forall o :: o in owners ==> o in c && o in net.accepts)
    requires !g.lvl.One? && Overlapping(c, owners, RequiredAcks(|owners|, write), g)
    requires forall i :: 0 <= i < |gs| ==> Overlapping(c, owners, RequiredAcks(|owners|, write), gs[i])
    ensures var it := Item(item.key, item.value, version + 1, self);
            var f := AfterWrite(c, net, self, owners, it);
            var needed := RequiredAcks(|owners|, g.lvl);
            var st := Outcome(AfterGets(f.stores, it.key, owners, gs), it.key, needed, g.call);
            && (1 + f.acks >= RequiredAcks(|owners|, write) && Satisfied(st, needed) ==> AtLeast(st.chosen.value, it))
            && (Satisfied(st, needed) && Unused(c, owners, item.key, version + 1, self)
                && st.chosen.value.version == version + 1 && st.chosen.value.origin == self ==>
                  st.chosen.value.value == item.value)
  {
    var it := Item(item.key, item.value, version + 1, self);
    var w := RequiredAcks(|owners|, write);
    var f := AfterWrite(c, net, self, owners, it);
    AfterWriteSane(c, net, self, owners, it);
    if 1 + f.acks >= w {
      AfterWriteHolders(c, net, self, owners, it);
      hide AfterWrite;
      RunSees(f.stores, owners, it, w, gs, g);
    }
    hide AfterWrite;
    if Unused(c, owners, item.key, version + 1, self) {
      AfterWriteSole(c, net, self, owners, it);
      RunReturnsValue(f.stores, owners, it, w, gs, g);
    }
  }

  /** No owner holds `k` under this version and origin. */
  ghost predicate Unused(c: Stores, owners: seq<NodeID>, k: Key, version: nat, origin: NodeID) {
    forall o :: o in owners && Held(c, o, k).Some? ==> !(Held(c, o, k).value.version == version && Held(c, o, k).value.origin == origin)
  }

  lemma AfterWriteSane(c: Stores, net: Net, self: NodeID, owners: seq<NodeID>, it: Item)
    requires owners != [] && Distinct(owners) && Keyed(c) && self in c && (forall o :: o in owners ==> o in c && o in net.accepts)
    ensures var c' := AfterWrite(c, net, self, owners, it).stores; Sane(c', owners) && c'.Keys == c.Keys
  {
    hide Replicate;
    AfterWriteHeld(c, net, self, owners, it, self);
    ReplicateKeyed(Put(c, self, it), net, self, it, if owners[0] == self then owners[1..] else owners);
  }

  lemma AfterWriteHolders(c: Stores, net: Net, self: NodeID, owners: seq<NodeID>, it: Item)
    requires owners != [] && Distinct(owners) && ActsAsPrimary(net, self, owners)
    requires self in c && (forall o :: o in owners ==> o in c && o in net.accepts)
    ensures var f := AfterWrite(c, net, self, owners, it); |AtOrAbove(f.stores, owners, it)| >= 1 + f.acks
  {
    hide Replicate;
    var f := AfterWrite(c, net, self, owners, it);
    var holders := WriteHolders(c, net, self, owners, it);
    AtLeastTotal(it, it);
    assert holders <= AtOrAbove(f.stores, owners, it);
    SubsetSize(holders, AtOrAbove(f.stores, owners, it));
  }

  lemma AfterWriteSole(c: Stores, net: Net, self: NodeID, owners: seq<NodeID>, it: Item)
    requires owners != [] && Distinct(owners) && self in c && (forall o :: o in owners ==> o in c && o in net.accepts)
    requires Unused(c, owners, it.key, it.version, it.origin)
    ensures Sole(AfterWrite(c, net, self, owners, it).stores, owners, it)
  {
    hide AfterWrite;
    hide Reached;
    var c' := AfterWrite(c, net, self, owners, it).stores;
    forall o | o in owners && Held(c', o, it.key).Some?
      ensures var y := Held(c', o, it.key).value; y.version == it.version && y.origin == it.origin ==> y == it
    {
      AfterWriteHeld(c, net, self, owners, it, o);
    }
  }

  lemma RunReturnsValue(c: Stores, owners: seq<NodeID>, it: Item, w: nat, gs: seq<GetCall>, g: GetCall)
    requires Sane(c, owners) && Sole(c, owners, it) && !g.lvl.One? && Overlapping(c, owners, w, g)
    requires forall i :: 0 <= i < |gs| ==> Overlapping(c, owners, w, gs[i])
    ensures var needed := RequiredAcks(|owners|, g.lvl);
            var st := Outcome(AfterGets(c, it.key, owners, gs), it.key, needed, g.call);
            Satisfied(st, needed) && st.chosen.value.version == it.version && st.chosen.value.origin == it.origin ==> st.chosen.value == it
  {
    ReadsKeepSole(c, owners, it, w, gs);
    var c' := AfterGets(c, it.key, owners, gs);
    var needed := RequiredAcks(|owners|, g.lvl);
    hide Outcome;
    hide AfterGets;
    hide Sole;
    if Satisfied(Outcome(c', it.key, needed, g.call), needed) {
      SoleRead(c', owners, it, needed, g.call);
    }
  }

  /**
   A ONE read right after a Set: over every network it is at or above the written item if and only if the
   reader was reached, or the copy it kept is not below it, or it has none and no unreached owner's copy is.
   */
  lemma OneReadAfterWriteIff(c: Stores, net: Net, self: NodeID, owners: seq<NodeID>, it: Item, reader: NodeID)
    requires owners != [] && Distinct(owners) && self in c && (forall o :: o in owners ==> o in c && o in net.accepts)
    ensures OneAlwaysSees(AfterWrite(c, net, self, owners, it).stores, reader, owners, it) <==>
            || reader in Reached(net, self, owners)
            || (if Held(c, reader, it.key).Some? then NotBelow(Held(c, reader, it.key), it)
                else forall o :: o in owners && o !in Reached(net, self, owners) ==> NotBelow(Held(c, o, it.key), it))
  {
    hide Reached;
    var c' := AfterWrite(c, net, self, owners, it).stores;
    OneSeesIff(c', reader, owners, it);
    AtLeastTotal(it, it);
    AfterWriteHeld(c, net, self, owners, it, reader);
    forall o ensures Held(c', o, it.key) == if o in Reached(net, self, owners) then Some(it) else Held(c, o, it.key) {
      AfterWriteHeld(c, net, self, owners, it, o);
    }
    hide AfterWrite;
    hide OneAlwaysSees;
  }

  /** Even an ALL write with every acknowledgement is missed by a ONE read at a node that kept an old copy. */
  lemma OneReadMissesAllWrite(it: Item, old': Item)
    requires it.key == old'.key && Beats(it, old')
    ensures var c: Stores := map["a" := map[], "b" := map[], "s" := map[it.key := old']];
            var net := Net({"a", "b"}, {"a", "b"});
            var f := AfterWrite(c, net, "a", ["a", "b"], it);
            1 + f.acks == RequiredAcks(2, All) && !OneAlwaysSees(f.stores, "s", ["a", "b"], it)
  {
    var c: Stores := map["a" := map[], "b" := map[], "s" := map[it.key := old']];
    var net := Net({"a", "b"}, {"a", "b"});
    OneReadAfterWriteIff(c, net, "a", ["a", "b"], it, "s");
    assert ["a", "b"][1..] == ["b"];
    ReplicateCounts(Put(c, "a", it), net, "a", it, ["b"]);
    assert Acked(net, "a", ["b"]) == {"b"};
  }

  /** A forwarded write is stored under the version it arrived with, on the primary and wherever the fan-out reached. */
  lemma ForwardedKeepsVersion(c: Stores, net: Net, primaryNet: Net, owners: seq<NodeID>, it: Item, o: NodeID)
    requires owners != [] && Distinct(owners) && owners[0] in net.accepts && o in owners
    requires forall x :: x in owners ==> x in c
    ensures Held(ForwardToPrimary(c, net, primaryNet, owners, it), o, it.key) ==
            if o == owners[0] || (o in primaryNet.reach && o in primaryNet.accepts) then Some(it) else Held(c, o, it.key)
  {
    var c1 := Put(c, owners[0], it);
    assert owners == [owners[0]] + owners[1..];
    ReplicateEffect(c1, primaryNet, owners[0], it, owners[1..], o);
  }

  /** The owners that hold a forwarded write: the primary and what its fan-out reached. */
  ghost function ForwardHolders(primaryNet: Net, owners: seq<NodeID>): set<NodeID>
    requires owners != []
  {
    set o | o in owners && (o == owners[0] || (o in primaryNet.reach && o in primaryNet.accepts))
  }

  /** Owners the write did not reach, by the copy they hold: any, a newer one, an older one. */
  ghost function Missed(c: Stores, primaryNet: Net, owners: seq<NodeID>, k: Key): set<NodeID>
    requires owners != []
  {
    set o | o in owners && o !in ForwardHolders(primaryNet, owners) && Held(c, o, k).Some?
  }

  ghost function MissedNewer(c: Stores, primaryNet: Net, owners: seq<NodeID>, it: Item): set<NodeID>
    requires owners != []
  {
    set o | o in Missed(c, primaryNet, owners, it.key) && Beats(Held(c, o, it.key).value, it)
  }

  ghost function MissedOlder(c: Stores, primaryNet: Net, owners: seq<NodeID>, it: Item): set<NodeID>
    requires owners != []
  {
    set o | o in Missed(c, primaryNet, owners, it.key) && Beats(it, Held(c, o, it.key).value)
  }

  /**
   When a forwarded write is visible: every successful read needing `needed` answers, over every network and
   arrival order, returns its version and origin if and only if no read can succeed at all, or no owner it
   missed holds a newer item and fewer than `needed` of them hold an older one.
   */
  lemma ForwardedVisibleIff(c: Stores, net: Net, primaryNet: Net, owners: seq<NodeID>, it: Item, needed: nat)
    requires owners != [] && Distinct(owners) && owners[0] in net.accepts && needed >= 1
    requires forall x :: x in owners ==> x in c
    ensures AlwaysReads(ForwardToPrimary(c, net, primaryNet, owners, it), owners, it, needed) <==>
            || |ForwardHolders(primaryNet, owners)| + |Missed(c, primaryNet, owners, it.key)| < needed
            || (MissedNewer(c, primaryNet, owners, it) == {} && |MissedOlder(c, primaryNet, owners, it)| < needed)
  {
    hide ForwardToPrimary;
    hide AlwaysReads;
    hide Held;
    var c' := ForwardToPrimary(c, net, primaryNet, owners, it);
    ReadsIff(c', owners, it, needed);
    forall o | o in owners
      ensures Held(c', o, it.key) == if o in ForwardHolders(primaryNet, owners) then Some(it) else Held(c, o, it.key)
    {
      ForwardedKeepsVersion(c, net, primaryNet, owners, it, o);
    }
    hide ForwardHolders;
    hide Missed;
    hide MissedNewer;
    hide MissedOlder;
    hide Holding;
    hide Newer;
    hide Older;
    ForwardedSets(c, c', primaryNet, owners, it);
  }

  lemma ForwardedSets(c: Stores, c': Stores, primaryNet: Net, owners: seq<NodeID>, it: Item)
    requires owners != []
    requires forall o :: o in owners ==>
               Held(c', o, it.key) == if o in ForwardHolders(primaryNet, owners) then Some(it) else Held(c, o, it.key)
    ensures |Holding(c', owners, it.key)| == |ForwardHolders(primaryNet, owners)| + |Missed(c, primaryNet, owners, it.key)|
    ensures Newer(c', owners, it) == MissedNewer(c, primaryNet, owners, it)
    ensures Older(c', owners, it) == MissedOlder(c, primaryNet, owners, it)
  {
    hide Held;
    hide Beats;
    AtLeastTotal(it, it);
    var holders, missed := ForwardHolders(primaryNet, owners), Missed(c, primaryNet, owners, it.key);
    assert Holding(c', owners, it.key) == holders + missed && holders !! missed;
  }

  /**
   So an acknowledged forwarded write can be invisible: if the primary's fan-out misses the two replicas
   and they hold anything newer than the version the item arrived with, a majority read returns the
   old item, whichever two owners answer first.
   */
  lemma ForwardedWriteCanBeInvisible(old': Item, it: Item, arrivals: seq<NodeID>)
    requires old'.key == it.key && Beats(old', it)
    requires multiset(arrivals) == multiset(["p", "q", "r"])
    ensures var c: Stores := map["p" := map[old'.key := old'], "q" := map[old'.key := old'], "r" := map[old'.key := old']];
            var owners := ["p", "q", "r"];
            var net := Net({"p", "q", "r"}, {"p", "q", "r"});
            var c' := ForwardToPrimary(c, net, Net({}, {"p", "q", "r"}), owners, it);
            && Held(c', "p", it.key) == Some(it)
            && Gather(Fetches(c', net, "s", it.key, arrivals), RequiredAcks(3, Majority)).chosen == Some(old')
  {
    var c: Stores := map["p" := map[old'.key := old'], "q" := map[old'.key := old'], "r" := map[old'.key := old']];
    var owners := ["p", "q", "r"];
    var net := Net({"p", "q", "r"}, {"p", "q", "r"});
    var c' := ForwardToPrimary(c, net, Net({}, {"p", "q", "r"}), owners, it);
    forall o | o in owners ensures Held(c', o, it.key) == Some(if o == "p" then it else old') {
      ForwardedKeepsVersion(c, net, Net({}, {"p", "q", "r"}), owners, it, o);
    }
    var rs := Fetches(c', net, "s", it.key, arrivals);
    assert |arrivals| == |multiset(arrivals)| == 3;
    DistinctPermutation(owners, arrivals);
    forall i | 0 <= i < 3 ensures rs[i].item == Some(if arrivals[i] == "p" then it else old') {
      assert arrivals[i] in multiset(arrivals);
    }
    assert arrivals[0] != "p" || arrivals[1] != "p";
    OldAmongTwo(rs, old', it);
  }

  lemma OldAmongTwo(rs: seq<Response>, old': Item, it: Item)
    requires |rs| == 3 && Beats(old', it)
    requires rs[0].item == Some(old') || rs[1].item == Some(old')
    requires rs[0].item == Some(old') || rs[0].item == Some(it)
    requires rs[1].item == Some(old') || rs[1].item == Some(it)
    ensures Gather(rs, 2).chosen == Some(old')
  {
    assert rs[..1][..0] == [] && rs[..2][..1] == rs[..1];
    assert AbsorbAll(rs[..0]) == START;
    AtLeastTotal(old', it);
    AtLeastTotal(old', old');
    assert AbsorbAll(rs[..1]).acks == 1;
    assert AbsorbAll(rs[..2]).acks == 2;
    assert Consumed(rs, 2, 0) == 2;
  }
}
