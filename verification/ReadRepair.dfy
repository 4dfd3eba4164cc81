/**
 The read-repair queue (pkg/backend/dist_read_repair.go) on values: per peer and key one pending repair,
 and the counters of collapsed, sent and dropped repairs.
 */
module RepairPolicy {
  import opened Items
  import opened Lex
  import opened Quorum

  type Peer = string
  type Entries = map<Peer, map<Key, Item>>

  /** `dropped` counts repairs flushed while no transport was configured; the source keeps no such counter. */
  datatype State = State(entries: Entries, coalesced: nat, batched: nat, dropped: nat)

  /** A nil item is None; `connected` says whether a flush found a transport. */
  datatype Event = Enqueue(peer: Peer, item: Option<Item>) | Flush(peer: Peer, connected: bool)

  function Of(e: Entries, p: Peer): map<Key, Item> {
    if p in e then e[p] else map[]
  }

  function Pending(s: State, p: Peer, k: Key): Option<Item> {
    if k in Of(s.entries, p) then Some(Of(s.entries, p)[k]) else None
  }

  function EnqueueOne(s: State, p: Peer, it: Item): State {
    var m := Of(s.entries, p);
    if it.key in m && !IsHigherVersion(it, m[it.key]) then s.(entries := s.entries[p := m], coalesced := s.coalesced + 1)
    else s.(entries := s.entries[p := m[it.key := it]], coalesced := s.coalesced + if it.key in m then 1 else 0)
  }

  function FlushPeer(s: State, p: Peer, connected: bool): State {
    var n := |Of(s.entries, p)|;
    if n == 0 then s
    else if connected then s.(entries := s.entries - {p}, batched := s.batched + n)
    else s.(entries := s.entries - {p}, dropped := s.dropped + n)
  }

  function Step(s: State, e: Event): State {
    match e
    case Enqueue(p, it) => if it.None? then s else EnqueueOne(s, p, it.value)
    case Flush(p, connected) => FlushPeer(s, p, connected)
  }

  function Run(es: seq<Event>): State {
    if es == [] then State(map[], 0, 0, 0) else Step(Run(es[..|es| - 1]), es[|es| - 1])
  }

  // ---------- what is pending ----------

  /** The items enqueued for a peer and key since that peer's last flush, in order. */
  function Enqueued(es: seq<Event>, p: Peer, k: Key): seq<Item> {
    if es == [] then []
    else
      var pre, e := es[..|es| - 1], es[|es| - 1];
      if e.Flush? && e.peer == p then []
      else if e.Enqueue? && e.peer == p && e.item.Some? && e.item.value.key == k then Enqueued(pre, p, k) + [e.item.value]
      else Enqueued(pre, p, k)
  }

  /** What the version order keeps of `r` and the items, one after the other. */
  function Offer(r: Option<Item>, xs: seq<Item>): Option<Item> {
    if xs == [] then r else ChooseNewer(Offer(r, xs[..|xs| - 1]), Some(xs[|xs| - 1]))
  }

  lemma OfferSnoc(r: Option<Item>, xs: seq<Item>, x: Item)
    ensures Offer(r, xs + [x]) == ChooseNewer(Offer(r, xs), Some(x))
  {
    assert (xs + [x])[..|xs|] == xs;
  }

  /** An offered sequence leaves one of its items, at or above all of them. */
  lemma {:induction false} OfferIsBest(xs: seq<Item>)
    ensures Offer(None, xs).None? <==> xs == []
    ensures Offer(None, xs).Some? ==>
              Offer(None, xs).value in xs && forall x :: x in xs ==> AtLeast(Offer(None, xs).value, x)
  {
    if xs != [] {
      var pre, x := xs[..|xs| - 1], xs[|xs| - 1];
      OfferIsBest(pre);
      var b, c := Offer(None, pre), Offer(None, xs);
      ChooseNewerBound(b, Some(x));
      forall y | y in xs ensures AtLeast(c.value, y) {
        if y in pre {
          AtLeastTransitive(c.value, b.value, y);
        } else {
          assert y == x;
        }
      }
      assert c.value in xs;
    }
  }

  /** What one event does to one pending repair. */
  lemma PendingStep(s: State, e: Event, p: Peer, k: Key)
    ensures Pending(Step(s, e), p, k) ==
            if e.peer != p then Pending(s, p, k)
            else if e.Flush? then None
            else if e.item.Some? && e.item.value.key == k then ChooseNewer(Pending(s, p, k), e.item)
            else Pending(s, p, k)
  {
    if e.Enqueue? && e.item.Some? && Pending(s, p, k).Some? {
      ComparisonsAgree(Pending(s, p, k).value, e.item.value);
    }
  }

  lemma {:induction false} PendingIsOffer(es: seq<Event>, p: Peer, k: Key)
    ensures Pending(Run(es), p, k) == Offer(None, Enqueued(es, p, k))
  {
    hide Step;
    hide Pending;
    hide ChooseNewer;
    if es == [] {
      NothingPending(p, k);
    } else {
      var pre, e := es[..|es| - 1], es[|es| - 1];
      PendingIsOffer(pre, p, k);
      PendingStep(Run(pre), e, p, k);
      if e.Enqueue? && e.item.Some? {
        OfferSnoc(None, Enqueued(pre, p, k), e.item.value);
      }
    }
  }

  lemma NothingPending(p: Peer, k: Key)
    ensures Pending(Run([]), p, k) == None
  {
  }

  /** Between flushes the pending repair is the best of all items enqueued for that peer and key, by the read order. */
  lemma PendingIsBest(es: seq<Event>, p: Peer, k: Key)
    ensures Pending(Run(es), p, k).None? <==> Enqueued(es, p, k) == []
    ensures Pending(Run(es), p, k).Some? ==>
              var b := Pending(Run(es), p, k).value;
              b in Enqueued(es, p, k) && forall x :: x in Enqueued(es, p, k) ==> AtLeast(b, x)
  {
    PendingIsOffer(es, p, k);
    OfferIsBest(Enqueued(es, p, k));
  }

  // ---------- what the peer ends with ----------

  /** Every item sent to the peer in turn; a receiver overwrites. */
  function SendAll(c: Stores, net: Net, p: Peer, xs: seq<Item>): Stores {
    if xs == [] then c else Forward(SendAll(c, net, p, xs[..|xs| - 1]), net, p, xs[|xs| - 1])
  }

  lemma {:induction false} SendAllIsLast(c: Stores, net: Net, p: Peer, xs: seq<Item>, k: Key)
    requires xs != [] && p in c && p in net.reach && p in net.accepts && forall x :: x in xs ==> x.key == k
    ensures SendAll(c, net, p, xs) == Put(c, p, xs[|xs| - 1])
  {
    var pre := xs[..|xs| - 1];
    if pre != [] {
      SendAllIsLast(c, net, p, pre, k);
      assert pre[|pre| - 1] in xs && xs[|xs| - 1] in xs;
      assert c[p][k := pre[|pre| - 1]][k := xs[|xs| - 1]] == c[p][k := xs[|xs| - 1]];
    } else {
      assert SendAll(c, net, p, pre) == c;
    }
  }

  /** `x` is at position `i`: above everything before it, at or above everything after it. */
  ghost predicate FirstBest(xs: seq<Item>, x: Item, i: nat) {
    && i < |xs| && xs[i] == x && (forall j :: 0 <= j < |xs| ==> AtLeast(x, xs[j])) && (forall j :: 0 <= j < i ==> Beats(x, xs[j]))
  }

  lemma {:induction false} OfferIsFirstBest(xs: seq<Item>) returns (i: nat)
    requires xs != []
    ensures Offer(None, xs).Some? && FirstBest(xs, Offer(None, xs).value, i)
  {
    var n := |xs| - 1;
    var pre, x := xs[..n], xs[n];
    AtLeastTotal(x, x);
    if pre == [] {
      i := 0;
      assert Offer(None, xs) == ChooseNewer(Offer(None, []), Some(x));
    } else {
      var j := OfferIsFirstBest(pre);
      var b := Offer(None, pre).value;
      assert xs[j] == b;
      ComparisonsAgree(b, x);
      AtLeastTotal(b, x);
      if Beats(x, b) {
        i := n;
        forall m | 0 <= m < n ensures Beats(x, xs[m]) && AtLeast(x, xs[m]) {
          assert pre[m] == xs[m];
          BeatsAtLeast(x, b, xs[m]);
          AtLeastTotal(x, xs[m]);
        }
      } else {
        i := j;
        forall m | 0 <= m < |xs| ensures AtLeast(b, xs[m]) {
          assert m < n ==> pre[m] == xs[m];
        }
      }
    }
  }

  lemma FirstBestUnique(xs: seq<Item>, x: Item, i: nat, y: Item, j: nat)
    requires FirstBest(xs, x, i) && FirstBest(xs, y, j)
    ensures x == y
  {
  }

  lemma {:induction false} EnqueuedKey(es: seq<Event>, p: Peer, k: Key, x: Item)
    requires x in Enqueued(es, p, k)
    ensures x.key == k
  {
    var pre := es[..|es| - 1];
    if x in Enqueued(pre, p, k) {
      EnqueuedKey(pre, p, k, x);
    }
  }

  /**
   Receivers overwrite, so what coalescing changes is exact: flushing the one pending repair leaves the peer as
   sending every enqueued item in order would, if and only if the last enqueued item is the first best of them.
   What it leaves is never below the last enqueued item.
   */
  lemma CoalescingPreservesIff(es: seq<Event>, p: Peer, k: Key, c: Stores, net: Net)
    requires Enqueued(es, p, k) != [] && p in c && p in net.reach && p in net.accepts
    ensures var xs := Enqueued(es, p, k); var last, b := xs[|xs| - 1], Pending(Run(es), p, k);
            && b.Some? && AtLeast(b.value, last)
            && (SendAll(c, net, p, [b.value]) == SendAll(c, net, p, xs) <==> exists i :: FirstBest(xs, last, i))
  {
    hide Run;
    hide Enqueued;
    hide Offer;
    PendingIsOffer(es, p, k);
    var xs := Enqueued(es, p, k);
    var last := xs[|xs| - 1];
    var i := OfferIsFirstBest(xs);
    var b := Pending(Run(es), p, k).value;
    forall x | x in xs ensures x.key == k {
      EnqueuedKey(es, p, k, x);
    }
    assert b in xs && last in xs;
    SendAllIsLast(c, net, p, xs, k);
    SendAllIsLast(c, net, p, [b], k);
    assert Put(c, p, b) == Put(c, p, last) ==> b == last by {
      assert Put(c, p, b)[p][k] == b && Put(c, p, last)[p][k] == last;
    }
    if j :| FirstBest(xs, last, j) {
      FirstBestUnique(xs, b, i, last, j);
    }
  }

  /** A newer item queued before an older one: the peer ends newer than without the queue. */
  lemma CoalescingCanDiffer(c: Stores, net: Net, p: Peer, new': Item, old': Item)
    requires p in c && p in net.reach && p in net.accepts && new'.key == old'.key && Beats(new', old')
    ensures var es := [Enqueue(p, Some(new')), Enqueue(p, Some(old'))];
            && Enqueued(es, p, old'.key) == [new', old'] && Pending(Run(es), p, old'.key) == Some(new')
            && SendAll(c, net, p, [new']) != SendAll(c, net, p, [new', old'])
  {
    var a, b := Enqueue(p, Some(new')), Enqueue(p, Some(old'));
    var k := old'.key;
    assert [a, b][..1] == [a] && [a][..0] == [];
    assert Enqueued([a], p, k) == [new'] by {
      assert Enqueued([], p, k) == [];
    }
    PendingIsOffer([a, b], p, k);
    CoalescingPreservesIff([a, b], p, k, c, net);
    AtLeastTotal(new', old');
    assert [new', old'][..1] == [new'] && [new'][..0] == [];
    assert Offer(None, [new']) == Some(new') by {
      assert Offer(None, []) == None;
    }
    forall i ensures !FirstBest([new', old'], old', i) {
      assert [new', old'][0] == new';
    }
  }

  // ---------- conservation ----------

  /** Number of pending repairs over all peers. */
  ghost function Count(e: Entries): nat {
    if e == map[] then 0
    else
      var p :| p in e;
      |e[p]| + Count(e - {p})
  }

  lemma {:induction false} CountPick(e: Entries, p: Peer)
    requires p in e
    ensures Count(e) == |e[p]| + Count(e - {p})
    decreases |e|
  {
    var q :| q in e && Count(e) == |e[q]| + Count(e - {q});
    if q != p {
      var a, b := e - {q}, e - {p};
      assert a - {p} == b - {q};
      hide Count;
      CountPick(a, p);
      CountPick(b, q);
    }
  }

  lemma CountDrop(e: Entries, p: Peer)
    ensures Count(e - {p}) == Count(e) - |Of(e, p)|
  {
    if p in e {
      CountPick(e, p);
    } else {
      assert e - {p} == e;
    }
  }

  lemma CountPut(e: Entries, p: Peer, m: map<Key, Item>)
    ensures Count(e[p := m]) == Count(e) - |Of(e, p)| + |m|
  {
    CountPick(e[p := m], p);
    assert e[p := m] - {p} == e - {p};
    CountDrop(e, p);
  }

  lemma PutSize(m: map<Key, Item>, k: Key, it: Item)
    ensures |m[k := it]| == |m| + if k in m then 0 else 1
  {
    assert m[k := it].Keys == m.Keys + {k};
  }

  function NonNil(es: seq<Event>): nat {
    if es == [] then 0
    else NonNil(es[..|es| - 1]) + if es[|es| - 1].Enqueue? && es[|es| - 1].item.Some? then 1 else 0
  }

  /** Repairs pending at the flushes that found a transport, or at those that did not. */
  function Flushed(es: seq<Event>, connected: bool): nat {
    if es == [] then 0
    else
      var pre, e := es[..|es| - 1], es[|es| - 1];
      Flushed(pre, connected) + if e.Flush? && e.connected == connected then |Of(Run(pre).entries, e.peer)| else 0
  }

  /** Repairs enqueued while one for the same peer and key was pending. */
  function Collapsed(es: seq<Event>): nat {
    if es == [] then 0
    else
      var pre, e := es[..|es| - 1], es[|es| - 1];
      Collapsed(pre) + if e.Enqueue? && e.item.Some? && Enqueued(pre, e.peer, e.item.value.key) != [] then 1 else 0
  }

  /** Each counter counts what it is named for. */
  lemma {:induction false} CountersAreTheTrace(es: seq<Event>)
    ensures Run(es).batched == Flushed(es, true) && Run(es).dropped == Flushed(es, false) && Run(es).coalesced == Collapsed(es)
  {
    if es != [] {
      var pre, e := es[..|es| - 1], es[|es| - 1];
      CountersAreTheTrace(pre);
      if e.Enqueue? && e.item.Some? {
        PendingIsBest(pre, e.peer, e.item.value.key);
      }
    }
  }

  /** Every enqueued repair is collapsed, sent, still pending, or was dropped for want of a transport, exactly once. */
  lemma {:induction false} RepairsConserved(es: seq<Event>)
    ensures var s := Run(es); NonNil(es) == s.coalesced + s.batched + Count(s.entries) + s.dropped
  {
    if es != [] {
      var pre, e := es[..|es| - 1], es[|es| - 1];
      RepairsConserved(pre);
      var s := Run(pre);
      match e
      case Enqueue(p, it) =>
        if it.Some? {
          var m := Of(s.entries, p);
          CountPut(s.entries, p, m);
          CountPut(s.entries, p, m[it.value.key := it.value]);
          PutSize(m, it.value.key, it.value);
        }
      case Flush(p, connected) => CountDrop(s.entries, p);
    }
  }
}

/** The queue object. */
module RepairQueues {
  import opened Items
  import P = RepairPolicy

  class RepairQueue {
    const maxBatchSize: nat
    var entries: P.Entries
    var coalesced: nat
    var batched: nat
    ghost var dropped: nat

    ghost function View(): P.State
      reads this
    {
      P.State(entries, coalesced, batched, dropped)
    }

    constructor (maxBatchSize: nat)
      ensures View() == P.Run([])
    {
      this.maxBatchSize, entries, coalesced, batched, dropped := maxBatchSize, map[], 0, 0, 0;
    }

    /** Returns whether a flush of the peer's batch is due. */
    method Enqueue(peer: P.Peer, item: Option<Item>) returns (shouldFlush: bool)
      modifies this
      ensures View() == P.Step(old(View()), P.Enqueue(peer, item))
      ensures shouldFlush <==>
                && item.Some? && |P.Of(entries, peer)| >= maxBatchSize
                && (P.Pending(old(View()), peer, item.value.key).Some? ==>
                      IsHigherVersion(item.value, P.Pending(old(View()), peer, item.value.key).value))
    {
      if item.None? {
        return false;
      }
      var it := item.value;
      if peer !in entries {
        entries := entries[peer := map[]];
      }
      var mine := entries[peer];
      var found := it.key in mine;
      if found && !IsHigherVersion(it, mine[it.key]) {
        coalesced := coalesced + 1;
        return false;
      }
      if found {
        coalesced := coalesced + 1;
      }
      entries := entries[peer := mine[it.key := it]];
      shouldFlush := |entries[peer]| >= maxBatchSize;
    }

    /** Detaches a peer's batch and sends each pending repair once, in any order. */
    method FlushPeer(peer: P.Peer, connected: bool) returns (sent: seq<Item>)
      modifies this
      ensures View() == P.FlushPeer(old(View()), peer, connected)
      ensures var m := P.Of(old(entries), peer);
              if connected then |sent| == |m| && forall x :: x in sent <==> x in m.Values else sent == []
    {
      sent := [];
      if peer !in entries || |entries[peer]| == 0 {
        return;
      }
      var mine := entries[peer];
      entries := entries - {peer};
      if !connected {
        dropped := dropped + |mine|;
        return;
      }
      var rest := mine.Keys;
      while rest != {}
        invariant rest <= mine.Keys && |sent| + |rest| == |mine| && batched == old(batched) + |sent|
        invariant entries == old(entries) - {peer} && dropped == old(dropped) && coalesced == old(coalesced)
        invariant forall x :: x in sent ==> x in mine.Values
        invariant forall k :: k in mine && k !in rest ==> mine[k] in sent
        decreases rest
      {
        var k :| k in rest;
        sent := sent + [mine[k]];
        batched := batched + 1;
        rest := rest - {k};
      }
    }

    /** Flushes every peer with pending repairs. */
    method FlushAll(connected: bool)
      modifies this
      ensures forall p :: P.Of(entries, p) == map[]
      ensures coalesced == old(coalesced)
      ensures if connected then batched == old(batched) + P.Count(old(entries)) && dropped == old(dropped)
              else dropped == old(dropped) + P.Count(old(entries)) && batched == old(batched)
    {
      var rest := entries.Keys;
      ghost var all := entries;
      while rest != {}
        invariant rest <= all.Keys && coalesced == old(coalesced)
        invariant forall p :: p in rest ==> p in entries && entries[p] == all[p]
        invariant forall p :: p in entries && p !in rest ==> entries[p] == map[]
        invariant if connected then batched + P.Count(entries) == old(batched) + P.Count(all) && dropped == old(dropped)
                  else dropped + P.Count(entries) == old(dropped) + P.Count(all) && batched == old(batched)
        decreases rest
      {
        var p :| p in rest;
        P.CountDrop(entries, p);
        var sent := FlushPeer(p, connected);
        rest := rest - {p};
      }
      CountEmpty(entries);
    }
  }

  lemma {:induction false} CountEmpty(e: P.Entries)
    requires forall p :: p in e ==> e[p] == map[]
    ensures P.Count(e) == 0
    decreases |e|
  {
    if e != map[] {
      var p :| p in e;
      P.CountPick(e, p);
      CountEmpty(e - {p});
    }
  }
}
