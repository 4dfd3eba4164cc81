/**
 Cluster membership on values (internal/cluster/membership.go and the gossip of pkg/backend/dist_memory.go):
 per node a state and an incarnation, and the set of nodes the ring was last built from.
 */
module GossipPolicy {
  type Id = string

  datatype NodeState = Alive | Suspect | Dead

  datatype Rec = Rec(state: NodeState, inc: nat)

  datatype Claim = Claim(id: Id, rec: Rec)

  /** One member's view of the cluster. */
  datatype View = View(local: Id, nodes: map<Id, Rec>, ring: set<Id>, ver: nat)

  function NonDead(nodes: map<Id, Rec>): set<Id> {
    set id | id in nodes && nodes[id].state != Dead
  }

  // ---------- membership operations ----------

  /** Adds or replaces a node and rebuilds the ring. */
  function Upsert(v: View, id: Id, rec: Rec): View {
    var nodes := v.nodes[id := rec];
    v.(nodes := nodes, ring := NonDead(nodes), ver := v.ver + 1)
  }

  function Remove(v: View, id: Id): View {
    if id !in v.nodes then v
    else
      var nodes := v.nodes - {id};
      v.(nodes := nodes, ring := NonDead(nodes), ver := v.ver + 1)
  }

  /** A change of state counts the incarnation up; the ring stays as it is. */
  function Mark(v: View, id: Id, state: NodeState): View {
    if id !in v.nodes || v.nodes[id].state == state then v
    else v.(nodes := v.nodes[id := Rec(state, v.nodes[id].inc + 1)], ver := v.ver + 1)
  }

  function Refute(v: View, id: Id): View {
    if id !in v.nodes then v else v.(nodes := v.nodes[id := Rec(Alive, v.nodes[id].inc + 1)], ver := v.ver + 1)
  }

  // ---------- gossip ----------

  /** A claim about oneself is refuted unless it is Alive or stale; about others the higher incarnation wins. */
  function MergeOne(v: View, c: Claim): View {
    if c.id == v.local then
      if c.rec.state == Alive || (v.local in v.nodes && c.rec.inc < v.nodes[v.local].inc) then v else Refute(v, v.local)
    else if c.id !in v.nodes || c.rec.inc > v.nodes[c.id].inc then Upsert(v, c.id, c.rec)
    else v
  }

  function Merge(v: View, cs: seq<Claim>): (r: View)
    ensures r.local == v.local
  {
    if cs == [] then v else MergeOne(Merge(v, cs[..|cs| - 1]), cs[|cs| - 1])
  }

  // ---------- incarnations never fall ----------

  datatype Event = Gossip(claims: seq<Claim>) | Probe(id: Id, state: NodeState) | Removal(id: Id)

  function Step(v: View, e: Event): View {
    match e
    case Gossip(cs) => Merge(v, cs)
    case Probe(id, state) => Mark(v, id, state)
    case Removal(id) => Remove(v, id)
  }

  function Run(v: View, es: seq<Event>): View {
    if es == [] then v else Step(Run(v, es[..|es| - 1]), es[|es| - 1])
  }

  /** Everyone known stays known, at the same or a higher incarnation. */
  ghost predicate NotBelow(v: View, w: View) {
    forall id :: id in v.nodes ==> id in w.nodes && v.nodes[id].inc <= w.nodes[id].inc
  }

  lemma {:induction false} MergeNotBelow(v: View, cs: seq<Claim>)
    ensures NotBelow(v, Merge(v, cs))
  {
    if cs != [] {
      MergeNotBelow(v, cs[..|cs| - 1]);
    }
  }

  /** Over any run of merges, refutations and marks without removals, no recorded incarnation falls. */
  lemma {:induction false} IncarnationsNeverFall(v: View, es: seq<Event>)
    requires forall i :: 0 <= i < |es| ==> !es[i].Removal?
    ensures NotBelow(v, Run(v, es))
  {
    if es != [] {
      var pre, e := es[..|es| - 1], es[|es| - 1];
      IncarnationsNeverFall(v, pre);
      if e.Gossip? {
        MergeNotBelow(Run(v, pre), e.claims);
      }
    }
  }

  /** A change of state counts the incarnation up so that it spreads: any member not ahead of the marker takes it over. */
  lemma MarkSpreads(v: View, id: Id, state: NodeState, w: View)
    requires id in v.nodes && v.nodes[id].state != state
    requires id != w.local && w.local in w.nodes && (id in w.nodes ==> w.nodes[id].inc <= v.nodes[id].inc)
    ensures var m := Mark(v, id, state);
            && m.nodes.Keys == v.nodes.Keys && m.nodes[id] == Rec(state, v.nodes[id].inc + 1)
            && (forall x :: x in v.nodes && x != id ==> m.nodes[x] == v.nodes[x])
            && Merge(w, [Claim(id, m.nodes[id])]).nodes == w.nodes[id := Rec(state, v.nodes[id].inc + 1)]
  {
    var c := Claim(id, Mark(v, id, state).nodes[id]);
    assert [c][..0] == [];
    assert Merge(w, []) == w;
  }

  /** The version tells views apart: over any run it never falls, and it rises whenever members or ring change. */
  lemma {:induction false} VersionTells(v: View, es: seq<Event>)
    ensures var w := Run(v, es); w.ver >= v.ver && (w.nodes != v.nodes || w.ring != v.ring ==> w.ver > v.ver)
  {
    if es != [] {
      var pre, e := es[..|es| - 1], es[|es| - 1];
      VersionTells(v, pre);
      if e.Gossip? {
        MergeVersion(Run(v, pre), e.claims);
      }
    }
  }

  lemma {:induction false} MergeVersion(v: View, cs: seq<Claim>)
    ensures var w := Merge(v, cs); w.ver >= v.ver && (w.nodes != v.nodes || w.ring != v.ring ==> w.ver > v.ver)
  {
    if cs != [] {
      MergeVersion(v, cs[..|cs| - 1]);
    }
  }

  /** A removal followed by an older claim brings the node back at the lower incarnation. */
  lemma RemovalForgets(v: View, id: Id, stale: Rec)
    requires id in v.nodes && id != v.local && stale.inc < v.nodes[id].inc
    ensures var r := Run(v, [Removal(id), Gossip([Claim(id, stale)])]); id in r.nodes && r.nodes[id] == stale
  {
    var a, b, c := Removal(id), Gossip([Claim(id, stale)]), Claim(id, stale);
    assert [a, b][..1] == [a] && [a][..0] == [] && [c][..0] == [];
    assert Run(v, []) == v;
    assert Run(v, [a]) == Remove(v, id);
    assert Merge(Remove(v, id), []) == Remove(v, id);
  }

  // ---------- refutation ----------

  /** The same claim delivered `k` times. */
  function Deliver(v: View, c: Claim, k: nat): View {
    if k == 0 then v else MergeOne(Deliver(v, c, k - 1), c)
  }

  function Min(a: int, b: int): int {
    if a < b then a else b
  }

  /**
   A suspect or dead claim at incarnation N against local incarnation i <= N raises it by one per delivery
   until N + 1, after N - i + 1 deliveries, and is ignored from then on; a stale claim is ignored at once.
   */
  lemma {:induction false} RefutedAfterExactly(v: View, c: Claim, k: nat)
    requires v.local in v.nodes && c.id == v.local && c.rec.state != Alive
    ensures var i, n := v.nodes[v.local].inc, c.rec.inc; var r := Deliver(v, c, k);
            && r.local == v.local && v.local in r.nodes
            && r.nodes[v.local].inc == (if n < i then i else i + Min(k, n - i + 1))
            && (k > 0 && i <= n ==> r.nodes[v.local].state == Alive)
            && (r.nodes[v.local].inc > n ==> MergeOne(r, c) == r)
  {
    if k > 0 {
      RefutedAfterExactly(v, c, k - 1);
    }
  }

  // ---------- two members exchanging gossip ----------

  /** `cs` lists every known node once. */
  ghost predicate Snapshot(cs: seq<Claim>, v: View) {
    && (forall i :: 0 <= i < |cs| ==> cs[i].id in v.nodes && cs[i].rec == v.nodes[cs[i].id])
    && (forall id :: id in v.nodes ==> Claim(id, v.nodes[id]) in cs)
    && NoDup(cs)
  }

  ghost predicate NoDup(cs: seq<Claim>) {
    forall i, j :: 0 <= i < j < |cs| ==> cs[i].id != cs[j].id
  }

  /** With each node claimed at most once, a merge treats every node by its own claim. */
  lemma {:induction false} MergeAt(v: View, cs: seq<Claim>, c: Claim)
    requires NoDup(cs) && v.local in v.nodes
    ensures v.local in Merge(v, cs).nodes
    ensures c in cs ==> c.id in Merge(v, cs).nodes && Merge(v, cs).nodes[c.id] == MergedRec(v, c)
    ensures (forall d :: d in cs ==> d.id != c.id) ==>
              (c.id in Merge(v, cs).nodes <==> c.id in v.nodes) && (c.id in v.nodes ==> Merge(v, cs).nodes[c.id] == v.nodes[c.id])
  {
    if cs != [] {
      var pre, d := cs[..|cs| - 1], cs[|cs| - 1];
      MergeAt(v, pre, c);
      MergeAt(v, pre, Claim(v.local, v.nodes[v.local]));
      if c == d {
        assert forall x :: x in pre ==> x.id != c.id;
      } else if c in cs {
        assert c in pre;
        assert c.id != d.id;
      }
    }
  }

  /** What becomes of a node's record when a claim about it arrives. */
  function MergedRec(v: View, c: Claim): Rec
    requires v.local in v.nodes
  {
    if c.id == v.local then
      var own := v.nodes[v.local];
      if c.rec.state == Alive || c.rec.inc < own.inc then own else Rec(Alive, own.inc + 1)
    else if c.id !in v.nodes || c.rec.inc > v.nodes[c.id].inc then c.rec
    else v.nodes[c.id]
  }

  /** `a` gossips to `b`, then `b` gossips back, each in any order. */
  ghost predicate Exchange(a: View, b: View, a': View, b': View) {
    exists s, t :: Snapshot(s, a) && b' == Merge(b, s) && Snapshot(t, b') && a' == Merge(a, t)
  }

  lemma ExchangeAt(a: View, b: View, a': View, b': View)
    requires Exchange(a, b, a', b') && a.local != b.local
    requires a.local in a.nodes && b.local in b.nodes && b.local in a.nodes
    ensures a'.local == a.local && b'.local == b.local && a.local in a'.nodes && b.local in b'.nodes && b.local in a'.nodes
    ensures b'.nodes[b.local] == MergedRec(b, Claim(b.local, a.nodes[b.local]))
    ensures a'.nodes[b.local] == MergedRec(a, Claim(b.local, b'.nodes[b.local]))
  {
    var s, t :| Snapshot(s, a) && b' == Merge(b, s) && Snapshot(t, b') && a' == Merge(a, t);
    MergeAt(b, s, Claim(b.local, a.nodes[b.local]));
    MergeAt(a, t, Claim(b.local, b'.nodes[b.local]));
  }

  /**
   `a` holds `b` suspect or dead at incarnation N, and `b` itself is alive at i <= N. Whatever the order of
   the snapshots, `a` keeps its suspicion for exactly N - i exchanges and holds `b` alive at N + 1 after one more.
   */
  lemma {:induction false} SuspicionClearsAfterExactly(xs: seq<View>, ys: seq<View>, k: nat)
    requires k < |xs| == |ys| && forall r :: 0 <= r < |xs| - 1 ==> Exchange(xs[r], ys[r], xs[r + 1], ys[r + 1])
    requires var a, b := xs[0], ys[0];
             && a.local != b.local && a.local in a.nodes && b.local in b.nodes && b.local in a.nodes
             && a.nodes[b.local].state != Alive && b.nodes[b.local].state == Alive && b.nodes[b.local].inc <= a.nodes[b.local].inc
    ensures var a, b := xs[0], ys[0]; var i, n := b.nodes[b.local].inc, a.nodes[b.local].inc;
            && xs[k].local == a.local && ys[k].local == b.local
            && a.local in xs[k].nodes && b.local in ys[k].nodes && b.local in xs[k].nodes
            && ys[k].nodes[b.local] == Rec(Alive, i + Min(k, n - i + 1))
            && xs[k].nodes[b.local] == if k <= n - i then a.nodes[b.local] else Rec(Alive, n + 1)
  {
    if k > 0 {
      SuspicionClearsAfterExactly(xs, ys, k - 1);
      assert Exchange(xs[k - 1], ys[k - 1], xs[k - 1 + 1], ys[k - 1 + 1]);
      ExchangeAt(xs[k - 1], ys[k - 1], xs[k], ys[k]);
    }
  }

  /**
   About a third node, two members agree after an exchange exactly when their records were equal or at
   different incarnations; exchanges between these two never resolve equal incarnations with different states.
   */
  lemma ThirdPartyAgreesIff(a: View, b: View, a': View, b': View, x: Id)
    requires Exchange(a, b, a', b') && x != a.local && x != b.local
    requires a.local in a.nodes && b.local in b.nodes && x in a.nodes && x in b.nodes
    ensures x in a'.nodes && x in b'.nodes
    ensures a'.nodes[x] == b'.nodes[x] <==> a.nodes[x] == b.nodes[x] || a.nodes[x].inc != b.nodes[x].inc
    ensures a.nodes[x].inc == b.nodes[x].inc ==> a'.nodes[x] == a.nodes[x] && b'.nodes[x] == b.nodes[x]
  {
    var s, t :| Snapshot(s, a) && b' == Merge(b, s) && Snapshot(t, b') && a' == Merge(a, t);
    MergeAt(b, s, Claim(x, a.nodes[x]));
    MergeAt(a, t, Claim(x, b'.nodes[x]));
  }

  // ---------- ring and membership ----------

  /** The ring was built from exactly the members not known dead. */
  ghost predicate RingCurrent(v: View) {
    v.ring == NonDead(v.nodes)
  }

  /** Upsert and an effective Remove always bring the ring up to date. */
  lemma RebuildsRing(v: View, id: Id, rec: Rec)
    ensures RingCurrent(Upsert(v, id, rec))
    ensures id in v.nodes ==> RingCurrent(Remove(v, id))
  {
  }

  /** A removal takes one node off the list and off the ring, and no other. */
  lemma RemovesOne(v: View, id: Id)
    requires RingCurrent(v)
    ensures var r := Remove(v, id);
            && r.ring == v.ring - {id} && r.nodes.Keys == v.nodes.Keys - {id}
            && forall x :: x in r.nodes ==> r.nodes[x] == v.nodes[x]
  {
    if id in v.nodes {
      assert NonDead(Remove(v, id).nodes) == NonDead(v.nodes) - {id};
    }
  }

  /** Mark keeps the ring current exactly when it does not take a node into or out of Dead. */
  lemma MarkKeepsRingIff(v: View, id: Id, state: NodeState)
    requires RingCurrent(v)
    ensures RingCurrent(Mark(v, id, state)) <==> (id in v.nodes ==> (v.nodes[id].state == Dead <==> state == Dead))
  {
    if id in v.nodes {
      var w := Mark(v, id, state);
      assert id in NonDead(w.nodes) <==> state != Dead;
      assert id in NonDead(v.nodes) <==> v.nodes[id].state != Dead;
      assert NonDead(w.nodes) - {id} == NonDead(v.nodes) - {id};
    }
  }

  /** Refute likewise: only a local node already held dead is left out of the ring. */
  lemma RefuteKeepsRingIff(v: View, id: Id)
    requires RingCurrent(v)
    ensures RingCurrent(Refute(v, id)) <==> (id in v.nodes ==> v.nodes[id].state != Dead)
  {
    if id in v.nodes {
      var w := Refute(v, id);
      assert id in NonDead(w.nodes);
      assert id in NonDead(v.nodes) <==> v.nodes[id].state != Dead;
      assert NonDead(w.nodes) - {id} == NonDead(v.nodes) - {id};
    }
  }

  /** A merge keeps the ring current whenever the local node is not held dead. */
  lemma {:induction false} MergeKeepsRing(v: View, cs: seq<Claim>)
    requires RingCurrent(v) && v.local in v.nodes && v.nodes[v.local].state != Dead
    ensures var r := Merge(v, cs); RingCurrent(r) && v.local in r.nodes && r.nodes[v.local].state != Dead
  {
    if cs != [] {
      var pre, c := Merge(v, cs[..|cs| - 1]), cs[|cs| - 1];
      MergeKeepsRing(v, cs[..|cs| - 1]);
      RefuteKeepsRingIff(pre, v.local);
      RebuildsRing(pre, c.id, c.rec);
    }
  }

  /** A node gossiped dead and then probed alive is a live member that owns nothing. */
  lemma RevivedNodeMissesRing(v: View, id: Id)
    requires id in v.nodes && id != v.local
    ensures var r := Run(v, [Gossip([Claim(id, Rec(Dead, v.nodes[id].inc + 1))]), Probe(id, Alive)]);
            id in r.nodes && r.nodes[id].state == Alive && id !in r.ring
  {
    var c := Claim(id, Rec(Dead, v.nodes[id].inc + 1));
    var a, b := Gossip([c]), Probe(id, Alive);
    assert [a, b][..1] == [a] && [a][..0] == [] && [c][..0] == [];
    assert Run(v, []) == v && Merge(v, []) == v;
    assert Run(v, [a]) == Upsert(v, id, c.rec);
  }
}
