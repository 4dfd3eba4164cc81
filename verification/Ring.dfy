/**
 The consistent-hashing ring (internal/cluster/ring.go).

 Every node owns `vnPerNode` points ("vnodes") on a circle of 2^64 hashes. A key is owned by the
 first `replication` distinct nodes met when walking clockwise from the key's own hash. The hash
 (xxhash64 in the source) is a parameter: nothing here depends on which function it is.
 */
module Ring {
  import opened Seqs

  type NodeID = string

  const SPACE: nat := 0x1_0000_0000_0000_0000

  type Hash = h: nat | h < SPACE

  datatype VNode = VNode(hash: Hash, nid: NodeID)

  const DEFAULT_VIRTUAL_NODES := 64

  // ---------- the points of a node list ----------

  /** The bytes hashed for vnode `i` of a node: its ID and one byte, so indices repeat every 256. */
  function VNodeBytes(nid: NodeID, i: nat): string {
    nid + [(i % 256) as char]
  }

  /** The bytes are the ID and then the low byte of the index, so they tell vnodes apart up to 256 per node and no further. */
  lemma VNodeBytesIff(n: NodeID, i: nat, m: NodeID, j: nat)
    ensures |VNodeBytes(n, i)| == |n| + 1 && n <= VNodeBytes(n, i) && VNodeBytes(n, i)[|n|] as int == i % 256
    ensures VNodeBytes(n, i) == VNodeBytes(m, j) <==> n == m && i % 256 == j % 256
  {
    var a, b := VNodeBytes(n, i), VNodeBytes(m, j);
    assert a[..|n|] == n && b[..|m|] == m;
  }

  /** Point `i` of node `nid`. */
  function Point(hash: string -> Hash, nid: NodeID, i: nat): VNode {
    VNode(hash(VNodeBytes(nid, i)), nid)
  }

  /** The points of one node, in index order. */
  function PointsOf(hash: string -> Hash, nid: NodeID, per: nat): seq<VNode> {
    seq(per, i requires 0 <= i < per => Point(hash, nid, i))
  }

  /** The points of a list of nodes, before sorting. */
  function AllPoints(hash: string -> Hash, per: nat, nodes: seq<NodeID>): seq<VNode> {
    if nodes == [] then [] else AllPoints(hash, per, nodes[..|nodes| - 1]) + PointsOf(hash, nodes[|nodes| - 1], per)
  }

  lemma {:induction false} AllPointsMembers(hash: string -> Hash, per: nat, nodes: seq<NodeID>, v: VNode)
    ensures v in AllPoints(hash, per, nodes) <==>
            v.nid in nodes && exists i: nat :: i < per && v == Point(hash, v.nid, i)
  {
    if nodes != [] {
      var init, last := nodes[..|nodes| - 1], nodes[|nodes| - 1];
      AllPointsMembers(hash, per, init, v);
      assert nodes == init + [last];
      var mine := PointsOf(hash, last, per);
      if v in mine {
        var i :| 0 <= i < |mine| && mine[i] == v;
        assert v == Point(hash, last, i);
      }
      if i: nat :| i < per && v == Point(hash, last, i) {
        assert mine[i] == v;
      }
    }
  }

  // ---------- the sorted ring and the clockwise walk ----------

  ghost predicate Sorted(vn: seq<VNode>) {
    forall i, j :: 0 <= i < j < |vn| ==> vn[i].hash <= vn[j].hash
  }

  /** `s` is some result of sorting `vn` by hash; the library sort promises nothing about ties. */
  ghost predicate IsSortOf(s: seq<VNode>, vn: seq<VNode>) {
    Sorted(s) && multiset(s) == multiset(vn)
  }

  /** No two vnodes of different nodes hash alike. */
  ghost predicate NoCrossTies(vn: seq<VNode>) {
    forall v, w :: v in vn && w in vn && v.hash == w.hash ==> v.nid == w.nid
  }

  /** First index whose hash is at least `t` (the length when there is none). */
  function LowerBound(vn: seq<VNode>, t: Hash): (k: nat)
    ensures k <= |vn|
  {
    if vn == [] || t <= vn[0].hash then 0 else 1 + LowerBound(vn[1..], t)
  }

  lemma {:induction false} LowerBoundSpec(vn: seq<VNode>, t: Hash)
    ensures var k := LowerBound(vn, t);
            (k < |vn| ==> t <= vn[k].hash) && forall i :: 0 <= i < k ==> vn[i].hash < t
  {
    if vn != [] && vn[0].hash < t {
      LowerBoundSpec(vn[1..], t);
      var k := LowerBound(vn, t);
      forall i | 0 <= i < k ensures vn[i].hash < t {
        if i > 0 {
          assert vn[i] == vn[1..][i - 1];
        }
      }
    }
  }

  lemma LowerBoundIs(vn: seq<VNode>, t: Hash, k: nat)
    requires k <= |vn| && (k < |vn| ==> t <= vn[k].hash)
    requires forall i :: 0 <= i < k ==> vn[i].hash < t
    ensures LowerBound(vn, t) == k
  {
    LowerBoundSpec(vn, t);
  }

  /** The vnodes in the order the walk meets them. */
  function Clockwise(vn: seq<VNode>, t: Hash): seq<VNode> {
    Rotate(vn, LowerBound(vn, t))
  }

  /** Node IDs of `walk` in order of first appearance. */
  function FirstAppearances(walk: seq<VNode>): seq<NodeID> {
    if walk == [] then []
    else
      var before := FirstAppearances(walk[..|walk| - 1]);
      var n := walk[|walk| - 1].nid;
      if n in before then before else before + [n]
  }

  function Take<T>(s: seq<T>, n: nat): seq<T> {
    if n < |s| then s[..n] else s
  }

  /** The owners of a key hashing to `t`. */
  function Owners(vn: seq<VNode>, t: Hash, replication: nat): seq<NodeID> {
    Take(FirstAppearances(Clockwise(vn, t)), replication)
  }

  // ---------- an independent description: the nearest nodes ----------

  /** Clockwise distance from `t` to `h`. */
  function Distance(t: Hash, h: Hash): nat {
    if t <= h then h - t else h + SPACE - t
  }

  /** The nodes that have a vnode on the ring. */
  ghost function Nodes(vn: seq<VNode>): set<NodeID> {
    set v | v in vn :: v.nid
  }

  /** Clockwise distance from `t` to the nearest vnode of `n` (SPACE when it has none). */
  ghost function Reach(vn: seq<VNode>, t: Hash, n: NodeID): nat {
    if vn == [] then SPACE
    else
      var rest := Reach(vn[1..], t, n);
      if vn[0].nid == n && Distance(t, vn[0].hash) < rest then Distance(t, vn[0].hash) else rest
  }

  /** `list` holds nodes of the ring nearest first, and nothing left out is nearer. */
  ghost predicate Nearest(vn: seq<VNode>, t: Hash, list: seq<NodeID>) {
    && Distinct(list)
    && (forall n :: n in list ==> n in Nodes(vn))
    && (forall i, j :: 0 <= i < j < |list| ==> Reach(vn, t, list[i]) <= Reach(vn, t, list[j]))
    && (forall m, n :: m in list && n in Nodes(vn) && n !in list ==> Reach(vn, t, m) <= Reach(vn, t, n))
  }

  function Min(a: nat, b: nat): nat {
    if a <= b then a else b
  }

  // ---------- facts about Reach ----------

  lemma {:induction false} ReachBound(vn: seq<VNode>, t: Hash, n: NodeID, v: VNode)
    requires v in vn && v.nid == n
    ensures Reach(vn, t, n) <= Distance(t, v.hash)
  {
    if vn[0] != v {
      ReachBound(vn[1..], t, n, v);
    }
  }

  lemma {:induction false} ReachAttained(vn: seq<VNode>, t: Hash, n: NodeID) returns (v: VNode)
    requires n in Nodes(vn)
    ensures v in vn && v.nid == n && Reach(vn, t, n) == Distance(t, v.hash)
  {
    if vn[0].nid == n && Distance(t, vn[0].hash) < Reach(vn[1..], t, n) {
      v := vn[0];
    } else {
      var w :| w in vn && w.nid == n;
      if w !in vn[1..] {
        ReachSmall(vn[1..], t, n);
        assert vn[0] == w;
      }
      v := ReachAttained(vn[1..], t, n);
    }
  }

  lemma {:induction false} ReachSmall(vn: seq<VNode>, t: Hash, n: NodeID)
    ensures n !in Nodes(vn) ==> Reach(vn, t, n) == SPACE
    ensures n in Nodes(vn) ==> Reach(vn, t, n) < SPACE
  {
    if vn != [] {
      ReachSmall(vn[1..], t, n);
      assert Nodes(vn) == {vn[0].nid} + Nodes(vn[1..]);
    }
  }

  /** Two different nodes are never equally near when their hashes never tie. */
  lemma ReachInjective(vn: seq<VNode>, t: Hash, a: NodeID, b: NodeID)
    requires NoCrossTies(vn) && a in Nodes(vn) && b in Nodes(vn) && Reach(vn, t, a) == Reach(vn, t, b)
    ensures a == b
  {
    var v := ReachAttained(vn, t, a);
    var w := ReachAttained(vn, t, b);
  }

  /** Reach looks only at a node's own vnodes. */
  lemma ReachLocal(vn: seq<VNode>, vn': seq<VNode>, t: Hash, n: NodeID)
    requires forall v: VNode :: v.nid == n ==> (v in vn <==> v in vn')
    ensures Reach(vn, t, n) == Reach(vn', t, n)
    ensures n in Nodes(vn) <==> n in Nodes(vn')
  {
    ReachSmall(vn, t, n);
    ReachSmall(vn', t, n);
    if n in Nodes(vn) {
      var v := ReachAttained(vn, t, n);
      var w := ReachAttained(vn', t, n);
      ReachBound(vn', t, n, v);
      ReachBound(vn, t, n, w);
    }
  }

  // ---------- the walk meets the nearest nodes first ----------

  lemma ClockwiseAscending(vn: seq<VNode>, t: Hash)
    requires Sorted(vn)
    ensures var w := Clockwise(vn, t);
            forall i, j :: 0 <= i < j < |w| ==> Distance(t, w[i].hash) <= Distance(t, w[j].hash)
  {
    var k := LowerBound(vn, t);
    var w := Clockwise(vn, t);
    LowerBoundSpec(vn, t);
    RotateAt(vn, k);
    forall i, j | 0 <= i < j < |w|
      ensures Distance(t, w[i].hash) <= Distance(t, w[j].hash)
    {
    }
  }

  /** The source's index arithmetic: step `i` of the walk from the found index, wrapping at the end. */
  lemma ClockwiseAt(vn: seq<VNode>, t: Hash, i: nat)
    requires i < |vn|
    ensures var k := LowerBound(vn, t);
            Clockwise(vn, t)[i] == vn[((if k == |vn| then 0 else k) + i) % |vn|]
  {
    var k := LowerBound(vn, t);
    RotateAt(vn, k);
    WrapOnce(if k == |vn| then 0 else k, i, |vn|);
  }

  lemma WrapOnce(k: nat, i: nat, n: nat)
    requires k < n && i < n
    ensures (k + i) % n == if k + i < n then k + i else k + i - n
  {
    if n <= k + i {
      assert (k + i) == n * 1 + (k + i - n);
    }
  }

  /** What the deduplicating walk returns on a prefix of the walk. */
  ghost predicate WalkSummary(walk: seq<VNode>, list: seq<NodeID>) {
    && Distinct(list)
    && (forall n :: n in list <==> n in Nodes(walk))
    && (forall i :: 0 <= i < |list| ==> Met(walk, list, i))
  }

  /** Entry `i` of `list` first occurs at position `p` of the walk; all later entries occur only after it. */
  ghost predicate FirstAt(walk: seq<VNode>, list: seq<NodeID>, i: nat, p: int) {
    && i < |list| && 0 <= p < |walk| && walk[p].nid == list[i]
    && forall q :: 0 <= q < p ==> walk[q].nid in list[..i]
  }

  ghost predicate Met(walk: seq<VNode>, list: seq<NodeID>, i: nat) {
    exists p :: FirstAt(walk, list, i, p)
  }

  lemma {:induction false} FirstAppearancesSummary(walk: seq<VNode>)
    ensures WalkSummary(walk, FirstAppearances(walk))
  {
    if walk != [] {
      var init, last := walk[..|walk| - 1], walk[|walk| - 1];
      FirstAppearancesSummary(init);
      var before, list := FirstAppearances(init), FirstAppearances(walk);
      assert walk == init + [last];
      assert Nodes(walk) == Nodes(init) + {last.nid};
      forall i | 0 <= i < |list|
        ensures Met(walk, list, i)
      {
        if i < |before| {
          assert Met(init, before, i);
          var p :| FirstAt(init, before, i, p);
          assert list[..i] == before[..i];
          assert FirstAt(walk, list, i, p);
        } else {
          assert list[..i] == before;
          assert forall q :: 0 <= q < |init| ==> init[q].nid in Nodes(init);
          assert FirstAt(walk, list, i, |walk| - 1);
        }
      }
    }
  }

  /** The distance at which the walk first meets a node is that node's reach. */
  lemma FirstAtReach(vn: seq<VNode>, t: Hash, list: seq<NodeID>, i: nat, p: int)
    requires Sorted(vn) && Distinct(list) && FirstAt(Clockwise(vn, t), list, i, p)
    ensures list[i] in Nodes(vn)
    ensures Reach(vn, t, list[i]) == Distance(t, Clockwise(vn, t)[p].hash)
    ensures forall n :: n in Nodes(vn) && n !in list[..i] ==> Distance(t, Clockwise(vn, t)[p].hash) <= Reach(vn, t, n)
  {
    hide Reach;
    hide LowerBound;
    var w := Clockwise(vn, t);
    RotateMembers(vn, LowerBound(vn, t));
    ClockwiseAscending(vn, t);
    assert w[p] in vn;
    forall n | n in Nodes(vn) && n !in list[..i]
      ensures Distance(t, w[p].hash) <= Reach(vn, t, n)
    {
      var v := ReachAttained(vn, t, n);
      assert v in w;
      var q :| 0 <= q < |w| && w[q] == v;
    }
    ReachBound(vn, t, list[i], w[p]);
  }

  /** The ring contract: `Owners` is the list of the min(replication, number of nodes) nearest nodes. */
  lemma OwnersAreNearest(vn: seq<VNode>, t: Hash, replication: nat)
    requires Sorted(vn)
    ensures Nearest(vn, t, Owners(vn, t, replication))
    ensures |Owners(vn, t, replication)| == Min(replication, |Nodes(vn)|)
  {
    var w := Clockwise(vn, t);
    var all := FirstAppearances(w);
    FirstAppearancesSummary(w);
    RotateMembers(vn, LowerBound(vn, t));
    assert Nodes(w) == Nodes(vn);
    DistinctSize(all);
    assert (set x | x in all) == Nodes(vn);
    forall i | 0 <= i < |all| ensures HeadAt(vn, t, all, i) {
      assert Met(w, all, i);
      var p :| FirstAt(w, all, i, p);
      FirstAtReach(vn, t, all, i, p);
    }
    HeadsAreNearest(vn, t, all, |Owners(vn, t, replication)|);
  }

  /** Entry `i` is at least as near as every node not listed before it. */
  ghost predicate HeadAt(vn: seq<VNode>, t: Hash, list: seq<NodeID>, i: nat) {
    && i < |list| && list[i] in Nodes(vn)
    && forall n :: n in Nodes(vn) && n !in list[..i] ==> Reach(vn, t, list[i]) <= Reach(vn, t, n)
  }

  lemma HeadsAreNearest(vn: seq<VNode>, t: Hash, all: seq<NodeID>, r: nat)
    requires Distinct(all) && r <= |all| && forall i :: 0 <= i < |all| ==> HeadAt(vn, t, all, i)
    ensures Nearest(vn, t, all[..r])
  {
    var list := all[..r];
    forall i, j | 0 <= i < j < |list| ensures Reach(vn, t, list[i]) <= Reach(vn, t, list[j]) {
      assert HeadAt(vn, t, all, i) && HeadAt(vn, t, all, j);
      assert all[j] !in all[..i];
    }
    forall n | n in list ensures n in Nodes(vn) {
      var i :| 0 <= i < |list| && list[i] == n;
      assert HeadAt(vn, t, all, i);
    }
    forall m, n | m in list && n in Nodes(vn) && n !in list ensures Reach(vn, t, m) <= Reach(vn, t, n) {
      var i :| 0 <= i < |list| && list[i] == m;
      assert HeadAt(vn, t, all, i);
      assert all[..i] <= list;
    }
  }

  // ---------- uniqueness, order independence, minimal disruption ----------

  /** Two nearest-lists over rings that agree on the listed nodes: the shorter is a prefix of the longer. */
  lemma {:induction false} NearestPrefix(vn: seq<VNode>, t: Hash, a: seq<NodeID>, b: seq<NodeID>, i: nat)
    requires NoCrossTies(vn) && Nearest(vn, t, a) && Nearest(vn, t, b)
    requires i <= |a| <= |b|
    ensures a[..i] == b[..i]
  {
    if i > 0 {
      NearestPrefix(vn, t, a, b, i - 1);
      var x, y := a[i - 1], b[i - 1];
      assert a[..i - 1] == b[..i - 1];
      assert x !in b[..i - 1] && y !in a[..i - 1];
      NearestHead(vn, t, a, i - 1, y);
      NearestHead(vn, t, b, i - 1, x);
      ReachInjective(vn, t, x, y);
      assert a[..i] == a[..i - 1] + [x];
      assert b[..i] == b[..i - 1] + [y];
    }
  }

  lemma NearestHead(vn: seq<VNode>, t: Hash, list: seq<NodeID>, i: nat, n: NodeID)
    requires Nearest(vn, t, list) && i < |list| && n in Nodes(vn) && n !in list[..i]
    ensures Reach(vn, t, list[i]) <= Reach(vn, t, n)
  {
    if n in list {
      var j :| 0 <= j < |list| && list[j] == n;
      assert forall q :: 0 <= q < i ==> list[q] in list[..i];
    }
  }

  /** A nearest-list of the full length is the owner list: the two descriptions of ownership coincide. */
  lemma OwnersUnique(vn: seq<VNode>, t: Hash, replication: nat, list: seq<NodeID>)
    requires Sorted(vn) && NoCrossTies(vn)
    ensures list == Owners(vn, t, replication) <==>
            Nearest(vn, t, list) && |list| == Min(replication, |Nodes(vn)|)
  {
    OwnersAreNearest(vn, t, replication);
    if Nearest(vn, t, list) && |list| == Min(replication, |Nodes(vn)|) {
      var o := Owners(vn, t, replication);
      NearestPrefix(vn, t, list, o, |o|);
      assert list[..|o|] == list && o[..|o|] == o;
    }
  }

  /** Two rings with the same vnodes, however ordered and however often repeated, give the same owners. */
  lemma SameVNodesSameOwners(a: seq<VNode>, b: seq<VNode>, t: Hash, replication: nat)
    requires Sorted(a) && Sorted(b) && NoCrossTies(a)
    requires forall v :: v in a <==> v in b
    ensures Owners(a, t, replication) == Owners(b, t, replication)
  {
    var o := Owners(b, t, replication);
    OwnersAreNearest(b, t, replication);
    forall n ensures Reach(a, t, n) == Reach(b, t, n) {
      ReachLocal(a, b, t, n);
    }
    assert Nodes(a) == Nodes(b);
    OwnersUnique(a, t, replication, o);
  }

  /** Build is insensitive to the order (and repetition) of its node list. */
  lemma BuildOrderIrrelevant(hash: string -> Hash, per: nat, nodes: seq<NodeID>, nodes': seq<NodeID>,
                             a: seq<VNode>, b: seq<VNode>, t: Hash, replication: nat)
    requires forall n :: n in nodes <==> n in nodes'
    requires IsSortOf(a, AllPoints(hash, per, nodes)) && IsSortOf(b, AllPoints(hash, per, nodes'))
    requires NoCrossTies(AllPoints(hash, per, nodes))
    ensures Owners(a, t, replication) == Owners(b, t, replication)
  {
    var p, p' := AllPoints(hash, per, nodes), AllPoints(hash, per, nodes');
    forall v ensures (v in p <==> v in p') && (v in a <==> v in p) && (v in b <==> v in p') {
      AllPointsMembers(hash, per, nodes, v);
      AllPointsMembers(hash, per, nodes', v);
      assert v in a <==> v in multiset(a);
      assert v in b <==> v in multiset(b);
      assert v in p <==> v in multiset(p);
      assert v in p' <==> v in multiset(p');
    }
    SameVNodesSameOwners(a, b, t, replication);
  }

  ghost predicate AnySortAgrees(vn: seq<VNode>) {
    forall a, b, t: Hash, r: nat ::
      IsSortOf(a, vn) && IsSortOf(b, vn) ==> Owners(a, t, r) == Owners(b, t, r)
  }

  /** The tie condition is exact: an unstable sort determines ownership if and only if no two nodes tie. */
  lemma OwnersDeterminedIff(vn: seq<VNode>)
    ensures AnySortAgrees(vn) <==> NoCrossTies(vn)
  {
    if NoCrossTies(vn) {
      forall a, b, t: Hash, r: nat | IsSortOf(a, vn) && IsSortOf(b, vn)
        ensures Owners(a, t, r) == Owners(b, t, r)
      {
        forall v ensures (v in a <==> v in vn) && (v in b <==> v in vn) {
          assert v in a <==> v in multiset(a);
          assert v in b <==> v in multiset(b);
          assert v in vn <==> v in multiset(vn);
        }
        SameVNodesSameOwners(a, b, t, r);
      }
    } else {
      var v, w :| v in vn && w in vn && v.hash == w.hash && v.nid != w.nid;
      var a := SortExists(vn);
      TieGivesTwoSorts(vn, a, v, w);
    }
  }

  /** Existence of a sorted permutation. */
  lemma {:induction false} SortExists(vn: seq<VNode>) returns (s: seq<VNode>)
    ensures IsSortOf(s, vn)
  {
    if vn == [] {
      s := [];
    } else {
      var init := vn[..|vn| - 1];
      var rest := SortExists(init);
      s := Inserted(rest, vn[|vn| - 1]);
      InsertedSort(rest, init, vn[|vn| - 1]);
      assert vn == init + [vn[|vn| - 1]];
    }
  }

  function Inserted(s: seq<VNode>, v: VNode): seq<VNode> {
    Splice(s, LowerBound(s, v.hash), v)
  }

  lemma InsertedSort(s: seq<VNode>, vn: seq<VNode>, v: VNode)
    requires IsSortOf(s, vn)
    ensures IsSortOf(Inserted(s, v), vn + [v])
  {
    var k := LowerBound(s, v.hash);
    SpliceBag(s, k, v);
    InsertedSorted(s, v);
  }

  lemma InsertedSorted(s: seq<VNode>, v: VNode)
    requires Sorted(s)
    ensures Sorted(Inserted(s, v))
  {
    var k := LowerBound(s, v.hash);
    LowerBoundSpec(s, v.hash);
    SpliceAt(s, k, v);
    forall j | k <= j < |s| ensures v.hash <= s[j].hash {
      assert s[k].hash <= s[j].hash;
    }
  }

  lemma {:induction false} SwapSameHash(a: seq<VNode>, i: nat, j: nat)
    requires Sorted(a) && i < |a| && j < |a| && a[i].hash == a[j].hash
    ensures IsSortOf(a[i := a[j]][j := a[i]], a)
  {
    var b := a[i := a[j]][j := a[i]];
    assert forall k :: 0 <= k < |a| ==> b[k].hash == a[k].hash;
    assert multiset(a[i := a[j]]) == multiset(a) - multiset{a[i]} + multiset{a[j]};
  }

  lemma {:induction false} PrimaryIsFirst(vn: seq<VNode>, t: Hash)
    requires vn != []
    ensures Owners(vn, t, 1) == [Clockwise(vn, t)[0].nid]
  {
    FirstIsHead(Clockwise(vn, t));
  }

  lemma {:induction false} FirstIsHead(walk: seq<VNode>)
    requires walk != []
    ensures |FirstAppearances(walk)| >= 1 && FirstAppearances(walk)[0] == walk[0].nid
  {
    if |walk| > 1 {
      FirstIsHead(walk[..|walk| - 1]);
    } else {
      assert FirstAppearances(walk[..0]) == [];
    }
  }

  lemma TieGivesTwoSorts(vn: seq<VNode>, a: seq<VNode>, v: VNode, w: VNode)
    requires IsSortOf(a, vn) && v in vn && w in vn && v.hash == w.hash && v.nid != w.nid
    ensures !AnySortAgrees(vn)
  {
    assert v in multiset(a) && w in multiset(a);
    // one of the two tied vnodes belongs to another node than the one found first
    var k := LowerBound(a, v.hash);
    var q := FindTied(a, k, v);
    if a[q].nid == a[k].nid {
      q := FindTied(a, k, w);
    }
    SwapDisagrees(vn, a, k, q);
  }

  lemma SwapDisagrees(vn: seq<VNode>, a: seq<VNode>, k: nat, q: nat)
    requires IsSortOf(a, vn)
    requires k <= q < |a| && a[k].hash == a[q].hash && a[k].nid != a[q].nid && k == LowerBound(a, a[q].hash)
    ensures !AnySortAgrees(vn)
  {
    SwapChangesPrimary(a, k, q);
    SwapSameHash(a, k, q);
    Disagree(vn, a, a[k := a[q]][q := a[k]], a[q].hash);
  }

  lemma Disagree(vn: seq<VNode>, a: seq<VNode>, b: seq<VNode>, t: Hash)
    requires IsSortOf(a, vn) && IsSortOf(b, vn) && Owners(a, t, 1) != Owners(b, t, 1)
    ensures !AnySortAgrees(vn)
  {
  }

  lemma FindTied(a: seq<VNode>, k: nat, v: VNode) returns (q: nat)
    requires Sorted(a) && v in a && k == LowerBound(a, v.hash)
    ensures k <= q < |a| && a[q] == v && a[k].hash == v.hash
  {
    q :| 0 <= q < |a| && a[q] == v;
    LowerBoundSpec(a, v.hash);
  }

  lemma SwapChangesPrimary(a: seq<VNode>, k: nat, q: nat)
    requires k <= q < |a| && a[k].hash == a[q].hash && a[k].nid != a[q].nid && k == LowerBound(a, a[q].hash)
    ensures Owners(a, a[q].hash, 1) != Owners(a[k := a[q]][q := a[k]], a[q].hash, 1)
  {
    hide Owners;
    hide LowerBound;
    var t, b := a[q].hash, a[k := a[q]][q := a[k]];
    LowerBoundSpec(a, t);
    LowerBoundIs(b, t, k);
    PrimaryIsFirst(a, t);
    PrimaryIsFirst(b, t);
    assert Clockwise(a, t)[0] == a[k] && Clockwise(b, t)[0] == a[q];
  }

  function Without(list: seq<NodeID>, n: NodeID): seq<NodeID> {
    if list == [] then []
    else (if list[0] == n then [] else [list[0]]) + Without(list[1..], n)
  }

  lemma {:induction false} WithoutAbsent(list: seq<NodeID>, n: NodeID)
    requires n !in list
    ensures Without(list, n) == list
  {
    if list != [] {
      WithoutAbsent(list[1..], n);
    }
  }

  lemma {:induction false} WithoutAt(list: seq<NodeID>, n: NodeID, k: nat)
    requires Distinct(list) && k < |list| && list[k] == n
    ensures Without(list, n) == list[..k] + list[k + 1..]
  {
    if k == 0 {
      WithoutAbsent(list[1..], n);
    } else {
      WithoutAt(list[1..], n, k - 1);
      assert list[1..][..k - 1] == list[1..k];
      assert list[1..][k..] == list[k + 1..];
    }
  }

  /** `after` is `before` joined by the vnodes of one new node. */
  ghost predicate Joins(before: seq<VNode>, after: seq<VNode>, n: NodeID) {
    && n !in Nodes(before) && n in Nodes(after)
    && forall v: VNode :: v.nid != n ==> (v in before <==> v in after)
  }

  /** Deleting the newcomer from a nearest-list of the grown ring leaves a nearest-list of the old ring. */
  lemma NearestWithoutNewcomer(before: seq<VNode>, after: seq<VNode>, n: NodeID, t: Hash, list: seq<NodeID>)
    requires Joins(before, after, n) && Nearest(after, t, list)
    ensures Nearest(before, t, Without(list, n))
    ensures |Without(list, n)| == if n in list then |list| - 1 else |list|
  {
    forall m | m != n
      ensures Reach(before, t, m) == Reach(after, t, m) && (m in Nodes(before) <==> m in Nodes(after))
    {
      ReachLocal(before, after, t, m);
    }
    WithoutKeepsNearest(after, t, list, n);
  }

  lemma WithoutKeepsNearest(vn: seq<VNode>, t: Hash, list: seq<NodeID>, n: NodeID)
    requires Distinct(list)
    requires forall i, j :: 0 <= i < j < |list| ==> Reach(vn, t, list[i]) <= Reach(vn, t, list[j])
    ensures var f := Without(list, n);
            && Distinct(f) && |f| == (if n in list then |list| - 1 else |list|)
            && (forall m :: m in f <==> m in list && m != n)
            && (forall i, j :: 0 <= i < j < |f| ==> Reach(vn, t, f[i]) <= Reach(vn, t, f[j]))
  {
    if n in list {
      var k :| 0 <= k < |list| && list[k] == n;
      WithoutAt(list, n, k);
      var f := Without(list, n);
      forall i | 0 <= i < |f| ensures f[i] == list[Skip(k, i)] {
      }
      forall i, j | 0 <= i < j < |f| ensures f[i] != f[j] && Reach(vn, t, f[i]) <= Reach(vn, t, f[j]) {
        assert f[i] == list[Skip(k, i)] && f[j] == list[Skip(k, j)];
      }
      SkipMembers(list, f, k);
    } else {
      WithoutAbsent(list, n);
    }
  }

  function Skip(k: nat, i: nat): nat {
    if i < k then i else i + 1
  }

  lemma SkipMembers(list: seq<NodeID>, f: seq<NodeID>, k: nat)
    requires Distinct(list) && k < |list| && |f| == |list| - 1
    requires forall i :: 0 <= i < |f| ==> f[i] == list[Skip(k, i)]
    ensures forall m :: m in f <==> m in list && m != list[k]
  {
    forall m | m in list && m != list[k] ensures m in f {
      var i :| 0 <= i < |list| && list[i] == m;
      var j := if i < k then i else i - 1;
      assert Skip(k, j) == i && f[j] == m;
    }
    forall m | m in f ensures m in list && m != list[k] {
      var i :| 0 <= i < |f| && f[i] == m;
      assert m == list[Skip(k, i)];
    }
  }

  /**
   Minimal disruption: when one node joins, each key's new owner list with the newcomer deleted is a
   prefix of its old owner list, and at most one old owner is dropped.
   */
  lemma MinimalDisruption(before: seq<VNode>, after: seq<VNode>, n: NodeID, t: Hash, replication: nat)
    requires Sorted(before) && Sorted(after) && NoCrossTies(after) && Joins(before, after, n)
    ensures var old', new' := Owners(before, t, replication), Owners(after, t, replication);
            && Without(new', n) <= old'
            && |old'| - 1 <= |Without(new', n)|
            && (n !in new' ==> new' == old')
  {
    var o, o' := Owners(before, t, replication), Owners(after, t, replication);
    OwnersAreNearest(before, t, replication);
    OwnersAreNearest(after, t, replication);
    NearestWithoutNewcomer(before, after, n, t, o');
    var f := Without(o', n);
    forall m ensures m in Nodes(after) <==> m in Nodes(before) + {n} {
      if m != n { ReachLocal(before, after, t, m); }
    }
    assert Nodes(after) == Nodes(before) + {n};
    DistinctSize(f);
    SubsetSize((set x | x in f), Nodes(before));
    assert NoCrossTies(before) by {
      forall v, w | v in before && w in before && v.hash == w.hash ensures v.nid == w.nid {
        assert v.nid in Nodes(before) && w.nid in Nodes(before);
        assert v in after && w in after;
      }
    }
    NearestPrefix(before, t, f, o, |f|);
    assert f == f[..|f|] == o[..|f|];
    if n !in o' {
      WithoutAbsent(o', n);
    }
  }

  /** Rings built from a node list and from a list with one more member are joined by that member. */
  lemma BuildJoins(hash: string -> Hash, per: nat, nodes: seq<NodeID>, nodes': seq<NodeID>, n: NodeID, a: seq<VNode>, b: seq<VNode>)
    requires per > 0 && n !in nodes && forall m :: m in nodes' <==> m in nodes || m == n
    requires IsSortOf(a, AllPoints(hash, per, nodes)) && IsSortOf(b, AllPoints(hash, per, nodes'))
    ensures Joins(a, b, n)
  {
    hide AllPoints;
    forall v: VNode
      ensures v in a <==> v.nid in nodes && exists i: nat :: i < per && v == Point(hash, v.nid, i)
      ensures v in b <==> v.nid in nodes' && exists i: nat :: i < per && v == Point(hash, v.nid, i)
    {
      AllPointsMembers(hash, per, nodes, v);
      AllPointsMembers(hash, per, nodes', v);
      assert v in a <==> v in multiset(a);
      assert v in b <==> v in multiset(b);
      assert v in AllPoints(hash, per, nodes) <==> v in multiset(AllPoints(hash, per, nodes));
      assert v in AllPoints(hash, per, nodes') <==> v in multiset(AllPoints(hash, per, nodes'));
    }
    assert Point(hash, n, 0) in b;
  }

  /** Minimal disruption for built rings: the same node list with one member more, each in any order. */
  lemma BuildDisruption(hash: string -> Hash, per: nat, nodes: seq<NodeID>, nodes': seq<NodeID>, n: NodeID,
                        a: seq<VNode>, b: seq<VNode>, t: Hash, replication: nat)
    requires per > 0 && n !in nodes && forall m :: m in nodes' <==> m in nodes || m == n
    requires IsSortOf(a, AllPoints(hash, per, nodes)) && IsSortOf(b, AllPoints(hash, per, nodes')) && NoCrossTies(b)
    ensures var old', new' := Owners(a, t, replication), Owners(b, t, replication);
            && Without(new', n) <= old'
            && |old'| - 1 <= |Without(new', n)|
            && (n !in new' ==> new' == old')
  {
    BuildJoins(hash, per, nodes, nodes', n, a, b);
    MinimalDisruption(a, b, n, t, replication);
  }

  // ---------- the ring object ----------

  /** Sorting by hash. The source calls a library sort; any result it may give satisfies this contract. */
  method SortVNodes(vn: seq<VNode>) returns (s: seq<VNode>)
    ensures IsSortOf(s, vn)
  {
    hide Splice;
    hide LowerBound;
    s := [];
    for i := 0 to |vn|
      invariant IsSortOf(s, vn[..i])
    {
      var k := SearchFirst(s, vn[i].hash);
      InsertedSort(s, vn[..i], vn[i]);
      s := Splice(s, k, vn[i]);
      assert vn[..i + 1] == vn[..i] + [vn[i]];
    }
    assert vn[..|vn|] == vn;
  }

  /** Binary search for the first vnode at or past `t`. */
  method SearchFirst(vn: seq<VNode>, t: Hash) returns (k: nat)
    requires Sorted(vn)
    ensures k == LowerBound(vn, t)
  {
    var i, j := 0, |vn|;
    while i < j
      invariant 0 <= i <= j <= |vn|
      invariant forall q :: 0 <= q < i ==> vn[q].hash < t
      invariant forall q :: j <= q < |vn| ==> t <= vn[q].hash
    {
      var h := (i + j) / 2;
      if vn[h].hash < t {
        i := h + 1;
      } else {
        j := h;
      }
    }
    k := i;
    LowerBoundIs(vn, t, k);
  }

  class HashRing {
    const hash: string -> Hash
    const vnPerNode: nat
    const replication: nat
    var vnodes: seq<VNode>

    ghost predicate Valid()
      reads this
    {
      vnPerNode > 0 && replication > 0 && Sorted(vnodes)
    }

    /** Non-positive options leave the defaults (64 vnodes per node, one owner per key). */
    constructor (hash: string -> Hash, vnPerNode: int, replication: int)
      ensures Valid() && vnodes == [] && this.hash == hash
      ensures this.vnPerNode == if vnPerNode > 0 then vnPerNode else DEFAULT_VIRTUAL_NODES
      ensures this.replication == if replication > 0 then replication else 1
    {
      this.hash := hash;
      this.vnPerNode := if vnPerNode > 0 then vnPerNode else DEFAULT_VIRTUAL_NODES;
      this.replication := if replication > 0 then replication else 1;
      vnodes := [];
    }

    /** Rebuilds the ring from a node list. */
    method Build(nodes: seq<NodeID>)
      requires Valid()
      modifies this
      ensures Valid()
      ensures IsSortOf(vnodes, AllPoints(hash, vnPerNode, nodes))
    {
      var vn: seq<VNode> := [];
      for j := 0 to |nodes|
        invariant vn == AllPoints(hash, vnPerNode, nodes[..j])
      {
        var mine := [];
        for i := 0 to vnPerNode
          invariant mine == PointsOf(hash, nodes[j], vnPerNode)[..i]
        {
          mine := mine + [Point(hash, nodes[j], i)];
        }
        vn := vn + mine;
        assert nodes[..j + 1][..j] == nodes[..j];
      }
      assert nodes[..|nodes|] == nodes;
      vnodes := SortVNodes(vn);
    }

    /** The owners of a key: primary first, then the replicas. */
    method Lookup(key: string) returns (res: seq<NodeID>)
      requires Valid()
      ensures res == Owners(vnodes, hash(key), replication)
      ensures Nearest(vnodes, hash(key), res) && |res| == Min(replication, |Nodes(vnodes)|)
    {
      OwnersAreNearest(vnodes, hash(key), replication);
      if |vnodes| == 0 {
        return [];
      }
      var target := hash(key);
      var idx := SearchFirst(vnodes, target);
      if idx == |vnodes| {
        idx := 0;
      }
      res := WalkDistinct(vnodes, target, idx, replication);
    }
  }

  /** The clockwise loop of Lookup: collect node IDs not seen before until enough are found. */
  method WalkDistinct(vnodes: seq<VNode>, ghost target: Hash, idx: nat, replication: nat) returns (res: seq<NodeID>)
    requires vnodes != [] && idx == (var k := LowerBound(vnodes, target); if k == |vnodes| then 0 else k)
    ensures res == Owners(vnodes, target, replication)
  {
    ghost var walk := Clockwise(vnodes, target);
    res := [];
    var seen := {};
    var i := 0;
    while |res| < replication && i < |vnodes|
      invariant 0 <= i <= |vnodes|
      invariant res == FirstAppearances(walk[..i]) && |res| <= replication
      invariant forall n :: n in seen <==> n in res
    {
      var vn := vnodes[(idx + i) % |vnodes|];
      ClockwiseAt(vnodes, target, i);
      assert walk[..i + 1][..i] == walk[..i];
      if vn.nid !in seen {
        seen := seen + {vn.nid};
        res := res + [vn.nid];
      }
      i := i + 1;
    }
    FirstAppearancesPrefix(walk, i);
    assert walk[..|walk|] == walk;
  }

  lemma {:induction false} FirstAppearancesPrefix(walk: seq<VNode>, i: nat)
    requires i <= |walk|
    ensures FirstAppearances(walk[..i]) <= FirstAppearances(walk)
  {
    if i < |walk| {
      FirstAppearancesPrefix(walk[..|walk| - 1], i);
      assert walk[..|walk| - 1][..i] == walk[..i];
    } else {
      assert walk[..i] == walk;
    }
  }
}
