/**
 Merkle anti-entropy (pkg/backend/dist_memory.go): one node pulls from a peer the keys whose leaf
 chunks differ, and the keys only the peer lists.

 A node's replica is its live items and its tombstones. SHA-256 is a parameter `digest`; the claims
 assume only that equal leaf digests mean equal leaf chunks.
 */
module Merkle {
  import opened Lex
  import opened Items

  datatype Tomb = Tomb(version: nat, origin: string)

  datatype Replica = Replica(items: map<Key, Item>, tombs: map<Key, Tomb>)

  /** Items are stored under their own key. */
  ghost predicate Keyed(r: Replica) {
    forall k :: k in r.items ==> r.items[k].key == k
  }

  // ---------- adopting one key ----------

  /** Local effect of pulling key `k` from an unchanging, reachable peer. */
  function Adopt(self: string, l: Replica, peer: Replica, k: Key): Replica {
    if k !in peer.items then
      if k !in l.tombs && k in l.items then
        Replica(l.items - {k}, l.tombs[k := Tomb(l.items[k].version + 1, self)])
      else l
    else
      var it := peer.items[k];
      if k in l.tombs && l.tombs[k].version >= it.version then l
      else
        var cleared := l.(tombs := l.tombs - {k});
        if k !in l.items || it.version > l.items[k].version then
          cleared.(items := l.items[it.key := it])
        else cleared
  }

  function AdoptAll(self: string, l: Replica, peer: Replica, keys: seq<Key>): Replica {
    if keys == [] then l
    else Adopt(self, AdoptAll(self, l, peer, keys[..|keys| - 1]), peer, keys[|keys| - 1])
  }

  /** Highest version known for a key, live or deleted; -1 for a key never seen. */
  function Level(r: Replica, k: Key): int {
    var i := if k in r.items then r.items[k].version as int else -1;
    var t := if k in r.tombs then r.tombs[k].version as int else -1;
    if i < t then t else i
  }

  /** What a sync owes key `k`: live here at the peer's version or later, or deleted here at that version or later. */
  ghost predicate Caught(l: Replica, peer: Replica, k: Key) {
    k in peer.items ==>
      || (k in l.items && l.items[k].version >= peer.items[k].version)
      || (k in l.tombs && l.tombs[k].version >= peer.items[k].version)
  }

  lemma AdoptStep(self: string, l: Replica, peer: Replica, k: Key)
    requires Keyed(l) && Keyed(peer)
    ensures var l' := Adopt(self, l, peer, k);
            && Keyed(l')
            && Caught(l', peer, k)
            && (forall x :: Level(l', x) >= Level(l, x))
            && (forall x :: x != k ==> ((x in l'.items <==> x in l.items) && (x in l'.tombs <==> x in l.tombs)))
            && (forall x :: x != k && x in l.items ==> l'.items[x] == l.items[x])
            && (forall x :: x != k && x in l.tombs ==> l'.tombs[x] == l.tombs[x])
  {
  }

  /** One pull: a peer, as it is at that moment, and a key. */
  datatype Pull = Pull(peer: Replica, key: Key)

  function PullAll(self: string, l: Replica, ps: seq<Pull>): Replica {
    if ps == [] then l
    else Adopt(self, PullAll(self, l, ps[..|ps| - 1]), ps[|ps| - 1].peer, ps[|ps| - 1].key)
  }

  ghost predicate Supplied(ps: seq<Pull>, it: Item) {
    exists i :: 0 <= i < |ps| && it.key in ps[i].peer.items && ps[i].peer.items[it.key] == it
  }

  /**
   No resurrection: after any pulls from any peers, changing as they may, a key deleted at version `t` is
   still deleted, at `t` or later, and live at most as it was before the pulls; or the deletion is lifted and
   the key is live above `t`, with an item that was here already or that some pulled peer held.
   */
  lemma {:induction false} NoResurrection(self: string, l: Replica, ps: seq<Pull>, k: Key)
    requires Keyed(l) && (forall i :: 0 <= i < |ps| ==> Keyed(ps[i].peer)) && k in l.tombs
    ensures var r := PullAll(self, l, ps); var t := l.tombs[k].version;
            && Keyed(r)
            && if k in r.tombs then
                 && r.tombs[k].version >= t
                 && (k in r.items ==> k in l.items && r.items[k] == l.items[k] && r.tombs[k] == l.tombs[k])
               else
                 && k in r.items && r.items[k].version > t
                 && (Supplied(ps, r.items[k]) || (k in l.items && r.items[k] == l.items[k]))
  {
    if ps != [] {
      var pre, p := ps[..|ps| - 1], ps[|ps| - 1];
      NoResurrection(self, l, pre, k);
      AdoptStep(self, PullAll(self, l, pre), p.peer, p.key);
      var r := PullAll(self, l, ps);
      if k !in r.tombs && !(k in l.items && r.items[k] == l.items[k]) {
        if p.key == k && k in p.peer.items && p.peer.items[k] == r.items[k] {
          assert ps[|ps| - 1].peer.items[k] == r.items[k];
        } else {
          assert Supplied(pre, r.items[k]);
        }
      }
    }
  }

  /** Over any sequence of pulls no key's level falls, and every pulled key is caught up. */
  lemma {:induction false} AdoptAllSteps(self: string, l: Replica, peer: Replica, keys: seq<Key>)
    requires Keyed(l) && Keyed(peer)
    ensures var l' := AdoptAll(self, l, peer, keys);
            && Keyed(l')
            && (forall x :: Level(l', x) >= Level(l, x))
            && (forall x :: x in keys ==> Caught(l', peer, x))
            && (forall x :: x !in keys ==> ((x in l'.items <==> x in l.items) && (x in l'.tombs <==> x in l.tombs)))
            && (forall x :: x !in keys && x in l.items ==> l'.items[x] == l.items[x])
            && (forall x :: x !in keys && x in l.tombs ==> l'.tombs[x] == l.tombs[x])
  {
    if keys != [] {
      var init, last := keys[..|keys| - 1], keys[|keys| - 1];
      assert keys == init + [last];
      var mid := AdoptAll(self, l, peer, init);
      AdoptAllSteps(self, l, peer, init);
      AdoptStep(self, mid, peer, last);
      var l' := AdoptAll(self, l, peer, keys);
      forall x ensures Level(l', x) >= Level(l, x) {
        assert Level(mid, x) >= Level(l, x);
      }
      forall x | x in keys ensures Caught(l', peer, x) {
        if x != last {
          assert x in init;
        }
      }
    }
  }

  /** Replica `r` has of key `k` what `l` had. */
  ghost predicate SameAt(l: Replica, r: Replica, k: Key) {
    && (k in r.items <==> k in l.items) && (k in l.items ==> r.items[k] == l.items[k])
    && (k in r.tombs <==> k in l.tombs) && (k in l.tombs ==> r.tombs[k] == l.tombs[k])
  }

  /**
   What a pulled key ends with, however often it is pulled: the peer's item, unless it was deleted here at that
   version or later, in which case nothing changes, or is live here at that version or later and stays as it is.
   A live key the peer does not have is deleted one version up; an already deleted one stays as it is.
   */
  lemma {:induction false} PulledKeyEnds(self: string, l: Replica, peer: Replica, keys: seq<Key>, k: Key)
    requires Keyed(l) && Keyed(peer) && k in keys
    ensures var r := AdoptAll(self, l, peer, keys);
            if k in peer.items && !(k in l.tombs && l.tombs[k].version >= peer.items[k].version) then
              && k !in r.tombs && k in r.items
              && r.items[k] == (if k in l.items && l.items[k].version >= peer.items[k].version then l.items[k] else peer.items[k])
            else if k !in peer.items && k in l.items && k !in l.tombs then
              k !in r.items && k in r.tombs && r.tombs[k] == Tomb(l.items[k].version + 1, self)
            else SameAt(l, r, k)
  {
    var init, last := keys[..|keys| - 1], keys[|keys| - 1];
    assert keys == init + [last];
    var mid := AdoptAll(self, l, peer, init);
    AdoptAllSteps(self, l, peer, init);
    if k in init {
      PulledKeyEnds(self, l, peer, init, k);
    }
    if last != k {
      AdoptStep(self, mid, peer, last);
    }
  }

  /** A live key the peer does not hold, once pulled, is deleted here and stays deleted. */
  lemma {:induction false} AdoptAllDeletes(self: string, l: Replica, peer: Replica, keys: seq<Key>, k: Key)
    requires Keyed(l) && Keyed(peer) && k in keys && k !in peer.items && k !in l.tombs && k in l.items
    ensures var l' := AdoptAll(self, l, peer, keys);
            k !in l'.items && k in l'.tombs && l'.tombs[k] == Tomb(l.items[k].version + 1, self)
  {
    var init, last := keys[..|keys| - 1], keys[|keys| - 1];
    assert keys == init + [last];
    var mid := AdoptAll(self, l, peer, init);
    AdoptAllSteps(self, l, peer, init);
    AdoptStep(self, mid, peer, last);
    if k in init {
      AdoptAllDeletes(self, l, peer, init, k);
    }
  }

  // ---------- entries, chunks and leaf digests ----------

  datatype KV = KV(k: Key, v: nat)

  ghost function LiveEntries(r: Replica): set<KV> {
    set k | k in r.items :: KV(k, r.items[k].version)
  }

  ghost function TombEntries(r: Replica): set<KV> {
    set k | k in r.tombs :: KV(k, r.tombs[k].version)
  }

  /** Every live item and every tombstone contributes one entry. */
  ghost function Entries(r: Replica): multiset<KV> {
    multiset(LiveEntries(r)) + multiset(TombEntries(r))
  }

  ghost predicate SortedByKey(es: seq<KV>) {
    forall i, j :: 0 <= i < j < |es| ==> Leq(es[i].k, es[j].k)
  }

  /** `es` is some result of sorting the node's entries by key. */
  ghost predicate Listing(es: seq<KV>, r: Replica) {
    SortedByKey(es) && multiset(es) == Entries(r)
  }

  lemma ListingMembers(es: seq<KV>, r: Replica, e: KV)
    requires Listing(es, r)
    ensures e in es <==> (e.k in r.items && r.items[e.k].version == e.v) || (e.k in r.tombs && r.tombs[e.k].version == e.v)
  {
    assert e in es <==> e in multiset(es);
    assert e in Entries(r) <==> e in LiveEntries(r) || e in TombEntries(r);
  }

  /** `chunkSize` keys per leaf; the last chunk may be short. */
  function Chunks(es: seq<KV>, chunkSize: nat): seq<seq<KV>>
    requires chunkSize > 0
  {
    if es == [] then []
    else if |es| <= chunkSize then [es]
    else [es[..chunkSize]] + Chunks(es[chunkSize..], chunkSize)
  }

  /** The slice arithmetic of the source agrees with the chunk list. */
  lemma {:induction false} ChunkSlice(es: seq<KV>, c: nat, i: nat)
    requires c > 0 && i < |Chunks(es, c)|
    ensures i * c < |es|
    ensures Chunks(es, c)[i] == es[i * c .. if i * c + c < |es| then i * c + c else |es|]
  {
    if |es| > c && i > 0 {
      var rest := es[c..];
      ChunkSlice(rest, c, i - 1);
      assert (i - 1) * c + c == i * c;
      assert Chunks(es, c)[i] == Chunks(rest, c)[i - 1];
    }
  }

  /** Every position lies in some chunk. */
  lemma {:induction false} ChunkOf(es: seq<KV>, c: nat, p: nat) returns (i: nat)
    requires c > 0 && p < |es|
    ensures i < |Chunks(es, c)| && i * c <= p < i * c + c
  {
    if p < c {
      i := 0;
    } else {
      var j := ChunkOf(es[c..], c, p - c);
      i := j + 1;
      assert i * c == j * c + c;
    }
  }

  lemma {:induction false} ChunksLength(a: seq<KV>, b: seq<KV>, c: nat)
    requires c > 0 && |a| == |b|
    ensures |Chunks(a, c)| == |Chunks(b, c)|
  {
    if |a| > c {
      ChunksLength(a[c..], b[c..], c);
    }
  }

  /** The bytes of a version: big endian, eight bytes. */
  function VersionBytes(v: nat, n: nat): seq<char> {
    if n == 0 then [] else VersionBytes(v / 256, n - 1) + [(v % 256) as char]
  }

  /** The bytes hashed for a chunk: keys and versions run together without separators. */
  function LeafBytes(chunk: seq<KV>): seq<char> {
    if chunk == [] then [] else chunk[0].k + VersionBytes(chunk[0].v, 8) + LeafBytes(chunk[1..])
  }

  function Leaves(digest: seq<char> -> string, chunks: seq<seq<KV>>): seq<string> {
    seq(|chunks|, i requires 0 <= i < |chunks| => digest(LeafBytes(chunks[i])))
  }

  datatype Tree = Tree(leaves: seq<string>, chunkSize: nat)

  ghost predicate TreeOf(tree: Tree, digest: seq<char> -> string, es: seq<KV>) {
    tree.chunkSize > 0 && tree.leaves == Leaves(digest, Chunks(es, tree.chunkSize))
  }

  /** Indices of differing leaves; every local index when the leaf counts differ. */
  ghost predicate Differs(a: Tree, b: Tree, i: nat) {
    i < |a.leaves| && (|a.leaves| == |b.leaves| ==> a.leaves[i] != b.leaves[i])
  }

  /** Equal digests at the same index mean equal chunks. */
  ghost predicate NoCollision(digest: seq<char> -> string, a: seq<seq<KV>>, b: seq<seq<KV>>) {
    forall i :: 0 <= i < |a| && i < |b| && digest(LeafBytes(a[i])) == digest(LeafBytes(b[i])) ==> a[i] == b[i]
  }

  // ---------- when the hashed bytes determine the chunk ----------

  function KeyLengths(chunk: seq<KV>): seq<nat> {
    seq(|chunk|, i requires 0 <= i < |chunk| => |chunk[i].k|)
  }

  ghost predicate Fits(chunk: seq<KV>) {
    forall i :: 0 <= i < |chunk| ==> chunk[i].v < 0x1_0000_0000_0000_0000
  }

  function Pow256(n: nat): nat {
    if n == 0 then 1 else 256 * Pow256(n - 1)
  }

  lemma {:induction false} VersionBytesInjective(v: nat, w: nat, n: nat)
    requires v < Pow256(n) && w < Pow256(n)
    ensures |VersionBytes(v, n)| == |VersionBytes(w, n)| == n
    ensures VersionBytes(v, n) == VersionBytes(w, n) ==> v == w
  {
    if n > 0 {
      VersionBytesInjective(v / 256, w / 256, n - 1);
      var a, b := VersionBytes(v, n), VersionBytes(w, n);
      if a == b {
        assert a[..n - 1] == VersionBytes(v / 256, n - 1);
        assert b[..n - 1] == VersionBytes(w / 256, n - 1);
        assert a[n - 1] == (v % 256) as char && b[n - 1] == (w % 256) as char;
        assert v == 256 * (v / 256) + v % 256;
        assert w == 256 * (w / 256) + w % 256;
      }
    }
  }

  /** Two chunks with the same hashed bytes are equal exactly when their key lengths agree. */
  lemma {:induction false} LeafBytesDetermineIff(a: seq<KV>, b: seq<KV>)
    requires LeafBytes(a) == LeafBytes(b) && Fits(a) && Fits(b)
    ensures a == b <==> KeyLengths(a) == KeyLengths(b)
  {
    if KeyLengths(a) == KeyLengths(b) && a != [] {
      assert |KeyLengths(a)| == |a| && |KeyLengths(b)| == |b|;
      assert KeyLengths(a)[0] == KeyLengths(b)[0];
      var m := |a[0].k|;
      assert Pow256(8) == 0x1_0000_0000_0000_0000;
      VersionBytesInjective(a[0].v, b[0].v, 8);
      var s, t := LeafBytes(a), LeafBytes(b);
      assert s[..m] == a[0].k && t[..m] == b[0].k;
      assert s[m..m + 8] == VersionBytes(a[0].v, 8) && t[m..m + 8] == VersionBytes(b[0].v, 8);
      assert s[m + 8..] == LeafBytes(a[1..]) && t[m + 8..] == LeafBytes(b[1..]);
      assert KeyLengths(a[1..]) == KeyLengths(a)[1..];
      assert KeyLengths(b[1..]) == KeyLengths(b)[1..];
      LeafBytesDetermineIff(a[1..], b[1..]);
      assert a == [a[0]] + a[1..] && b == [b[0]] + b[1..];
    }
  }

  /** Key lengths can indeed differ: the concatenation is ambiguous. */
  lemma LeafBytesAmbiguous()
    ensures exists a, b :: LeafBytes(a) == LeafBytes(b) && a != b && Fits(a) && Fits(b)
  {
    RunTogether(KV("x", 1), KV("y", 2));
  }

  /** Two entries hash like one entry whose key swallows the first entry. */
  lemma RunTogether(e: KV, f: KV)
    requires e.v < 0x1_0000_0000_0000_0000 && f.v < 0x1_0000_0000_0000_0000
    ensures var g := KV(e.k + VersionBytes(e.v, 8) + f.k, f.v);
            LeafBytes([e, f]) == LeafBytes([g]) && [e, f] != [g] && Fits([e, f]) && Fits([g])
  {
    var u, v := VersionBytes(e.v, 8), VersionBytes(f.v, 8);
    var g := KV(e.k + u + f.k, f.v);
    assert [e, f][1..] == [f] && [f][1..] == [] && [g][1..] == [];
    calc {
      LeafBytes([e, f]);
      e.k + u + LeafBytes([f]);
      e.k + u + (f.k + v);
      { Associate(e.k + u, f.k, v); }
      g.k + v;
      LeafBytes([g]);
    }
    assert |[e, f]| != |[g]|;
  }

  lemma Associate(a: seq<char>, b: seq<char>, c: seq<char>)
    ensures a + (b + c) == (a + b) + c
  {
  }

  // ---------- which keys a sync pulls ----------

  /** Key `k` lies in a differing chunk of the listing the sync walks. */
  ghost predicate InDiff(es: seq<KV>, local: Tree, remote: Tree, k: Key) {
    exists p, i :: DiffAt(es, local, remote, k, p, i)
  }

  ghost predicate DiffAt(es: seq<KV>, local: Tree, remote: Tree, k: Key, p: int, i: nat) {
    && 0 <= p < |es| && es[p].k == k
    && Differs(local, remote, i) && i * local.chunkSize <= p < i * local.chunkSize + local.chunkSize
  }

  /** Key `k` is live on the peer and unknown here, live or deleted. */
  ghost predicate RemoteOnly(es: seq<KV>, peer: Replica, k: Key) {
    k in peer.items && forall e :: e in es ==> e.k != k
  }

  /** `keys` is what a sync pulls, in any order. */
  ghost predicate Pulls(keys: seq<Key>, es: seq<KV>, local: Tree, remote: Tree, peer: Replica) {
    forall k :: k in keys <==> InDiff(es, local, remote, k) || RemoteOnly(es, peer, k)
  }

  /**
   One sync: the local tree is built from listing `es`, the pull walks listing `es'` (a second
   sort of the same entries), the peer's tree is built from `ers`.
   */
  ghost predicate SyncOf(digest: seq<char> -> string, self: string, l: Replica, peer: Replica,
                         es: seq<KV>, es': seq<KV>, ers: seq<KV>, local: Tree, remote: Tree, keys: seq<Key>)
  {
    && Keyed(l) && Keyed(peer)
    && Listing(es, l) && Listing(es', l) && Listing(ers, peer)
    && TreeOf(local, digest, es) && TreeOf(remote, digest, ers)
    && NoCollision(digest, Chunks(es, local.chunkSize), Chunks(ers, remote.chunkSize))
    && Pulls(keys, es', local, remote, peer)
  }

  /** The peer does not hold a tombstone older than its own live copy of `k`. */
  predicate NoOlderTomb(peer: Replica, k: Key) {
    !(k in peer.items && k in peer.tombs && peer.tombs[k].version < peer.items[k].version)
  }

  lemma {:induction false} SortedKeysAgree(a: seq<KV>, b: seq<KV>, p: nat)
    requires SortedByKey(a) && SortedByKey(b) && multiset(a) == multiset(b) && p < |a|
    ensures |a| == |b| && a[p].k == b[p].k
  {
    assert |multiset(a)| == |a| && |multiset(b)| == |b|;
    Trichotomy(a[p].k, b[p].k);
    if Less(a[p].k, b[p].k) {
      CountMultiset(a, b, a[p].k);
      MoreBelow(a, b, p);
    } else if Less(b[p].k, a[p].k) {
      CountMultiset(a, b, b[p].k);
      MoreBelow(b, a, p);
    }
  }

  /** The keys at or below a[p] fill more than p places of `a` and at most p places of `b`. */
  lemma {:induction false} MoreBelow(a: seq<KV>, b: seq<KV>, p: nat)
    requires SortedByKey(a) && SortedByKey(b) && p < |a| && |a| == |b|
    requires Less(a[p].k, b[p].k)
    ensures CountLeq(b, a[p].k) < CountLeq(a, a[p].k)
  {
    var x := a[p].k;
    CountPrefix(a, x, p + 1);
    CountSuffix(b, x, p);
    forall j | p <= j < |b| ensures Less(x, b[j].k) {
      if j > p {
        Trichotomy(b[p].k, b[j].k);
        if Less(b[p].k, b[j].k) { Transitive(x, b[p].k, b[j].k); }
      }
    }
    forall j | 0 <= j < p + 1 ensures Leq(a[j].k, x) {
      Trichotomy(x, x);
    }
  }

  function CountLeq(s: seq<KV>, x: Key): nat {
    if s == [] then 0 else (if Leq(s[|s| - 1].k, x) then 1 else 0) + CountLeq(s[..|s| - 1], x)
  }

  lemma {:induction false} CountPrefix(s: seq<KV>, x: Key, n: nat)
    requires n <= |s|
    ensures (forall j :: 0 <= j < n ==> Leq(s[j].k, x)) ==> CountLeq(s, x) >= n
  {
    if |s| > n {
      CountPrefix(s[..|s| - 1], x, n);
    } else if n > 0 {
      CountPrefix(s[..n - 1], x, n - 1);
    }
  }

  lemma {:induction false} CountSuffix(s: seq<KV>, x: Key, n: nat)
    requires n <= |s|
    ensures (forall j :: n <= j < |s| ==> Less(x, s[j].k)) ==> CountLeq(s, x) <= n
  {
    if s != [] {
      CountSuffix(s[..|s| - 1], x, if n < |s| then n else n - 1);
    }
  }

  lemma CutBag(b: seq<KV>, i: nat)
    requires i < |b|
    ensures multiset(b) == multiset(b[..i] + b[i + 1..]) + multiset{b[i]}
  {
    assert b == b[..i] + [b[i]] + b[i + 1..];
  }

  lemma CancelBag(m: multiset<KV>, n: multiset<KV>, e: KV)
    requires m + multiset{e} == n + multiset{e}
    ensures m == n
  {
    assert (m + multiset{e}) - multiset{e} == m && (n + multiset{e}) - multiset{e} == n;
  }

  lemma {:induction false} CountMultiset(a: seq<KV>, b: seq<KV>, x: Key)
    requires multiset(a) == multiset(b)
    ensures CountLeq(a, x) == CountLeq(b, x)
  {
    if a == [] {
      assert |multiset(b)| == |b|;
      assert |multiset(a)| == 0;
    } else {
      var n := |a| - 1;
      assert a[n] in multiset(b);
      var i :| 0 <= i < |b| && b[i] == a[n];
      var b' := b[..i] + b[i + 1..];
      CutBag(a, n);
      CutBag(b, i);
      assert a[..n] + a[n + 1..] == a[..n];
      CancelBag(multiset(a[..n]), multiset(b'), a[n]);
      CountMultiset(a[..n], b', x);
      CountRemove(b, i, x);
    }
  }

  lemma {:induction false} CountRemove(b: seq<KV>, i: nat, x: Key)
    requires i < |b|
    ensures CountLeq(b, x) == CountLeq(b[..i] + b[i + 1..], x) + (if Leq(b[i].k, x) then 1 else 0)
  {
    var b' := b[..i] + b[i + 1..];
    if i == |b| - 1 {
      assert b' == b[..|b| - 1];
    } else {
      CountRemove(b[..|b| - 1], i, x);
      assert b[..|b| - 1][..i] + b[..|b| - 1][i + 1..] == b'[..|b'| - 1];
      assert b'[|b'| - 1] == b[|b| - 1];
    }
  }

  // ---------- completeness ----------

  /** An entry in a chunk that compares equal is an entry of the peer too. */
  lemma UnchangedChunk(digest: seq<char> -> string, es: seq<KV>, ers: seq<KV>, local: Tree, remote: Tree, p: nat, i: nat)
    requires TreeOf(local, digest, es) && TreeOf(remote, digest, ers)
    requires NoCollision(digest, Chunks(es, local.chunkSize), Chunks(ers, remote.chunkSize))
    requires p < |es| && i < |Chunks(es, local.chunkSize)|
    requires i * local.chunkSize <= p < i * local.chunkSize + local.chunkSize
    requires !Differs(local, remote, i)
    ensures es[p] in ers
  {
    var c, rc := local.chunkSize, remote.chunkSize;
    var a, b := Chunks(es, c), Chunks(ers, rc);
    assert |local.leaves| == |a| && |remote.leaves| == |b|;
    assert local.leaves[i] == digest(LeafBytes(a[i])) && remote.leaves[i] == digest(LeafBytes(b[i]));
    assert a[i] == b[i];
    ChunkHolds(es, c, i, p);
    ChunkWithin(ers, rc, i, es[p]);
  }

  lemma ChunkHolds(es: seq<KV>, c: nat, i: nat, p: nat)
    requires c > 0 && i < |Chunks(es, c)| && p < |es| && i * c <= p < i * c + c
    ensures es[p] in Chunks(es, c)[i]
  {
    ChunkSlice(es, c, i);
    assert Chunks(es, c)[i][p - i * c] == es[p];
  }

  lemma ChunkWithin(es: seq<KV>, c: nat, i: nat, e: KV)
    requires c > 0 && i < |Chunks(es, c)| && e in Chunks(es, c)[i]
    ensures e in es
  {
    ChunkSlice(es, c, i);
  }

  /**
   Anti-entropy completeness: after one sync every key live on the peer is caught up here, whatever
   the chunk sizes and leaf counts, provided the peer has no older tombstone beside its live copy.
   */
  lemma SyncComplete(digest: seq<char> -> string, self: string, l: Replica, peer: Replica,
                     es: seq<KV>, es': seq<KV>, ers: seq<KV>, local: Tree, remote: Tree, keys: seq<Key>, k: Key)
    requires SyncOf(digest, self, l, peer, es, es', ers, local, remote, keys)
    requires NoOlderTomb(peer, k)
    ensures Caught(AdoptAll(self, l, peer, keys), peer, k)
  {
    AdoptAllSteps(self, l, peer, keys);
    if k in peer.items && k !in keys {
      assert !RemoteOnly(es', peer, k);
      var e :| e in es' && e.k == k;
      var p :| 0 <= p < |es'| && es'[p] == e;
      SortedKeysAgree(es', es, p);
      var i := ChunkOf(es, local.chunkSize, p);
      assert !InDiff(es', local, remote, k);
      assert !DiffAt(es', local, remote, k, p, i);
      UnchangedChunk(digest, es, ers, local, remote, p, i);
      ListingMembers(es, l, es[p]);
      ListingMembers(ers, peer, es[p]);
    }
  }

  /** A local-only live key survives a sync exactly when its chunk does not differ; otherwise it is deleted. */
  lemma LocalOnlyKeySurvivesIff(digest: seq<char> -> string, self: string, l: Replica, peer: Replica,
                                es: seq<KV>, es': seq<KV>, ers: seq<KV>, local: Tree, remote: Tree, keys: seq<Key>, k: Key)
    requires SyncOf(digest, self, l, peer, es, es', ers, local, remote, keys)
    requires k in l.items && k !in l.tombs && k !in peer.items
    ensures k in AdoptAll(self, l, peer, keys).items <==> !InDiff(es', local, remote, k)
  {
    AdoptAllSteps(self, l, peer, keys);
    if InDiff(es', local, remote, k) {
      AdoptAllDeletes(self, l, peer, keys, k);
    } else {
      assert k !in keys;
    }
  }

  // ---------- the tombstone condition is exact ----------

  /** Whatever node pulls from `peer`, with whatever chunk sizes, ends up caught up on `k`. */
  ghost predicate AlwaysCaught(peer: Replica, k: Key) {
    forall digest: seq<char> -> string, self, l, es, es', ers, local, remote, keys ::
      SyncOf(digest, self, l, peer, es, es', ers, local, remote, keys) ==> Caught(AdoptAll(self, l, peer, keys), peer, k)
  }

  ghost predicate VersionsFit(r: Replica) {
    && (forall k :: k in r.items ==> r.items[k].version < 0x1_0000_0000_0000_0000)
    && (forall k :: k in r.tombs ==> r.tombs[k].version < 0x1_0000_0000_0000_0000)
  }

  /** Completeness for key `k` holds against every puller if and only if the peer has no older tombstone for it. */
  lemma SyncCompleteIff(peer: Replica, k: Key)
    requires Keyed(peer) && VersionsFit(peer)
    ensures AlwaysCaught(peer, k) <==> NoOlderTomb(peer, k)
  {
    if NoOlderTomb(peer, k) {
      forall digest: seq<char> -> string, self, l, es, es', ers, local, remote, keys
        | SyncOf(digest, self, l, peer, es, es', ers, local, remote, keys)
        ensures Caught(AdoptAll(self, l, peer, keys), peer, k)
      {
        SyncComplete(digest, self, l, peer, es, es', ers, local, remote, keys, k);
      }
    } else {
      OlderTombHides(peer, k);
    }
  }

  lemma {:induction false} SortBag(m: multiset<KV>) returns (s: seq<KV>)
    ensures SortedByKey(s) && multiset(s) == m
    decreases |m|
  {
    if m == multiset{} {
      s := [];
    } else {
      var e :| e in m;
      var r := SortBag(m - multiset{e});
      s := InsertByKey(r, e);
    }
  }

  lemma {:induction false} SlotOf(s: seq<KV>, e: KV) returns (j: nat)
    ensures j <= |s| && (j > 0 ==> Leq(s[j - 1].k, e.k))
    ensures forall q :: j <= q < |s| ==> Less(e.k, s[q].k)
  {
    if s == [] || Leq(s[|s| - 1].k, e.k) {
      j := |s|;
    } else {
      j := SlotOf(s[..|s| - 1], e);
      Trichotomy(e.k, s[|s| - 1].k);
    }
  }

  lemma InsertByKey(s: seq<KV>, e: KV) returns (r: seq<KV>)
    requires SortedByKey(s)
    ensures SortedByKey(r) && multiset(r) == multiset(s) + multiset{e}
    ensures forall x :: x in r <==> x in s || x == e
  {
    hide SortedByKey;
    var j := SlotOf(s, e);
    r := s[..j] + [e] + s[j..];
    InsertSorted(s, e, j);
    InsertBag(s, e, j);
    assert s == s[..j] + s[j..];
  }

  /** Last position of a key that occurs. */
  lemma {:induction false} LastOf(s: seq<KV>, k: Key) returns (p: nat)
    requires exists e :: e in s && e.k == k
    ensures p < |s| && s[p].k == k && forall q :: p < q < |s| ==> s[q].k != k
  {
    if s[|s| - 1].k == k {
      p := |s| - 1;
    } else {
      var e :| e in s && e.k == k;
      assert e in s[..|s| - 1];
      p := LastOf(s[..|s| - 1], k);
    }
  }

  lemma {:induction false} SetToSeq(keys: set<Key>) returns (s: seq<Key>)
    ensures forall k :: k in s <==> k in keys
  {
    if keys == {} {
      s := [];
    } else {
      var k :| k in keys;
      var r := SetToSeq(keys - {k});
      s := [k] + r;
    }
  }

  lemma PullsExist(es: seq<KV>, local: Tree, remote: Tree, peer: Replica) returns (keys: seq<Key>)
    ensures Pulls(keys, es, local, remote, peer)
  {
    var known := (set e | e in es :: e.k) + peer.items.Keys;
    keys := SetToSeq(set k | k in known && (InDiff(es, local, remote, k) || RemoteOnly(es, peer, k)));
    forall k | InDiff(es, local, remote, k) ensures k in known {
      var p, i :| DiffAt(es, local, remote, k, p, i);
      assert es[p] in es;
    }
  }

  /** Chunks of size one are the entries themselves. */
  lemma {:induction false} SingletonChunks(es: seq<KV>)
    ensures |Chunks(es, 1)| == |es|
    ensures forall i :: 0 <= i < |es| ==> Chunks(es, 1)[i] == [es[i]]
  {
    if |es| > 1 {
      SingletonChunks(es[1..]);
      assert Chunks(es, 1) == [es[..1]] + Chunks(es[1..], 1);
    }
  }

  lemma SingletonNoCollision(a: seq<KV>, b: seq<KV>)
    requires Fits(a) && Fits(b)
    ensures NoCollision(x => x, Chunks(a, 1), Chunks(b, 1))
  {
    SingletonChunks(a);
    SingletonChunks(b);
    var ca, cb := Chunks(a, 1), Chunks(b, 1);
    forall i | 0 <= i < |ca| && i < |cb| && LeafBytes(ca[i]) == LeafBytes(cb[i])
      ensures ca[i] == cb[i]
    {
      assert Fits(ca[i]) && Fits(cb[i]);
      assert Pow256(8) == 0x1_0000_0000_0000_0000;
      VersionBytesInjective(a[i].v, b[i].v, 8);
      OneEntryBytes(a[i]);
      OneEntryBytes(b[i]);
      assert |a[i].k| == |b[i].k|;
      assert KeyLengths(ca[i]) == KeyLengths(cb[i]);
      LeafBytesDetermineIff(ca[i], cb[i]);
    }
  }

  lemma OneEntryBytes(e: KV)
    ensures LeafBytes([e]) == e.k + VersionBytes(e.v, 8)
  {
    assert [e][1..] == [];
  }

  /** One more live item is one more entry. */
  lemma EntriesPlus(base: Replica, r: Replica, it: Item, k: Key)
    requires k !in base.items && r == Replica(base.items[k := it], base.tombs)
    ensures Entries(r) == Entries(base) + multiset{KV(k, it.version)}
  {
    assert LiveEntries(r) == LiveEntries(base) + {KV(k, it.version)} by {
      assert k in r.items && r.items[k].version == it.version;
      assert forall x :: x in base.items ==> x in r.items && r.items[x] == base.items[x];
      assert forall x :: x in r.items ==> x == k || x in base.items;
    }
    assert KV(k, it.version) !in LiveEntries(base);
  }

  /** The listings of the counterexample: `es` and `ers` agree up to the last entry of `k` in `es`. */
  lemma HidingListings(peer: Replica, k: Key, l: Replica, z: Key)
    returns (es: seq<KV>, ers: seq<KV>, p: nat)
    requires k in peer.items && k in peer.tombs && z !in peer.items && z !in peer.tombs
    requires forall x :: x in peer.items || x in peer.tombs ==> Less(x, z)
    requires l == Replica((peer.items - {k})[z := Item(z, "", 0, "")], peer.tombs)
    ensures Listing(es, l) && Listing(ers, peer) && |es| == |ers|
    ensures p < |es| && es[p].k == k && es[..p + 1] == ers[..p + 1] && forall q :: p < q < |es| ==> es[q].k != k
  {
    var base := Replica(peer.items - {k}, peer.tombs);
    var s := SortBag(Entries(base));
    ListingMembers(s, base, KV(k, peer.tombs[k].version));
    p := LastOf(s, k);
    es := s + [KV(z, 0)];
    ers := s[..p + 1] + [KV(k, peer.items[k].version)] + s[p + 1..];
    AppendListing(s, base, l, z);
    assert peer.items == base.items[k := peer.items[k]];
    InsertListing(s, base, peer, k, p);
  }

  lemma AppendListing(s: seq<KV>, base: Replica, l: Replica, z: Key)
    requires Listing(s, base) && z !in base.items
    requires forall x :: x in base.items || x in base.tombs ==> Less(x, z)
    requires l == Replica(base.items[z := Item(z, "", 0, "")], base.tombs)
    ensures Listing(s + [KV(z, 0)], l)
  {
    EntriesPlus(base, l, Item(z, "", 0, ""), z);
    forall i | 0 <= i < |s| ensures Leq(s[i].k, z) {
      ListingMembers(s, base, s[i]);
      Trichotomy(s[i].k, z);
    }
  }

  lemma InsertListing(s: seq<KV>, base: Replica, r: Replica, k: Key, p: nat)
    requires Listing(s, base) && p < |s| && s[p].k == k && k !in base.items && k in r.items
    requires r == Replica(base.items[k := r.items[k]], base.tombs)
    ensures Listing(s[..p + 1] + [KV(k, r.items[k].version)] + s[p + 1..], r)
  {
    EntriesPlus(base, r, r.items[k], k);
    InsertAfterSorted(s, KV(k, r.items[k].version), p);
    assert s == s[..p + 1] + s[p + 1..];
  }

  lemma InsertAfterSorted(s: seq<KV>, e: KV, p: nat)
    requires SortedByKey(s) && p < |s| && s[p].k == e.k
    ensures SortedByKey(s[..p + 1] + [e] + s[p + 1..])
  {
    var r := s[..p + 1] + [e] + s[p + 1..];
    Trichotomy(e.k, e.k);
    forall i, j | 0 <= i < j < |r| ensures Leq(r[i].k, r[j].k) {
      assert r[i] == if i <= p then s[i] else if i == p + 1 then e else s[i - 1];
      assert r[j] == if j <= p then s[j] else if j == p + 1 then e else s[j - 1];
    }
  }

  lemma NotPulled(es: seq<KV>, ers: seq<KV>, p: nat, k: Key, peer: Replica, local: Tree, remote: Tree)
    requires TreeOf(local, x => x, es) && TreeOf(remote, x => x, ers) && local.chunkSize == remote.chunkSize == 1
    requires |es| == |ers| && p < |es| && es[p].k == k && es[..p + 1] == ers[..p + 1]
    requires forall q :: p < q < |es| ==> es[q].k != k
    ensures !InDiff(es, local, remote, k) && !RemoteOnly(es, peer, k)
  {
    SingletonChunks(es);
    SingletonChunks(ers);
    forall q, i: nat ensures !DiffAt(es, local, remote, k, q, i) {
      if 0 <= q <= p && q == i {
        assert es[q] == es[..p + 1][q] == ers[..p + 1][q] == ers[q];
      }
    }
    assert es[p] in es;
  }

  /** A node that knows only the peer's older tombstone finds its chunk unchanged and never pulls the live copy. */
  lemma OlderTombHides(peer: Replica, k: Key)
    requires Keyed(peer) && VersionsFit(peer) && !NoOlderTomb(peer, k)
    ensures !AlwaysCaught(peer, k)
  {
    hide AlwaysCaught;
    hide Leaves;
    hide Chunks;
    hide Less;
    var z := Above(peer.items.Keys + peer.tombs.Keys);
    Trichotomy(z, z);
    var l := Replica((peer.items - {k})[z := Item(z, "", 0, "")], peer.tombs);
    var es, ers, p := HidingListings(peer, k, l, z);
    var digest: seq<char> -> string := x => x;
    var local, remote := Tree(Leaves(digest, Chunks(es, 1)), 1), Tree(Leaves(digest, Chunks(ers, 1)), 1);
    forall i | 0 <= i < |es| ensures es[i].v < 0x1_0000_0000_0000_0000 && ers[i].v < 0x1_0000_0000_0000_0000 {
      ListingMembers(es, l, es[i]);
      ListingMembers(ers, peer, ers[i]);
    }
    SingletonNoCollision(es, ers);
    NotPulled(es, ers, p, k, peer, local, remote);
    var keys := PullsExist(es, local, remote, peer);
    assert SyncOf(digest, "", l, peer, es, es, ers, local, remote, keys);
    hide SyncOf;
    MissedSync(digest, "", l, peer, es, es, ers, local, remote, keys, k);
  }

  lemma MissedSync(digest: seq<char> -> string, self: string, l: Replica, peer: Replica,
                   es: seq<KV>, es': seq<KV>, ers: seq<KV>, local: Tree, remote: Tree, keys: seq<Key>, k: Key)
    requires Keyed(l) && Keyed(peer) && SyncOf(digest, self, l, peer, es, es', ers, local, remote, keys)
    requires k !in keys && k in peer.items && k !in l.items && (k in l.tombs ==> l.tombs[k].version < peer.items[k].version)
    ensures !AlwaysCaught(peer, k)
  {
    AdoptAllSteps(self, l, peer, keys);
    hide SyncOf;
    hide AdoptAll;
    assert !Caught(AdoptAll(self, l, peer, keys), peer, k);
  }

  // ---------- the node ----------

  const DEFAULT_CHUNK_SIZE := 128

  datatype SyncStatus = Failed | Clean | Dirty

  /** What one sync looked at: the three listings, the two trees, and the keys pulled in order. */
  datatype SyncTrace = SyncTrace(es: seq<KV>, es': seq<KV>, ers: seq<KV>, local: Tree, remote: Tree, keys: seq<Key>)

  /** Insertion sort by key; the source calls a library sort. */
  method SortEntries(es: seq<KV>) returns (s: seq<KV>)
    ensures SortedByKey(s) && multiset(s) == multiset(es)
  {
    hide SortedByKey;
    s := [];
    NoneSorted();
    for i := 0 to |es|
      invariant SortedByKey(s) && multiset(s) == multiset(es[..i])
    {
      var j := SlotFor(s, es[i]);
      InsertSorted(s, es[i], j);
      InsertBag(s, es[i], j);
      assert es[..i + 1] == es[..i] + [es[i]];
      s := s[..j] + [es[i]] + s[j..];
    }
    assert es[..|es|] == es;
  }

  /** The place after the last entry whose key is not above. */
  method SlotFor(s: seq<KV>, e: KV) returns (j: nat)
    ensures j <= |s| && (j > 0 ==> Leq(s[j - 1].k, e.k))
    ensures forall q :: j <= q < |s| ==> Less(e.k, s[q].k)
  {
    j := |s|;
    while j > 0 && Less(e.k, s[j - 1].k)
      invariant 0 <= j <= |s|
      invariant forall q :: j <= q < |s| ==> Less(e.k, s[q].k)
    {
      j := j - 1;
    }
  }

  lemma NoneSorted()
    ensures SortedByKey([])
  {
  }

  lemma InsertBag(s: seq<KV>, e: KV, j: nat)
    requires j <= |s|
    ensures multiset(s[..j] + [e] + s[j..]) == multiset(s) + multiset{e}
  {
    assert s == s[..j] + s[j..];
  }

  lemma InsertSorted(s: seq<KV>, e: KV, j: nat)
    requires SortedByKey(s) && j <= |s|
    requires forall q :: j <= q < |s| ==> Less(e.k, s[q].k)
    requires j > 0 ==> Leq(s[j - 1].k, e.k)
    ensures SortedByKey(s[..j] + [e] + s[j..])
  {
    var r := s[..j] + [e] + s[j..];
    forall a, b | 0 <= a < b < |r| ensures Leq(r[a].k, r[b].k) {
      assert r[a] == if a < j then s[a] else if a == j then e else s[a - 1];
      assert r[b] == if b < j then s[b] else if b == j then e else s[b - 1];
      if b == j && a < j - 1 {
        LeqTransitive(s[a].k, s[j - 1].k, e.k);
      } else if a == j {
        Trichotomy(e.k, s[b - 1].k);
      }
    }
  }

  /** Compares two trees leaf by leaf. */
  method DiffLeafRanges(a: Tree, b: Tree) returns (diffs: seq<nat>)
    ensures forall i: nat :: i in diffs <==> Differs(a, b, i)
  {
    diffs := [];
    if |a.leaves| != |b.leaves| {
      for i := 0 to |a.leaves|
        invariant forall q: nat :: q in diffs <==> q < i
      {
        diffs := diffs + [i];
      }
    } else {
      for i := 0 to |a.leaves|
        invariant forall q: nat :: q in diffs <==> q < i && a.leaves[q] != b.leaves[q]
      {
        if a.leaves[i] != b.leaves[i] {
          diffs := diffs + [i];
        }
      }
    }
  }

  lemma LeavesStep(digest: seq<char> -> string, rest: seq<KV>, c: nat)
    requires c > 0 && rest != []
    ensures Leaves(digest, Chunks(rest, c)) ==
            if |rest| <= c then [digest(LeafBytes(rest))] + Leaves(digest, Chunks([], c))
            else [digest(LeafBytes(rest[..c]))] + Leaves(digest, Chunks(rest[c..], c))
  {
  }

  lemma NoLeaves(digest: seq<char> -> string, c: nat)
    requires c > 0
    ensures Leaves(digest, Chunks([], c)) == []
  {
  }

  /** The digests of the chunks from position `i` on. */
  ghost function LeavesFrom(digest: seq<char> -> string, es: seq<KV>, i: nat, c: nat): seq<string>
    requires c > 0
  {
    Leaves(digest, Chunks(Rest(es, i), c))
  }

  lemma LeavesFromStep(digest: seq<char> -> string, es: seq<KV>, i: nat, c: nat)
    requires c > 0 && i < |es|
    ensures var end := if i + c < |es| then i + c else |es|;
            LeavesFrom(digest, es, i, c) == [digest(LeafBytes(es[i..end]))] + LeavesFrom(digest, es, i + c, c)
  {
    hide Leaves;
    hide Chunks;
    hide LeafBytes;
    RestStep(es, i, if i + c < |es| then i + c else |es|, c);
    LeavesStep(digest, Rest(es, i), c);
  }

  lemma LeavesFromEnds(digest: seq<char> -> string, es: seq<KV>, i: nat, c: nat)
    requires c > 0
    ensures LeavesFrom(digest, es, 0, c) == Leaves(digest, Chunks(es, c))
    ensures i >= |es| ==> LeavesFrom(digest, es, i, c) == []
  {
    NoLeaves(digest, c);
    assert Rest(es, 0) == es;
    assert i >= |es| ==> Rest(es, i) == [];
  }

  /** One digest per chunk. */
  method BuildLeaves(digest: seq<char> -> string, entries: seq<KV>, chunkSize: nat) returns (leaves: seq<string>)
    requires chunkSize > 0
    ensures leaves == Leaves(digest, Chunks(entries, chunkSize))
  {
    hide Leaves;
    hide Chunks;
    hide LeafBytes;
    hide LeavesFrom;
    leaves := [];
    LeavesFromEnds(digest, entries, 0, chunkSize);
    var i := 0;
    while i < |entries|
      invariant 0 <= i
      invariant leaves + LeavesFrom(digest, entries, i, chunkSize) == Leaves(digest, Chunks(entries, chunkSize))
    {
      var end := if i + chunkSize < |entries| then i + chunkSize else |entries|;
      LeavesFromStep(digest, entries, i, chunkSize);
      leaves := leaves + [digest(LeafBytes(entries[i..end]))];
      i := i + chunkSize;
    }
    LeavesFromEnds(digest, entries, i, chunkSize);
  }

  lemma RestStep(es: seq<KV>, i: nat, end: nat, c: nat)
    requires i < |es| && end == if i + c < |es| then i + c else |es|
    ensures var rest := Rest(es, i);
            && es[i..end] == (if |rest| <= c then rest else rest[..c])
            && Rest(es, i + c) == if |rest| <= c then [] else rest[c..]
  {
  }

  ghost function Rest(es: seq<KV>, i: nat): seq<KV> {
    if i <= |es| then es[i..] else []
  }

  /** Key `k` sits at position `p` of the listing, in the chunk `i` listed in `diffs`. */
  ghost predicate InChunk(entries: seq<KV>, diffs: seq<nat>, c: nat, k: Key, p: int, i: nat) {
    0 <= p < |entries| && entries[p].k == k && i in diffs && i * c <= p < i * c + c
  }

  ghost predicate Covered(entries: seq<KV>, diffs: seq<nat>, c: nat, k: Key) {
    exists p, i :: InChunk(entries, diffs, c, k, p, i)
  }

  lemma ChunkKeys(entries: seq<KV>, diffs: seq<nat>, d: nat, c: nat, k: Key)
    requires c > 0 && d < |diffs|
    ensures Covered(entries, diffs[..d + 1], c, k) <==>
            || Covered(entries, diffs[..d], c, k)
            || (exists q :: diffs[d] * c <= q < diffs[d] * c + c && q < |entries| && entries[q].k == k)
  {
    var before, after := diffs[..d], diffs[..d + 1];
    assert after == before + [diffs[d]];
    if p, i :| InChunk(entries, after, c, k, p, i) {
      if i in before {
        assert InChunk(entries, before, c, k, p, i);
      }
    }
    if p, i :| InChunk(entries, before, c, k, p, i) {
      assert InChunk(entries, after, c, k, p, i);
    }
    if q :| diffs[d] * c <= q < diffs[d] * c + c && q < |entries| && entries[q].k == k {
      assert 0 <= diffs[d] * c;
      assert InChunk(entries, after, c, k, q, diffs[d]);
    }
  }

  /** The two loops of a sync pull exactly the keys in differing chunks and the remote-only keys. */
  lemma PulledKeys(entries: seq<KV>, diffs: seq<nat>, local: Tree, remote: Tree,
                   pulled: seq<Key>, peer: Replica, keys: seq<Key>)
    requires forall i: nat :: i in diffs <==> Differs(local, remote, i)
    requires forall k :: k in pulled <==> Covered(entries, diffs, local.chunkSize, k)
    requires forall k :: k in keys <==> k in pulled || k in peer.items.Keys - (set e | e in entries :: e.k)
    ensures Pulls(keys, entries, local, remote, peer)
  {
    forall k ensures k in keys <==> InDiff(entries, local, remote, k) || RemoteOnly(entries, peer, k) {
      if p, i :| InChunk(entries, diffs, local.chunkSize, k, p, i) {
        assert DiffAt(entries, local, remote, k, p, i);
      }
      if p, i :| DiffAt(entries, local, remote, k, p, i) {
        assert InChunk(entries, diffs, local.chunkSize, k, p, i);
      }
    }
  }

  /** A differing chunk is never empty, so it makes the sync pull something. */
  lemma DiffsNonEmpty(es: seq<KV>, entries: seq<KV>, local: Tree, digest: seq<char> -> string, remote: Tree,
                      diffs: seq<nat>, pulled: seq<Key>)
    requires TreeOf(local, digest, es) && multiset(es) == multiset(entries)
    requires forall i: nat :: i in diffs <==> Differs(local, remote, i)
    requires forall k :: k in pulled <==> Covered(entries, diffs, local.chunkSize, k)
    ensures pulled == [] <==> diffs == []
  {
    assert |es| == |multiset(es)| == |multiset(entries)| == |entries|;
    if diffs != [] {
      var i := diffs[0];
      assert i in diffs;
      ChunkSlice(es, local.chunkSize, i);
      var p := i * local.chunkSize;
      assert InChunk(entries, diffs, local.chunkSize, entries[p].k, p, i);
      assert Covered(entries, diffs, local.chunkSize, entries[p].k);
    }
    if pulled != [] {
      assert pulled[0] in pulled;
      assert Covered(entries, diffs, local.chunkSize, pulled[0]);
      var p, i :| InChunk(entries, diffs, local.chunkSize, pulled[0], p, i);
      assert i in diffs;
    }
  }

  class Store {
    const self: string
    const merkleChunkSize: int
    var items: map<Key, Item>
    var tombs: map<Key, Tomb>

    constructor (self: string, merkleChunkSize: int)
      ensures items == map[] && tombs == map[] && this.self == self && this.merkleChunkSize == merkleChunkSize
    {
      this.self, this.merkleChunkSize, items, tombs := self, merkleChunkSize, map[], map[];
    }

    ghost function View(): Replica
      reads this
    {
      Replica(items, tombs)
    }

    /** One entry per live item, in map order. */
    method ListItems() returns (es: seq<KV>)
      ensures multiset(es) == multiset(LiveEntries(View()))
    {
      es := [];
      var todo := items.Keys;
      while todo != {}
        invariant todo <= items.Keys
        invariant multiset(es) == multiset(set k | k in items && k !in todo :: KV(k, items[k].version))
      {
        var k :| k in todo;
        assert (set j | j in items && j !in todo - {k} :: KV(j, items[j].version)) ==
               (set j | j in items && j !in todo :: KV(j, items[j].version)) + {KV(k, items[k].version)};
        es := es + [KV(k, items[k].version)];
        todo := todo - {k};
      }
      assert (set k | k in items && k !in todo :: KV(k, items[k].version)) == LiveEntries(View());
    }

    /** One entry per tombstone, in map order. */
    method ListTombs() returns (es: seq<KV>)
      ensures multiset(es) == multiset(TombEntries(View()))
    {
      es := [];
      var todo := tombs.Keys;
      while todo != {}
        invariant todo <= tombs.Keys
        invariant multiset(es) == multiset(set k | k in tombs && k !in todo :: KV(k, tombs[k].version))
      {
        var k :| k in todo;
        assert (set j | j in tombs && j !in todo - {k} :: KV(j, tombs[j].version)) ==
               (set j | j in tombs && j !in todo :: KV(j, tombs[j].version)) + {KV(k, tombs[k].version)};
        es := es + [KV(k, tombs[k].version)];
        todo := todo - {k};
      }
      assert (set k | k in tombs && k !in todo :: KV(k, tombs[k].version)) == TombEntries(View());
    }

    /** One entry per live item, then one per tombstone. */
    method MerkleEntries() returns (es: seq<KV>)
      ensures multiset(es) == Entries(View())
    {
      var live := ListItems();
      var dead := ListTombs();
      es := live + dead;
    }

    method SortedMerkleEntries() returns (es: seq<KV>)
      ensures Listing(es, View())
    {
      var raw := MerkleEntries();
      es := SortEntries(raw);
    }

    method BuildMerkleTree(digest: seq<char> -> string) returns (tree: Tree, ghost es: seq<KV>)
      ensures Listing(es, View()) && TreeOf(tree, digest, es)
      ensures tree.chunkSize == if merkleChunkSize <= 0 then DEFAULT_CHUNK_SIZE else merkleChunkSize
    {
      var chunkSize := if merkleChunkSize <= 0 then DEFAULT_CHUNK_SIZE else merkleChunkSize;
      var entries := SortedMerkleEntries();
      es := entries;
      var leaves := BuildLeaves(digest, entries, chunkSize);
      tree := Tree(leaves, chunkSize);
    }

    /** Pulls one key. A null peer stands for a missing transport or an unreachable node. */
    method FetchAndAdopt(peer: Store?, key: Key)
      requires peer != this
      modifies this
      ensures peer == null ==> View() == old(View())
      ensures peer != null ==> View() == Adopt(self, old(View()), peer.View(), key)
    {
      if peer == null {
        return;
      }
      if key !in peer.items {
        if key in tombs {
          return;
        }
        if key in items {
          var next := items[key].version + 1;
          items := items - {key};
          tombs := tombs[key := Tomb(next, self)];
        }
        return;
      }
      var it := peer.items[key];
      if key in tombs {
        if tombs[key].version >= it.version {
          return;
        }
        tombs := tombs - {key};
      }
      assert tombs == old(tombs) - {key};
      if key !in items || it.version > items[key].version {
        items := items[it.key := it];
      }
    }

    /** Pulls every key of the differing chunks. */
    method ApplyMerkleDiffs(peer: Store, entries: seq<KV>, diffs: seq<nat>, chunkSize: nat) returns (ghost keys: seq<Key>)
      requires peer != this && chunkSize > 0
      modifies this
      ensures View() == AdoptAll(self, old(View()), peer.View(), keys)
      ensures forall k :: k in keys <==> Covered(entries, diffs, chunkSize, k)
    {
      keys := [];
      for d := 0 to |diffs|
        invariant View() == AdoptAll(self, old(View()), peer.View(), keys)
        invariant forall k :: k in keys <==> Covered(entries, diffs[..d], chunkSize, k)
      {
        var start := diffs[d] * chunkSize;
        var end := if start + chunkSize < |entries| then start + chunkSize else |entries|;
        ghost var before := keys;
        assert diffs[..d + 1] == diffs[..d] + [diffs[d]];
        if start < |entries| {
          for p := start to end
            invariant View() == AdoptAll(self, old(View()), peer.View(), keys)
            invariant forall k :: k in keys <==> k in before || exists q :: start <= q < p && entries[q].k == k
          {
            FetchAndAdopt(peer, entries[p].k);
            assert (keys + [entries[p].k])[..|keys|] == keys;
            keys := keys + [entries[p].k];
          }
        }
        forall k ensures k in keys <==> Covered(entries, diffs[..d + 1], chunkSize, k) {
          ChunkKeys(entries, diffs, d, chunkSize, k);
          assert k in before <==> Covered(entries, diffs[..d], chunkSize, k);
        }
      }
      assert diffs[..|diffs|] == diffs;
    }

    /** One anti-entropy cycle against `peer`. */
    method SyncWith(digest: seq<char> -> string, peer: Store?) returns (status: SyncStatus, ghost trace: SyncTrace)
      requires peer != this
      modifies this
      ensures status.Failed? <==> peer == null
      ensures peer == null ==> View() == old(View())
      ensures peer != null ==>
                && View() == AdoptAll(self, old(View()), peer.View(), trace.keys)
                && (status.Clean? <==> trace.keys == [])
                && trace.local.chunkSize > 0 && trace.remote.chunkSize > 0
                && (Keyed(old(View())) && Keyed(peer.View())
                    && NoCollision(digest, Chunks(trace.es, trace.local.chunkSize), Chunks(trace.ers, trace.remote.chunkSize))
                    ==> SyncOf(digest, self, old(View()), peer.View(), trace.es, trace.es', trace.ers,
                               trace.local, trace.remote, trace.keys))
    {
      if peer == null {
        trace := SyncTrace([], [], [], Tree([], 1), Tree([], 1), []);
        return Failed, trace;
      }
      var remote, ers := peer.BuildMerkleTree(digest);
      var local, es := BuildMerkleTree(digest);
      var entries := SortedMerkleEntries();
      var diffs := DiffLeafRanges(local, remote);
      var missing := peer.items.Keys - (set e | e in entries :: e.k);
      var todo := missing;
      ghost var keys := ApplyMerkleDiffs(peer, entries, diffs, local.chunkSize);
      ghost var pulled := keys;
      while todo != {}
        invariant todo <= missing
        invariant View() == AdoptAll(self, old(View()), peer.View(), keys)
        invariant forall k :: k in keys <==> k in pulled || k in missing - todo
        invariant |keys| == |pulled| + |missing - todo|
      {
        var k :| k in todo;
        FetchAndAdopt(peer, k);
        assert (keys + [k])[..|keys|] == keys;
        keys := keys + [k];
        assert missing - (todo - {k}) == (missing - todo) + {k};
        todo := todo - {k};
      }
      trace := SyncTrace(es, entries, ers, local, remote, keys);
      PulledKeys(entries, diffs, local, remote, pulled, peer.View(), keys);
      assert keys == [] <==> pulled == [] && missing == {};
      DiffsNonEmpty(es, entries, local, digest, remote, diffs, pulled);
      status := if |diffs| == 0 && missing == {} then Clean else Dirty;
    }
  }
}
