/**
 Hinted handoff (pkg/backend/dist_memory.go): per-node queues of undelivered writes, bounded by a
 per-node count, a global count and a global byte budget (zero means unlimited), drained by replay.
 Time and delivery results are inputs.
 */
module Hints {
  import opened Items

  type NodeID = string

  datatype Source = Replication | Migration

  datatype Hint = Hint(item: Item, expire: int, size: nat, source: Source)

  datatype Caps = Caps(ttl: int, perNode: int, total: int, bytes: int)

  /** The queue's own counters and its metrics; `m` marks the migration-only ones. */
  datatype Counters = Counters(total: int, bytes: int,
                               queued: nat, replayed: nat, expired: nat, dropped: nat,
                               mqueued: nat, mreplayed: nat, mexpired: nat, mdropped: nat)

  /** `trimmed` counts entries really displaced by the per-node cap (the source keeps no such counter). */
  datatype State = State(hints: map<NodeID, seq<Hint>>, c: Counters, trimmed: nat, mtrimmed: nat)

  const EMPTY := State(map[], Counters(0, 0, 0, 0, 0, 0, 0, 0, 0, 0), 0, 0)

  function QueueOf(s: State, node: NodeID): seq<Hint> {
    if node in s.hints then s.hints[node] else []
  }

  function Clamp(x: int): int {
    if x < 0 then 0 else x
  }

  function Adjust(c: Counters, dCount: int, dBytes: int): Counters {
    c.(total := Clamp(c.total + dCount), bytes := Clamp(c.bytes + dBytes))
  }

  function One(b: bool): nat {
    if b then 1 else 0
  }

  // ---------- queueing ----------

  predicate NodeFull(q: seq<Hint>, caps: Caps) {
    caps.perNode > 0 && |q| >= caps.perNode
  }

  /** Counters after the oldest entry of a full queue is dropped. */
  function Dropped(c: Counters, q: seq<Hint>, caps: Caps): Counters {
    if NodeFull(q, caps) && q != [] then Adjust(c, -1, 0 - q[0].size) else c
  }

  predicate Refused(c: Counters, caps: Caps, size: nat) {
    (caps.total > 0 && c.total >= caps.total) || (caps.bytes > 0 && c.bytes + size > caps.bytes)
  }

  /**
   Queue one hint. A full queue gives up its oldest entry in the counters first; if the global caps then
   refuse the new hint, the trimmed queue is not stored back.
   */
  function Enqueue(s: State, caps: Caps, node: NodeID, item: Item, size: nat, source: Source, now: int): State {
    if caps.ttl <= 0 then s
    else
      var q := QueueOf(s, node);
      var c := Dropped(s.c, q, caps);
      if Refused(c, caps, size) then
        s.(c := c.(dropped := c.dropped + 1, mdropped := c.mdropped + One(source.Migration?)))
      else
        var full := NodeFull(q, caps) && q != [];
        var kept := if full then q[1..] else q;
        State(s.hints[node := kept + [Hint(item, now + caps.ttl, size, source)]],
              Adjust(c, 1, size).(queued := c.queued + 1, mqueued := c.mqueued + One(source.Migration?)),
              s.trimmed + One(full), s.mtrimmed + One(full && q[0].source.Migration?))
  }

  // ---------- replay ----------

  /** What a replay pass sees: the clock, and for each entry whether its delivery succeeds. */
  datatype Pass = Pass(now: int, delivered: (NodeID, nat) -> bool)

  predicate Expired(h: Hint, pass: Pass) {
    pass.now > h.expire
  }

  predicate Retained(node: NodeID, q: seq<Hint>, i: nat, pass: Pass)
    requires i < |q|
  {
    !Expired(q[i], pass) && !pass.delivered(node, i)
  }

  /** The retained entries among the first `n`, in order. */
  function Kept(node: NodeID, q: seq<Hint>, n: nat, pass: Pass): seq<Hint>
    requires n <= |q|
  {
    if n == 0 then []
    else
      var before := Kept(node, q, n - 1, pass);
      if Retained(node, q, n - 1, pass) then before + [q[n - 1]] else before
  }

  function ReplayOne(c: Counters, node: NodeID, q: seq<Hint>, i: nat, pass: Pass): Counters
    requires i < |q|
  {
    if Retained(node, q, i, pass) then c
    else
      var m := One(q[i].source.Migration?);
      var c' := if Expired(q[i], pass) then c.(expired := c.expired + 1, mexpired := c.mexpired + m)
                else c.(replayed := c.replayed + 1, mreplayed := c.mreplayed + m);
      Adjust(c', -1, 0 - q[i].size)
  }

  function ReplayCounters(c: Counters, node: NodeID, q: seq<Hint>, n: nat, pass: Pass): Counters
    requires n <= |q|
  {
    if n == 0 then c else ReplayOne(ReplayCounters(c, node, q, n - 1, pass), node, q, n - 1, pass)
  }

  function Stored(hints: map<NodeID, seq<Hint>>, node: NodeID, q: seq<Hint>): map<NodeID, seq<Hint>> {
    if q == [] then hints - {node} else hints[node := q]
  }

  function ReplayNode(s: State, node: NodeID, pass: Pass): State {
    var q := QueueOf(s, node);
    s.(hints := Stored(s.hints, node, Kept(node, q, |q|, pass)), c := ReplayCounters(s.c, node, q, |q|, pass))
  }

  /** Replay the queues of the listed nodes, in that order. */
  function ReplayNodes(s: State, nodes: seq<NodeID>, pass: Pass): State {
    if nodes == [] then s else ReplayNode(ReplayNodes(s, nodes[..|nodes| - 1], pass), nodes[|nodes| - 1], pass)
  }

  // ---------- true totals ----------

  datatype Measure = Count | Bytes | Migrations

  function Weight(h: Hint, m: Measure): nat {
    match m
    case Count => 1
    case Bytes => h.size
    case Migrations => One(h.source.Migration?)
  }

  function QueueWeight(q: seq<Hint>, m: Measure): nat {
    if q == [] then 0 else QueueWeight(q[..|q| - 1], m) + Weight(q[|q| - 1], m)
  }

  /** The measure summed over all queues. */
  ghost function Total(hints: map<NodeID, seq<Hint>>, m: Measure): nat {
    if hints == map[] then 0
    else
      var n :| n in hints;
      QueueWeight(hints[n], m) + Total(hints - {n}, m)
  }

  lemma {:induction false} TotalSplit(hints: map<NodeID, seq<Hint>>, m: Measure, n: NodeID)
    requires n in hints
    ensures Total(hints, m) == QueueWeight(hints[n], m) + Total(hints - {n}, m)
    decreases |hints|
  {
    var x :| x in hints && Total(hints, m) == QueueWeight(hints[x], m) + Total(hints - {x}, m);
    if x != n {
      TotalSplit(hints - {x}, m, n);
      TotalSplit(hints - {n}, m, x);
      assert hints - {x} - {n} == hints - {n} - {x};
    }
  }

  /** Replacing one queue changes the total by the difference of that queue's weight. */
  lemma TotalStore(s: State, node: NodeID, q: seq<Hint>, m: Measure)
    ensures Total(s.hints[node := q], m) == Total(s.hints, m) - QueueWeight(QueueOf(s, node), m) + QueueWeight(q, m)
    ensures q == [] ==> Total(Stored(s.hints, node, q), m) == Total(s.hints, m) - QueueWeight(QueueOf(s, node), m)
    ensures Total(s.hints, m) >= QueueWeight(QueueOf(s, node), m)
  {
    TotalSplit(s.hints[node := q], m, node);
    assert s.hints[node := q] - {node} == s.hints - {node};
    if node in s.hints {
      TotalSplit(s.hints, m, node);
    } else {
      assert s.hints - {node} == s.hints;
    }
  }

  lemma {:induction false} WeightSplit(q: seq<Hint>, n: nat, m: Measure)
    requires n <= |q|
    ensures QueueWeight(q, m) == QueueWeight(q[..n], m) + QueueWeight(q[n..], m)
  {
    if n < |q| {
      var init := q[..|q| - 1];
      WeightSplit(init, n, m);
      assert init[..n] == q[..n] && init[n..] == q[n..][..|q[n..]| - 1];
    } else {
      assert q[..n] == q;
    }
  }

  lemma WeightSingle(h: Hint, m: Measure)
    ensures QueueWeight([h], m) == Weight(h, m)
  {
    assert QueueWeight([], m) == 0;
  }

  lemma WeightSnoc(q: seq<Hint>, h: Hint, m: Measure)
    ensures QueueWeight(q + [h], m) == QueueWeight(q, m) + Weight(h, m)
  {
    assert (q + [h])[..|q|] == q;
  }

  lemma WeightHead(q: seq<Hint>, m: Measure)
    requires q != []
    ensures QueueWeight(q, m) == Weight(q[0], m) + QueueWeight(q[1..], m)
  {
    WeightSplit(q, 1, m);
    assert q[..1] == [q[0]];
    WeightSingle(q[0], m);
  }

  lemma {:induction false} CountIsLength(q: seq<Hint>)
    ensures QueueWeight(q, Count) == |q|
  {
    if q != [] {
      CountIsLength(q[..|q| - 1]);
    }
  }

  // ---------- invariants ----------

  ghost predicate WithinCaps(s: State, caps: Caps) {
    && (caps.perNode > 0 ==> forall n :: n in s.hints ==> |s.hints[n]| <= caps.perNode)
    && (caps.total > 0 ==> s.c.total <= caps.total)
    && (caps.bytes > 0 ==> s.c.bytes <= caps.bytes)
  }

  /** The counters never overstate what is queued. */
  ghost predicate Bounded(s: State) {
    0 <= s.c.total <= Total(s.hints, Count) && 0 <= s.c.bytes <= Total(s.hints, Bytes)
  }

  /** Every hint ever queued is replayed, expired, displaced by the per-node cap, or still pending. */
  ghost predicate Conserved(s: State) {
    && s.c.queued == s.c.replayed + s.c.expired + s.trimmed + Total(s.hints, Count)
    && s.c.mqueued == s.c.mreplayed + s.c.mexpired + s.mtrimmed + Total(s.hints, Migrations)
  }

  ghost predicate Exact(s: State) {
    s.c.total == Total(s.hints, Count) && s.c.bytes == Total(s.hints, Bytes)
  }

  ghost predicate Inv(s: State, caps: Caps) {
    WithinCaps(s, caps) && Bounded(s) && Conserved(s) && (caps.perNode <= 0 ==> s.trimmed == 0 && s.mtrimmed == 0)
  }

  /** A full per-node queue whose oldest entry was written off, and a byte budget that then refuses the newcomer. */
  predicate Drifts(s: State, caps: Caps, node: NodeID, size: nat) {
    var q := QueueOf(s, node);
    caps.ttl > 0 && NodeFull(q, caps) && q != [] && caps.bytes > 0 && s.c.bytes - q[0].size + size > caps.bytes
  }

  /** A change of one queue's weight, in all three measures. */
  lemma EnqueueTotals(s: State, caps: Caps, node: NodeID, item: Item, size: nat, source: Source, now: int, m: Measure)
    requires caps.ttl > 0 && !Refused(Dropped(s.c, QueueOf(s, node), caps), caps, size)
    ensures var q := QueueOf(s, node);
            Total(Enqueue(s, caps, node, item, size, source, now).hints, m) ==
              Total(s.hints, m) + Weight(Hint(item, now + caps.ttl, size, source), m)
              - (if NodeFull(q, caps) && q != [] then Weight(q[0], m) else 0)
  {
    var q, h := QueueOf(s, node), Hint(item, now + caps.ttl, size, source);
    var full := NodeFull(q, caps) && q != [];
    var kept := if full then q[1..] else q;
    TotalStore(s, node, kept + [h], m);
    WeightSnoc(kept, h, m);
    if full {
      WeightHead(q, m);
    }
  }

  /** The head of a queue weighs no more than everything queued. */
  lemma HeadBound(s: State, node: NodeID, m: Measure)
    requires QueueOf(s, node) != []
    ensures Weight(QueueOf(s, node)[0], m) <= Total(s.hints, m)
  {
    TotalStore(s, node, [], m);
    WeightHead(QueueOf(s, node), m);
  }

  lemma EnqueueInv(s: State, caps: Caps, node: NodeID, item: Item, size: nat, source: Source, now: int)
    requires Inv(s, caps)
    ensures Inv(Enqueue(s, caps, node, item, size, source, now), caps)
  {
    var q := QueueOf(s, node);
    var c := Dropped(s.c, q, caps);
    if caps.ttl > 0 {
      if !Refused(c, caps, size) {
        EnqueueTotals(s, caps, node, item, size, source, now, Count);
        EnqueueTotals(s, caps, node, item, size, source, now, Bytes);
        EnqueueTotals(s, caps, node, item, size, source, now, Migrations);
      }
      if q != [] {
        HeadBound(s, node, Count);
        HeadBound(s, node, Bytes);
      }
    }
  }

  /** Queueing keeps the counters exact if and only if it does not drift. */
  lemma EnqueueExactIff(s: State, caps: Caps, node: NodeID, item: Item, size: nat, source: Source, now: int)
    requires Inv(s, caps) && Exact(s)
    ensures Exact(Enqueue(s, caps, node, item, size, source, now)) <==> !Drifts(s, caps, node, size)
  {
    var q := QueueOf(s, node);
    var c := Dropped(s.c, q, caps);
    if caps.ttl > 0 {
      if q != [] {
        HeadBound(s, node, Count);
        HeadBound(s, node, Bytes);
      }
      if !Refused(c, caps, size) {
        EnqueueTotals(s, caps, node, item, size, source, now, Count);
        EnqueueTotals(s, caps, node, item, size, source, now, Bytes);
      }
    }
  }

  // ---------- replay and the invariants ----------

  /** The weight removed from the first `n` entries of a queue. */
  ghost function Removed(node: NodeID, q: seq<Hint>, n: nat, pass: Pass, m: Measure): int
    requires n <= |q|
  {
    QueueWeight(q[..n], m) - QueueWeight(Kept(node, q, n, pass), m)
  }

  lemma RemovedStep(node: NodeID, q: seq<Hint>, n: nat, pass: Pass, m: Measure)
    requires 0 < n <= |q|
    ensures Removed(node, q, n, pass, m) ==
            Removed(node, q, n - 1, pass, m) + if Retained(node, q, n - 1, pass) then 0 else Weight(q[n - 1], m)
  {
    assert q[..n] == q[..n - 1] + [q[n - 1]];
    WeightSnoc(q[..n - 1], q[n - 1], m);
    WeightSnoc(Kept(node, q, n - 1, pass), q[n - 1], m);
  }

  /** The entries among the first `n` whose time is over. */
  ghost function Late(q: seq<Hint>, n: nat, pass: Pass): set<nat>
    requires n <= |q|
  {
    set i: nat | i < n && pass.now > q[i].expire
  }

  lemma LateStep(q: seq<Hint>, n: nat, pass: Pass)
    requires 0 < n <= |q|
    ensures var one := One(pass.now > q[n - 1].expire); var mone := One(pass.now > q[n - 1].expire && q[n - 1].source.Migration?);
            && |Late(q, n, pass)| == |Late(q, n - 1, pass)| + one
            && |set i | i in Late(q, n, pass) && q[i].source.Migration?| ==
               |set i | i in Late(q, n - 1, pass) && q[i].source.Migration?| + mone
  {
    var a, b := Late(q, n, pass), Late(q, n - 1, pass);
    var ma, mb := set i | i in a && q[i].source.Migration?, set i | i in b && q[i].source.Migration?;
    if pass.now > q[n - 1].expire {
      assert a == b + {n - 1};
      if q[n - 1].source.Migration? {
        assert ma == mb + {n - 1};
      } else {
        assert ma == mb;
      }
    } else {
      assert a == b;
    }
  }

  /**
   The per-entry, clamped bookkeeping adds up to one clamped subtraction, and each removal is counted once: as
   expired exactly when its time is over, else as replayed.
   */
  lemma {:induction false} ReplayCountersSum(c: Counters, node: NodeID, q: seq<Hint>, n: nat, pass: Pass)
    requires n <= |q| && c.total >= 0 && c.bytes >= 0
    ensures var c' := ReplayCounters(c, node, q, n, pass);
            && Removed(node, q, n, pass, Count) >= 0 && Removed(node, q, n, pass, Bytes) >= 0
            && c'.total == Clamp(c.total - Removed(node, q, n, pass, Count))
            && c'.bytes == Clamp(c.bytes - Removed(node, q, n, pass, Bytes))
            && c'.replayed + c'.expired == c.replayed + c.expired + Removed(node, q, n, pass, Count)
            && c'.mreplayed + c'.mexpired == c.mreplayed + c.mexpired + Removed(node, q, n, pass, Migrations)
            && c'.expired == c.expired + |Late(q, n, pass)|
            && c'.mexpired == c.mexpired + |set i | i in Late(q, n, pass) && q[i].source.Migration?|
            && c'.queued == c.queued && c'.mqueued == c.mqueued && c'.dropped == c.dropped && c'.mdropped == c.mdropped
  {
    if n > 0 {
      ReplayCountersSum(c, node, q, n - 1, pass);
      RemovedStep(node, q, n, pass, Count);
      RemovedStep(node, q, n, pass, Bytes);
      RemovedStep(node, q, n, pass, Migrations);
      LateStep(q, n, pass);
    } else {
      assert q[..0] == [];
    }
  }

  lemma {:induction false} KeptLength(node: NodeID, q: seq<Hint>, n: nat, pass: Pass)
    requires n <= |q|
    ensures |Kept(node, q, n, pass)| <= n
  {
    if n > 0 {
      KeptLength(node, q, n - 1, pass);
    }
  }

  lemma ReplayNodeTotals(s: State, node: NodeID, pass: Pass, m: Measure)
    ensures var q := QueueOf(s, node);
            && Total(ReplayNode(s, node, pass).hints, m) == Total(s.hints, m) - Removed(node, q, |q|, pass, m)
            && QueueWeight(q, m) <= Total(s.hints, m)
            && Removed(node, q, |q|, pass, m) <= QueueWeight(q, m)
  {
    var q := QueueOf(s, node);
    assert q[..|q|] == q;
    TotalStore(s, node, Kept(node, q, |q|, pass), m);
  }

  lemma ReplayNodeInv(s: State, caps: Caps, node: NodeID, pass: Pass)
    requires Inv(s, caps)
    ensures Inv(ReplayNode(s, node, pass), caps)
    ensures Exact(s) ==> Exact(ReplayNode(s, node, pass))
  {
    var q := QueueOf(s, node);
    ReplayCountersSum(s.c, node, q, |q|, pass);
    ReplayNodeTotals(s, node, pass, Count);
    ReplayNodeTotals(s, node, pass, Bytes);
    ReplayNodeTotals(s, node, pass, Migrations);
    KeptLength(node, q, |q|, pass);
  }

  lemma {:induction false} ReplayNodesInv(s: State, caps: Caps, nodes: seq<NodeID>, pass: Pass)
    requires Inv(s, caps)
    ensures Inv(ReplayNodes(s, nodes, pass), caps)
    ensures Exact(s) ==> Exact(ReplayNodes(s, nodes, pass))
  {
    if nodes != [] {
      ReplayNodesInv(s, caps, nodes[..|nodes| - 1], pass);
      ReplayNodeInv(ReplayNodes(s, nodes[..|nodes| - 1], pass), caps, nodes[|nodes| - 1], pass);
    }
  }

  /** `a` is obtained from `b` by deleting entries. */
  ghost predicate Subsequence<T>(a: seq<T>, b: seq<T>) {
    || a == []
    || (b != [] && (Subsequence(a, b[..|b| - 1]) || (a[|a| - 1] == b[|b| - 1] && Subsequence(a[..|a| - 1], b[..|b| - 1]))))
  }

  /** A replay pass leaves, in order, exactly the entries neither expired nor delivered. */
  lemma {:induction false} KeptInOrder(node: NodeID, q: seq<Hint>, n: nat, pass: Pass)
    requires n <= |q|
    ensures Subsequence(Kept(node, q, n, pass), q[..n])
    ensures forall h :: h in Kept(node, q, n, pass) <==>
                        exists i :: 0 <= i < n && q[i] == h && pass.now <= h.expire && !pass.delivered(node, i)
  {
    if n > 0 {
      KeptInOrder(node, q, n - 1, pass);
      var before, after := Kept(node, q, n - 1, pass), Kept(node, q, n, pass);
      assert q[..n][..n - 1] == q[..n - 1];
      assert Retained(node, q, n - 1, pass) ==> after[..|after| - 1] == before;
    }
  }

  // ---------- runs ----------

  datatype Op =
    | Queue(node: NodeID, item: Item, size: nat, source: Source, now: int)
    | Replay(nodes: seq<NodeID>, pass: Pass)

  function Step(s: State, caps: Caps, op: Op): State {
    match op
    case Queue(node, item, size, source, now) => Enqueue(s, caps, node, item, size, source, now)
    case Replay(nodes, pass) => ReplayNodes(s, nodes, pass)
  }

  function Run(caps: Caps, ops: seq<Op>): State {
    if ops == [] then EMPTY else Step(Run(caps, ops[..|ops| - 1]), caps, ops[|ops| - 1])
  }

  /**
   In every reachable state the caps hold, the counters never overstate the queues, and every hint is
   accounted for. The counters are exact unless the per-node and the byte cap are both on, and without
   a per-node cap queued = replayed + expired + pending.
   */
  lemma HintAccounting(caps: Caps, ops: seq<Op>)
    ensures Inv(Run(caps, ops), caps)
    ensures caps.perNode <= 0 || caps.bytes <= 0 ==> Exact(Run(caps, ops))
    ensures caps.perNode <= 0 ==>
              var s := Run(caps, ops);
              && s.c.queued == s.c.replayed + s.c.expired + Total(s.hints, Count)
              && s.c.mqueued == s.c.mreplayed + s.c.mexpired + Total(s.hints, Migrations)
  {
    RunInv(caps, ops);
  }

  lemma {:induction false} RunInv(caps: Caps, ops: seq<Op>)
    ensures Inv(Run(caps, ops), caps)
    ensures caps.perNode <= 0 || caps.bytes <= 0 ==> Exact(Run(caps, ops))
  {
    if ops == [] {
      EmptyInv(caps);
    } else {
      var init, last := ops[..|ops| - 1], ops[|ops| - 1];
      RunInv(caps, init);
      StepInv(Run(caps, init), caps, last);
      assert Run(caps, ops) == Step(Run(caps, init), caps, last);
    }
  }

  lemma EmptyInv(caps: Caps)
    ensures Inv(EMPTY, caps) && Exact(EMPTY)
  {
    TotalEmpty(EMPTY.hints, Count);
    TotalEmpty(EMPTY.hints, Bytes);
    TotalEmpty(EMPTY.hints, Migrations);
  }

  lemma TotalEmpty(hints: map<NodeID, seq<Hint>>, m: Measure)
    requires hints == map[]
    ensures Total(hints, m) == 0
  {
  }

  lemma StepInv(s: State, caps: Caps, op: Op)
    requires Inv(s, caps)
    ensures Inv(Step(s, caps, op), caps)
    ensures Exact(s) && (caps.perNode <= 0 || caps.bytes <= 0) ==> Exact(Step(s, caps, op))
  {
    match op
    case Queue(node, item, size, source, now) =>
      EnqueueInv(s, caps, node, item, size, source, now);
      if Exact(s) {
        EnqueueExactIff(s, caps, node, item, size, source, now);
      }
    case Replay(nodes, pass) =>
      ReplayNodesInv(s, caps, nodes, pass);
  }

  ghost predicate NoneEmpty(s: State) {
    forall n :: n in s.hints ==> s.hints[n] != []
  }

  lemma {:induction false} ReplayNoneEmpty(s: State, nodes: seq<NodeID>, pass: Pass)
    requires NoneEmpty(s)
    ensures NoneEmpty(ReplayNodes(s, nodes, pass))
  {
    if nodes != [] {
      ReplayNoneEmpty(s, nodes[..|nodes| - 1], pass);
    }
  }

  /** Drained nodes are forgotten: in every reachable state a listed node has a hint pending. */
  lemma {:induction false} NoEmptyQueues(caps: Caps, ops: seq<Op>)
    ensures NoneEmpty(Run(caps, ops))
  {
    if ops != [] {
      NoEmptyQueues(caps, ops[..|ops| - 1]);
      var op := ops[|ops| - 1];
      if op.Replay? {
        ReplayNoneEmpty(Run(caps, ops[..|ops| - 1]), op.nodes, op.pass);
      }
    }
  }

  // ---------- how long a hint is kept ----------

  /** What a QueueHint call does, by the caps and the counters it finds. */
  lemma QueueHintEnds(s: State, caps: Caps, node: NodeID, item: Item, size: nat, source: Source, now: int)
    ensures var s', q := Enqueue(s, caps, node, item, size, source, now), QueueOf(s, node);
            var full := caps.perNode > 0 && |q| >= caps.perNode;
            var total := if full && s.c.total >= 1 then s.c.total - 1 else if full then 0 else s.c.total;
            var bytes := if full && s.c.bytes >= q[0].size then s.c.bytes - q[0].size else if full then 0 else s.c.bytes;
            if caps.ttl <= 0 then s' == s
            else if (caps.total > 0 && total >= caps.total) || (caps.bytes > 0 && bytes + size > caps.bytes) then
              && s'.hints == s.hints && s'.c.dropped == s.c.dropped + 1 && s'.c.queued == s.c.queued
              && s'.c.total == total && s'.c.bytes == bytes
            else
              && QueueOf(s', node) == (if full then q[1..] else q) + [Hint(item, now + caps.ttl, size, source)]
              && (forall n :: n != node ==> QueueOf(s', n) == QueueOf(s, n))
              && s'.c.dropped == s.c.dropped && s'.c.queued == s.c.queued + 1
              && (s.c.total >= 0 ==> s'.c.total == total + 1) && (s.c.bytes >= 0 ==> s'.c.bytes == bytes + size)
  {
  }

  /** Calls that queue for `node`. */
  function Calls(ops: seq<Op>, node: NodeID): nat {
    if ops == [] then 0 else Calls(ops[..|ops| - 1], node) + One(ops[|ops| - 1].Queue? && ops[|ops| - 1].node == node)
  }

  /** A replay pass at which a hint for `node` with this expiry is kept. */
  ghost predicate Spares(op: Op, node: NodeID, expire: int) {
    op.Replay? ==> op.pass.now <= expire && forall i :: !op.pass.delivered(node, i)
  }

  /** The hint is queued with at most `m` entries behind it. */
  ghost predicate Waits(q: seq<Hint>, h: Hint, m: nat) {
    exists i :: 0 <= i < |q| && q[i] == h && |q| - 1 - i <= m
  }

  lemma {:induction false} KeptWaits(node: NodeID, q: seq<Hint>, n: nat, pass: Pass, i: nat)
    requires i < n <= |q| && pass.now <= q[i].expire && (forall j :: !pass.delivered(node, j))
    ensures Waits(Kept(node, q, n, pass), q[i], n - 1 - i)
  {
    var before, r := Kept(node, q, n - 1, pass), Kept(node, q, n, pass);
    if i == n - 1 {
      assert r[|before|] == q[i];
    } else {
      KeptWaits(node, q, n - 1, pass, i);
      var k :| 0 <= k < |before| && before[k] == q[i] && |before| - 1 - k <= n - 2 - i;
      assert r[k] == q[i];
    }
  }

  lemma {:induction false} ReplayKeepsWaiting(s: State, nodes: seq<NodeID>, pass: Pass, node: NodeID, h: Hint, m: nat)
    requires Waits(QueueOf(s, node), h, m) && pass.now <= h.expire && (forall j :: !pass.delivered(node, j))
    ensures Waits(QueueOf(ReplayNodes(s, nodes, pass), node), h, m)
  {
    if nodes != [] {
      var last := nodes[|nodes| - 1];
      ReplayKeepsWaiting(s, nodes[..|nodes| - 1], pass, node, h, m);
      var mid := ReplayNodes(s, nodes[..|nodes| - 1], pass);
      var q := QueueOf(mid, last);
      if last == node {
        var i :| 0 <= i < |q| && q[i] == h && |q| - 1 - i <= m;
        KeptWaits(node, q, |q|, pass, i);
      }
    }
  }

  lemma StepQueue(s: State, caps: Caps, op: Op)
    requires op.Queue?
    ensures Step(s, caps, op) == Enqueue(s, caps, op.node, op.item, op.size, op.source, op.now)
  {
  }

  lemma StepKeepsWaiting(s: State, caps: Caps, op: Op, node: NodeID, h: Hint, m: nat)
    requires Waits(QueueOf(s, node), h, m) && Spares(op, node, h.expire)
    requires caps.perNode <= 0 || m + One(op.Queue? && op.node == node) < caps.perNode
    ensures Waits(QueueOf(Step(s, caps, op), node), h, m + One(op.Queue? && op.node == node))
  {
    match op
    case Replay(nodes, pass) => ReplayKeepsWaiting(s, nodes, pass, node, h, m);
    case Queue(n, item, size, source, now) =>
      var q := QueueOf(s, node);
      var i :| 0 <= i < |q| && q[i] == h && |q| - 1 - i <= m;
      QueueHintEnds(s, caps, n, item, size, source, now);
      var r := QueueOf(Step(s, caps, op), node);
      hide Enqueue;
      if n == node && r != q {
        var full := caps.perNode > 0 && |q| >= caps.perNode;
        assert r[if full then i - 1 else i] == h;
      } else {
        assert r[i] == h;
      }
  }

  /**
   A hint queued at `t` is still queued after any further calls, as long as every replay pass runs by `t + ttl` and
   delivers nothing to its node, and fewer calls than the per-node cap queue for that node.
   */
  lemma {:induction false} HintStays(caps: Caps, ops: seq<Op>, call: Op, more: seq<Op>)
    requires call.Queue? && Run(caps, ops + [call]).c.queued > Run(caps, ops).c.queued
    requires forall op :: op in more ==> Spares(op, call.node, call.now + caps.ttl)
    requires caps.perNode <= 0 || Calls(more, call.node) < caps.perNode
    ensures var h := Hint(call.item, call.now + caps.ttl, call.size, call.source);
            Waits(QueueOf(Run(caps, ops + [call] + more), call.node), h, Calls(more, call.node))
    decreases |more|
  {
    hide Run;
    hide Step;
    var h := Hint(call.item, call.now + caps.ttl, call.size, call.source);
    RunSnoc(caps, ops, call);
    StepQueue(Run(caps, ops), caps, call);
    if more == [] {
      assert ops + [call] + more == ops + [call];
      QueueHintEnds(Run(caps, ops), caps, call.node, call.item, call.size, call.source, call.now);
      var q := QueueOf(Run(caps, ops + [call]), call.node);
      assert q[|q| - 1] == h;
    } else {
      var pre, last := more[..|more| - 1], more[|more| - 1];
      assert more == pre + [last];
      assert forall op :: op in pre ==> op in more;
      HintStays(caps, ops, call, pre);
      assert ops + [call] + more == ops + [call] + pre + [last];
      RunSnoc(caps, ops + [call] + pre, last);
      assert last in more;
      StepKeepsWaiting(Run(caps, ops + [call] + pre), caps, last, call.node, h, Calls(pre, call.node));
    }
  }

  /** What stays in a queue through a replay pass was there before it, and its time was not over. */
  lemma {:induction false} ReplayedOnTime(s: State, nodes: seq<NodeID>, pass: Pass, node: NodeID, h: Hint)
    requires h in QueueOf(ReplayNodes(s, nodes, pass), node)
    ensures h in QueueOf(s, node) && (node in nodes ==> pass.now <= h.expire)
  {
    if nodes != [] {
      var init, last := nodes[..|nodes| - 1], nodes[|nodes| - 1];
      assert nodes == init + [last];
      var mid := ReplayNodes(s, init, pass);
      if last == node {
        KeptInOrder(node, QueueOf(mid, node), |QueueOf(mid, node)|, pass);
      }
      ReplayedOnTime(s, init, pass, node, h);
    }
  }

  /**
   Every queued hint was queued by a call for its node, expires the lifetime after that call, and no replay pass over
   its node since then ran later than that.
   */
  lemma {:induction false} HintsComeFromCalls(caps: Caps, ops: seq<Op>, node: NodeID, h: Hint) returns (j: nat)
    requires h in QueueOf(Run(caps, ops), node)
    ensures j < |ops| && ops[j] == Queue(node, h.item, h.size, h.source, h.expire - caps.ttl)
    ensures forall i :: j < i < |ops| && ops[i].Replay? && node in ops[i].nodes ==> ops[i].pass.now <= h.expire
  {
    var pre, op := ops[..|ops| - 1], ops[|ops| - 1];
    var s := Run(caps, pre);
    if op.Queue? {
      QueueHintEnds(s, caps, op.node, op.item, op.size, op.source, op.now);
    } else {
      ReplayedOnTime(s, op.nodes, op.pass, node, h);
    }
    if h in QueueOf(s, node) {
      j := HintsComeFromCalls(caps, pre, node, h);
    } else {
      j := |ops| - 1;
    }
  }

  /** While the counters are exact the global caps bound the queues themselves. */
  lemma ExactCapsBindQueues(s: State, caps: Caps)
    requires Inv(s, caps) && Exact(s)
    ensures caps.total > 0 ==> Total(s.hints, Count) <= caps.total
    ensures caps.bytes > 0 ==> Total(s.hints, Bytes) <= caps.bytes
  {
  }

  /** With both caps on the drift is real: three calls leave twice the byte budget queued. */
  lemma DriftOverrunsByteCap(item: Item, budget: nat)
    requires budget > 0
    ensures var caps := Caps(1, 1, 0, budget);
            var s := Run(caps, [Queue("a", item, budget, Replication, 0), Queue("a", item, budget + 1, Replication, 0),
                                Queue("b", item, budget, Replication, 0)]);
            s.c.bytes == budget && Total(s.hints, Bytes) == 2 * budget
  {
    var caps := Caps(1, 1, 0, budget);
    var o1, o2, o3 := Queue("a", item, budget, Replication, 0), Queue("a", item, budget + 1, Replication, 0), Queue("b", item, budget, Replication, 0);
    var h := Hint(item, 1, budget, Replication);
    RunSnoc(caps, [], o1);
    RunSnoc(caps, [o1], o2);
    RunSnoc(caps, [o1, o2], o3);
    assert [] + [o1] == [o1] && [o1] + [o2] == [o1, o2] && [o1, o2] + [o3] == [o1, o2, o3];
    var s1, s2, s3 := Run(caps, [o1]), Run(caps, [o1, o2]), Run(caps, [o1, o2, o3]);
    AcceptFirst(EMPTY, caps, "a", item, budget);
    DriftStep(s1, caps, "a", item, budget + 1);
    AcceptFirst(s2, caps, "b", item, budget);
    TwoQueues(s3.hints, h);
  }

  lemma RunSnoc(caps: Caps, ops: seq<Op>, op: Op)
    ensures Run(caps, ops + [op]) == Step(Run(caps, ops), caps, op)
  {
    assert (ops + [op])[..|ops|] == ops;
  }

  lemma AcceptFirst(s: State, caps: Caps, node: NodeID, item: Item, size: nat)
    requires caps.ttl == 1 && caps.perNode == 1 && caps.total == 0 && node !in s.hints
    requires 0 <= s.c.bytes && s.c.bytes + size <= caps.bytes
    ensures var s' := Enqueue(s, caps, node, item, size, Replication, 0);
            s'.hints == s.hints[node := [Hint(item, 1, size, Replication)]] && s'.c.bytes == s.c.bytes + size
  {
    var h := Hint(item, 1, size, Replication);
    assert [] + [h] == [h];
  }

  lemma DriftStep(s: State, caps: Caps, node: NodeID, item: Item, size: nat)
    requires caps.ttl == 1 && caps.perNode == 1 && caps.total == 0 && 0 < caps.bytes < size
    requires node in s.hints && |s.hints[node]| == 1 && s.hints[node][0].size == s.c.bytes
    ensures var s' := Enqueue(s, caps, node, item, size, Replication, 0);
            s'.hints == s.hints && s'.c.bytes == 0
  {
  }

  lemma TwoQueues(hints: map<NodeID, seq<Hint>>, h: Hint)
    requires hints == map["a" := [h], "b" := [h]]
    ensures Total(hints, Bytes) == 2 * h.size
  {
    TotalSplit(hints, Bytes, "a");
    TotalSplit(hints - {"a"}, Bytes, "b");
    TotalEmpty(hints - {"a"} - {"b"}, Bytes);
    WeightSingle(h, Bytes);
  }

  // ---------- the queue object ----------

  class HintQueue {
    const caps: Caps
    var hints: map<NodeID, seq<Hint>>
    var c: Counters
    ghost var trimmed: nat
    ghost var mtrimmed: nat

    constructor (caps: Caps)
      ensures this.caps == caps && View() == EMPTY
    {
      this.caps, hints, c, trimmed, mtrimmed := caps, map[], EMPTY.c, 0, 0;
    }

    ghost function View(): State
      reads this
    {
      State(hints, c, trimmed, mtrimmed)
    }

    method AdjustAccounting(dCount: int, dBytes: int)
      modifies this`c
      ensures c == Adjust(old(c), dCount, dBytes)
    {
      c := c.(total := c.total + dCount, bytes := c.bytes + dBytes);
      if c.total < 0 {
        c := c.(total := 0);
      }
      if c.bytes < 0 {
        c := c.(bytes := 0);
      }
    }

    method QueueHint(node: NodeID, item: Item, size: nat, source: Source, now: int)
      modifies this
      ensures View() == Enqueue(old(View()), caps, node, item, size, source, now)
    {
      if caps.ttl <= 0 {
        return;
      }
      var queue := if node in hints then hints[node] else [];
      ghost var q := queue;
      var full := caps.perNode > 0 && |queue| >= caps.perNode;
      if full {
        var oldest := queue[0];
        queue := queue[1..];
        AdjustAccounting(-1, 0 - oldest.size);
      }
      assert c == Dropped(old(c), q, caps);
      hide Dropped;
      if (caps.total > 0 && c.total >= caps.total) || (caps.bytes > 0 && c.bytes + size > caps.bytes) {
        c := c.(dropped := c.dropped + 1);
        if source == Migration {
          c := c.(mdropped := c.mdropped + 1);
        }
        return;
      }
      queue := queue + [Hint(item, now + caps.ttl, size, source)];
      hints := hints[node := queue];
      AdjustAccounting(1, size);
      c := c.(queued := c.queued + 1);
      if source == Migration {
        c := c.(mqueued := c.mqueued + 1);
      }
      if full {
        trimmed, mtrimmed := trimmed + 1, mtrimmed + One(q[0].source.Migration?);
      }
    }

    /** One queue, compacted in place over its own backing array as the source does. */
    method ReplayQueue(node: NodeID, buf: array<Hint>, pass: Pass) returns (n: nat)
      modifies this`c, buf
      ensures n <= buf.Length && buf[..n] == Kept(node, old(buf[..]), buf.Length, pass)
      ensures c == ReplayCounters(old(c), node, old(buf[..]), buf.Length, pass)
    {
      n := 0;
      ghost var q := buf[..];
      for i := 0 to buf.Length
        invariant n <= i
        invariant buf[..n] == Kept(node, q, i, pass)
        invariant buf[i..] == q[i..]
        invariant c == ReplayCounters(old(c), node, q, i, pass)
      {
        var entry := buf[i];
        assert entry == buf[i..][0] == q[i];
        if pass.now > entry.expire {
          c := c.(expired := c.expired + 1, mexpired := c.mexpired + One(entry.source.Migration?));
          AdjustAccounting(-1, 0 - entry.size);
        } else if pass.delivered(node, i) {
          c := c.(replayed := c.replayed + 1, mreplayed := c.mreplayed + One(entry.source.Migration?));
          AdjustAccounting(-1, 0 - entry.size);
        } else {
          buf[n] := entry;
          n := n + 1;
          assert buf[..n] == Kept(node, q, i, pass) + [entry];
        }
        assert buf[i + 1..] == q[i + 1..];
      }
    }

    /** A full replay pass; the order of the nodes is the map's. */
    method ReplayHints(pass: Pass) returns (ghost nodes: seq<NodeID>)
      modifies this
      ensures View() == ReplayNodes(old(View()), nodes, pass)
      ensures forall n :: n in nodes <==> n in old(hints)
    {
      nodes := [];
      var todo := hints.Keys;
      while todo != {}
        invariant todo <= old(hints).Keys
        invariant View() == ReplayNodes(old(View()), nodes, pass)
        invariant forall n :: n in nodes <==> n in old(hints) && n !in todo
        invariant forall n :: n in todo ==> n in hints
      {
        var node :| node in todo;
        var queue := hints[node];
        var buf := new Hint[|queue|](i requires 0 <= i < |queue| => queue[i]);
        assert buf[..] == queue;
        var n := ReplayQueue(node, buf, pass);
        var out := buf[..n];
        if |out| == 0 {
          hints := hints - {node};
        } else {
          hints := hints[node := out];
        }
        assert (nodes + [node])[..|nodes|] == nodes;
        nodes := nodes + [node];
        todo := todo - {node};
      }
    }
  }
}
