/**
 The recency policy behind pkg/eviction/lru.go and pkg/eviction/cawolfu.go: tracked entries, most
 recently used first, bounded by a capacity.
 */
module Recency {
  import opened Items
  import opened LinkedList
  import opened Traces

  type Tracked = Entry<Value>

  datatype State = State(cap: nat, s: seq<Tracked>)

  function ToFront(s: seq<Tracked>, k: string, v: Value): seq<Tracked>
    requires HasKey(s, k)
  {
    [Entry(k, v)] + Drop(s, k)
  }

  function Get(st: State, k: string): (State, Option<Value>) {
    if HasKey(st.s, k) then
      var v := st.s[Pos(st.s, k)].value;
      (st.(s := ToFront(st.s, k, v)), Some(v))
    else (st, None)
  }

  function Set(st: State, k: string, v: Value): State {
    if st.cap == 0 then st
    else if HasKey(st.s, k) then st.(s := ToFront(st.s, k, v))
    else if |st.s| == st.cap then st.(s := [Entry(k, v)] + st.s[..|st.s| - 1])
    else st.(s := [Entry(k, v)] + st.s)
  }

  function Evict(st: State): (State, Option<string>) {
    if st.cap == 0 || st.s == [] then (st, None)
    else (st.(s := st.s[..|st.s| - 1]), Some(st.s[|st.s| - 1].key))
  }

  function Delete(st: State, k: string): State {
    if HasKey(st.s, k) then st.(s := Drop(st.s, k)) else st
  }

  function Step(st: State, op: Op): State {
    match op
    case GetOp(k) => Get(st, k).0
    case SetOp(k, v) => Set(st, k, v)
    case DeleteOp(k) => Delete(st, k)
    case EvictOp => Evict(st).0
  }

  /** What the caller of an operation sees. */
  function Reply(st: State, op: Op): Option<string> {
    match op
    case GetOp(k) => Get(st, k).1
    case SetOp(_, _) => None
    case DeleteOp(_) => None
    case EvictOp => Evict(st).1
  }

  function Run(cap: nat, ops: seq<Op>): State {
    if ops == [] then State(cap, []) else Step(Run(cap, ops[..|ops| - 1]), ops[|ops| - 1])
  }

  /** What the callers of a run see, in order. */
  function Replies(cap: nat, ops: seq<Op>): seq<Option<string>> {
    if ops == [] then []
    else
      var pre := ops[..|ops| - 1];
      Replies(cap, pre) + [Reply(Run(cap, pre), ops[|ops| - 1])]
  }

  // ---------- what the list means, read off the operations alone ----------

  /** The entries hold the latest Set values. */
  ghost predicate Current(s: seq<Tracked>, ops: seq<Op>) {
    forall i :: 0 <= i < |s| ==> LastSet(ops, s[i].key) == Some(s[i].value)
  }

  /** The entries are ordered by their latest access. */
  ghost predicate Ordered(s: seq<Tracked>, ops: seq<Op>) {
    forall i, j :: 0 <= i < j < |s| ==> LastUse(ops, s[j].key) < LastUse(ops, s[i].key)
  }

  ghost predicate Agrees(s: seq<Tracked>, ops: seq<Op>) {
    Current(s, ops) && Ordered(s, ops)
  }

  lemma AgreesAt(s: seq<Tracked>, ops: seq<Op>, i: nat)
    requires Agrees(s, ops) && i < |s|
    ensures LastSet(ops, s[i].key) == Some(s[i].value)
    ensures forall j :: 0 <= j < |s| && s[j].key == s[i].key ==> j == i
  {
    hide LastSet;
    hide LastUse;
  }

  /** A subsequence that avoids the accessed key still agrees after the access. */
  lemma AgreesSub(s: seq<Tracked>, ops: seq<Op>, op: Op, r: seq<Tracked>, at: seq<nat>)
    requires Agrees(s, ops) && |at| == |r|
    requires forall i :: 0 <= i < |r| ==> at[i] < |s| && r[i] == s[at[i]] && !Accesses(op, r[i].key)
    requires forall i, j :: 0 <= i < j < |r| ==> at[i] < at[j]
    ensures Agrees(r, ops + [op])
  {
    hide LastSet;
    hide LastUse;
    forall i | 0 <= i < |r|
      ensures LastUse(ops + [op], r[i].key) == LastUse(ops, r[i].key) && LastSet(ops + [op], r[i].key) == LastSet(ops, r[i].key)
    {
      Snoc(ops, op, r[i].key);
    }
  }

  lemma OrderedCons(r: seq<Tracked>, ops: seq<Op>, e: Tracked)
    requires Ordered(r, ops) && forall i :: 0 <= i < |r| ==> LastUse(ops, r[i].key) < LastUse(ops, e.key)
    ensures Ordered([e] + r, ops)
  {
    hide LastUse;
    var s := [e] + r;
    forall i, j | 0 <= i < j < |s| ensures LastUse(ops, s[j].key) < LastUse(ops, s[i].key) {
      var x, y := s[i], s[j];
      assert y == r[j - 1];
      if i > 0 {
        assert x == r[i - 1];
      }
    }
  }

  /** The accessed entry goes first. */
  lemma AgreesCons(r: seq<Tracked>, ops: seq<Op>, e: Tracked)
    requires ops != [] && Agrees(r, ops) && Accesses(ops[|ops| - 1], e.key) && LastSet(ops, e.key) == Some(e.value)
    requires forall i :: 0 <= i < |r| ==> r[i].key != e.key
    ensures Agrees([e] + r, ops)
  {
    hide LastSet;
    hide LastUse;
    hide Ordered;
    LastUseIsLatest(ops, e.key);
    forall i | 0 <= i < |r| ensures LastUse(ops, r[i].key) < LastUse(ops, e.key) {
      LastUseIsLatest(ops, r[i].key);
    }
    OrderedCons(r, ops, e);
  }

  /** Dropping a key, then accessing or deleting it. */
  lemma AgreesDrop(s: seq<Tracked>, ops: seq<Op>, op: Op, k: string)
    requires Agrees(s, ops) && HasKey(s, k) && (forall j :: Accesses(op, j) ==> j == k)
    ensures Agrees(Drop(s, k), ops + [op])
    ensures forall i :: 0 <= i < |Drop(s, k)| ==> Drop(s, k)[i].key != k
    ensures LastSet(ops, k) == Some(s[Pos(s, k)].value)
  {
    hide LastSet;
    hide LastUse;
    hide Agrees;
    var p := Pos(s, k);
    AgreesAt(s, ops, p);
    var at := seq(|s| - 1, i requires 0 <= i < |s| - 1 => if i < p then i else i + 1);
    AgreesSub(s, ops, op, Drop(s, k), at);
  }

  lemma AgreesPrefix(s: seq<Tracked>, ops: seq<Op>, op: Op, n: nat)
    requires Agrees(s, ops) && n <= |s| && forall i :: 0 <= i < n ==> !Accesses(op, s[i].key)
    ensures Agrees(s[..n], ops + [op])
  {
    AgreesSub(s, ops, op, s[..n], seq(n, i => i));
  }

  lemma {:induction false} Without<V>(s: seq<Entry<V>>, k: string, i: nat)
    requires !HasKey(s, k) && i < |s|
    ensures s[i].key != k
  {
    HasKeyAt(s, i);
  }

  lemma AgreesStep(st: State, ops: seq<Op>, op: Op)
    requires Agrees(st.s, ops) && |st.s| <= st.cap
    ensures Agrees(Step(st, op).s, ops + [op]) && |Step(st, op).s| <= st.cap == Step(st, op).cap
  {
    hide LastSet;
    hide LastUse;
    hide Agrees;
    match op
    case GetOp(k) =>
      Snoc(ops, op, k);
      if HasKey(st.s, k) {
        AgreesDrop(st.s, ops, op, k);
        AgreesCons(Drop(st.s, k), ops + [op], st.s[Pos(st.s, k)]);
      } else {
        KeepsAll(st.s, ops, op, k);
      }
    case SetOp(k, v) =>
      Snoc(ops, op, k);
      if st.cap == 0 {
        KeepsAll(st.s, ops, op, k);
      } else if HasKey(st.s, k) {
        AgreesDrop(st.s, ops, op, k);
        AgreesCons(Drop(st.s, k), ops + [op], Entry(k, v));
      } else {
        var n := if |st.s| == st.cap then |st.s| - 1 else |st.s|;
        forall i | 0 <= i < n ensures st.s[i].key != k {
          Without(st.s, k, i);
        }
        AgreesPrefix(st.s, ops, op, n);
        AgreesCons(st.s[..n], ops + [op], Entry(k, v));
        assert st.s[..|st.s|] == st.s;
      }
    case DeleteOp(k) =>
      if HasKey(st.s, k) {
        AgreesDrop(st.s, ops, op, k);
      } else {
        KeepsAll(st.s, ops, op, k);
      }
    case EvictOp =>
      KeepsAll(st.s, ops, op, "");
      if st.s != [] {
        AgreesPrefix(st.s, ops, op, |st.s| - 1);
      }
  }

  lemma KeepsAll(s: seq<Tracked>, ops: seq<Op>, op: Op, k: string)
    requires Agrees(s, ops) && (forall j :: Accesses(op, j) ==> j == k && !HasKey(s, k))
    ensures Agrees(s, ops + [op])
  {
    forall i | 0 <= i < |s| ensures !Accesses(op, s[i].key) {
      HasKeyAt(s, i);
    }
    assert s[..|s|] == s;
    AgreesPrefix(s, ops, op, |s|);
  }

  /** After any run the list is within capacity, holds the latest Set values and is in order of latest access. */
  lemma {:induction false} RunAgrees(cap: nat, ops: seq<Op>)
    ensures Agrees(Run(cap, ops).s, ops) && |Run(cap, ops).s| <= cap == Run(cap, ops).cap
  {
    if ops != [] {
      var pre, op := ops[..|ops| - 1], ops[|ops| - 1];
      RunAgrees(cap, pre);
      AgreesStep(Run(cap, pre), pre, op);
      assert pre + [op] == ops;
    }
  }

  /** A tracked key sits at its position; its value is the latest Set of it. */
  lemma HitReturnsLastSet(cap: nat, ops: seq<Op>, k: string)
    requires HasKey(Run(cap, ops).s, k)
    ensures Get(Run(cap, ops), k).1 == LastSet(ops, k)
  {
    RunAgrees(cap, ops);
  }

  /** After any run, Evict removes exactly the tracked key whose latest access is oldest. */
  lemma EvictsLeastRecent(cap: nat, ops: seq<Op>, k: string)
    requires HasKey(Run(cap, ops).s, k)
    ensures Evict(Run(cap, ops)).1 == Some(k) <==>
            forall j :: HasKey(Run(cap, ops).s, j) && j != k ==> LastUse(ops, k) < LastUse(ops, j)
  {
    hide LastUse;
    hide LastSet;
    hide Run;
    RunAgrees(cap, ops);
    var s := Run(cap, ops).s;
    HasKeyAt(s, |s| - 1);
    assert LastUse(ops, s[|s| - 1].key) <= LastUse(ops, k) by {
      assert s[Pos(s, k)].key == k;
    }
    if s[|s| - 1].key == k {
      forall j | HasKey(s, j) && j != k ensures LastUse(ops, k) < LastUse(ops, j) {
        assert s[Pos(s, j)].key == j;
      }
    }
  }

  // ---------- a larger cache never does worse ----------

  /** Everything `a` tracks, `b` tracks; and `b` has no more free room than `a`. */
  ghost predicate Includes(a: State, b: State) {
    && (forall k :: HasKey(a.s, k) ==> HasKey(b.s, k))
    && |b.s| - |a.s| <= b.cap - a.cap
  }

  ghost predicate NoDup(s: seq<Tracked>) {
    forall i, j :: 0 <= i < j < |s| ==> s[i].key != s[j].key
  }

  lemma AgreesNoDup(s: seq<Tracked>, ops: seq<Op>)
    requires Agrees(s, ops)
    ensures NoDup(s)
  {
    hide LastUse;
    hide LastSet;
  }

  lemma DropKeys(s: seq<Tracked>, k: string, j: string)
    requires NoDup(s) && HasKey(s, k)
    ensures NoDup(Drop(s, k)) && (HasKey(Drop(s, k), j) <==> HasKey(s, j) && j != k)
  {
    var p := Pos(s, k);
    if HasKey(s, j) && j != k {
      var q := Pos(s, j);
      HasKeyAt(Drop(s, k), if q < p then q else q - 1);
    }
    if HasKey(Drop(s, k), j) {
      var q := Pos(Drop(s, k), j);
      HasKeyAt(s, if q < p then q else q + 1);
      assert s[if q < p then q else q + 1].key == j;
    }
  }

  lemma ConsKeys(s: seq<Tracked>, e: Tracked, j: string)
    ensures HasKey([e] + s, j) <==> j == e.key || HasKey(s, j)
  {
    assert ([e] + s)[1..] == s;
  }

  lemma ConsNoDup(s: seq<Tracked>, e: Tracked)
    requires NoDup(s) && !HasKey(s, e.key)
    ensures NoDup([e] + s)
  {
    forall j | 0 <= j < |s| ensures s[j].key != e.key {
      HasKeyAt(s, j);
    }
  }

  lemma InitKeys(s: seq<Tracked>, j: string)
    requires NoDup(s) && s != []
    ensures HasKey(s[..|s| - 1], j) <==> HasKey(s, j) && j != s[|s| - 1].key
    ensures HasKey(s, s[|s| - 1].key) && NoDup(s[..|s| - 1])
  {
    var n := |s| - 1;
    HasKeyAt(s, n);
    if HasKey(s, j) && j != s[n].key {
      HasKeyAt(s[..n], Pos(s, j));
    }
    if HasKey(s[..n], j) {
      assert s[Pos(s[..n], j)].key == j;
      HasKeyAt(s, Pos(s[..n], j));
    }
  }

  /** The last entry is the one used longest ago. */
  lemma LastIsOldest(s: seq<Tracked>, ops: seq<Op>, j: string)
    requires Agrees(s, ops) && HasKey(s, j) && j != s[|s| - 1].key
    ensures LastUse(ops, s[|s| - 1].key) < LastUse(ops, j)
  {
    hide LastUse;
    hide LastSet;
    assert s[Pos(s, j)].key == j;
  }

  /** Which keys are tracked after a step, and how many. */
  ghost predicate Keeps(st: State, op: Op, j: string) {
    var r, full := Step(st, op), st.s != [] && |st.s| == st.cap;
    match op
    case GetOp(_) => |r.s| == |st.s| && (HasKey(r.s, j) <==> HasKey(st.s, j))
    case DeleteOp(k) =>
      && |r.s| == |st.s| - (if HasKey(st.s, k) then 1 else 0)
      && (HasKey(r.s, j) <==> HasKey(st.s, j) && j != k)
    case EvictOp =>
      && |r.s| == |st.s| - (if st.s != [] then 1 else 0)
      && (HasKey(r.s, j) <==> HasKey(st.s, j) && j != st.s[|st.s| - 1].key)
    case SetOp(k, _) =>
      if st.cap == 0 || HasKey(st.s, k) then |r.s| == |st.s| && (HasKey(r.s, j) <==> HasKey(st.s, j))
      else
        && |r.s| == |st.s| + (if full then 0 else 1)
        && (HasKey(r.s, j) <==> j == k || (HasKey(st.s, j) && !(full && j == st.s[|st.s| - 1].key)))
  }

  lemma StepKeeps(st: State, op: Op, j: string)
    requires NoDup(st.s) && |st.s| <= st.cap
    ensures Keeps(st, op, j)
  {
    hide NoDup;
    if st.s != [] {
      InitKeys(st.s, j);
    }
    match op
    case GetOp(k) =>
      if HasKey(st.s, k) {
        DropKeys(st.s, k, j);
        ConsKeys(Drop(st.s, k), st.s[Pos(st.s, k)], j);
      }
    case DeleteOp(k) =>
      if HasKey(st.s, k) {
        DropKeys(st.s, k, j);
      }
    case EvictOp =>
    case SetOp(k, v) =>
      if HasKey(st.s, k) {
        DropKeys(st.s, k, j);
        ConsKeys(Drop(st.s, k), Entry(k, v), j);
      } else if st.cap > 0 {
        ConsKeys(st.s, Entry(k, v), j);
        if |st.s| == st.cap {
          ConsKeys(st.s[..|st.s| - 1], Entry(k, v), j);
        }
      }
  }

  /** Every operation keeps the keys distinct and the size within capacity. */
  lemma StepNoDup(st: State, op: Op)
    requires NoDup(st.s) && |st.s| <= st.cap
    ensures NoDup(Step(st, op).s) && |Step(st, op).s| <= st.cap == Step(st, op).cap
  {
    hide NoDup;
    if !op.EvictOp? && HasKey(st.s, op.k) {
      DropKeys(st.s, op.k, op.k);
      ConsNoDup(Drop(st.s, op.k), Entry(op.k, if op.SetOp? then op.v else st.s[Pos(st.s, op.k)].value));
    } else {
      if st.s != [] {
        InitKeys(st.s, if op.SetOp? then op.k else "");
      }
      if op.SetOp? && st.cap > 0 {
        if |st.s| == st.cap {
          ConsNoDup(st.s[..|st.s| - 1], Entry(op.k, op.v));
        } else {
          ConsNoDup(st.s, Entry(op.k, op.v));
        }
      }
    }
  }

  lemma IncludesStep(a: State, b: State, ops: seq<Op>, op: Op)
    requires Agrees(a.s, ops) && |a.s| <= a.cap && Agrees(b.s, ops) && |b.s| <= b.cap
    requires Includes(a, b) && a.cap <= b.cap
    ensures Includes(Step(a, op), Step(b, op))
  {
    hide LastUse;
    hide LastSet;
    hide Agrees;
    hide Step;
    AgreesStep(a, ops, op);
    AgreesStep(b, ops, op);
    if a.s != [] {
      HasKeyAt(a.s, 0);
    }
    AgreesNoDup(a.s, ops);
    AgreesNoDup(b.s, ops);
    StepKeeps(a, op, "");
    StepKeeps(b, op, "");
    forall k | HasKey(Step(a, op).s, k) ensures HasKey(Step(b, op).s, k) {
      StepKeeps(a, op, k);
      StepKeeps(b, op, k);
      if a.s != [] && b.s != [] {
        KeptTogether(a.s, b.s, ops, k);
      }
    }
  }

  /** When the larger cache's oldest key is also tracked by the smaller one, it is the oldest there too. */
  lemma KeptTogether(s: seq<Tracked>, t: seq<Tracked>, ops: seq<Op>, k: string)
    requires Agrees(s, ops) && Agrees(t, ops) && s != [] && t != []
    requires forall j :: HasKey(s, j) ==> HasKey(t, j)
    ensures HasKey(s, k) && k == t[|t| - 1].key ==> k == s[|s| - 1].key
  {
    hide LastUse;
    hide LastSet;
    hide Agrees;
    var x := s[|s| - 1].key;
    HasKeyAt(s, |s| - 1);
    if HasKey(s, k) && k != x {
      LastIsOldest(s, ops, k);
      if k == t[|t| - 1].key {
        LastIsOldest(t, ops, x);
      }
    }
  }

  /**
   No larger-cache anomaly: for any operations, everything a cache of capacity `c` tracks is tracked by
   one of capacity `d >= c`, so every hit of the smaller one is a hit of the larger one, with the same value.
   */
  lemma {:induction false} LargerIncludesSmaller(c: nat, d: nat, ops: seq<Op>)
    requires c <= d
    ensures Includes(Run(c, ops), Run(d, ops))
  {
    if ops != [] {
      var pre := ops[..|ops| - 1];
      LargerIncludesSmaller(c, d, pre);
      RunAgrees(c, pre);
      RunAgrees(d, pre);
      IncludesStep(Run(c, pre), Run(d, pre), pre, ops[|ops| - 1]);
    }
  }

  lemma LargerHitsMore(c: nat, d: nat, ops: seq<Op>, k: string)
    requires c <= d && Get(Run(c, ops), k).1 != None
    ensures Get(Run(d, ops), k).1 == Get(Run(c, ops), k).1
  {
    LargerIncludesSmaller(c, d, ops);
    HitReturnsLastSet(c, ops, k);
    HitReturnsLastSet(d, ops, k);
  }
}
