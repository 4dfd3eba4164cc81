/** The Clock algorithm (pkg/eviction/clock.go) as a policy: slots on a dial, a hand, and second chances by access count. */
module ClockPolicy {
  import opened Items
  import opened Traces

  datatype Slot = Free | Full(key: string, value: Value, count: nat)

  // ---------- positions on the dial ----------

  /** The slot `d` steps ahead of the hand. */
  function At(n: nat, hand: nat, d: nat): (j: nat)
    requires hand < n && d < n
    ensures j < n
  {
    if hand + d < n then hand + d else hand + d - n
  }

  /** How many steps ahead of the hand slot `j` is. */
  function Dist(n: nat, hand: nat, j: nat): (d: nat)
    requires hand < n && j < n
    ensures d < n && At(n, hand, d) == j
  {
    if hand <= j then j - hand else j + n - hand
  }

  lemma DistAt(n: nat, hand: nat, d: nat)
    requires hand < n && d < n
    ensures Dist(n, hand, At(n, hand, d)) == d
    ensures d + 1 < n ==> (At(n, hand, d) + 1) % n == At(n, hand, d + 1)
    ensures d + 1 == n ==> (At(n, hand, d) + 1) % n == hand
  {
    var j := At(n, hand, d);
    if j + 1 == n {
      assert (j + 1) % n == 0;
    } else {
      assert (j + 1) % n == j + 1;
    }
  }

  predicate IsFree(x: Slot) {
    x.Free?
  }

  /** An occupied slot whose second chances are used up. */
  predicate IsIdle(x: Slot) {
    x.Full? && x.count == 0
  }

  /** Steps from the hand, at least `d`, to the first slot that satisfies `p`; the dial's size when none does. */
  function First(s: seq<Slot>, hand: nat, d: nat, p: Slot -> bool): (r: nat)
    requires hand < |s| && d <= |s|
    ensures d <= r <= |s|
    decreases |s| - d
  {
    if d == |s| || p(s[At(|s|, hand, d)]) then d else First(s, hand, d + 1, p)
  }

  lemma {:induction false} FirstIs(s: seq<Slot>, hand: nat, d: nat, p: Slot -> bool)
    requires hand < |s| && d <= |s|
    ensures var r := First(s, hand, d, p);
            && (r < |s| ==> p(s[At(|s|, hand, r)]))
            && forall i :: d <= i < r ==> !p(s[At(|s|, hand, i)])
    decreases |s| - d
  {
    if d < |s| && !p(s[At(|s|, hand, d)]) {
      FirstIs(s, hand, d + 1, p);
    }
  }

  lemma FirstUnique(s: seq<Slot>, hand: nat, r: nat, p: Slot -> bool)
    requires hand < |s| && r <= |s|
    requires r < |s| ==> p(s[At(|s|, hand, r)])
    requires forall i :: 0 <= i < r ==> !p(s[At(|s|, hand, i)])
    ensures First(s, hand, 0, p) == r
  {
    FirstIs(s, hand, 0, p);
  }

  // ---------- the policy ----------

  datatype State = State(slots: seq<Slot>, hand: nat)

  function Lower(x: Slot): Slot {
    if x.Full? && x.count > 0 then x.(count := x.count - 1) else x
  }

  /** The dial after the hand passed `d` slots, taking a second chance from each occupied one. */
  function Lowered(s: seq<Slot>, hand: nat, d: nat): (r: seq<Slot>)
    requires s != [] ==> hand < |s|
    ensures |r| == |s|
  {
    seq(|s|, j requires 0 <= j < |s| => if Dist(|s|, hand, j) < d then Lower(s[j]) else s[j])
  }

  predicate WF(st: State) {
    st.slots != [] ==> st.hand < |st.slots|
  }

  function Evict(st: State): (State, Option<string>)
    requires WF(st)
  {
    var n := |st.slots|;
    if n == 0 then (st, None)
    else
      var d := First(st.slots, st.hand, 0, IsIdle);
      var s := Lowered(st.slots, st.hand, d);
      if d == n then (State(s, st.hand), None)
      else
        var j := At(n, st.hand, d);
        FirstIs(st.slots, st.hand, 0, IsIdle);
        (State(s[j := Free], j), Some(st.slots[j].key))
  }

  predicate Holds(s: seq<Slot>, k: string, j: nat) {
    j < |s| && s[j].Full? && s[j].key == k
  }

  predicate Tracked(s: seq<Slot>, k: string) {
    exists j :: 0 <= j < |s| && Holds(s, k, j)
  }

  /** No key is in two slots. */
  ghost predicate Unique(s: seq<Slot>) {
    forall k, i, j :: Holds(s, k, i) && Holds(s, k, j) ==> i == j
  }

  function Where(s: seq<Slot>, k: string): (j: nat)
    requires Tracked(s, k)
    ensures Holds(s, k, j)
  {
    var n := |s| - 1;
    if Holds(s, k, n) then n
    else
      assert forall j :: 0 <= j < |s| && Holds(s, k, j) ==> Holds(s[..n], k, j);
      Where(s[..n], k)
  }

  function Get(st: State, k: string): (State, Option<Value>) {
    if Tracked(st.slots, k) then
      var j := Where(st.slots, k);
      (st.(slots := st.slots[j := st.slots[j].(count := st.slots[j].count + 1)]), Some(st.slots[j].value))
    else (st, None)
  }

  function Delete(st: State, k: string): State {
    if Tracked(st.slots, k) then st.(slots := st.slots[Where(st.slots, k) := Free]) else st
  }

  /** A new key goes into the first free slot; a full dial is swept once for an idle slot to replace. */
  function Insert(st: State, k: string, v: Value): State
    requires WF(st) && st.slots != []
  {
    var n := |st.slots|;
    var e := First(st.slots, st.hand, 0, IsFree);
    if e < n then
      var j := At(n, st.hand, e);
      State(st.slots[j := Full(k, v, 1)], (j + 1) % n)
    else
      var d := First(st.slots, st.hand, 0, IsIdle);
      var s := Lowered(st.slots, st.hand, d);
      if d < n then
        var j := At(n, st.hand, d);
        State(s[j := Full(k, v, 1)], (j + 1) % n)
      else State(s, st.hand)
  }

  function Set(st: State, k: string, v: Value): State
    requires WF(st)
  {
    if st.slots == [] then st
    else if Tracked(st.slots, k) then
      var j := Where(st.slots, k);
      st.(slots := st.slots[j := Full(k, v, st.slots[j].count + 1)])
    else Insert(st, k, v)
  }

  ghost predicate Inv(st: State) {
    WF(st) && Unique(st.slots)
  }

  // ---------- second chances ----------

  /** `m` is the smallest access count on the dial. */
  ghost predicate IsLeast(s: seq<Slot>, m: nat) {
    && (forall j :: 0 <= j < |s| && s[j].Full? ==> m <= s[j].count)
    && exists j :: 0 <= j < |s| && s[j].Full? && s[j].count == m
  }

  /** A sweep that meets no idle slot lowers every occupied count by one and brings the hand home. */
  lemma FailedSweep(st: State)
    requires WF(st) && Evict(st).1 == None
    ensures Evict(st).0.hand == st.hand && |Evict(st).0.slots| == |st.slots|
    ensures forall j :: 0 <= j < |st.slots| ==> st.slots[j].Free? || st.slots[j].count > 0
    ensures forall j :: 0 <= j < |st.slots| ==> Evict(st).0.slots[j] == Lower(st.slots[j])
  {
    var n := |st.slots|;
    if n > 0 {
      FirstIs(st.slots, st.hand, 0, IsIdle);
      forall j | 0 <= j < n ensures !IsIdle(st.slots[j]) {
        assert At(n, st.hand, Dist(n, st.hand, j)) == j;
      }
    }
  }

  /** Evict finds no victim exactly when no slot is idle. */
  lemma EvictFailsIff(st: State)
    requires WF(st)
    ensures Evict(st).1 == None <==> forall j :: 0 <= j < |st.slots| ==> !IsIdle(st.slots[j])
  {
    if Evict(st).1 == None {
      FailedSweep(st);
    } else {
      FirstIs(st.slots, st.hand, 0, IsIdle);
    }
  }

  /** `m` calls of Evict. */
  function EvictTimes(st: State, m: nat): (r: State)
    requires WF(st)
    ensures WF(r)
    decreases m
  {
    if m == 0 then st else EvictTimes(Evict(st).0, m - 1)
  }

  /** `j` is the first slot ahead of the hand with access count `m`. */
  ghost predicate IsFirstWith(st: State, m: nat, j: nat)
    requires WF(st)
  {
    && j < |st.slots| && st.slots[j].Full? && st.slots[j].count == m
    && forall i :: 0 <= i < |st.slots| && st.slots[i].Full? && st.slots[i].count == m && i != j ==>
         Dist(|st.slots|, st.hand, j) < Dist(|st.slots|, st.hand, i)
  }

  /** An idle slot is found at once, the first one ahead of the hand. */
  lemma IdleIsEvicted(st: State)
    requires WF(st) && IsLeast(st.slots, 0)
    ensures Evict(st).1.Some? && IsFirstWith(st, 0, Evict(st).0.hand) && Evict(st).1 == Some(st.slots[Evict(st).0.hand].key)
  {
    EvictFailsIff(st);
    FirstIs(st.slots, st.hand, 0, IsIdle);
    var n, d := |st.slots|, First(st.slots, st.hand, 0, IsIdle);
    DistAt(n, st.hand, d);
    forall i | 0 <= i < n && IsIdle(st.slots[i]) ensures d <= Dist(n, st.hand, i) {
      assert st.slots[At(n, st.hand, Dist(n, st.hand, i))] == st.slots[i];
    }
  }

  /** A failed sweep lowers the least count and keeps who comes first. */
  lemma SweepLowersLeast(st: State, m: nat)
    requires WF(st) && IsLeast(st.slots, m) && m > 0
    ensures Evict(st).1 == None && WF(Evict(st).0) && IsLeast(Evict(st).0.slots, m - 1)
    ensures forall j: nat :: IsFirstWith(Evict(st).0, m - 1, j) ==> IsFirstWith(st, m, j) && st.slots[j].key == Evict(st).0.slots[j].key
  {
    EvictFailsIff(st);
    FailedSweep(st);
    hide Evict;
    var r := Evict(st).0;
    var j :| 0 <= j < |st.slots| && st.slots[j].Full? && st.slots[j].count == m;
    assert r.slots[j].Full? && r.slots[j].count == m - 1;
    forall j: nat | IsFirstWith(r, m - 1, j) ensures IsFirstWith(st, m, j) && st.slots[j].key == r.slots[j].key {
      assert r.slots[j] == Lower(st.slots[j]);
      forall i | 0 <= i < |st.slots| && st.slots[i].Full? && st.slots[i].count == m && i != j
        ensures Dist(|st.slots|, st.hand, j) < Dist(|st.slots|, st.hand, i)
      {
        assert r.slots[i] == Lower(st.slots[i]);
      }
    }
  }

  /**
   With least access count `m`, exactly the first `m` calls of Evict fail and call `m + 1` evicts; its
   victim is the first key ahead of the hand whose access count is least.
   */
  lemma {:induction false} VictimAfterLeast(st: State, m: nat) returns (j: nat)
    requires WF(st) && IsLeast(st.slots, m)
    ensures forall i: nat :: i < m ==> Evict(EvictTimes(st, i)).1 == None
    ensures IsFirstWith(st, m, j) && Evict(EvictTimes(st, m)).1 == Some(st.slots[j].key)
    decreases m
  {
    hide Evict;
    hide EvictTimes;
    hide IsLeast;
    hide IsFirstWith;
    Times(st, m);
    if m == 0 {
      IdleIsEvicted(st);
      j := Evict(st).0.hand;
    } else {
      SweepLowersLeast(st, m);
      j := VictimAfterLeast(Evict(st).0, m - 1);
      forall i: nat | i < m ensures Evict(EvictTimes(st, i)).1 == None {
        Times(st, i);
      }
    }
  }

  lemma Times(st: State, i: nat)
    requires WF(st)
    ensures EvictTimes(st, i) == if i == 0 then st else EvictTimes(Evict(st).0, i - 1)
  {
  }

  // ---------- runs ----------

  function Step(st: State, op: Op): (r: State)
    requires WF(st)
    ensures WF(r) && |r.slots| == |st.slots|
  {
    match op
    case GetOp(k) => Get(st, k).0
    case SetOp(k, v) => Set(st, k, v)
    case DeleteOp(k) => Delete(st, k)
    case EvictOp => Evict(st).0
  }

  function Run(cap: nat, ops: seq<Op>): (r: State)
    ensures WF(r) && |r.slots| == cap
  {
    if ops == [] then State(seq(cap, _ => Free), 0) else Step(Run(cap, ops[..|ops| - 1]), ops[|ops| - 1])
  }

  /** What the caller of an operation sees. */
  function Reply(st: State, op: Op): Option<string>
    requires WF(st)
  {
    match op
    case GetOp(k) => Get(st, k).1
    case SetOp(_, _) => None
    case DeleteOp(_) => None
    case EvictOp => Evict(st).1
  }

  /** What the callers of a run see, in order. */
  function Replies(cap: nat, ops: seq<Op>): seq<Option<string>> {
    if ops == [] then []
    else
      var pre := ops[..|ops| - 1];
      Replies(cap, pre) + [Reply(Run(cap, pre), ops[|ops| - 1])]
  }

  /** Slot by slot, a step keeps what was there, frees it, changes its count, or stores the key being set. */
  ghost predicate SlotStep(x: Slot, y: Slot, op: Op) {
    || y.Free?
    || (x.Full? && y.key == x.key && y.value == x.value && !(op.SetOp? && op.k == y.key))
    || (op.SetOp? && y.key == op.k && y.value == op.v)
  }

  lemma SlotSteps(st: State, op: Op, j: nat)
    requires Inv(st) && j < |st.slots|
    ensures SlotStep(st.slots[j], Step(st, op).slots[j], op)
  {
    hide First;
    match op
    case GetOp(k) =>
    case DeleteOp(k) =>
    case EvictOp =>
    case SetOp(k, v) =>
      if st.slots[j].Full? && st.slots[j].key == k {
        assert Holds(st.slots, k, j);
      }
  }

  /** A step that stores its key does so in one slot, which held the key if any slot did. */
  lemma StepUnique(st: State, op: Op)
    requires Inv(st)
    ensures Inv(Step(st, op))
  {
    hide Step;
    var r := Step(st, op);
    forall k, i, j | Holds(r.slots, k, i) && Holds(r.slots, k, j) ensures i == j {
      SlotSteps(st, op, i);
      SlotSteps(st, op, j);
      if op.SetOp? && op.k == k {
        StoredOnce(st, op, i, j);
      } else {
        assert Holds(st.slots, k, i) && Holds(st.slots, k, j);
      }
    }
  }

  lemma StoredOnce(st: State, op: Op, i: nat, j: nat)
    requires Inv(st) && op.SetOp? && Holds(Step(st, op).slots, op.k, i) && Holds(Step(st, op).slots, op.k, j)
    ensures i == j
  {
    hide First;
    if st.slots[i].Full? && st.slots[i].key == op.k {
      assert Holds(st.slots, op.k, i);
    }
    if st.slots[j].Full? && st.slots[j].key == op.k {
      assert Holds(st.slots, op.k, j);
    }
  }

  /** Over any run no key is in two slots, and every occupied slot holds its key's latest Set value. */
  lemma {:induction false} RunKeeps(cap: nat, ops: seq<Op>)
    ensures Inv(Run(cap, ops))
    ensures forall j :: 0 <= j < cap && Run(cap, ops).slots[j].Full? ==>
              LastSet(ops, Run(cap, ops).slots[j].key) == Some(Run(cap, ops).slots[j].value)
  {
    if ops != [] {
      var pre, op := ops[..|ops| - 1], ops[|ops| - 1];
      RunKeeps(cap, pre);
      var st := Run(cap, pre);
      StepUnique(st, op);
      forall j | 0 <= j < cap && Run(cap, ops).slots[j].Full?
        ensures LastSet(ops, Run(cap, ops).slots[j].key) == Some(Run(cap, ops).slots[j].value)
      {
        SlotSteps(st, op, j);
      }
    }
  }

  // ---------- each step, by distances from the hand ----------

  /** No slot from the hand up to and including `j` is idle, so a sweep goes past `j`. */
  ghost predicate Passes(st: State, j: nat)
    requires WF(st) && j < |st.slots|
  {
    forall i :: 0 <= i < |st.slots| && Dist(|st.slots|, st.hand, i) <= Dist(|st.slots|, st.hand, j) ==>
      !(st.slots[i].Full? && st.slots[i].count == 0)
  }

  /** `j` is the first free slot ahead of the hand. */
  ghost predicate IsFirstFree(st: State, j: nat)
    requires WF(st) && j < |st.slots|
  {
    && st.slots[j].Free?
    && forall i :: 0 <= i < |st.slots| && st.slots[i].Free? && i != j ==>
         Dist(|st.slots|, st.hand, j) < Dist(|st.slots|, st.hand, i)
  }

  ghost predicate HasFree(st: State) {
    exists i :: 0 <= i < |st.slots| && st.slots[i].Free?
  }

  /** A sweep takes one count from every occupied slot it passes and leaves `end` in the first idle one. */
  ghost function Swept(st: State, j: nat, end: Slot): Slot
    requires WF(st) && j < |st.slots|
  {
    if Passes(st, j) then if st.slots[j].Full? then st.slots[j].(count := st.slots[j].count - 1) else Free
    else if IsFirstWith(st, 0, j) then end
    else st.slots[j]
  }

  lemma PassesIff(st: State, j: nat)
    requires WF(st) && j < |st.slots|
    ensures var n, d := |st.slots|, First(st.slots, st.hand, 0, IsIdle);
            && (Passes(st, j) <==> Dist(n, st.hand, j) < d)
            && (IsFirstWith(st, 0, j) <==> d < n && j == At(n, st.hand, d))
  {
    var s, n, d := st.slots, |st.slots|, First(st.slots, st.hand, 0, IsIdle);
    FirstIs(s, st.hand, 0, IsIdle);
    hide First;
    forall i | 0 <= i < n ensures i == At(n, st.hand, Dist(n, st.hand, i)) && (Dist(n, st.hand, i) < d ==> !IsIdle(s[i])) {
    }
    if d < n {
      DistAt(n, st.hand, d);
      assert IsIdle(s[At(n, st.hand, d)]);
    }
  }

  lemma FirstFreeIff(st: State, j: nat)
    requires WF(st) && j < |st.slots|
    ensures var n, e := |st.slots|, First(st.slots, st.hand, 0, IsFree);
            (HasFree(st) <==> e < n) && (IsFirstFree(st, j) <==> e < n && j == At(n, st.hand, e))
  {
    var s, n, e := st.slots, |st.slots|, First(st.slots, st.hand, 0, IsFree);
    FirstIs(s, st.hand, 0, IsFree);
    hide First;
    forall i | 0 <= i < n ensures i == At(n, st.hand, Dist(n, st.hand, i)) && (Dist(n, st.hand, i) < e ==> !IsFree(s[i])) {
    }
    if e < n {
      DistAt(n, st.hand, e);
      assert IsFree(s[At(n, st.hand, e)]);
    }
  }

  /** What each operation leaves in slot `j`. */
  lemma StepAt(st: State, op: Op, j: nat)
    requires Inv(st) && j < |st.slots|
    ensures var x, mine := st.slots[j], st.slots[j].Full? && !op.EvictOp? && st.slots[j].key == op.k;
            Step(st, op).slots[j] ==
            match op
            case GetOp(k) => if mine then x.(count := x.count + 1) else x
            case DeleteOp(k) => if mine then Free else x
            case EvictOp => Swept(st, j, Free)
            case SetOp(k, v) =>
              if Tracked(st.slots, k) then if mine then Full(k, v, x.count + 1) else x
              else if HasFree(st) then if IsFirstFree(st, j) then Full(k, v, 1) else x
              else Swept(st, j, Full(k, v, 1))
  {
    PassesIff(st, j);
    FirstFreeIff(st, j);
    FirstIs(st.slots, st.hand, 0, IsIdle);
    hide First;
    hide Passes;
    hide IsFirstWith;
    hide IsFirstFree;
    hide HasFree;
    if !op.EvictOp? && st.slots[j].Full? && st.slots[j].key == op.k {
      assert Holds(st.slots, op.k, j);
    }
  }

  /** Where each operation leaves the hand: on the slot an Evict freed, past the slot a new key took, else where it was. */
  lemma StepHand(st: State, op: Op, j: nat)
    requires Inv(st) && j < |st.slots|
    ensures op.EvictOp? && IsFirstWith(st, 0, j) ==> Step(st, op).hand == j
    ensures op.SetOp? && !Tracked(st.slots, op.k) && (if HasFree(st) then IsFirstFree(st, j) else IsFirstWith(st, 0, j)) ==>
              Step(st, op).hand == (j + 1) % |st.slots|
    ensures op.GetOp? || op.DeleteOp? || (op.SetOp? && Tracked(st.slots, op.k)) ==> Step(st, op).hand == st.hand
    ensures (op.EvictOp? || (op.SetOp? && !HasFree(st))) && (forall i: nat :: !IsFirstWith(st, 0, i)) ==> Step(st, op).hand == st.hand
  {
    PassesIff(st, j);
    FirstFreeIff(st, j);
    var n, d := |st.slots|, First(st.slots, st.hand, 0, IsIdle);
    if d < n {
      PassesIff(st, At(n, st.hand, d));
    }
    hide First;
    hide Passes;
    hide IsFirstWith;
    hide IsFirstFree;
    hide HasFree;
  }

  // ---------- access counts, read off the operations ----------

  /** The operation sends the hand round in search of an idle slot. */
  ghost predicate Sweeps(st: State, op: Op) {
    st.slots != [] && (op.EvictOp? || (op.SetOp? && !Tracked(st.slots, op.k) && !HasFree(st)))
  }

  /** How many operations accessed `k` since it was last untracked. */
  ghost function Uses(cap: nat, ops: seq<Op>, k: string): nat {
    if ops == [] || !Tracked(Run(cap, ops).slots, k) then 0
    else Uses(cap, ops[..|ops| - 1], k) + if Accesses(ops[|ops| - 1], k) then 1 else 0
  }

  /** How many sweeps passed `k` since it was last untracked. */
  ghost function Chances(cap: nat, ops: seq<Op>, k: string): nat {
    if ops == [] || !Tracked(Run(cap, ops).slots, k) then 0
    else
      var pre, op := ops[..|ops| - 1], ops[|ops| - 1];
      var st := Run(cap, pre);
      Chances(cap, pre, k) + if Tracked(st.slots, k) && Sweeps(st, op) && Passes(st, Where(st.slots, k)) then 1 else 0
  }

  lemma CountStep(st: State, op: Op, k: string)
    requires Inv(st) && Tracked(Step(st, op).slots, k)
    ensures var y := Step(st, op).slots[Where(Step(st, op).slots, k)];
            if Tracked(st.slots, k) then
              var j := Where(st.slots, k);
              y.count + (if Sweeps(st, op) && Passes(st, j) then 1 else 0) == st.slots[j].count + (if Accesses(op, k) then 1 else 0)
            else Accesses(op, k) && y.count == 1
  {
    var r := Step(st, op);
    var j := Where(r.slots, k);
    StepAt(st, op, j);
    StepUnique(st, op);
    if Tracked(st.slots, k) {
      var i := Where(st.slots, k);
      StepAt(st, op, i);
      hide Step;
      hide Passes;
      if r.slots[i].Full? && r.slots[i].key == k {
        assert Holds(r.slots, k, i);
      } else {
        assert st.slots[j].Full? && st.slots[j].key == k ==> Holds(st.slots, k, j);
      }
    } else {
      hide Step;
      hide Passes;
      assert !Holds(st.slots, k, j);
    }
  }

  /** Over any run a tracked key's count is its accesses since it entered, less the sweeps that passed it. */
  lemma {:induction false} CountsAreTheTrace(cap: nat, ops: seq<Op>, k: string)
    requires Tracked(Run(cap, ops).slots, k)
    ensures Run(cap, ops).slots[Where(Run(cap, ops).slots, k)].count + Chances(cap, ops, k) == Uses(cap, ops, k)
    decreases |ops|
  {
    if ops != [] {
      var pre, op := ops[..|ops| - 1], ops[|ops| - 1];
      RunKeeps(cap, pre);
      CountStep(Run(cap, pre), op, k);
      if Tracked(Run(cap, pre).slots, k) {
        CountsAreTheTrace(cap, pre, k);
      }
      hide Step;
      hide Passes;
      hide Sweeps;
    }
  }

  lemma HitReturnsLastSet(cap: nat, ops: seq<Op>, k: string)
    requires Tracked(Run(cap, ops).slots, k)
    ensures Get(Run(cap, ops), k).1 == LastSet(ops, k)
  {
    RunKeeps(cap, ops);
  }

  /** Set loses its key exactly when the clock has no slots, or is full of other keys with no idle slot. */
  lemma SetTracksIff(st: State, k: string, v: Value)
    requires Inv(st)
    ensures Tracked(Set(st, k, v).slots, k) <==>
            Tracked(st.slots, k) || exists j :: 0 <= j < |st.slots| && (IsFree(st.slots[j]) || IsIdle(st.slots[j]))
  {
    if st.slots != [] && !Tracked(st.slots, k) {
      var n := |st.slots|;
      FirstIs(st.slots, st.hand, 0, IsFree);
      FirstIs(st.slots, st.hand, 0, IsIdle);
      hide First;
      var r := Insert(st, k, v);
      var e, d := First(st.slots, st.hand, 0, IsFree), First(st.slots, st.hand, 0, IsIdle);
      if e < n {
        assert Holds(r.slots, k, At(n, st.hand, e));
      } else if d < n {
        assert Holds(r.slots, k, At(n, st.hand, d));
      } else {
        forall j | 0 <= j < n ensures !IsFree(st.slots[j]) && !IsIdle(st.slots[j]) {
          assert st.slots[At(n, st.hand, Dist(n, st.hand, j))] == st.slots[j];
        }
        forall j ensures !Holds(r.slots, k, j) {
          assert Holds(r.slots, k, j) ==> Holds(st.slots, k, j);
        }
      }
    } else if st.slots != [] {
      assert Holds(Set(st, k, v).slots, k, Where(st.slots, k));
    }
  }

  /** Another key leaves on a Set only from the first idle slot of a full dial. */
  lemma SetKeepsOthersIff(st: State, k: string, v: Value, j: string)
    requires Inv(st) && Tracked(st.slots, j) && j != k
    ensures var s, n := st.slots, |st.slots|;
            var full := forall i :: 0 <= i < n ==> !IsFree(s[i]);
            var d := First(s, st.hand, 0, IsIdle);
            Tracked(Set(st, k, v).slots, j) <==> !(!Tracked(s, k) && full && d < n && Holds(s, j, At(n, st.hand, d)))
  {
    var s, n, p := st.slots, |st.slots|, Where(st.slots, j);
    FirstIs(s, st.hand, 0, IsFree);
    FirstIs(s, st.hand, 0, IsIdle);
    hide First;
    var r, e, d := Set(st, k, v), First(s, st.hand, 0, IsFree), First(s, st.hand, 0, IsIdle);
    assert e < n <==> exists i :: 0 <= i < n && IsFree(s[i]) by {
      forall i | 0 <= i < n && IsFree(s[i]) ensures e < n {
        assert s[At(n, st.hand, Dist(n, st.hand, i))] == s[i];
      }
    }
    if !Tracked(s, k) && e == n && d < n && p == At(n, st.hand, d) {
      forall i ensures !Holds(r.slots, j, i) {
        assert Holds(r.slots, j, i) ==> Holds(s, j, i);
      }
    } else {
      assert Holds(r.slots, j, p);
    }
  }

  /** Before a Set of `k`: some slot will be idle after it. */
  ghost predicate LeavesIdle(st: State, k: string)
    requires WF(st)
  {
    var s, n := st.slots, |st.slots|;
    n > 0 &&
    if Tracked(s, k) then exists j :: 0 <= j < n && IsIdle(s[j]) && j != Where(s, k)
    else if exists j :: 0 <= j < n && IsFree(s[j]) then exists j :: 0 <= j < n && IsIdle(s[j])
    else
      var d := First(s, st.hand, 0, IsIdle);
      exists j :: 0 <= j < n && ((s[j].count == 1 && Dist(n, st.hand, j) < d) || (s[j].count == 0 && Dist(n, st.hand, j) > d))
  }

  /** An Evict right after a Set finds a victim exactly when the Set leaves an idle slot. */
  lemma EvictAfterSetIff(st: State, k: string, v: Value)
    requires Inv(st)
    ensures Evict(Set(st, k, v)).1.Some? <==> LeavesIdle(st, k)
  {
    hide Evict;
    hide Set;
    hide First;
    hide Where;
    assert Step(st, SetOp(k, v)) == Set(st, k, v);
    EvictFailsIff(Set(st, k, v));
    var s, n := st.slots, |st.slots|;
    if n > 0 && !Tracked(s, k) {
      FirstIs(s, st.hand, 0, IsFree);
      if j :| 0 <= j < n && IsFree(s[j]) {
        assert s[At(n, st.hand, Dist(n, st.hand, j))] == s[j];
        FreeInserted(st, k, v);
      } else {
        FullInserted(st, k, v);
      }
    } else if n > 0 {
      Updated(st, k, v);
    }
  }

  lemma Updated(st: State, k: string, v: Value)
    requires Inv(st) && Tracked(st.slots, k)
    ensures forall j :: 0 <= j < |st.slots| ==> (IsIdle(Set(st, k, v).slots[j]) <==> IsIdle(st.slots[j]) && j != Where(st.slots, k))
  {
  }

  lemma FreeInserted(st: State, k: string, v: Value)
    requires Inv(st) && st.slots != [] && !Tracked(st.slots, k) && First(st.slots, st.hand, 0, IsFree) < |st.slots|
    ensures forall j :: 0 <= j < |st.slots| ==> (IsIdle(Set(st, k, v).slots[j]) <==> IsIdle(st.slots[j]))
  {
    FirstIs(st.slots, st.hand, 0, IsFree);
  }

  lemma FullInserted(st: State, k: string, v: Value)
    requires Inv(st) && st.slots != [] && !Tracked(st.slots, k) && First(st.slots, st.hand, 0, IsFree) == |st.slots|
    requires forall j :: 0 <= j < |st.slots| ==> st.slots[j].Full?
    ensures var s, n, d := st.slots, |st.slots|, First(st.slots, st.hand, 0, IsIdle);
            forall j :: 0 <= j < n ==> (IsIdle(Set(st, k, v).slots[j]) <==>
              (s[j].count == 1 && Dist(n, st.hand, j) < d) || (s[j].count == 0 && Dist(n, st.hand, j) > d))
  {
    var s, n, d := st.slots, |st.slots|, First(st.slots, st.hand, 0, IsIdle);
    FirstIs(s, st.hand, 0, IsIdle);
    hide First;
    DistAt(n, st.hand, if d < n then d else 0);
    forall j | 0 <= j < n
      ensures IsIdle(Set(st, k, v).slots[j]) <==>
              (s[j].count == 1 && Dist(n, st.hand, j) < d) || (s[j].count == 0 && Dist(n, st.hand, j) > d)
    {
      assert s[At(n, st.hand, Dist(n, st.hand, j))] == s[j];
      assert Dist(n, st.hand, j) < d ==> !IsIdle(s[j]);
    }
  }

  // ---------- a dial of one slot ----------

  lemma OneSlotFree(k: string, v: Value)
    ensures Set(State([Free], 0), k, v) == State([Full(k, v, 1)], 0)
    ensures Delete(State([Free], 0), k) == State([Free], 0)
  {
    assert !Tracked([Free], k);
    assert [Free][0 := Full(k, v, 1)] == [Full(k, v, 1)];
  }

  lemma OneSlotSpent(j: string, u: Value, k: string, v: Value)
    requires j != k
    ensures Set(State([Full(j, u, 1)], 0), k, v) == State([Full(j, u, 0)], 0)
  {
    var s := [Full(j, u, 1)];
    assert !Tracked(s, k);
    FirstUnique(s, 0, 1, IsFree);
    FirstUnique(s, 0, 1, IsIdle);
    assert Lowered(s, 0, 1) == [Full(j, u, 0)];
  }

  lemma OneSlotEvict(j: string, u: Value)
    ensures Evict(State([Full(j, u, 0)], 0)) == (State([Free], 0), Some(j))
    ensures Evict(State([Full(j, u, 1)], 0)) == (State([Full(j, u, 0)], 0), None)
  {
    var s, t := [Full(j, u, 0)], [Full(j, u, 1)];
    FirstUnique(s, 0, 0, IsIdle);
    FirstUnique(t, 0, 1, IsIdle);
    assert Lowered(s, 0, 0)[0 := Free] == [Free];
    assert Lowered(t, 0, 1) == s;
  }
}
