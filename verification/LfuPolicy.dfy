/**
 Least Frequently Used (pkg/eviction/lfu.go) as a policy: per key a value, an access count and the time
 of the last access; the victim is the least used key, the least recently used among those.
 */
module LfuPolicy {
  import opened Items
  import opened Traces

  datatype Rank = Rank(count: nat, last: nat)

  /** The heap's Less: fewer accesses first, older access first on ties. */
  predicate Before(a: Rank, b: Rank) {
    if a.count == b.count then a.last < b.last else a.count < b.count
  }

  datatype Cell = Cell(value: Value, count: nat, last: nat)

  /** What the algorithm tracks: per key its value, access count and last access; and the access clock. */
  datatype State = State(cap: nat, m: map<string, Cell>, clock: nat)

  function RankOfCell(c: Cell): Rank {
    Rank(c.count, c.last)
  }

  /** `k` is the least used key, the least recently used among those. */
  predicate IsVictim(m: map<string, Cell>, k: string) {
    k in m && forall j :: j in m && j != k ==> Before(RankOfCell(m[k]), RankOfCell(m[j]))
  }

  predicate DistinctLasts(m: map<string, Cell>) {
    forall j, k :: j in m && k in m && j != k ==> m[j].last != m[k].last
  }

  predicate Inv(s: State) {
    && |s.m| <= s.cap && DistinctLasts(s.m) && forall k :: k in s.m ==> s.m[k].last <= s.clock
  }

  lemma {:induction false} VictimExists(m: map<string, Cell>) returns (k: string)
    requires m != map[] && DistinctLasts(m)
    ensures IsVictim(m, k)
    decreases |m|
  {
    var j :| j in m;
    var rest := m - {j};
    if rest == map[] {
      k := j;
      assert forall i :: i in m && i != j ==> i in rest;
    } else {
      var r := VictimExists(rest);
      k := if Before(RankOfCell(m[j]), RankOfCell(m[r])) then j else r;
      assert forall i :: i in m && i != j ==> i in rest;
    }
  }

  lemma SomeVictim(m: map<string, Cell>)
    requires m != map[] && DistinctLasts(m)
    ensures exists k :: k in m && IsVictim(m, k)
  {
    var k := VictimExists(m);
  }

  /** There is exactly one victim. */
  lemma VictimUnique(m: map<string, Cell>, j: string, k: string)
    requires IsVictim(m, j) && IsVictim(m, k)
    ensures j == k
  {
  }

  function Victim(m: map<string, Cell>): (k: string)
    requires m != map[] && DistinctLasts(m)
    ensures IsVictim(m, k)
  {
    SomeVictim(m);
    var k :| k in m && IsVictim(m, k);
    k
  }

  function Touch(s: State, k: string, v: Value): State
    requires k in s.m
  {
    s.(m := s.m[k := Cell(v, s.m[k].count + 1, s.clock + 1)], clock := s.clock + 1)
  }

  function DropVictim(s: State): State
    requires Inv(s)
  {
    if s.m == map[] then s else s.(m := s.m - {Victim(s.m)})
  }

  function Set(s: State, k: string, v: Value): State
    requires Inv(s)
  {
    if s.cap == 0 then s
    else if k in s.m then Touch(s, k, v)
    else
      var r := if |s.m| == s.cap then DropVictim(s) else s;
      r.(m := r.m[k := Cell(v, 1, s.clock + 1)], clock := s.clock + 1)
  }

  function Get(s: State, k: string): (State, Option<Value>) {
    if k in s.m then (Touch(s, k, s.m[k].value), Some(s.m[k].value)) else (s, None)
  }

  function Delete(s: State, k: string): State {
    s.(m := s.m - {k})
  }

  function Evict(s: State): (State, Option<string>)
    requires Inv(s)
  {
    if s.cap == 0 || s.m == map[] then (s, None) else (DropVictim(s), Some(Victim(s.m)))
  }

  lemma SetInv(s: State, k: string, v: Value)
    requires Inv(s)
    ensures Inv(Set(s, k, v))
  {
  }

  /** Another key leaves on a Set only as the victim of a full cache that has to make room. */
  lemma SetKeepsOthersIff(s: State, k: string, v: Value, j: string)
    requires Inv(s) && j in s.m && j != k
    ensures j in Set(s, k, v).m <==> !(k !in s.m && |s.m| == s.cap && IsVictim(s.m, j))
    ensures j in Set(s, k, v).m ==> Set(s, k, v).m[j] == s.m[j]
  {
    if IsVictim(s.m, j) {
      VictimUnique(s.m, j, Victim(s.m));
    }
    assert s.m.Keys >= {j};
  }

  lemma TouchInv(s: State, k: string, v: Value)
    requires Inv(s) && k in s.m
    ensures Inv(Touch(s, k, v))
  {
  }

  lemma OtherInv(s: State, k: string)
    requires Inv(s)
    ensures Inv(Get(s, k).0) && Inv(Delete(s, k)) && Inv(Evict(s).0)
  {
  }

  // ---------- runs of the policy ----------

  function Step(s: State, op: Op): State
    requires Inv(s)
  {
    match op
    case GetOp(k) => Get(s, k).0
    case SetOp(k, v) => Set(s, k, v)
    case DeleteOp(k) => Delete(s, k)
    case EvictOp => Evict(s).0
  }

  function Run(cap: nat, ops: seq<Op>): (s: State)
    ensures Inv(s)
  {
    if ops == [] then State(cap, map[], 0)
    else
      var s := Run(cap, ops[..|ops| - 1]);
      StepInv(s, ops[|ops| - 1]);
      Step(s, ops[|ops| - 1])
  }

  /** What the caller of an operation sees. */
  function Reply(s: State, op: Op): Option<string>
    requires Inv(s)
  {
    match op
    case GetOp(k) => Get(s, k).1
    case SetOp(_, _) => None
    case DeleteOp(_) => None
    case EvictOp => Evict(s).1
  }

  /** What the callers of a run see, in order. */
  function Replies(cap: nat, ops: seq<Op>): seq<Option<string>> {
    if ops == [] then []
    else
      var pre := ops[..|ops| - 1];
      Replies(cap, pre) + [Reply(Run(cap, pre), ops[|ops| - 1])]
  }

  /** Every operation keeps the size bound, distinct access times and the clock bound. */
  lemma StepInv(s: State, op: Op)
    requires Inv(s)
    ensures Inv(Step(s, op))
  {
    match op
    case GetOp(k) => OtherInv(s, k);
    case SetOp(k, v) => SetInv(s, k, v);
    case DeleteOp(k) => OtherInv(s, k);
    case EvictOp => OtherInv(s, "");
  }

  lemma DropInv(s: State)
    requires Inv(s) && s.m != map[]
    ensures Inv(DropVictim(s)) && Victim(s.m) in s.m
  {
  }

  lemma RevalueInv(s: State, k: string, v: Value)
    requires Inv(s) && k in s.m
    ensures Inv(s.(m := s.m[k := s.m[k].(value := v)]))
  {
  }

  lemma InsertInv(s: State, k: string, v: Value)
    requires Inv(s) && k !in s.m && |s.m| < s.cap
    ensures Inv(s.(m := s.m[k := Cell(v, 1, s.clock + 1)], clock := s.clock + 1))
  {
  }

  /** Which keys each operation leaves tracked. */
  lemma StepKeys(s: State, op: Op)
    requires Inv(s)
    ensures Step(s, op).m.Keys ==
            match op
            case GetOp(_) => s.m.Keys
            case DeleteOp(k) => s.m.Keys - {k}
            case EvictOp => if s.cap == 0 || s.m == map[] then s.m.Keys else s.m.Keys - {Victim(s.m)}
            case SetOp(k, _) =>
              if s.cap == 0 then s.m.Keys
              else if k !in s.m && |s.m| == s.cap then s.m.Keys - {Victim(s.m)} + {k}
              else s.m.Keys + {k}
  {
    if op.SetOp? && s.cap > 0 && |s.m| == s.cap {
      assert s.m != map[];
    }
  }

  // ---------- what a run's bookkeeping means, read off its operations ----------

  /** How many operations accessed `k` since it was last untracked. */
  function Uses(cap: nat, ops: seq<Op>, k: string): nat {
    if k !in Run(cap, ops).m || ops == [] then 0
    else Uses(cap, ops[..|ops| - 1], k) + if Accesses(ops[|ops| - 1], k) then 1 else 0
  }

  /** One step touches the cell of `k` only when it accesses `k`. */
  lemma StepCell(s: State, op: Op, k: string)
    requires Inv(s) && k in Step(s, op).m
    ensures var c := Step(s, op).m[k];
            if Accesses(op, k) then
              && c.count == (if k in s.m then s.m[k].count else 0) + 1
              && c.last == s.clock + 1 == Step(s, op).clock
              && c.value == (if op.SetOp? then op.v else if k in s.m then s.m[k].value else "")
            else k in s.m && c == s.m[k]
    ensures op.GetOp? && op.k == k ==> k in s.m
  {
  }

  /** Every tracked key shows the value of its latest Set and exactly its accesses since it entered. */
  lemma {:induction false} CellsAreTheTrace(cap: nat, ops: seq<Op>, k: string)
    requires k in Run(cap, ops).m
    ensures Some(Run(cap, ops).m[k].value) == LastSet(ops, k)
    ensures Run(cap, ops).m[k].count == Uses(cap, ops, k)
    decreases |ops|
  {
    var pre, op := ops[..|ops| - 1], ops[|ops| - 1];
    StepCell(Run(cap, pre), op, k);
    if k in Run(cap, pre).m {
      CellsAreTheTrace(cap, pre, k);
    }
  }

  /** Access times order the tracked keys as their latest accesses do. */
  lemma {:induction false} LastsAreTheTrace(cap: nat, ops: seq<Op>, j: string, k: string)
    requires j in Run(cap, ops).m && k in Run(cap, ops).m
    ensures Run(cap, ops).m[j].last < Run(cap, ops).m[k].last <==> LastUse(ops, j) < LastUse(ops, k)
    decreases |ops|
  {
    var pre, op := ops[..|ops| - 1], ops[|ops| - 1];
    StepCell(Run(cap, pre), op, j);
    StepCell(Run(cap, pre), op, k);
    LastUseBelow(pre, j);
    LastUseBelow(pre, k);
    if j in Run(cap, pre).m && k in Run(cap, pre).m {
      LastsAreTheTrace(cap, pre, j, k);
    }
  }

  /** By the operations alone, `k` is used less than `j`, or as often and longer ago. */
  predicate UsedLess(cap: nat, ops: seq<Op>, k: string, j: string) {
    Before(Rank(Uses(cap, ops, k), LastUse(ops, k)), Rank(Uses(cap, ops, j), LastUse(ops, j)))
  }

  lemma RanksAreTheTrace(cap: nat, ops: seq<Op>, k: string, j: string)
    requires k in Run(cap, ops).m && j in Run(cap, ops).m
    ensures UsedLess(cap, ops, k, j) <==> Before(RankOfCell(Run(cap, ops).m[k]), RankOfCell(Run(cap, ops).m[j]))
  {
    CellsAreTheTrace(cap, ops, j);
    CellsAreTheTrace(cap, ops, k);
    LastsAreTheTrace(cap, ops, k, j);
  }

  /**
   After any run, Evict removes exactly the key with the fewest accesses since it entered, the one
   whose latest access is oldest among those.
   */
  lemma EvictsLeastUsed(cap: nat, ops: seq<Op>, k: string)
    requires k in Run(cap, ops).m
    ensures Evict(Run(cap, ops)).1 == Some(k) <==>
            forall j :: j in Run(cap, ops).m && j != k ==> UsedLess(cap, ops, k, j)
  {
    hide Run;
    hide UsedLess;
    var m := Run(cap, ops).m;
    forall j | j in m
      ensures UsedLess(cap, ops, k, j) <==> Before(RankOfCell(m[k]), RankOfCell(m[j]))
    {
      RanksAreTheTrace(cap, ops, k, j);
    }
    if IsVictim(m, k) {
      VictimUnique(m, k, Victim(m));
    }
  }
}
