/**
 The Adaptive Replacement Cache as pkg/eviction/arc.go computes it, on sequences: residents T1 (seen
 once) and T2 (seen again), ghosts B1 and B2, most recent first, and the target size p of T1.
 */
module ArcPolicy {
  import opened LinkedList
  import opened Items
  import opened Traces
  import Lex

  type Resident = Entry<Value>
  type Ghost = Entry<()>

  datatype Arc = Arc(cap: nat, p: int, t1: seq<Resident>, t2: seq<Resident>, b1: seq<Ghost>, b2: seq<Ghost>, length: int)

  function New(cap: nat): Arc {
    Arc(cap, 0, [], [], [], [], 0)
  }

  function Last<T>(s: seq<T>): T
    requires s != []
  {
    s[|s| - 1]
  }

  function Init<T>(s: seq<T>): seq<T>
    requires s != []
  {
    s[..|s| - 1]
  }

  // ---------- operations ----------

  function Promote(a: Arc, e: Resident): Arc
    requires HasKey(a.t1, e.key)
  {
    a.(t1 := Drop(a.t1, e.key), t2 := [e] + a.t2)
  }

  function Refresh(a: Arc, e: Resident): Arc
    requires HasKey(a.t2, e.key)
  {
    a.(t2 := [e] + Drop(a.t2, e.key))
  }

  /** A hit moves the entry to the front of T2. */
  function Get(a: Arc, k: string): (Arc, Option<Value>) {
    if HasKey(a.t1, k) then
      var e := a.t1[Pos(a.t1, k)];
      (Promote(a, e), Some(e.value))
    else if HasKey(a.t2, k) then
      var e := a.t2[Pos(a.t2, k)];
      (Refresh(a, e), Some(e.value))
    else (a, None)
  }

  predicate FromT1(a: Arc, x: string) {
    |a.t1| > 0 && ((x != "" && HasKey(a.b2, x) && |a.t1| == a.p) || |a.t1| > a.p)
  }

  /** Evicts one resident into the matching ghost list; the empty key reports that nothing was evicted. */
  function Replace(a: Arc, x: string): (Arc, string) {
    if FromT1(a, x) then
      var k := Last(a.t1).key;
      (a.(t1 := Init(a.t1), b1 := [Entry(k, ())] + a.b1, length := a.length - 1), k)
    else if a.t2 != [] then
      var k := Last(a.t2).key;
      (a.(t2 := Init(a.t2), b2 := [Entry(k, ())] + a.b2, length := a.length - 1), k)
    else (a, "")
  }

  function Max(x: int, y: int): int {
    if x < y then y else x
  }

  /** p after a hit in B1 or B2. */
  function Adapted(a: Arc, inB1: bool): int {
    if inB1 then
      var p := a.p + Max(|a.b2| / Max(1, |a.b1|), 1);
      if p > a.cap then a.cap else p
    else
      var p := a.p - Max(|a.b1| / Max(1, |a.b2|), 1);
      if p < 0 then 0 else p
  }

  function GhostHitB1(a: Arc, k: string, v: Value): Arc
    requires HasKey(a.b1, k)
  {
    var r := Replace(a.(p := Adapted(a, true)), k).0;
    if HasKey(r.b1, k) then r.(b1 := Drop(r.b1, k), t2 := [Entry(k, v)] + r.t2, length := r.length + 1) else r
  }

  function GhostHitB2(a: Arc, k: string, v: Value): Arc
    requires HasKey(a.b2, k)
  {
    var r := Replace(a.(p := Adapted(a, false)), k).0;
    if HasKey(r.b2, k) then r.(b2 := Drop(r.b2, k), t2 := [Entry(k, v)] + r.t2, length := r.length + 1) else r
  }

  function TrimHistory(a: Arc): Arc {
    if |a.t1| < a.cap then
      if a.b1 == [] then a else a.(b1 := Init(a.b1))
    else if a.t1 == [] then a
    else a.(t1 := Init(a.t1), b1 := [Entry(Last(a.t1).key, ())] + a.b1, length := a.length - 1)
  }

  function TrimTotal(a: Arc): Arc {
    var total := |a.t1| + |a.t2| + |a.b1| + |a.b2|;
    Replace(if total >= 2 * a.cap && a.b2 != [] then a.(b2 := Init(a.b2)) else a, "").0
  }

  function MakeRoom(a: Arc): Arc {
    if a.length < a.cap then a
    else if |a.t1| + |a.b1| >= a.cap then TrimHistory(a)
    else TrimTotal(a)
  }

  function InsertNew(a: Arc, k: string, v: Value): Arc {
    var r := MakeRoom(a);
    r.(t1 := [Entry(k, v)] + r.t1, length := r.length + 1)
  }

  function Set(a: Arc, k: string, v: Value): Arc {
    if a.cap == 0 then a
    else if HasKey(a.t1, k) then Promote(a, Entry(k, v))
    else if HasKey(a.t2, k) then Refresh(a, Entry(k, v))
    else if HasKey(a.b1, k) then GhostHitB1(a, k, v)
    else if HasKey(a.b2, k) then GhostHitB2(a, k, v)
    else InsertNew(a, k, v)
  }

  function Delete(a: Arc, k: string): Arc {
    if HasKey(a.t1, k) then a.(t1 := Drop(a.t1, k), length := a.length - 1)
    else if HasKey(a.t2, k) then a.(t2 := Drop(a.t2, k), length := a.length - 1)
    else if HasKey(a.b1, k) then a.(b1 := Drop(a.b1, k))
    else if HasKey(a.b2, k) then a.(b2 := Drop(a.b2, k))
    else a
  }

  function Evict(a: Arc): (Arc, Option<string>) {
    if a.cap == 0 || a.length == 0 then (a, None)
    else
      var r := Replace(a, "");
      (r.0, if r.1 == "" then None else Some(r.1))
  }

  // ---------- counting keys ----------

  /** How many entries of `s` have key `k`. */
  function Occurs<V>(s: seq<Entry<V>>, k: string): nat {
    if s == [] then 0 else Occurs(s[..|s| - 1], k) + (if s[|s| - 1].key == k then 1 else 0)
  }

  function Is(e: string, k: string): nat {
    if e == k then 1 else 0
  }

  lemma {:induction false} OccursAppend<V>(s: seq<Entry<V>>, t: seq<Entry<V>>, k: string)
    ensures Occurs(s + t, k) == Occurs(s, k) + Occurs(t, k)
  {
    if t == [] {
      assert s + t == s;
    } else {
      OccursAppend(s, t[..|t| - 1], k);
      assert (s + t)[..|s + t| - 1] == s + t[..|t| - 1];
    }
  }

  lemma OccursPush<V>(e: Entry<V>, s: seq<Entry<V>>, k: string)
    ensures Occurs([e] + s, k) == Occurs(s, k) + Is(e.key, k)
  {
    OccursAppend([e], s, k);
    assert [e][..0] == [];
  }

  lemma OccursCut<V>(s: seq<Entry<V>>, i: nat, k: string)
    requires i < |s|
    ensures Occurs(s, k) == Occurs(s[..i] + s[i + 1..], k) + Is(s[i].key, k)
  {
    var x, y := s[..i], s[i + 1..];
    assert s == x + ([s[i]] + y);
    OccursAppend(x, [s[i]] + y, k);
    OccursPush(s[i], y, k);
    OccursAppend(x, y, k);
  }

  lemma OccursDrop<V>(s: seq<Entry<V>>, d: string, k: string)
    requires HasKey(s, d)
    ensures Occurs(s, k) == Occurs(Drop(s, d), k) + Is(d, k) && |Drop(s, d)| == |s| - 1
  {
    OccursCut(s, Pos(s, d), k);
  }

  lemma {:induction false} HasKeyOccurs<V>(s: seq<Entry<V>>, k: string)
    ensures HasKey(s, k) <==> Occurs(s, k) > 0
  {
    if s != [] {
      HasKeyOccurs(s[1..], k);
      assert s == [s[0]] + s[1..];
      OccursPush(s[0], s[1..], k);
    }
  }

  /** Occurrences of a key over all four lists. */
  ghost function Population(a: Arc, k: string): nat {
    Occurs(a.t1, k) + Occurs(a.t2, k) + Occurs(a.b1, k) + Occurs(a.b2, k)
  }

  lemma KeysOf(a: Arc, k: string)
    ensures HasKey(a.t1, k) <==> Occurs(a.t1, k) > 0
    ensures HasKey(a.t2, k) <==> Occurs(a.t2, k) > 0
    ensures HasKey(a.b1, k) <==> Occurs(a.b1, k) > 0
    ensures HasKey(a.b2, k) <==> Occurs(a.b2, k) > 0
  {
    HasKeyOccurs(a.t1, k);
    HasKeyOccurs(a.t2, k);
    HasKeyOccurs(a.b1, k);
    HasKeyOccurs(a.b2, k);
  }

  // ---------- the structural invariant ----------

  /** No key occurs twice anywhere in the four lists. */
  ghost predicate NoDup(a: Arc) {
    forall k :: Population(a, k) <= 1
  }

  ghost predicate Sizes(a: Arc) {
    a.length == |a.t1| + |a.t2| && |a.t1| <= a.cap && 0 <= a.p <= a.cap && (a.cap == 0 ==> a.t2 == [])
  }

  ghost predicate Inv(a: Arc) {
    NoDup(a) && Sizes(a)
  }

  lemma PromotePopulation(a: Arc, e: Resident, k: string)
    requires HasKey(a.t1, e.key)
    ensures Population(Promote(a, e), k) == Population(a, k) && |Promote(a, e).t1| == |a.t1| - 1
  {
    OccursDrop(a.t1, e.key, k);
    OccursPush(e, a.t2, k);
  }

  lemma RefreshPopulation(a: Arc, e: Resident, k: string)
    requires HasKey(a.t2, e.key)
    ensures Population(Refresh(a, e), k) == Population(a, k) && |Refresh(a, e).t2| == |a.t2|
  {
    OccursDrop(a.t2, e.key, k);
    OccursPush(e, Drop(a.t2, e.key), k);
  }

  /** Replacement keeps the key population. */
  lemma ReplacePopulation(a: Arc, x: string, k: string)
    ensures var r := Replace(a, x).0;
            && Population(r, k) == Population(a, k)
            && (HasKey(a.b1, k) ==> HasKey(r.b1, k)) && (HasKey(a.b2, k) ==> HasKey(r.b2, k))
  {
    var r := Replace(a, x).0;
    KeysOf(a, k);
    KeysOf(r, k);
    if FromT1(a, x) {
      OccursPush(Entry(Last(a.t1).key, ()), a.b1, k);
    } else if a.t2 != [] {
      OccursPush(Entry(Last(a.t2).key, ()), a.b2, k);
    }
  }

  /** It evicts exactly one resident unless T1 is within its target and T2 is empty. */
  lemma ReplaceInv(a: Arc, x: string)
    requires Inv(a)
    ensures var r := Replace(a, x).0;
            && Inv(r) && r.cap == a.cap && r.p == a.p
            && r.length == (if FromT1(a, x) || a.t2 != [] then a.length - 1 else a.length)
            && |r.t1| == |a.t1| - (if FromT1(a, x) then 1 else 0)
  {
    forall k ensures Population(Replace(a, x).0, k) <= 1 {
      ReplacePopulation(a, x, k);
      assert Population(a, k) <= 1;
    }
  }

  lemma GhostHitPopulation(a: Arc, k: string, v: Value, j: string)
    requires HasKey(a.b1, k) || HasKey(a.b2, k)
    ensures HasKey(a.b1, k) ==> Population(GhostHitB1(a, k, v), j) == Population(a, j)
    ensures HasKey(a.b2, k) ==> Population(GhostHitB2(a, k, v), j) == Population(a, j)
  {
    if HasKey(a.b1, k) {
      var q := a.(p := Adapted(a, true));
      var r := Replace(q, k).0;
      ReplacePopulation(q, k, k);
      ReplacePopulation(q, k, j);
      OccursDrop(r.b1, k, j);
      OccursPush(Entry(k, v), r.t2, j);
    }
    if HasKey(a.b2, k) {
      var q := a.(p := Adapted(a, false));
      var r := Replace(q, k).0;
      ReplacePopulation(q, k, k);
      ReplacePopulation(q, k, j);
      OccursDrop(r.b2, k, j);
      OccursPush(Entry(k, v), r.t2, j);
    }
  }

  lemma GhostHitInv(a: Arc, k: string, v: Value)
    requires Inv(a) && a.cap > 0 && (HasKey(a.b1, k) || HasKey(a.b2, k))
    ensures HasKey(a.b1, k) ==> Inv(GhostHitB1(a, k, v)) && GhostHitB1(a, k, v).length == Replace(a.(p := Adapted(a, true)), k).0.length + 1
    ensures HasKey(a.b2, k) ==> Inv(GhostHitB2(a, k, v)) && GhostHitB2(a, k, v).length == Replace(a.(p := Adapted(a, false)), k).0.length + 1
  {
    var q1, q2 := a.(p := Adapted(a, true)), a.(p := Adapted(a, false));
    forall j ensures Population(q1, j) <= 1 && Population(q2, j) <= 1 {
      assert Population(a, j) <= 1;
    }
    ReplaceInv(q1, k);
    ReplaceInv(q2, k);
    ReplacePopulation(q1, k, k);
    ReplacePopulation(q2, k, k);
    forall j
      ensures HasKey(a.b1, k) ==> Population(GhostHitB1(a, k, v), j) <= 1
      ensures HasKey(a.b2, k) ==> Population(GhostHitB2(a, k, v), j) <= 1
    {
      GhostHitPopulation(a, k, v, j);
      assert Population(a, j) <= 1;
    }
  }

  lemma TrimHistoryInv(a: Arc)
    requires Inv(a) && a.cap > 0
    ensures var r := TrimHistory(a);
            && Inv(r) && |r.t1| < r.cap && r.cap == a.cap
            && r.length == (if |a.t1| < a.cap then a.length else a.length - 1)
            && forall k :: Population(r, k) <= Population(a, k)
  {
    var r := TrimHistory(a);
    forall k ensures Population(r, k) <= Population(a, k) <= 1 {
      if |a.t1| == a.cap {
        OccursPush(Entry(Last(a.t1).key, ()), a.b1, k);
      }
    }
  }

  lemma TrimTotalInv(a: Arc)
    requires Inv(a) && |a.t1| < a.cap
    ensures var r := TrimTotal(a);
            && Inv(r) && |r.t1| < r.cap && r.cap == a.cap
            && r.length == (if FromT1(a, "") || a.t2 != [] then a.length - 1 else a.length)
            && forall k :: Population(r, k) <= Population(a, k)
  {
    var total := |a.t1| + |a.t2| + |a.b1| + |a.b2|;
    var q := if total >= 2 * a.cap && a.b2 != [] then a.(b2 := Init(a.b2)) else a;
    forall k ensures Population(q, k) <= Population(a, k) <= 1 {
    }
    ReplaceInv(q, "");
    forall k ensures Population(TrimTotal(a), k) <= Population(a, k) {
      ReplacePopulation(q, "", k);
    }
  }

  lemma InsertNewInv(a: Arc, k: string, v: Value)
    requires Inv(a) && a.cap > 0 && Population(a, k) == 0
    ensures Inv(InsertNew(a, k, v)) && InsertNew(a, k, v).length == MakeRoom(a).length + 1
  {
    if a.length >= a.cap {
      if |a.t1| + |a.b1| >= a.cap {
        TrimHistoryInv(a);
      } else {
        TrimTotalInv(a);
      }
    }
    var m := MakeRoom(a);
    forall j ensures Population(InsertNew(a, k, v), j) <= 1 {
      OccursPush(Entry(k, v), m.t1, j);
      assert Population(m, j) <= Population(a, j) <= 1;
    }
  }

  /** Set keeps the structure: disjoint lists, exact length, |T1| within capacity, p within range. */
  lemma SetInv(a: Arc, k: string, v: Value)
    requires Inv(a)
    ensures Inv(Set(a, k, v))
  {
    KeysOf(a, k);
    forall j ensures Population(a, j) <= 1
      ensures HasKey(a.t1, k) ==> Population(Promote(a, Entry(k, v)), j) <= 1 && |Promote(a, Entry(k, v)).t1| == |a.t1| - 1
      ensures HasKey(a.t2, k) ==> Population(Refresh(a, Entry(k, v)), j) <= 1 && |Refresh(a, Entry(k, v)).t2| == |a.t2|
    {
      if HasKey(a.t1, k) { PromotePopulation(a, Entry(k, v), j); }
      if HasKey(a.t2, k) { RefreshPopulation(a, Entry(k, v), j); }
    }
    if a.cap > 0 && (HasKey(a.b1, k) || HasKey(a.b2, k)) {
      GhostHitInv(a, k, v);
    } else if Population(a, k) == 0 && a.cap > 0 {
      InsertNewInv(a, k, v);
    }
  }

  /** The one key a Set forgets altogether: the oldest ghost of the list it trims, if it trims one. */
  function Forgets(a: Arc, k: string): Option<string> {
    if a.cap == 0 || HasKey(a.t1, k) || HasKey(a.t2, k) || HasKey(a.b1, k) || HasKey(a.b2, k) || a.length < a.cap then None
    else if |a.t1| + |a.b1| >= a.cap then
      if |a.t1| < a.cap && a.b1 != [] then Some(Last(a.b1).key) else None
    else if |a.t1| + |a.t2| + |a.b1| + |a.b2| >= 2 * a.cap && a.b2 != [] then Some(Last(a.b2).key)
    else None
  }

  lemma MakeRoomRemembers(a: Arc, k: string, j: string)
    requires Inv(a) && a.cap > 0 && Population(a, k) == 0
    ensures Population(MakeRoom(a), j) == Population(a, j) - if Forgets(a, k) == Some(j) then 1 else 0
  {
    KeysOf(a, k);
    if a.length >= a.cap {
      if |a.t1| + |a.b1| >= a.cap {
        if |a.t1| == a.cap {
          OccursPush(Entry(Last(a.t1).key, ()), a.b1, j);
        }
      } else {
        var total := |a.t1| + |a.t2| + |a.b1| + |a.b2|;
        ReplacePopulation(if total >= 2 * a.cap && a.b2 != [] then a.(b2 := Init(a.b2)) else a, "", j);
      }
    }
  }

  /**
   Set makes its key resident with the new value, and no other key vanishes from the four lists but
   the oldest ghost it trims: residents that must leave become ghosts.
   */
  lemma SetRemembers(a: Arc, k: string, v: Value, j: string)
    requires Inv(a) && a.cap > 0
    ensures var r := Set(a, k, v); ResidentIn(r, Entry(k, v))
    ensures j != k ==> Population(Set(a, k, v), j) == Population(a, j) - if Forgets(a, k) == Some(j) then 1 else 0
  {
    KeysOf(a, k);
    if HasKey(a.t1, k) {
      PromotePopulation(a, Entry(k, v), j);
      assert Set(a, k, v).t2[0] == Entry(k, v);
    } else if HasKey(a.t2, k) {
      RefreshPopulation(a, Entry(k, v), j);
      assert Set(a, k, v).t2[0] == Entry(k, v);
    } else if HasKey(a.b1, k) || HasKey(a.b2, k) {
      GhostHitPopulation(a, k, v, j);
      ReplacePopulation(a.(p := Adapted(a, HasKey(a.b1, k))), k, k);
      assert Set(a, k, v).t2[0] == Entry(k, v);
    } else {
      MakeRoomRemembers(a, k, j);
      OccursPush(Entry(k, v), MakeRoom(a).t1, j);
      assert Set(a, k, v).t1[0] == Entry(k, v);
    }
  }

  lemma GetInv(a: Arc, k: string)
    requires Inv(a)
    ensures Inv(Get(a, k).0) && forall j :: Population(Get(a, k).0, j) == Population(a, j)
  {
    forall j ensures Population(Get(a, k).0, j) == Population(a, j) <= 1 && |Get(a, k).0.t1| <= |a.t1| && Get(a, k).0.length == |Get(a, k).0.t1| + |Get(a, k).0.t2| {
      assert Population(a, j) <= 1;
      if HasKey(a.t1, k) {
        PromotePopulation(a, a.t1[Pos(a.t1, k)], j);
      } else if HasKey(a.t2, k) {
        RefreshPopulation(a, a.t2[Pos(a.t2, k)], j);
      }
    }
  }

  /** Delete removes every trace of the key and of no other. */
  lemma DeleteInv(a: Arc, k: string)
    requires Inv(a)
    ensures Inv(Delete(a, k)) && forall j :: Population(Delete(a, k), j) == if j == k then 0 else Population(a, j)
  {
    var r := Delete(a, k);
    KeysOf(a, k);
    forall j ensures Population(r, j) == Population(a, j) - (if j == k then Population(a, k) else 0) && Sizes(r) {
      assert Population(a, k) <= 1;
      if HasKey(a.t1, k) {
        OccursDrop(a.t1, k, j);
      } else if HasKey(a.t2, k) {
        OccursDrop(a.t2, k, j);
      } else if HasKey(a.b1, k) {
        OccursDrop(a.b1, k, j);
      } else if HasKey(a.b2, k) {
        OccursDrop(a.b2, k, j);
      }
    }
    forall j ensures Population(r, j) <= 1 {
      assert Population(a, j) <= 1;
    }
  }

  // ---------- runs ----------

  function Step(a: Arc, op: Op): Arc {
    match op
    case GetOp(k) => Get(a, k).0
    case SetOp(k, v) => Set(a, k, v)
    case DeleteOp(k) => Delete(a, k)
    case EvictOp => Evict(a).0
  }

  function Run(cap: nat, ops: seq<Op>): Arc {
    if ops == [] then New(cap) else Step(Run(cap, ops[..|ops| - 1]), ops[|ops| - 1])
  }

  /** What the caller of an operation sees. */
  function Reply(a: Arc, op: Op): Option<string> {
    match op
    case GetOp(k) => Get(a, k).1
    case SetOp(_, _) => None
    case DeleteOp(_) => None
    case EvictOp => Evict(a).1
  }

  /** What the callers of a run see, in order. */
  function Replies(cap: nat, ops: seq<Op>): seq<Option<string>> {
    if ops == [] then []
    else
      var pre := ops[..|ops| - 1];
      Replies(cap, pre) + [Reply(Run(cap, pre), ops[|ops| - 1])]
  }

  lemma StepInv(a: Arc, op: Op)
    requires Inv(a)
    ensures Inv(Step(a, op)) && Step(a, op).cap == a.cap
  {
    match op
    case GetOp(k) => GetInv(a, k);
    case SetOp(k, v) => SetInv(a, k, v);
    case DeleteOp(k) => DeleteInv(a, k);
    case EvictOp => ReplaceInv(a, "");
  }

  /** ARC structure: the invariant holds in every reachable state. */
  lemma {:induction false} Reachable(cap: nat, ops: seq<Op>)
    ensures Inv(Run(cap, ops)) && Run(cap, ops).cap == cap
  {
    if ops != [] {
      Reachable(cap, ops[..|ops| - 1]);
      StepInv(Run(cap, ops[..|ops| - 1]), ops[|ops| - 1]);
    }
  }

  predicate ResidentIn(a: Arc, e: Resident) {
    e in a.t1 || e in a.t2
  }

  lemma InSeqHasKey<V>(s: seq<Entry<V>>, e: Entry<V>)
    requires e in s
    ensures HasKey(s, e.key) && Occurs(s, e.key) > 0
  {
    var i :| 0 <= i < |s| && s[i] == e;
    HasKeyAt(s, i);
    HasKeyOccurs(s, e.key);
  }

  lemma DropMember<V>(s: seq<Entry<V>>, k: string, e: Entry<V>)
    requires HasKey(s, k) && e in Drop(s, k) && Occurs(s, k) <= 1
    ensures e in s && e.key != k
  {
    OccursDrop(s, k, k);
    InSeqHasKey(Drop(s, k), e);
  }

  /** After Set the residents are the new entry and old residents of other keys. */
  lemma SetResidents(a: Arc, k: string, v: Value, e: Resident)
    requires Inv(a) && ResidentIn(Set(a, k, v), e) && a.cap > 0
    ensures e == Entry(k, v) || (ResidentIn(a, e) && e.key != k)
  {
    KeysOf(a, k);
    assert Population(a, k) <= 1;
    if HasKey(a.t1, k) || HasKey(a.t2, k) {
      UpdateResidents(a, k, v, e);
    } else {
      if HasKey(a.b1, k) || HasKey(a.b2, k) {
        GhostHitResidents(a, k, v, e);
      } else {
        InsertNewResidents(a, k, v, e);
      }
      if e in a.t1 { InSeqHasKey(a.t1, e); }
      if e in a.t2 { InSeqHasKey(a.t2, e); }
    }
  }

  lemma UpdateResidents(a: Arc, k: string, v: Value, e: Resident)
    requires Population(a, k) <= 1 && a.cap > 0 && (HasKey(a.t1, k) || HasKey(a.t2, k)) && ResidentIn(Set(a, k, v), e)
    ensures e == Entry(k, v) || (ResidentIn(a, e) && e.key != k)
  {
    KeysOf(a, k);
    if HasKey(a.t1, k) {
      if e in Drop(a.t1, k) {
        DropMember(a.t1, k, e);
      } else if e in a.t2 {
        InSeqHasKey(a.t2, e);
      }
    } else {
      if e in a.t1 {
        InSeqHasKey(a.t1, e);
      } else if e in Drop(a.t2, k) {
        DropMember(a.t2, k, e);
      }
    }
  }

  lemma ReplaceResidents(a: Arc, x: string, e: Resident)
    requires ResidentIn(Replace(a, x).0, e)
    ensures ResidentIn(a, e)
  {
  }

  lemma GhostHitResidents(a: Arc, k: string, v: Value, e: Resident)
    requires HasKey(a.b1, k) || HasKey(a.b2, k)
    requires ResidentIn(if HasKey(a.b1, k) then GhostHitB1(a, k, v) else GhostHitB2(a, k, v), e)
    ensures e == Entry(k, v) || ResidentIn(a, e)
  {
    var q := a.(p := Adapted(a, HasKey(a.b1, k)));
    if e != Entry(k, v) {
      ReplaceResidents(q, k, e);
    }
  }

  lemma InsertNewResidents(a: Arc, k: string, v: Value, e: Resident)
    requires ResidentIn(InsertNew(a, k, v), e)
    ensures e == Entry(k, v) || ResidentIn(a, e)
  {
    if e != Entry(k, v) {
      assert ResidentIn(MakeRoom(a), e);
    }
  }

  lemma GetResidents(a: Arc, k: string, e: Resident)
    requires Inv(a) && ResidentIn(Get(a, k).0, e)
    ensures ResidentIn(a, e)
  {
  }

  lemma {:induction false} ResidentsAreLastSet(cap: nat, ops: seq<Op>, e: Resident)
    requires ResidentIn(Run(cap, ops), e)
    ensures LastSet(ops, e.key) == Some(e.value)
  {
    if ops != [] {
      var init, op := ops[..|ops| - 1], ops[|ops| - 1];
      var a := Run(cap, init);
      Reachable(cap, init);
      match op
      case GetOp(k) =>
        GetResidents(a, k, e);
        ResidentsAreLastSet(cap, init, e);
      case SetOp(k, v) =>
        if cap > 0 {
          SetResidents(a, k, v, e);
          if e != Entry(k, v) {
            ResidentsAreLastSet(cap, init, e);
          }
        }
      case DeleteOp(k) =>
        ResidentsAreLastSet(cap, init, e);
      case EvictOp =>
        ResidentsAreLastSet(cap, init, e);
    }
  }

  /** Every Get hit returns the value last Set for its key. */
  lemma HitReturnsLastSet(cap: nat, ops: seq<Op>, k: string)
    requires Get(Run(cap, ops), k).1.Some?
    ensures Get(Run(cap, ops), k).1 == LastSet(ops, k)
  {
    var a := Run(cap, ops);
    if HasKey(a.t1, k) {
      ResidentsAreLastSet(cap, ops, a.t1[Pos(a.t1, k)]);
    } else {
      ResidentsAreLastSet(cap, ops, a.t2[Pos(a.t2, k)]);
    }
  }

  // ---------- capacity ----------

  /**
   The two ways a Set overfills a cache that is at capacity: a new key while |T1| + |B1| has reached the
   capacity but T1 itself has not (only a ghost is dropped), and a B1 hit that raises p to the capacity
   while T2 is empty (nothing may be replaced).
   */
  predicate Overfills(a: Arc, k: string) {
    && a.cap > 0 && |a.t1| + |a.t2| == a.cap && !HasKey(a.t1, k) && !HasKey(a.t2, k)
    && if HasKey(a.b1, k) then a.t2 == [] && a.p + Max(|a.b2| / |a.b1|, 1) >= a.cap
       else !HasKey(a.b2, k) && |a.t1| < a.cap <= |a.t1| + |a.b1|
  }

  /** Capacity is respected by a Set exactly when it does not overfill. */
  lemma SetWithinCapacityIff(a: Arc, k: string, v: Value)
    requires Inv(a) && a.length <= a.cap
    ensures Set(a, k, v).length <= a.cap <==> !Overfills(a, k)
  {
    if a.cap > 0 && !HasKey(a.t1, k) && !HasKey(a.t2, k) {
      KeysOf(a, k);
      if HasKey(a.b1, k) || HasKey(a.b2, k) {
        GhostHitLength(a, k, v);
      } else {
        InsertNewInv(a, k, v);
        if a.length == a.cap {
          if |a.t1| + |a.b1| >= a.cap {
            TrimHistoryInv(a);
          } else {
            TrimTotalInv(a);
          }
        }
      }
    }
  }

  lemma GhostHitLength(a: Arc, k: string, v: Value)
    requires Inv(a) && a.cap > 0 && a.length <= a.cap
    ensures HasKey(a.b1, k) ==>
              (GhostHitB1(a, k, v).length <= a.cap <==> !(a.length == a.cap && a.t2 == [] && Adapted(a, true) == a.cap))
    ensures HasKey(a.b2, k) && !HasKey(a.b1, k) ==> GhostHitB2(a, k, v).length <= a.cap
  {
    if HasKey(a.b1, k) || HasKey(a.b2, k) {
      GhostHitInv(a, k, v);
    }
    var q1, q2 := a.(p := Adapted(a, true)), a.(p := Adapted(a, false));
    KeysOf(a, k);
    forall j ensures Population(q1, j) <= 1 && Population(q2, j) <= 1 {
      assert Population(a, j) <= 1;
    }
    assert Population(a, k) <= 1;
    assert 0 <= q1.p <= a.cap;
    assert q2.p < a.cap;
    ReplaceInv(q1, k);
    ReplaceInv(q2, k);
  }

  /** Evict on a non-empty cache fails exactly when T1 is within target and T2 is empty, or when the victim's key is "". */
  lemma EvictFailsIff(a: Arc)
    requires Inv(a) && a.cap > 0 && a.length > 0
    ensures Evict(a).1.None? <==>
            if |a.t1| > a.p then Last(a.t1).key == "" else a.t2 == [] || Last(a.t2).key == ""
  {
  }

  // ---------- the resident count has no bound ----------

  /** How many entries T1, T2 and B1 hold. */
  datatype Shape = Shape(t1: nat, t2: nat, b1: nat)

  function ShapeOf(a: Arc): Shape {
    Shape(|a.t1|, |a.t2|, |a.b1|)
  }

  /** The shape after a new key, while the target of T1 is 0. */
  function Inserted(cap: nat, h: Shape): Shape {
    if h.t1 + h.t2 < cap then h.(t1 := h.t1 + 1)
    else if h.t1 + h.b1 >= cap && h.t1 < cap then h.(t1 := h.t1 + 1, b1 := h.b1 - 1)
    else if h.t1 > 0 then h.(b1 := h.b1 + 1)
    else h.(t1 := 1, t2 := if h.t2 == 0 then 0 else h.t2 - 1)
  }

  ghost predicate Fresh(a: Arc, k: string) {
    Population(a, k) == 0
  }

  lemma FreshIsNew(a: Arc, k: string, v: Value)
    requires Fresh(a, k) && a.cap > 0
    ensures Set(a, k, v) == InsertNew(a, k, v)
  {
    KeysOf(a, k);
  }

  lemma FreshShape(a: Arc, k: string, v: Value)
    requires Inv(a) && a.cap > 0 && a.p == 0 && Fresh(a, k)
    ensures Set(a, k, v).p == 0 && ShapeOf(Set(a, k, v)) == Inserted(a.cap, ShapeOf(a))
  {
    FreshIsNew(a, k, v);
  }

  ghost function KeySet<V>(s: seq<Entry<V>>): set<string> {
    set e | e in s :: e.key
  }

  lemma NewKey(a: Arc) returns (k: string)
    ensures Fresh(a, k)
  {
    var all := KeySet(a.t1) + KeySet(a.t2) + KeySet(a.b1) + KeySet(a.b2);
    k := Lex.Above(all);
    Lex.Trichotomy(k, k);
    assert k !in all;
    NotOccurs(a.t1, k);
    NotOccurs(a.t2, k);
    NotOccurs(a.b1, k);
    NotOccurs(a.b2, k);
  }

  lemma {:induction false} NotOccurs<V>(s: seq<Entry<V>>, k: string)
    requires k !in KeySet(s)
    ensures Occurs(s, k) == 0
  {
    if s != [] {
      var init, last := s[..|s| - 1], s[|s| - 1];
      assert s == init + [last];
      assert last in s;
      assert KeySet(init) <= KeySet(s);
      NotOccurs(init, k);
    }
  }

  lemma RunSnoc(cap: nat, ops: seq<Op>, op: Op)
    ensures Run(cap, ops + [op]) == Step(Run(cap, ops), op)
  {
    assert (ops + [op])[..|ops|] == ops;
  }

  /** Some run of Sets and Gets that never hits a ghost ends in this shape. */
  ghost predicate Reaches(cap: nat, ops: seq<Op>, h: Shape) {
    (forall op :: op in ops ==> op.SetOp? || op.GetOp?) && Run(cap, ops).p == 0 && ShapeOf(Run(cap, ops)) == h
  }

  /** One more Set, of a key in none of the lists. */
  lemma ThenSet(cap: nat, ops: seq<Op>, h: Shape) returns (next: seq<Op>)
    requires cap > 0 && Reaches(cap, ops, h)
    ensures Reaches(cap, next, Inserted(cap, h))
  {
    var a := Run(cap, ops);
    var k := NewKey(a);
    Reachable(cap, ops);
    FreshShape(a, k, "");
    RunSnoc(cap, ops, SetOp(k, ""));
    next := ops + [SetOp(k, "")];
  }

  /** One more Get, of the latest key of T1. */
  lemma ThenGet(cap: nat, ops: seq<Op>, h: Shape) returns (next: seq<Op>)
    requires h.t1 > 0 && Reaches(cap, ops, h)
    ensures Reaches(cap, next, h.(t1 := h.t1 - 1, t2 := h.t2 + 1))
  {
    var a := Run(cap, ops);
    var k := a.t1[0].key;
    assert HasKey(a.t1, k);
    PromotePopulation(a, a.t1[Pos(a.t1, k)], k);
    RunSnoc(cap, ops, GetOp(k));
    next := ops + [GetOp(k)];
  }

  /** A cache is filled with keys seen twice. */
  lemma {:induction false} Filled(cap: nat, n: nat) returns (ops: seq<Op>)
    requires 0 < cap && n <= cap
    ensures Reaches(cap, ops, Shape(0, n, 0))
  {
    if n == 0 {
      ops := [];
    } else {
      var o1 := Filled(cap, n - 1);
      var o2 := ThenSet(cap, o1, Shape(0, n - 1, 0));
      ops := ThenGet(cap, o2, Shape(1, n - 1, 0));
    }
  }

  /** Of a full cache, two new keys and a hit leave the residents as many and one more ghost in B1. */
  lemma {:induction false} Haunted(cap: nat, b: nat) returns (ops: seq<Op>)
    requires 0 < cap && b < cap
    ensures Reaches(cap, ops, Shape(0, cap, b))
  {
    hide Reaches;
    if b == 0 {
      ops := Filled(cap, cap);
    } else {
      var o1 := Haunted(cap, b - 1);
      var o2 := ThenSet(cap, o1, Shape(0, cap, b - 1));
      var o3 := ThenSet(cap, o2, Shape(1, cap - 1, b - 1));
      ops := ThenGet(cap, o3, Shape(1, cap - 1, b));
    }
  }

  /** Three new keys and two hits: at capacity one the first hit has to come before the third key. */
  lemma OneMore(cap: nat, ops: seq<Op>, n: nat, b: nat) returns (next: seq<Op>)
    requires 0 < cap <= n && b == (if cap == 1 then 0 else cap - 2) && Reaches(cap, ops, Shape(0, n, b))
    ensures Reaches(cap, next, Shape(0, n + 1, b))
  {
    hide Reaches;
    var o1 := ThenSet(cap, ops, Shape(0, n, b));
    var o2 := ThenSet(cap, o1, Shape(1, n - 1, b));
    if cap == 1 {
      var o3 := ThenGet(cap, o2, Shape(1, n - 1, 1));
      var o4 := ThenSet(cap, o3, Shape(0, n, 1));
      next := ThenGet(cap, o4, Shape(1, n, 0));
    } else {
      var o3 := ThenSet(cap, o2, Shape(1, n - 1, b + 1));
      var o4 := ThenGet(cap, o3, Shape(2, n - 1, b));
      next := ThenGet(cap, o4, Shape(1, n, b));
    }
  }

  lemma {:induction false} Piled(cap: nat, n: nat, b: nat) returns (ops: seq<Op>)
    requires 0 < cap <= n && b == (if cap == 1 then 0 else cap - 2)
    ensures Reaches(cap, ops, Shape(0, n, b))
    decreases n
  {
    if n == cap {
      ops := Haunted(cap, b);
    } else {
      var prev := Piled(cap, n - 1, b);
      ops := OneMore(cap, prev, n - 1, b);
    }
  }

  /**
   |T1| + |T2| is not merely above the capacity at times: whatever the capacity, short of zero, every number
   of residents is reached by some run of Sets and Gets.
   */
  lemma ResidentsUnbounded(cap: nat, n: nat) returns (ops: seq<Op>)
    requires cap > 0
    ensures (forall op :: op in ops ==> op.SetOp? || op.GetOp?) && Run(cap, ops).length == n
  {
    if n <= cap {
      ops := Filled(cap, n);
    } else {
      ops := Piled(cap, n, if cap == 1 then 0 else cap - 2);
    }
    Reachable(cap, ops);
  }
}
