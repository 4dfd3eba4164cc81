/**
 What ARC's four lists mean, read off the operations of a run: T1 and T2 stand by latest access, B1 and B2 by the time
 their keys ceased to be resident; T2 holds the residents seen again; victims are the least recently used.
 */
module ArcOrder {
  import opened Items
  import opened LinkedList
  import opened Traces
  import opened ArcPolicy
  import Bits

  predicate IsResident(a: Arc, k: string) {
    HasKey(a.t1, k) || HasKey(a.t2, k)
  }

  predicate IsGhost(a: Arc, k: string) {
    HasKey(a.b1, k) || HasKey(a.b2, k)
  }

  // ---------- one step, list by list ----------

  /** `r` is `s`, or `s` without one entry. */
  ghost predicate Thinned<V>(r: seq<Entry<V>>, s: seq<Entry<V>>) {
    r == s || exists i :: 0 <= i < |s| && r == s[..i] + s[i + 1..]
  }

  lemma InitThinned<V>(s: seq<Entry<V>>)
    requires s != []
    ensures Thinned(Init(s), s)
  {
    var i := |s| - 1;
    assert Init(s) == s[..i] + s[i + 1..];
  }

  lemma DropThinned<V>(s: seq<Entry<V>>, k: string)
    requires HasKey(s, k)
    ensures Thinned(Drop(s, k), s)
  {
    var i := Pos(s, k);
    assert Drop(s, k) == s[..i] + s[i + 1..];
  }

  lemma ThinnedOccurs<V>(r: seq<Entry<V>>, s: seq<Entry<V>>, k: string)
    requires Thinned(r, s)
    ensures Occurs(r, k) <= Occurs(s, k)
    ensures HasKey(r, k) ==> HasKey(s, k)
  {
    if r != s {
      var i :| 0 <= i < |s| && r == s[..i] + s[i + 1..];
      OccursCut(s, i, k);
    }
    HasKeyOccurs(r, k);
    HasKeyOccurs(s, k);
  }

  lemma DropPush<V>(e: Entry<V>, s: seq<Entry<V>>, k: string)
    requires e.key != k && HasKey(s, k)
    ensures HasKey([e] + s, k) && Drop([e] + s, k) == [e] + Drop(s, k)
  {
    var t := [e] + s;
    assert t[1..] == s;
    assert Pos(t, k) == 1 + Pos(s, k);
  }

  /** The four lists less what the step pushed in front of them. */
  datatype Rests = Rests(t1: seq<Resident>, t2: seq<Resident>, b1: seq<Ghost>, b2: seq<Ghost>)

  ghost predicate FrontT1(r: Arc, h: Rests, k: string, v: Value) {
    r.t1 == [Entry(k, v)] + h.t1
  }

  ghost predicate FrontT2(r: Arc, h: Rests, k: string) {
    r.t2 != [] && r.t2[0].key == k && r.t2[1..] == h.t2
  }

  /** `r` is `rest`, or has the last key of `from` in front of it. */
  ghost predicate Gains(r: seq<Ghost>, rest: seq<Ghost>, from: seq<Resident>) {
    r == rest || (from != [] && r == [Entry(Last(from).key, ())] + rest)
  }

  /**
   Each list loses at most one entry and gains at most one in front: T1 a key that was nowhere, T2 the key being
   accessed, B1 the last key of T1, B2 the last key of T2.
   */
  ghost predicate Shaped(a: Arc, op: Op, r: Arc, h: Rests) {
    && Thinned(h.t1, a.t1) && Thinned(h.t2, a.t2) && Thinned(h.b1, a.b1) && Thinned(h.b2, a.b2)
    && (r.t1 == h.t1 || (op.SetOp? && FrontT1(r, h, op.k, op.v) && Population(a, op.k) == 0))
    && (r.t2 == h.t2 || ((op.SetOp? || op.GetOp?) && FrontT2(r, h, op.k) && Population(a, op.k) > 0))
    && Gains(r.b1, h.b1, a.t1) && Gains(r.b2, h.b2, a.t2)
    && (op.SetOp? && a.cap > 0 ==> FrontT1(r, h, op.k, op.v) || FrontT2(r, h, op.k))
    && (op.GetOp? && !FrontT2(r, h, op.k) ==> h.t1 == a.t1 && h.t2 == a.t2 && !IsResident(a, op.k))
  }

  lemma KnownKeys(a: Arc, k: string)
    requires Inv(a)
    ensures Population(a, k) > 0 <==> IsResident(a, k) || IsGhost(a, k)
    ensures !(HasKey(a.t1, k) && HasKey(a.t2, k)) && !(IsResident(a, k) && IsGhost(a, k)) && !(HasKey(a.b1, k) && HasKey(a.b2, k))
  {
    KeysOf(a, k);
    assert Population(a, k) <= 1;
  }

  lemma LastIsKnown<V>(s: seq<Entry<V>>)
    requires s != []
    ensures HasKey(s, Last(s).key)
  {
    HasKeyAt(s, |s| - 1);
  }

  lemma GetShape(a: Arc, k: string) returns (h: Rests)
    requires Inv(a)
    ensures Shaped(a, GetOp(k), Get(a, k).0, h)
  {
    KnownKeys(a, k);
    h := Rests(a.t1, a.t2, a.b1, a.b2);
    if HasKey(a.t1, k) {
      DropThinned(a.t1, k);
      h := h.(t1 := Drop(a.t1, k));
    } else if HasKey(a.t2, k) {
      DropThinned(a.t2, k);
      h := h.(t2 := Drop(a.t2, k));
    }
  }

  lemma DeleteShape(a: Arc, k: string) returns (h: Rests)
    requires Inv(a)
    ensures Shaped(a, DeleteOp(k), Delete(a, k), h)
  {
    var r := Delete(a, k);
    h := Rests(r.t1, r.t2, r.b1, r.b2);
    if HasKey(a.t1, k) {
      DropThinned(a.t1, k);
    } else if HasKey(a.t2, k) {
      DropThinned(a.t2, k);
    } else if HasKey(a.b1, k) {
      DropThinned(a.b1, k);
    } else if HasKey(a.b2, k) {
      DropThinned(a.b2, k);
    }
  }

  /** A replacement, as a shape of its own. */
  lemma ReplaceShape(a: Arc, x: string) returns (h: Rests)
    ensures var r := Replace(a, x).0;
            && Thinned(h.t1, a.t1) && Thinned(h.t2, a.t2) && h.b1 == a.b1 && h.b2 == a.b2 && r.t1 == h.t1 && r.t2 == h.t2
            && Gains(r.b1, h.b1, a.t1) && Gains(r.b2, h.b2, a.t2)
  {
    var r := Replace(a, x).0;
    h := Rests(r.t1, r.t2, a.b1, a.b2);
    if FromT1(a, x) {
      InitThinned(a.t1);
    } else if a.t2 != [] {
      InitThinned(a.t2);
    }
  }

  lemma GhostHitIs(a: Arc, k: string, v: Value)
    requires Inv(a) && a.cap > 0 && !IsResident(a, k) && IsGhost(a, k)
    ensures var m := Replace(a.(p := Adapted(a, HasKey(a.b1, k))), k).0; var r := Set(a, k, v);
            && r.t1 == m.t1 && r.t2 == [Entry(k, v)] + m.t2 && r.p == m.p
            && (HasKey(a.b1, k) ==> HasKey(m.b1, k) && r.b1 == Drop(m.b1, k) && r.b2 == m.b2)
            && (!HasKey(a.b1, k) ==> HasKey(m.b2, k) && r.b1 == m.b1 && r.b2 == Drop(m.b2, k))
  {
    ReplacePopulation(a.(p := Adapted(a, HasKey(a.b1, k))), k, k);
    hide Replace;
    hide Adapted;
    hide Drop;
  }

  lemma B1HitRest(a: Arc, m: seq<Ghost>, k: string)
    requires HasKey(a.b1, k) && !HasKey(a.t1, k) && Gains(m, a.b1, a.t1)
    ensures HasKey(m, k) && Gains(Drop(m, k), Drop(a.b1, k), a.t1) && Thinned(Drop(a.b1, k), a.b1)
  {
    DropThinned(a.b1, k);
    if m != a.b1 {
      LastIsKnown(a.t1);
      DropPush(Entry(Last(a.t1).key, ()), a.b1, k);
    }
  }

  lemma B2HitRest(a: Arc, m: seq<Ghost>, k: string)
    requires HasKey(a.b2, k) && !HasKey(a.t2, k) && Gains(m, a.b2, a.t2)
    ensures HasKey(m, k) && Gains(Drop(m, k), Drop(a.b2, k), a.t2) && Thinned(Drop(a.b2, k), a.b2)
  {
    DropThinned(a.b2, k);
    if m != a.b2 {
      LastIsKnown(a.t2);
      DropPush(Entry(Last(a.t2).key, ()), a.b2, k);
    }
  }

  lemma FrontIs(r: Arc, rest: seq<Resident>, k: string, v: Value)
    requires r.t2 == [Entry(k, v)] + rest
    ensures r.t2[0].key == k && r.t2[1..] == rest
  {
  }

  lemma GhostHitShape(a: Arc, k: string, v: Value) returns (h: Rests)
    requires Inv(a) && a.cap > 0 && !IsResident(a, k) && IsGhost(a, k)
    ensures Shaped(a, SetOp(k, v), Set(a, k, v), h)
  {
    hide Set;
    hide Inv;
    KnownKeys(a, k);
    GhostHitIs(a, k, v);
    var q := a.(p := Adapted(a, HasKey(a.b1, k)));
    var m := Replace(q, k).0;
    var g := ReplaceShape(q, k);
    Itself(a);
    var r := Set(a, k, v);
    hide Replace;
    hide Adapted;
    hide Thinned;
    hide Drop;
    hide Population;
    hide HasKey;
    hide Gains;
    hide FrontT1;
    hide Last;
    FrontIs(r, m.t2, k, v);
    if HasKey(a.b1, k) {
      B1HitRest(a, m.b1, k);
      h := Rests(m.t1, m.t2, Drop(a.b1, k), a.b2);
    } else {
      B2HitRest(a, m.b2, k);
      h := Rests(m.t1, m.t2, a.b1, Drop(a.b2, k));
    }
  }

  lemma Itself(a: Arc)
    ensures Thinned(a.b1, a.b1) && Thinned(a.b2, a.b2)
  {
  }

  lemma NewKeyShape(a: Arc, k: string, v: Value) returns (h: Rests)
    requires Inv(a) && a.cap > 0 && !IsResident(a, k) && !IsGhost(a, k)
    ensures Shaped(a, SetOp(k, v), Set(a, k, v), h)
  {
    KnownKeys(a, k);
    var m := MakeRoom(a);
    h := Rests(m.t1, a.t2, a.b1, a.b2);
    if a.length >= a.cap {
      if |a.t1| + |a.b1| >= a.cap {
        if |a.t1| < a.cap {
          if a.b1 != [] {
            InitThinned(a.b1);
            h := h.(b1 := Init(a.b1));
          }
        } else {
          InitThinned(a.t1);
        }
      } else {
        var total := |a.t1| + |a.t2| + |a.b1| + |a.b2|;
        var q := if total >= 2 * a.cap && a.b2 != [] then a.(b2 := Init(a.b2)) else a;
        if q != a {
          InitThinned(a.b2);
        }
        h := ReplaceShape(q, "");
      }
    }
  }

  lemma SetShape(a: Arc, k: string, v: Value) returns (h: Rests)
    requires Inv(a)
    ensures Shaped(a, SetOp(k, v), Set(a, k, v), h)
  {
    if a.cap == 0 || HasKey(a.t1, k) || HasKey(a.t2, k) {
      KnownKeys(a, k);
      h := Rests(a.t1, a.t2, a.b1, a.b2);
      if a.cap > 0 && HasKey(a.t1, k) {
        DropThinned(a.t1, k);
        h := h.(t1 := Drop(a.t1, k));
      } else if a.cap > 0 {
        DropThinned(a.t2, k);
        h := h.(t2 := Drop(a.t2, k));
      }
    } else if IsGhost(a, k) {
      h := GhostHitShape(a, k, v);
    } else {
      h := NewKeyShape(a, k, v);
    }
  }

  lemma StepShape(a: Arc, op: Op) returns (h: Rests)
    requires Inv(a)
    ensures Shaped(a, op, Step(a, op), h)
  {
    match op
    case GetOp(k) => h := GetShape(a, k);
    case SetOp(k, v) => h := SetShape(a, k, v);
    case DeleteOp(k) => h := DeleteShape(a, k);
    case EvictOp =>
      if a.cap == 0 || a.length == 0 {
        h := Rests(a.t1, a.t2, a.b1, a.b2);
      } else {
        h := ReplaceShape(a, "");
      }
  }

  /** The key a step accesses is nowhere but in front. */
  lemma AccessedAway(a: Arc, op: Op, h: Rests, k: string)
    requires Inv(a) && Shaped(a, op, Step(a, op), h) && Accesses(op, k)
    ensures !HasKey(h.t1, k) && !HasKey(h.t2, k)
  {
    hide Step;
    var r := Step(a, op);
    StepInv(a, op);
    assert Population(r, k) <= 1;
    HasKeyOccurs(h.t1, k);
    HasKeyOccurs(h.t2, k);
    if op.SetOp? && a.cap > 0 && FrontT1(r, h, k, op.v) {
      OccursPush(Entry(k, op.v), h.t1, k);
    } else if FrontT2(r, h, k) {
      assert r.t2 == [r.t2[0]] + h.t2;
      OccursPush(r.t2[0], h.t2, k);
    } else if op.SetOp? {
      ThinnedOccurs(h.t1, a.t1, k);
      ThinnedOccurs(h.t2, a.t2, k);
    }
  }

  // ---------- T1 and T2 stand by latest access ----------

  ghost predicate ByUse(s: seq<Resident>, ops: seq<Op>) {
    forall i, j :: 0 <= i < j < |s| ==> LastUse(ops, s[i].key) > LastUse(ops, s[j].key)
  }

  lemma ThinnedByUse(r: seq<Resident>, s: seq<Resident>, ops: seq<Op>)
    requires Thinned(r, s) && ByUse(s, ops)
    ensures ByUse(r, ops)
  {
    hide LastUse;
    if r != s {
      var c :| 0 <= c < |s| && r == s[..c] + s[c + 1..];
      forall i, j | 0 <= i < j < |r| ensures LastUse(ops, r[i].key) > LastUse(ops, r[j].key) {
        assert r[i] == s[if i < c then i else i + 1] && r[j] == s[if j < c then j else j + 1];
      }
    }
  }

  lemma UntouchedByUse(s: seq<Resident>, ops: seq<Op>, op: Op)
    requires ByUse(s, ops) && forall k :: Accesses(op, k) ==> !HasKey(s, k)
    ensures ByUse(s, ops + [op])
    ensures forall i :: 0 <= i < |s| ==> LastUse(ops + [op], s[i].key) <= |ops|
  {
    forall i | 0 <= i < |s|
      ensures LastUse(ops + [op], s[i].key) == LastUse(ops, s[i].key) && LastUse(ops, s[i].key) <= |ops|
    {
      HasKeyAt(s, i);
      Snoc(ops, op, s[i].key);
    }
  }

  lemma FrontByUse(r: seq<Resident>, s: seq<Resident>, ops: seq<Op>, op: Op)
    requires ByUse(s, ops) && (forall k :: Accesses(op, k) ==> !HasKey(s, k))
    requires r != [] && r[1..] == s && Accesses(op, r[0].key)
    ensures ByUse(r, ops + [op])
  {
    UntouchedByUse(s, ops, op);
    Snoc(ops, op, r[0].key);
    hide LastUse;
    forall i, j | 0 <= i < j < |r| ensures LastUse(ops + [op], r[i].key) > LastUse(ops + [op], r[j].key) {
      assert r[j] == s[j - 1];
      if i > 0 {
        assert r[i] == s[i - 1];
      }
    }
  }

  lemma StepByUse(a: Arc, ops: seq<Op>, op: Op)
    requires Inv(a) && ByUse(a.t1, ops) && ByUse(a.t2, ops)
    ensures ByUse(Step(a, op).t1, ops + [op]) && ByUse(Step(a, op).t2, ops + [op])
  {
    var r := Step(a, op);
    var h := StepShape(a, op);
    ThinnedByUse(h.t1, a.t1, ops);
    ThinnedByUse(h.t2, a.t2, ops);
    forall k | Accesses(op, k) ensures !HasKey(h.t1, k) && !HasKey(h.t2, k) {
      AccessedAway(a, op, h, k);
    }
    hide Step;
    hide ByUse;
    UntouchedByUse(h.t1, ops, op);
    UntouchedByUse(h.t2, ops, op);
    if r.t1 != h.t1 {
      FrontByUse(r.t1, h.t1, ops, op);
    }
    if r.t2 != h.t2 {
      FrontByUse(r.t2, h.t2, ops, op);
    }
  }

  /** Over any run T1 and T2 each stand by latest access, the most recent first. */
  lemma {:induction false} RunByUse(cap: nat, ops: seq<Op>)
    ensures ByUse(Run(cap, ops).t1, ops) && ByUse(Run(cap, ops).t2, ops)
  {
    hide ByUse;
    if ops == [] {
      NothingByUse([]);
    } else {
      var pre, op := ops[..|ops| - 1], ops[|ops| - 1];
      assert ops == pre + [op];
      RunByUse(cap, pre);
      Reachable(cap, pre);
      StepByUse(Run(cap, pre), pre, op);
    }
  }

  lemma NothingByUse(ops: seq<Op>)
    ensures ByUse([], ops)
  {
  }

  // ---------- B1 and B2 stand by when their keys ceased to be resident ----------

  /** One past the position of the latest operation that ended `k`'s residence, 0 when there is none. */
  ghost function LeftAt(cap: nat, ops: seq<Op>, k: string): nat {
    if ops == [] then 0
    else
      var pre := ops[..|ops| - 1];
      if IsResident(Run(cap, pre), k) && !IsResident(Run(cap, ops), k) then |ops| else LeftAt(cap, pre, k)
  }

  lemma {:induction false} LeftBelow(cap: nat, ops: seq<Op>, k: string)
    ensures LeftAt(cap, ops, k) <= |ops|
  {
    if ops != [] {
      LeftBelow(cap, ops[..|ops| - 1], k);
    }
  }

  ghost predicate ByLeaving(s: seq<Ghost>, cap: nat, ops: seq<Op>) {
    forall i, j :: 0 <= i < j < |s| ==> LeftAt(cap, ops, s[i].key) > LeftAt(cap, ops, s[j].key)
  }

  lemma ThinnedByLeaving(r: seq<Ghost>, s: seq<Ghost>, cap: nat, ops: seq<Op>)
    requires Thinned(r, s) && ByLeaving(s, cap, ops)
    ensures ByLeaving(r, cap, ops)
  {
    hide LeftAt;
    if r != s {
      var c :| 0 <= c < |s| && r == s[..c] + s[c + 1..];
      forall i, j | 0 <= i < j < |r| ensures LeftAt(cap, ops, r[i].key) > LeftAt(cap, ops, r[j].key) {
        assert r[i] == s[if i < c then i else i + 1] && r[j] == s[if j < c then j else j + 1];
      }
    }
  }

  /** Ghosts that stay ghosts keep their place; a key that leaves now comes in front. */
  lemma GhostsByLeaving(r: seq<Ghost>, s: seq<Ghost>, cap: nat, ops: seq<Op>)
    requires ops != [] && ByLeaving(s, cap, ops[..|ops| - 1])
    requires forall k :: HasKey(s, k) ==> !IsResident(Run(cap, ops[..|ops| - 1]), k)
    requires r == s || (r != [] && r[1..] == s && IsResident(Run(cap, ops[..|ops| - 1]), r[0].key) && !IsResident(Run(cap, ops), r[0].key))
    ensures ByLeaving(r, cap, ops)
  {
    hide Run;
    hide IsResident;
    var pre := ops[..|ops| - 1];
    forall i | 0 <= i < |s| ensures LeftAt(cap, ops, s[i].key) == LeftAt(cap, pre, s[i].key) <= |pre| {
      HasKeyAt(s, i);
      LeftBelow(cap, pre, s[i].key);
    }
    if r != s {
      assert LeftAt(cap, ops, r[0].key) == |ops|;
      hide LeftAt;
      forall i, j | 0 <= i < j < |r| ensures LeftAt(cap, ops, r[i].key) > LeftAt(cap, ops, r[j].key) {
        assert r[j] == s[j - 1];
        if i > 0 {
          assert r[i] == s[i - 1];
        }
      }
    }
  }

  /** What a step leaves of the ghosts was not resident; what it adds was, and is no more. */
  lemma StepGhosts(a: Arc, op: Op, h: Rests)
    requires Inv(a) && Shaped(a, op, Step(a, op), h)
    ensures forall k :: HasKey(h.b1, k) || HasKey(h.b2, k) ==> !IsResident(a, k)
    ensures var r := Step(a, op);
            && (r.b1 != h.b1 ==> HasKey(a.t1, r.b1[0].key) && !IsResident(r, r.b1[0].key))
            && (r.b2 != h.b2 ==> HasKey(a.t2, r.b2[0].key) && !IsResident(r, r.b2[0].key))
  {
    var r := Step(a, op);
    StepInv(a, op);
    hide Step;
    forall k | HasKey(h.b1, k) || HasKey(h.b2, k) ensures !IsResident(a, k) {
      ThinnedOccurs(h.b1, a.b1, k);
      ThinnedOccurs(h.b2, a.b2, k);
      KnownKeys(a, k);
    }
    if r.b1 != h.b1 {
      LastIsKnown(a.t1);
      KnownKeys(r, r.b1[0].key);
    }
    if r.b2 != h.b2 {
      LastIsKnown(a.t2);
      KnownKeys(r, r.b2[0].key);
    }
  }

  /** Over any run B1 and B2 each stand by the time their keys left, the latest first. */
  lemma {:induction false} RunByLeaving(cap: nat, ops: seq<Op>)
    ensures ByLeaving(Run(cap, ops).b1, cap, ops) && ByLeaving(Run(cap, ops).b2, cap, ops)
  {
    if ops != [] {
      var pre, op := ops[..|ops| - 1], ops[|ops| - 1];
      var a, r := Run(cap, pre), Run(cap, ops);
      RunByLeaving(cap, pre);
      Reachable(cap, pre);
      var h := StepShape(a, op);
      StepGhosts(a, op, h);
      hide Step;
      hide IsResident;
      hide ByLeaving;
      ThinnedByLeaving(h.b1, a.b1, cap, pre);
      ThinnedByLeaving(h.b2, a.b2, cap, pre);
      if r.b1 != h.b1 {
        ResidentEither(a, r.b1[0].key);
      }
      if r.b2 != h.b2 {
        ResidentEither(a, r.b2[0].key);
      }
      GhostsByLeaving(r.b1, h.b1, cap, ops);
      GhostsByLeaving(r.b2, h.b2, cap, ops);
    }
  }

  lemma ResidentEither(a: Arc, k: string)
    ensures HasKey(a.t1, k) || HasKey(a.t2, k) ==> IsResident(a, k)
  {
  }

  // ---------- which list a key is in ----------

  /** Since it last became resident `k` has been accessed again, or it became so as a ghost. */
  ghost predicate Frequent(cap: nat, ops: seq<Op>, k: string) {
    ops != [] && IsResident(Run(cap, ops), k) &&
    var pre := ops[..|ops| - 1];
    if IsResident(Run(cap, pre), k) then Frequent(cap, pre, k) || Accesses(ops[|ops| - 1], k) else IsGhost(Run(cap, pre), k)
  }

  lemma StepT2(a: Arc, op: Op, k: string)
    requires Inv(a) && IsResident(Step(a, op), k)
    ensures HasKey(Step(a, op).t2, k) <==> if IsResident(a, k) then HasKey(a.t2, k) || Accesses(op, k) else IsGhost(a, k)
  {
    var r := Step(a, op);
    var h := StepShape(a, op);
    StepInv(a, op);
    if Accesses(op, k) {
      AccessedAway(a, op, h, k);
    }
    hide Step;
    KnownKeys(a, k);
    KnownKeys(r, k);
    ThinnedOccurs(h.t1, a.t1, k);
    ThinnedOccurs(h.t2, a.t2, k);
    if r.t1 != h.t1 {
      assert r.t1[1..] == h.t1;
    }
  }

  /** A resident is in T2 exactly when it was accessed again since it entered, or entered as a ghost. */
  lemma {:induction false} T2IsFrequent(cap: nat, ops: seq<Op>, k: string)
    requires IsResident(Run(cap, ops), k)
    ensures HasKey(Run(cap, ops).t2, k) <==> Frequent(cap, ops, k)
    decreases |ops|
  {
    if ops != [] {
      var pre := ops[..|ops| - 1];
      Reachable(cap, pre);
      StepT2(Run(cap, pre), ops[|ops| - 1], k);
      if IsResident(Run(cap, pre), k) {
        T2IsFrequent(cap, pre, k);
      }
    }
  }

  /** When `k` last ceased to be resident it was frequent. */
  ghost predicate LeftFrequent(cap: nat, ops: seq<Op>, k: string) {
    ops != [] &&
    var pre := ops[..|ops| - 1];
    if IsResident(Run(cap, pre), k) && !IsResident(Run(cap, ops), k) then Frequent(cap, pre, k) else LeftFrequent(cap, pre, k)
  }

  /** A ghost is in B2 exactly when it was frequent when it left, and in B1 otherwise. */
  lemma {:induction false} B2LeftFrequent(cap: nat, ops: seq<Op>, k: string)
    requires IsGhost(Run(cap, ops), k)
    ensures HasKey(Run(cap, ops).b2, k) <==> LeftFrequent(cap, ops, k)
  {
    if ops != [] {
      var pre, op := ops[..|ops| - 1], ops[|ops| - 1];
      var a, r := Run(cap, pre), Run(cap, ops);
      Reachable(cap, pre);
      Reachable(cap, ops);
      var h := StepShape(a, op);
      StepGhosts(a, op, h);
      hide Step;
      KnownKeys(a, k);
      KnownKeys(r, k);
      ThinnedOccurs(h.b1, a.b1, k);
      ThinnedOccurs(h.b2, a.b2, k);
      if r.b1 != h.b1 {
        assert r.b1[1..] == h.b1;
      }
      if r.b2 != h.b2 {
        assert r.b2[1..] == h.b2;
      }
      if IsResident(a, k) {
        T2IsFrequent(cap, pre, k);
      } else {
        B2LeftFrequent(cap, pre, k);
      }
    }
  }

  // ---------- who leaves ----------

  /** Of the entries of `s`, `k` was accessed longest ago. */
  ghost predicate Oldest(s: seq<Resident>, ops: seq<Op>, k: string) {
    HasKey(s, k) && forall j :: HasKey(s, j) && j != k ==> LastUse(ops, k) < LastUse(ops, j)
  }

  lemma LastIsOldest(s: seq<Resident>, ops: seq<Op>, k: string)
    requires ByUse(s, ops)
    ensures Oldest(s, ops, k) <==> s != [] && Last(s).key == k
  {
    hide LastUse;
    if s != [] {
      LastIsKnown(s);
      forall j | HasKey(s, j) && j != Last(s).key ensures LastUse(ops, Last(s).key) < LastUse(ops, j) {
        assert s[Pos(s, j)].key == j;
      }
    }
  }

  lemma InitKeys(s: seq<Resident>, j: string)
    requires s != [] && Occurs(s, j) <= 1
    ensures HasKey(Init(s), j) <==> HasKey(s, j) && Last(s).key != j
  {
    HasKeyOccurs(s, j);
    HasKeyOccurs(Init(s), j);
  }

  /** A replacement ends the residence of the last key of the list it takes from, and makes it a ghost of the matching list. */
  lemma ReplaceLeaves(a: Arc, x: string, j: string)
    requires Inv(a) && IsResident(a, j)
    ensures var r := Replace(a, x).0; var s := if FromT1(a, x) then a.t1 else a.t2;
            && (!IsResident(r, j) <==> s != [] && Last(s).key == j)
            && (!IsResident(r, j) ==> HasKey(if FromT1(a, x) then r.b1 else r.b2, j))
  {
    KnownKeys(a, j);
    assert Population(a, j) <= 1;
    if FromT1(a, x) {
      InitKeys(a.t1, j);
      LastIsKnown(a.t1);
    } else if a.t2 != [] {
      InitKeys(a.t2, j);
      LastIsKnown(a.t2);
    }
  }

  /**
   After any run Evict takes the least recently used key of T1 if T1 is above its target, else of T2; the key becomes
   a ghost of the matching list.
   */
  lemma EvictsOldest(cap: nat, ops: seq<Op>, k: string)
    ensures var a := Run(cap, ops); var (r, e) := Evict(a);
            && (e == Some(k) <==> cap > 0 && k != "" && Oldest(if |a.t1| > a.p then a.t1 else a.t2, ops, k))
            && (e == Some(k) ==> !IsResident(r, k) && HasKey(if |a.t1| > a.p then r.b1 else r.b2, k))
  {
    var a := Run(cap, ops);
    Reachable(cap, ops);
    RunByUse(cap, ops);
    hide Run;
    hide ByUse;
    LastIsOldest(a.t1, ops, k);
    LastIsOldest(a.t2, ops, k);
    if IsResident(a, k) {
      ReplaceLeaves(a, "", k);
    }
    hide Oldest;
    if Evict(a).1 == Some(k) {
      ResidentLast(a, k);
    }
  }

  lemma ResidentLast(a: Arc, k: string)
    requires (a.t1 != [] && Last(a.t1).key == k) || (a.t2 != [] && Last(a.t2).key == k)
    ensures IsResident(a, k)
  {
    if a.t1 != [] {
      LastIsKnown(a.t1);
    }
    if a.t2 != [] {
      LastIsKnown(a.t2);
    }
  }

  /** The list a Set of `k` takes a resident from, by the lists before it and the target after it; None when it takes none. */
  ghost function TakesFrom(a: Arc, k: string, p: int): Option<seq<Resident>> {
    if a.cap == 0 || IsResident(a, k) then None
    else if IsGhost(a, k) then
      Some(if |a.t1| > p || (HasKey(a.b2, k) && k != "" && |a.t1| == p && a.t1 != []) then a.t1 else a.t2)
    else if |a.t1| + |a.t2| < a.cap then None
    else if |a.t1| + |a.b1| >= a.cap then if |a.t1| == a.cap then Some(a.t1) else None
    else Some(if |a.t1| > a.p then a.t1 else a.t2)
  }

  lemma GhostHitLeaves(a: Arc, k: string, v: Value, j: string)
    requires Inv(a) && a.cap > 0 && !IsResident(a, k) && IsGhost(a, k) && IsResident(a, j)
    ensures var r := Set(a, k, v); var s := TakesFrom(a, k, r.p).value;
            !IsResident(r, j) <==> s != [] && Last(s).key == j
  {
    var q := a.(p := Adapted(a, HasKey(a.b1, k)));
    KnownKeys(a, k);
    GhostHitIs(a, k, v);
    forall i ensures Population(q, i) <= 1 {
      assert Population(a, i) <= 1;
    }
    ReplaceLeaves(q, k, j);
    ReplaceInv(q, k);
    var r := Set(a, k, v);
    hide Set;
    assert r.t2[1..] == Replace(q, k).0.t2;
  }

  lemma NewKeyLeaves(a: Arc, k: string, v: Value, j: string)
    requires Inv(a) && a.cap > 0 && !IsResident(a, k) && !IsGhost(a, k) && IsResident(a, j)
    ensures var r := Set(a, k, v); var s := TakesFrom(a, k, r.p);
            !IsResident(r, j) <==> s.Some? && s.value != [] && Last(s.value).key == j
  {
    KnownKeys(a, j);
    assert Population(a, j) <= 1;
    var m := MakeRoom(a);
    var r := Set(a, k, v);
    assert r.t1[1..] == m.t1;
    if a.length >= a.cap {
      if |a.t1| + |a.b1| >= a.cap {
        if |a.t1| >= a.cap {
          InitKeys(a.t1, j);
          LastIsKnown(a.t1);
        }
      } else {
        var total := |a.t1| + |a.t2| + |a.b1| + |a.b2|;
        var q := if total >= 2 * a.cap && a.b2 != [] then a.(b2 := Init(a.b2)) else a;
        forall i ensures Population(q, i) <= 1 {
          assert Population(a, i) <= 1;
        }
        ReplaceLeaves(q, "", j);
      }
    }
  }

  /**
   After any run, another resident loses its place to a Set exactly when it is the least recently used of the list the
   Set takes from.
   */
  lemma SetTakesOldest(cap: nat, ops: seq<Op>, k: string, v: Value, j: string)
    requires IsResident(Run(cap, ops), j) && j != k
    ensures var a := Run(cap, ops); var r := Set(a, k, v); var s := TakesFrom(a, k, r.p);
            !IsResident(r, j) <==> s.Some? && Oldest(s.value, ops, j)
  {
    var a := Run(cap, ops);
    Reachable(cap, ops);
    RunByUse(cap, ops);
    hide Run;
    hide ByUse;
    LastIsOldest(a.t1, ops, j);
    LastIsOldest(a.t2, ops, j);
    hide Oldest;
    if cap > 0 && !IsResident(a, k) {
      if IsGhost(a, k) {
        GhostHitLeaves(a, k, v, j);
      } else {
        NewKeyLeaves(a, k, v, j);
      }
    } else {
      StaysPut(a, k, v, j);
    }
  }

  lemma StaysPut(a: Arc, k: string, v: Value, j: string)
    requires Inv(a) && (a.cap == 0 || IsResident(a, k)) && IsResident(a, j) && j != k
    ensures IsResident(Set(a, k, v), j)
  {
    var e := Entry(k, v);
    HasKeyOccurs(a.t1, j);
    HasKeyOccurs(a.t2, j);
    if a.cap > 0 && HasKey(a.t1, k) {
      OccursDrop(a.t1, k, j);
      OccursPush(e, a.t2, j);
      HasKeyOccurs(Drop(a.t1, k), j);
      HasKeyOccurs([e] + a.t2, j);
    } else if a.cap > 0 {
      OccursDrop(a.t2, k, j);
      OccursPush(e, Drop(a.t2, k), j);
      HasKeyOccurs([e] + Drop(a.t2, k), j);
    }
  }

  // ---------- the target of T1 ----------

  /** `d` is how often `n` goes into `m`, but at least one. */
  ghost predicate Ratio(d: nat, m: nat, n: nat) {
    d >= 1 && (d == 1 || d * n <= m) && m < (d + 1) * n
  }

  lemma RatioIs(m: nat, n: nat)
    requires n > 0
    ensures Ratio(Max(m / n, 1), m, n)
  {
    Bits.Divide(m, n);
    var q := m / n;
    assert (q + 1) * n == n * q + n;
    if q == 0 {
      assert (1 + 1) * n == n + n;
    }
  }

  /**
   How the target moves: a hit in B1 raises it, at most to the capacity, by the size of B2 over that of B1, a hit in B2
   lowers it, at least to zero, by the inverse, each by at least one; nothing else moves it.
   */
  lemma TargetMoves(a: Arc, op: Op) returns (d: nat)
    requires Inv(a)
    ensures var r := Step(a, op); var hit := op.SetOp? && a.cap > 0 && !IsResident(a, op.k);
            if hit && HasKey(a.b1, op.k) then
              Ratio(d, |a.b2|, |a.b1|) && r.p == (if a.p + d > a.cap then a.cap else a.p + d)
            else if hit && HasKey(a.b2, op.k) then
              Ratio(d, |a.b1|, |a.b2|) && r.p == (if a.p - d < 0 then 0 else a.p - d)
            else r.p == a.p
  {
    d := 1;
    if op.SetOp? && a.cap > 0 && !IsResident(a, op.k) {
      if IsGhost(a, op.k) {
        GhostHitIs(a, op.k, op.v);
        ReplaceTarget(a.(p := Adapted(a, HasKey(a.b1, op.k))), op.k);
        if HasKey(a.b1, op.k) {
          d := Max(|a.b2| / |a.b1|, 1);
          RatioIs(|a.b2|, |a.b1|);
        } else {
          d := Max(|a.b1| / |a.b2|, 1);
          RatioIs(|a.b1|, |a.b2|);
        }
        hide Ratio;
      }
    }
  }

  lemma ReplaceTarget(a: Arc, x: string)
    ensures Replace(a, x).0.p == a.p
  {
  }
}
