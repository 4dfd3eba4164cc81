/**
 A Get at one node of the cluster (pkg/backend/dist_memory.go, getImpl): ONE reads answer from the
 reader's own copy, then from the first owner that has one; the other levels gather answers. And what
 reads promise over every network, every arrival order and every run of reads.
 */
module Reads {
  import opened Items
  import opened Ring
  import opened Quorum
  import opened Seqs

  // ---------- ONE reads ----------

  /** The first owner, in ring order, whose copy the reader can get. */
  function FirstHit(c: Stores, net: Net, self: NodeID, k: Key, owners: seq<NodeID>): Option<Item> {
    if owners == [] then None
    else
      var it := FetchOwner(c, net, self, k, owners[0]).item;
      if it.Some? then it else FirstHit(c, net, self, k, owners[1..])
  }

  /** An owner that missed locally keeps the copy it was given. */
  function OneRead(c: Stores, net: Net, self: NodeID, k: Key, owners: seq<NodeID>): (Stores, Option<Item>) {
    var local, hit := Held(c, self, k), FirstHit(c, net, self, k, owners);
    if local.Some? then (c, local)
    else if hit.None? then (c, None)
    else (if self in owners then Put(c, self, hit.value) else c, hit)
  }

  /** Owner `i` is the first of `owners` that can be reached and holds `k`. */
  ghost predicate FirstHolder(c: Stores, net: Net, k: Key, owners: seq<NodeID>, i: int) {
    && 0 <= i < |owners| && owners[i] in net.reach && Held(c, owners[i], k).Some?
    && forall j :: 0 <= j < i ==> !(owners[j] in net.reach && Held(c, owners[j], k).Some?)
  }

  lemma {:induction false} FirstHitIs(c: Stores, net: Net, self: NodeID, k: Key, owners: seq<NodeID>)
    requires Held(c, self, k).None?
    ensures var h := FirstHit(c, net, self, k, owners);
            && (forall i :: FirstHolder(c, net, k, owners, i) ==> h == Held(c, owners[i], k))
            && (h.Some? <==> exists i :: FirstHolder(c, net, k, owners, i))
  {
    if owners != [] {
      var rest := owners[1..];
      FirstHitIs(c, net, self, k, rest);
      if owners[0] in net.reach && Held(c, owners[0], k).Some? {
        assert FirstHolder(c, net, k, owners, 0);
      } else {
        forall i | FirstHolder(c, net, k, owners, i) ensures i > 0 && FirstHolder(c, net, k, rest, i - 1) && owners[i] == rest[i - 1] {
        }
        forall i | FirstHolder(c, net, k, rest, i) ensures FirstHolder(c, net, k, owners, i + 1) {
          forall j | 0 <= j < i + 1 ensures !(owners[j] in net.reach && Held(c, owners[j], k).Some?) {
            assert j > 0 ==> owners[j] == rest[j - 1];
          }
        }
      }
    }
  }

  /** What a ONE read after a local miss answers, and that it stores nothing but that answer, at the reader, if an owner. */
  ghost predicate AnswersFirst(c: Stores, net: Net, self: NodeID, k: Key, owners: seq<NodeID>, c': Stores, res: Option<Item>) {
    && (forall i :: FirstHolder(c, net, k, owners, i) ==> res == Held(c, owners[i], k))
    && (res.Some? <==> exists i :: FirstHolder(c, net, k, owners, i))
    && c'.Keys == c.Keys
    && (Keyed(c) ==> forall n, x :: Held(c', n, x) ==
                       if n == self && x == k && self in owners && self in c && res.Some? then res else Held(c, n, x))
  }

  lemma OneReadAnswers(c: Stores, net: Net, self: NodeID, k: Key, owners: seq<NodeID>)
    requires Held(c, self, k).None?
    ensures var (c', res) := OneRead(c, net, self, k, owners); AnswersFirst(c, net, self, k, owners, c', res)
  {
    FirstHitIs(c, net, self, k, owners);
    FirstHitHeld(c, net, self, k, owners);
  }

  /** Asks the owners in order until one answers. */
  method GetOne(c: Stores, net: Net, self: NodeID, k: Key, owners: seq<NodeID>) returns (c': Stores, res: Option<Item>)
    requires Held(c, self, k).None?
    ensures (c', res) == OneRead(c, net, self, k, owners)
    ensures AnswersFirst(c, net, self, k, owners, c', res)
  {
    OneReadAnswers(c, net, self, k, owners);
    assert owners[0..] == owners;
    for i := 0 to |owners|
      invariant FirstHit(c, net, self, k, owners) == FirstHit(c, net, self, k, owners[i..])
    {
      assert owners[i..][1..] == owners[i + 1..];
      if owners[i] != self && owners[i] in net.reach {
        var it := Held(c, owners[i], k);
        if it.Some? {
          c' := c;
          if self in owners && Held(c, self, k).None? {
            c' := Put(c, self, it.value);
          }
          return c', it;
        }
      }
    }
    assert owners[|owners|..] == [];
    return c, None;
  }

  /** A Get at any level; `arrivals` is the order in which parallel answers come in. */
  method Get(c: Stores, net: Net, self: NodeID, k: Key, owners: seq<NodeID>, lvl: Level, parallel: bool, arrivals: seq<NodeID>)
    returns (c': Stores, res: Option<Item>)
    requires multiset(arrivals) == multiset(owners)
    ensures lvl.One? ==> (c', res) == OneRead(c, net, self, k, owners)
    ensures lvl.One? && Held(c, self, k).Some? ==> res == Held(c, self, k) && c' == c
    ensures lvl.One? && Held(c, self, k).None? ==> AnswersFirst(c, net, self, k, owners, c', res)
    ensures !lvl.One? && owners == [] ==> res == None && c' == c
    ensures !lvl.One? && owners != [] ==>
              var needed := RequiredAcks(|owners|, lvl);
              var st := Gather(Fetches(c, net, self, k, if parallel then arrivals else owners), needed);
              if Succeeds(st, needed) then res == st.chosen && c' == Repaired(c, net, self, st, owners)
              else res == None && c' == c
  {
    if lvl.One? {
      var local := Held(c, self, k);
      if local.Some? {
        return c, local;
      }
      OneReadAnswers(c, net, self, k, owners);
    }
    if |owners| == 0 {
      return c, None;
    }
    if lvl.One? {
      c', res := GetOne(c, net, self, k, owners);
    } else if parallel {
      c', res := GetWithConsistencyParallel(c, net, self, k, owners, arrivals, lvl);
    } else {
      c', res := GetWithConsistency(c, net, self, k, owners, lvl);
    }
  }

  /** Whatever the network, a ONE read at `self` that finds something finds an item at or above `it`. */
  ghost predicate OneAlwaysSees(c: Stores, self: NodeID, owners: seq<NodeID>, it: Item) {
    forall net: Net ::
      var r := OneRead(c, net, self, it.key, owners).1;
      r.Some? ==> AtLeast(r.value, it)
  }

  ghost predicate NotBelow(h: Option<Item>, it: Item) {
    h.Some? ==> AtLeast(h.value, it)
  }

  lemma {:induction false} FirstHitHeld(c: Stores, net: Net, self: NodeID, k: Key, owners: seq<NodeID>)
    ensures var h := FirstHit(c, net, self, k, owners); h.Some? ==> exists o :: o in owners && Held(c, o, k) == h
  {
    if owners != [] && FetchOwner(c, net, self, k, owners[0]).item.None? {
      FirstHitHeld(c, net, self, k, owners[1..]);
    } else if owners != [] {
      assert owners[0] in owners;
    }
  }

  /** With only `o` reachable and nothing local, `o`'s copy is the answer. */
  lemma {:induction false} OnlyReachable(c: Stores, self: NodeID, k: Key, owners: seq<NodeID>, o: NodeID)
    requires o in owners && Held(c, self, k).None? && Held(c, o, k).Some?
    ensures FirstHit(c, Net({o}, {}), self, k, owners) == Held(c, o, k)
  {
    if owners[0] != o {
      OnlyReachable(c, self, k, owners[1..], o);
    }
  }

  /**
   A ONE read at `self` is at or above `it` over every network if and only if its own copy is, or it has
   none and every owner's copy is.
   */
  lemma OneSeesIff(c: Stores, self: NodeID, owners: seq<NodeID>, it: Item)
    ensures OneAlwaysSees(c, self, owners, it) <==>
            if Held(c, self, it.key).Some? then NotBelow(Held(c, self, it.key), it)
            else forall o :: o in owners ==> NotBelow(Held(c, o, it.key), it)
  {
    var k := it.key;
    if Held(c, self, k).Some? {
      assert OneRead(c, Net({}, {}), self, k, owners).1 == Held(c, self, k);
    } else {
      forall net: Net | forall o :: o in owners ==> NotBelow(Held(c, o, k), it)
        ensures var r := OneRead(c, net, self, k, owners).1; r.Some? ==> AtLeast(r.value, it)
      {
        FirstHitHeld(c, net, self, k, owners);
      }
      forall o | o in owners && OneAlwaysSees(c, self, owners, it) ensures NotBelow(Held(c, o, k), it) {
        if Held(c, o, k).Some? {
          OnlyReachable(c, self, k, owners, o);
          assert OneRead(c, Net({o}, {}), self, k, owners).1 == Held(c, o, k);
        }
      }
    }
  }

  // ---------- gathered reads, over every network and arrival order ----------

  /** A gathered read with its reader, network and arrival order. */
  datatype ReadCall = ReadCall(reader: NodeID, net: Net, arrivals: seq<NodeID>)

  function Outcome(c: Stores, k: Key, needed: nat, r: ReadCall): Progress {
    Gather(Fetches(c, r.net, r.reader, k, r.arrivals), needed)
  }

  ghost predicate Returns(c: Stores, k: Key, owners: seq<NodeID>, needed: nat, r: ReadCall) {
    multiset(r.arrivals) == multiset(owners) && Succeeds(Outcome(c, k, needed, r), needed)
  }

  /** The owners that hold a copy, a copy newer than `it`, a copy older than `it`. */
  ghost function Holding(c: Stores, owners: seq<NodeID>, k: Key): set<NodeID> {
    set o | o in owners && Held(c, o, k).Some?
  }

  ghost function Older(c: Stores, owners: seq<NodeID>, it: Item): set<NodeID> {
    set o | o in owners && Held(c, o, it.key).Some? && Beats(it, Held(c, o, it.key).value)
  }

  ghost function Newer(c: Stores, owners: seq<NodeID>, it: Item): set<NodeID> {
    set o | o in owners && Held(c, o, it.key).Some? && Beats(Held(c, o, it.key).value, it)
  }

  /** What a successful read returned is held by an owner, and no consumed answer beats it. */
  lemma ReadSummary(c: Stores, k: Key, owners: seq<NodeID>, needed: nat, r: ReadCall) returns (used: set<NodeID>)
    requires Distinct(owners) && Returns(c, k, owners, needed, r)
    ensures used <= Holding(c, owners, k) && |used| >= needed
    ensures var x := Outcome(c, k, needed, r).chosen;
            && (exists o :: o in used && Held(c, o, k) == x)
            && (forall o :: o in used ==> AtLeast(x.value, Held(c, o, k).value))
  {
    var rs := Fetches(c, r.net, r.reader, k, r.arrivals);
    SameMembers(owners, r.arrivals);
    DistinctPermutation(owners, r.arrivals);
    var n := Consumed(rs, needed, 0);
    var got := rs[..n];
    AbsorbAllSummary(got);
    hide AbsorbAll;
    hide Consumed;
    used := Answered(got);
    forall q | q in got ensures q.owner in owners && (q.item.Some? ==> q.item == Held(c, q.owner, k)) {
      var i :| 0 <= i < n && rs[i] == q;
      assert r.arrivals[i] in r.arrivals;
    }
    var x := Outcome(c, k, needed, r).chosen;
    var q :| q in got && q.item == x;
    assert q.owner in used;
  }

  /** The owners that can be asked, the reader included, and hold `k`. */
  ghost function Answering(c: Stores, net: Net, self: NodeID, k: Key, order: seq<NodeID>): set<NodeID> {
    set o | o in order && (o == self || o in net.reach) && Held(c, o, k).Some?
  }

  lemma AnsweredPrefix(c: Stores, net: Net, self: NodeID, k: Key, order: seq<NodeID>, n: nat)
    requires Distinct(order) && n <= |order|
    ensures var rs := Fetches(c, net, self, k, order);
            DistinctOwners(rs[..n]) && Answered(rs[..n]) == Answering(c, net, self, k, order[..n])
  {
    var rs := Fetches(c, net, self, k, order);
    forall o | o in Answering(c, net, self, k, order[..n]) ensures o in Answered(rs[..n]) {
      var i :| 0 <= i < n && order[i] == o;
      assert rs[..n][i] == FetchOwner(c, net, self, k, o);
    }
    forall o | o in Answered(rs[..n]) ensures o in Answering(c, net, self, k, order[..n]) {
      var r :| r in rs[..n] && r.item.Some? && r.owner == o;
      var i :| 0 <= i < n && rs[..n][i] == r;
      assert order[..n][i] == o;
    }
  }

  /** Of equally new answers the first is kept. */
  lemma {:induction false} AbsorbsFirstBest(rs: seq<Response>)
    requires DistinctOwners(rs) && AbsorbAll(rs).chosen.Some?
    ensures var x := AbsorbAll(rs).chosen;
            exists i :: 0 <= i < |rs| && rs[i].item == x && forall j :: 0 <= j < i && rs[j].item.Some? ==> Beats(x.value, rs[j].item.value)
  {
    var init, last := rs[..|rs| - 1], rs[|rs| - 1];
    var old', x := AbsorbAll(init).chosen, AbsorbAll(rs).chosen;
    AbsorbAllSummary(init);
    if old'.None? {
      assert rs[|rs| - 1].item == x;
      forall j | 0 <= j < |rs| - 1 ensures rs[j].item.None? {
        assert init[j] in init;
      }
    } else if last.item.Some? && Beats(last.item.value, old'.value) {
      assert rs[|rs| - 1].item == x;
      forall j | 0 <= j < |rs| - 1 && rs[j].item.Some? ensures Beats(x.value, rs[j].item.value) {
        assert init[j] in init;
        BeatsAtLeast(x.value, old'.value, rs[j].item.value);
      }
    } else {
      AbsorbsFirstBest(init);
      var i :| 0 <= i < |init| && init[i].item == old' && forall j :: 0 <= j < i && init[j].item.Some? ==> Beats(old'.value, init[j].item.value);
      assert x == old' && rs[i].item == x;
      forall j | 0 <= j < i && rs[j].item.Some? ensures Beats(x.value, rs[j].item.value) {
        assert init[j] == rs[j];
      }
    }
  }

  /**
   What a gathered read does, in its own terms: it succeeds if and only if enough owners can be asked and hold
   the key; it then stops at the answer that makes them enough, and returns the first best of those.
   */
  lemma GatheredRead(c: Stores, net: Net, self: NodeID, k: Key, order: seq<NodeID>, needed: nat) returns (n: nat)
    requires Distinct(order) && needed >= 1
    ensures var st := Gather(Fetches(c, net, self, k, order), needed);
            && (Succeeds(st, needed) <==> |Answering(c, net, self, k, order)| >= needed)
            && (Succeeds(st, needed) ==>
                  && n <= |order| && |Answering(c, net, self, k, order[..n])| == needed
                  && (forall o :: o in Answering(c, net, self, k, order[..n]) ==> AtLeast(st.chosen.value, Held(c, o, k).value))
                  && (exists i :: 0 <= i < n && order[i] in Answering(c, net, self, k, order[..n]) && Held(c, order[i], k) == st.chosen &&
                        forall j :: 0 <= j < i && order[j] in Answering(c, net, self, k, order[..n]) ==> Beats(st.chosen.value, Held(c, order[j], k).value)))
  {
    var rs := Fetches(c, net, self, k, order);
    n := Consumed(rs, needed, 0);
    GatherEnough(c, net, self, k, order, needed);
    hide Consumed;
    if Succeeds(Gather(rs, needed), needed) {
      GatheredFirst(c, net, self, k, order, n);
    }
  }

  lemma AnswerAt(c: Stores, net: Net, self: NodeID, k: Key, order: seq<NodeID>, n: nat, i: nat)
    requires i < n <= |order|
    ensures var r, asked := Fetches(c, net, self, k, order)[i], Answering(c, net, self, k, order[..n]);
            (order[i] in asked <==> r.item.Some?) && (order[i] in asked ==> r.item == Held(c, order[i], k))
  {
    assert order[..n][i] == order[i];
  }

  lemma AskedAt(c: Stores, net: Net, self: NodeID, k: Key, order: seq<NodeID>, n: nat, o: NodeID) returns (i: nat)
    requires n <= |order| && o in Answering(c, net, self, k, order[..n])
    ensures i < n && order[i] == o && Held(c, o, k).Some?
  {
    i :| 0 <= i < n && order[i] == o;
  }

  lemma GatheredFirst(c: Stores, net: Net, self: NodeID, k: Key, order: seq<NodeID>, n: nat)
    requires Distinct(order) && n <= |order|
    requires AbsorbAll(Fetches(c, net, self, k, order)[..n]).chosen.Some?
    ensures var x := AbsorbAll(Fetches(c, net, self, k, order)[..n]).chosen; var asked := Answering(c, net, self, k, order[..n]);
            && (forall o :: o in asked ==> AtLeast(x.value, Held(c, o, k).value))
            && (exists i :: 0 <= i < n && order[i] in asked && Held(c, order[i], k) == x &&
                  forall j :: 0 <= j < i && order[j] in asked ==> Beats(x.value, Held(c, order[j], k).value))
  {
    hide AbsorbAll;
    hide Held;
    hide Fetches;
    hide Answering;
    hide Answered;
    hide Beats;
    hide AtLeast;
    FetchesLength(c, net, self, k, order);
    var rs := Fetches(c, net, self, k, order)[..n];
    var x := AbsorbAll(rs).chosen;
    AnsweredPrefix(c, net, self, k, order, n);
    AbsorbAllSummary(rs);
    AbsorbsFirstBest(rs);
    var asked := Answering(c, net, self, k, order[..n]);
    forall i | 0 <= i < n
      ensures order[i] in asked <==> rs[i].item.Some?
      ensures order[i] in asked ==> rs[i].item == Held(c, order[i], k)
    {
      AnswerAt(c, net, self, k, order, n, i);
      assert Fetches(c, net, self, k, order)[i] == rs[i];
    }
    forall o | o in asked ensures Held(c, o, k).Some? && AtLeast(x.value, Held(c, o, k).value) {
      var i := AskedAt(c, net, self, k, order, n, o);
      assert rs[i] in rs;
    }
    var i :| 0 <= i < n && rs[i].item == x && forall j :: 0 <= j < i && rs[j].item.Some? ==> Beats(x.value, rs[j].item.value);
    assert order[i] in asked;
  }

  lemma AnsweringStep(c: Stores, net: Net, self: NodeID, k: Key, order: seq<NodeID>, n: nat)
    requires 0 < n <= |order|
    ensures |Answering(c, net, self, k, order[..n])| <= |Answering(c, net, self, k, order[..n - 1])| + 1
  {
    hide Held;
    var a, b := Answering(c, net, self, k, order[..n]), Answering(c, net, self, k, order[..n - 1]) + {order[n - 1]};
    assert order[..n] == order[..n - 1] + [order[n - 1]];
    SubsetSize(a, b);
  }

  lemma AcksAre(c: Stores, net: Net, self: NodeID, k: Key, order: seq<NodeID>, n: nat, needed: nat)
    requires Distinct(order) && n <= |order| && needed >= 1
    ensures var rs := Fetches(c, net, self, k, order);
            Satisfied(AbsorbAll(rs[..n]), needed) <==> |Answering(c, net, self, k, order[..n])| >= needed
  {
    hide AbsorbAll;
    hide Answering;
    hide Fetches;
    FetchesLength(c, net, self, k, order);
    var rs := Fetches(c, net, self, k, order)[..n];
    AnsweredPrefix(c, net, self, k, order, n);
    AbsorbAllSummary(rs);
    if Answered(rs) != {} {
      var o :| o in Answered(rs);
    }
  }

  lemma GatherEnough(c: Stores, net: Net, self: NodeID, k: Key, order: seq<NodeID>, needed: nat)
    requires Distinct(order) && needed >= 1
    ensures var rs := Fetches(c, net, self, k, order); var n := Consumed(rs, needed, 0);
            && (Succeeds(AbsorbAll(rs[..n]), needed) <==> |Answering(c, net, self, k, order)| >= needed)
            && (Succeeds(AbsorbAll(rs[..n]), needed) ==> |Answering(c, net, self, k, order[..n])| == needed)
  {
    hide AbsorbAll;
    hide Fetches;
    var rs := Fetches(c, net, self, k, order);
    FetchesLength(c, net, self, k, order);
    var n := Consumed(rs, needed, 0);
    hide Consumed;
    AcksAre(c, net, self, k, order, n, needed);
    if n > 0 {
      AcksAre(c, net, self, k, order, n - 1, needed);
      AnsweringStep(c, net, self, k, order, n);
      assert !Satisfied(AbsorbAll(rs[..n - 1]), needed);
    }
    assert order[..|order|] == order;
    SubsetSize(Answering(c, net, self, k, order[..n]), Answering(c, net, self, k, order));
    assert Answering(c, net, self, k, order[..0]) == {};
  }

  lemma FetchesLength(c: Stores, net: Net, self: NodeID, k: Key, order: seq<NodeID>)
    ensures |Fetches(c, net, self, k, order)| == |order|
  {
  }

  lemma {:induction false} Enumerate(s: set<NodeID>) returns (q: seq<NodeID>)
    ensures Distinct(q) && |q| == |s| && forall o :: o in q <==> o in s
  {
    if s == {} {
      q := [];
    } else {
      var x :| x in s;
      var rest := Enumerate(s - {x});
      q := [x] + rest;
    }
  }

  lemma DistinctBag(a: seq<NodeID>, b: seq<NodeID>)
    requires Distinct(a) && Distinct(b) && forall o :: o in a <==> o in b
    ensures multiset(a) == multiset(b)
  {
    forall o ensures multiset(a)[o] == multiset(b)[o] {
      DistinctCount(a, o);
      DistinctCount(b, o);
      assert o in multiset(a) <==> o in a;
      assert o in multiset(b) <==> o in b;
    }
  }

  /** The owners in an order that puts `first` in front. */
  lemma OrderWith(owners: seq<NodeID>, first: set<NodeID>) returns (arrivals: seq<NodeID>)
    requires Distinct(owners) && forall o :: o in first ==> o in owners
    ensures multiset(arrivals) == multiset(owners) && |first| <= |arrivals|
    ensures forall o :: o in arrivals[..|first|] <==> o in first
  {
    var a := Enumerate(first);
    var b := Enumerate((set o | o in owners) - first);
    arrivals := a + b;
    assert arrivals[..|first|] == a;
    forall i, j | 0 <= i < j < |arrivals| ensures arrivals[i] != arrivals[j] {
      if i < |a| <= j {
        assert a[i] in a && b[j - |a|] in b;
      }
    }
    forall o ensures o in arrivals <==> o in owners {
      assert o in arrivals <==> o in a || o in b;
    }
    DistinctBag(arrivals, owners);
  }

  /** The responses of a read that reaches every owner. */
  lemma AllAnswers(c: Stores, k: Key, owners: seq<NodeID>, arrivals: seq<NodeID>)
    requires Distinct(owners) && multiset(arrivals) == multiset(owners)
    ensures var rs := Fetches(c, Net(set o | o in owners, {}), "", k, arrivals);
            && DistinctOwners(rs) && |rs| == |arrivals| && Answered(rs) == Holding(c, owners, k)
            && forall i :: 0 <= i < |rs| ==> rs[i] == Response(arrivals[i], Held(c, arrivals[i], k))
  {
    SameMembers(owners, arrivals);
    DistinctPermutation(owners, arrivals);
    var rs := Fetches(c, Net(set o | o in owners, {}), "", k, arrivals);
    forall i | 0 <= i < |rs| ensures rs[i] == Response(arrivals[i], Held(c, arrivals[i], k)) {
      assert arrivals[i] in arrivals;
    }
    forall o | o in Holding(c, owners, k) ensures o in Answered(rs) {
      var i :| 0 <= i < |arrivals| && arrivals[i] == o;
      assert rs[i] in rs;
    }
  }

  /** Answers that come first are consumed first: `m` copies in front decide a read that needs no more. */
  lemma GatherFirst(rs: seq<Response>, needed: nat, m: nat)
    requires DistinctOwners(rs) && 1 <= needed <= |Answered(rs)| && m <= |rs| && forall i :: 0 <= i < m ==> rs[i].item.Some?
    ensures Succeeds(Gather(rs, needed), needed)
    ensures needed <= m ==> exists i :: 0 <= i < m && rs[i].item == Gather(rs, needed).chosen
    ensures m >= 1 ==> AtLeast(Gather(rs, needed).chosen.value, rs[0].item.value)
  {
    var n := Consumed(rs, needed, 0);
    ConsumedSome(rs, needed);
    if needed <= m {
      PrefixAcks(rs, needed);
    }
    AbsorbAllSummary(rs[..n]);
    hide AbsorbAll;
    hide Consumed;
    assert rs[..n][0] == rs[0];
    var q :| q in rs[..n] && q.item == Gather(rs, needed).chosen;
    var i :| 0 <= i < n && rs[..n][i] == q;
    assert rs[i] == q;
  }

  lemma ConsumedSome(rs: seq<Response>, needed: nat)
    requires DistinctOwners(rs) && 1 <= needed <= |Answered(rs)|
    ensures Consumed(rs, needed, 0) > 0 && Succeeds(Gather(rs, needed), needed)
  {
    assert rs[..0] == [] && rs[..|rs|] == rs;
    var n := Consumed(rs, needed, 0);
    AbsorbAllSummary(rs);
    assert Answered(rs) != {};
    var o :| o in Answered(rs);
  }

  /** The first `needed` answers satisfy the read when each of them is a copy. */
  lemma PrefixAcks(rs: seq<Response>, needed: nat)
    requires DistinctOwners(rs) && 1 <= needed <= |rs| && forall i :: 0 <= i < needed ==> rs[i].item.Some?
    ensures Consumed(rs, needed, 0) <= needed
  {
    var pre := rs[..needed];
    AbsorbAllSummary(pre);
    AnsweredAll(pre);
    assert pre[0] in pre;
    assert Satisfied(AbsorbAll(rs[..needed]), needed);
  }

  /** Enough holders, all reachable, make a read succeed; it consumes the answers that come first. */
  lemma ReadFirst(c: Stores, k: Key, owners: seq<NodeID>, needed: nat, first: set<NodeID>) returns (r: ReadCall)
    requires Distinct(owners) && 1 <= needed <= |Holding(c, owners, k)| && first <= Holding(c, owners, k)
    ensures Returns(c, k, owners, needed, r)
    ensures needed <= |first| ==> exists o :: o in first && Held(c, o, k) == Outcome(c, k, needed, r).chosen
    ensures |first| == 1 ==> forall o :: o in first ==> AtLeast(Outcome(c, k, needed, r).chosen.value, Held(c, o, k).value)
  {
    hide Gather;
    var arrivals := OrderWith(owners, first);
    r := ReadCall("", Net(set o | o in owners, {}), arrivals);
    var rs := Fetches(c, r.net, "", k, arrivals);
    AllAnswers(c, k, owners, arrivals);
    forall i | 0 <= i < |first| ensures rs[i].item.Some? && rs[i].item == Held(c, arrivals[i], k) && arrivals[i] in first {
      assert arrivals[i] in arrivals[..|first|];
    }
    GatherFirst(rs, needed, |first|);
    if |first| == 1 {
      forall o | o in first ensures o == arrivals[0] {
        assert o in arrivals[..1];
      }
    }
  }

  lemma {:induction false} AnsweredAll(rs: seq<Response>)
    requires DistinctOwners(rs) && forall i :: 0 <= i < |rs| ==> rs[i].item.Some?
    ensures |Answered(rs)| == |rs|
  {
    if rs != [] {
      var init, last := rs[..|rs| - 1], rs[|rs| - 1];
      AnsweredAll(init);
      assert rs == init + [last];
      assert Answered(rs) == Answered(init) + {last.owner};
      assert last.owner !in Answered(init);
    }
  }

  /** Every successful read needing `needed` answers is at or above `it`. */
  ghost predicate AlwaysSees(c: Stores, owners: seq<NodeID>, it: Item, needed: nat) {
    forall r: ReadCall :: Returns(c, it.key, owners, needed, r) ==> AtLeast(Outcome(c, it.key, needed, r).chosen.value, it)
  }

  /** Every successful read needing `needed` answers returns the version and origin of `it`. */
  ghost predicate AlwaysReads(c: Stores, owners: seq<NodeID>, it: Item, needed: nat) {
    forall r: ReadCall :: Returns(c, it.key, owners, needed, r) ==>
      var x := Outcome(c, it.key, needed, r).chosen.value;
      x.version == it.version && x.origin == it.origin
  }

  lemma OlderNewer(c: Stores, owners: seq<NodeID>, it: Item, o: NodeID)
    requires o in Holding(c, owners, it.key)
    ensures var x := Held(c, o, it.key).value;
            && (o in Older(c, owners, it) <==> !AtLeast(x, it)) && (o in Newer(c, owners, it) <==> !AtLeast(it, x))
            && (o in Older(c, owners, it) ==> o !in Newer(c, owners, it))
            && (o !in Older(c, owners, it) && o !in Newer(c, owners, it) <==> x.version == it.version && x.origin == it.origin)
  {
    AtLeastTotal(Held(c, o, it.key).value, it);
  }

  /** Over every network and arrival order: all reads are at or above `it` iff fewer than `needed` owners are below it. */
  lemma SeesIff(c: Stores, owners: seq<NodeID>, it: Item, needed: nat)
    requires Distinct(owners) && needed >= 1
    ensures AlwaysSees(c, owners, it, needed) <==> |Older(c, owners, it)| < needed
  {
    hide Outcome;
    var k, older := it.key, Older(c, owners, it);
    if |older| < needed {
      forall r: ReadCall | Returns(c, k, owners, needed, r) ensures AtLeast(Outcome(c, k, needed, r).chosen.value, it) {
        var used := ReadSummary(c, k, owners, needed, r);
        if used <= older {
          SubsetSize(used, older);
        }
        var o :| o in used && o !in older;
        OlderNewer(c, owners, it, o);
        AtLeastTransitive(Outcome(c, k, needed, r).chosen.value, Held(c, o, k).value, it);
      }
    } else {
      SubsetSize(older, Holding(c, owners, k));
      var r := ReadFirst(c, k, owners, needed, older);
      var o :| o in older && Held(c, o, k) == Outcome(c, k, needed, r).chosen;
      OlderNewer(c, owners, it, o);
    }
  }

  /**
   All reads return the version and origin of `it` if and only if there are too few copies for any read to
   succeed, or no owner is above it and fewer than `needed` are below it.
   */
  lemma ReadsIff(c: Stores, owners: seq<NodeID>, it: Item, needed: nat)
    requires Distinct(owners) && needed >= 1
    ensures AlwaysReads(c, owners, it, needed) <==>
            |Holding(c, owners, it.key)| < needed || (Newer(c, owners, it) == {} && |Older(c, owners, it)| < needed)
  {
    hide Outcome;
    var k := it.key;
    if |Holding(c, owners, k)| < needed {
      forall r: ReadCall ensures !Returns(c, k, owners, needed, r) {
        TooFewCopies(c, k, owners, needed, r);
      }
    } else if |Older(c, owners, it)| >= needed {
      SeesIff(c, owners, it, needed);
      var r: ReadCall :| Returns(c, k, owners, needed, r) && !AtLeast(Outcome(c, k, needed, r).chosen.value, it);
      AtLeastTotal(Outcome(c, k, needed, r).chosen.value, it);
    } else if Newer(c, owners, it) != {} {
      var o :| o in Newer(c, owners, it);
      var r := ReadFirst(c, k, owners, needed, {o});
      NewerWins(Outcome(c, k, needed, r).chosen.value, Held(c, o, k).value, it);
    } else {
      SeesIff(c, owners, it, needed);
      forall r: ReadCall | Returns(c, k, owners, needed, r)
        ensures var x := Outcome(c, k, needed, r).chosen.value; x.version == it.version && x.origin == it.origin
      {
        var used := ReadSummary(c, k, owners, needed, r);
        var o :| o in used && Held(c, o, k) == Outcome(c, k, needed, r).chosen;
        OlderNewer(c, owners, it, o);
      }
    }
  }

  lemma TooFewCopies(c: Stores, k: Key, owners: seq<NodeID>, needed: nat, r: ReadCall)
    requires Distinct(owners)
    ensures Returns(c, k, owners, needed, r) ==> |Holding(c, owners, k)| >= needed
  {
    if Returns(c, k, owners, needed, r) {
      var used := ReadSummary(c, k, owners, needed, r);
      SubsetSize(used, Holding(c, owners, k));
    }
  }

  lemma NewerWins(x: Item, y: Item, it: Item)
    requires AtLeast(x, y) && Beats(y, it)
    ensures !(x.version == it.version && x.origin == it.origin)
  {
    AtLeastTotal(x, y);
    AtLeastTotal(y, it);
  }

  // ---------- when repair may push an owner back ----------

  /** No successful read at `self` leaves an owner below what it held. */
  ghost predicate NeverRegresses(net: Net, self: NodeID, owners: seq<NodeID>, needed: nat) {
    forall c, k, arrivals :: ReadOf(c, net, self, k, owners, arrivals, needed) ==>
      NoRegress(c, Repaired(c, net, self, Gather(Fetches(c, net, self, k, arrivals), needed), owners), owners, k)
  }

  /**
   Repair sends the choice without comparing versions. With every owner reachable, reads never push an owner
   back if and only if they ask all of them.
   */
  lemma NeverRegressesIff(net: Net, self: NodeID, owners: seq<NodeID>, needed: nat)
    requires Distinct(owners) && 1 <= needed <= |owners|
    requires forall m :: m in owners && m != self ==> m in net.reach && m in net.accepts
    ensures NeverRegresses(net, self, owners, needed) <==> needed == |owners|
  {
    hide Gather;
    hide Repaired;
    hide NoRegress;
    if needed == |owners| {
      forall c, k, arrivals | ReadOf(c, net, self, k, owners, arrivals, needed)
        ensures NoRegress(c, Repaired(c, net, self, Gather(Fetches(c, net, self, k, arrivals), needed), owners), owners, k)
      {
        ReadRegressesIff(c, net, self, k, owners, arrivals, needed);
        forall o | o in owners ensures !(Held(c, o, k).Some? && Beats(Held(c, o, k).value, Gather(Fetches(c, net, self, k, arrivals), needed).chosen.value)) {
          AllReadChoosesMaximum(c, net, self, k, owners, arrivals, o);
        }
      }
    } else {
      var c, arrivals := Lagging(net, self, owners, needed);
      ReadRegressesIff(c, net, self, "k", owners, arrivals, needed);
    }
  }

  ghost const NEW := Item("k", "new", 1, "")
  ghost const OLD := Item("k", "old", 0, "")

  /** Every node holds the old item, `late` the new one. */
  ghost function LateStores(nodes: set<NodeID>, late: NodeID): Stores {
    map n | n in nodes :: map["k" := if n == late then NEW else OLD]
  }

  lemma LateHeld(nodes: set<NodeID>, late: NodeID, n: NodeID)
    requires n in nodes
    ensures Held(LateStores(nodes, late), n, "k") == Some(if n == late then NEW else OLD)
  {
  }

  /** One remote owner, asked last, holds something newer than all the others. */
  lemma Lagging(net: Net, self: NodeID, owners: seq<NodeID>, needed: nat) returns (c: Stores, arrivals: seq<NodeID>)
    requires Distinct(owners) && 1 <= needed < |owners|
    requires forall m :: m in owners && m != self ==> m in net.reach && m in net.accepts
    ensures ReadOf(c, net, self, "k", owners, arrivals, needed)
    ensures var st := Gather(Fetches(c, net, self, "k", arrivals), needed);
            exists o :: o in owners && o != self && Held(c, o, "k").Some? && Beats(Held(c, o, "k").value, st.chosen.value)
  {
    hide Gather;
    hide Held;
    hide Fetches;
    hide LateStores;
    var late := if owners[0] == self then owners[1] else owners[0];
    var all := set o | o in owners;
    c := LateStores(all + {self}, late);
    arrivals := OrderWith(owners, all - {late});
    DistinctSize(owners);
    SameMembers(owners, arrivals);
    LateSane(all + {self}, late);
    LateAnswers(c, net, self, owners, arrivals, late);
    LateHeld(all + {self}, late, late);
    LateRead(Fetches(c, net, self, "k", arrivals), needed);
    assert late in owners;
  }

  lemma LateSane(nodes: set<NodeID>, late: NodeID)
    ensures LateStores(nodes, late).Keys == nodes && Keyed(LateStores(nodes, late))
  {
  }

  /** A read that needs fewer answers than there are copies returns the old item. */
  lemma LateRead(rs: seq<Response>, needed: nat)
    requires DistinctOwners(rs) && |Answered(rs)| == |rs| && 1 <= needed < |rs|
    requires forall i :: 0 <= i < |rs| - 1 ==> rs[i].item == Some(OLD)
    ensures Succeeds(Gather(rs, needed), needed) && Gather(rs, needed).chosen == Some(OLD) && Beats(NEW, OLD)
  {
    hide Gather;
    GatherFirst(rs, needed, |rs| - 1);
  }

  lemma LateAnswers(c: Stores, net: Net, self: NodeID, owners: seq<NodeID>, arrivals: seq<NodeID>, late: NodeID)
    requires Distinct(owners) && multiset(arrivals) == multiset(owners) && late in owners
    requires forall m :: m in owners && m != self ==> m in net.reach
    requires c == LateStores((set o | o in owners) + {self}, late)
    requires forall o :: o in arrivals[..|arrivals| - 1] <==> o in owners && o != late
    ensures var rs := Fetches(c, net, self, "k", arrivals);
            && DistinctOwners(rs) && |rs| == |owners| && |Answered(rs)| == |owners|
            && forall i :: 0 <= i < |rs| - 1 ==> rs[i].item == Some(OLD)
  {
    SameMembers(owners, arrivals);
    DistinctPermutation(owners, arrivals);
    var rs := Fetches(c, net, self, "k", arrivals);
    forall i | 0 <= i < |rs| ensures rs[i].item == Some(if arrivals[i] == late then NEW else OLD) {
      assert arrivals[i] in arrivals;
      LateHeld((set o | o in owners) + {self}, late, arrivals[i]);
    }
    forall i | 0 <= i < |rs| - 1 ensures arrivals[i] != late {
      assert arrivals[i] in arrivals[..|arrivals| - 1];
    }
    AnsweredAll(rs);
  }

  // ---------- runs of reads ----------

  /** One Get: its level and, for a gathered read, its call. */
  datatype GetCall = GetCall(lvl: Level, call: ReadCall)

  function AfterGet(c: Stores, k: Key, owners: seq<NodeID>, g: GetCall): Stores {
    if g.lvl.One? then OneRead(c, g.call.net, g.call.reader, k, owners).0
    else
      var st := Outcome(c, k, RequiredAcks(|owners|, g.lvl), g.call);
      if Satisfied(st, RequiredAcks(|owners|, g.lvl)) then Repaired(c, g.call.net, g.call.reader, st, owners) else c
  }

  function AfterGets(c: Stores, k: Key, owners: seq<NodeID>, gs: seq<GetCall>): Stores {
    if gs == [] then c else AfterGet(AfterGets(c, k, owners, gs[..|gs| - 1]), k, owners, gs[|gs| - 1])
  }

  /** The owners at or above `x`. */
  ghost function AtOrAbove(c: Stores, owners: seq<NodeID>, x: Item): set<NodeID> {
    set o | o in owners && Held(c, o, x.key).Some? && AtLeast(Held(c, o, x.key).value, x)
  }

  ghost predicate Sane(c: Stores, owners: seq<NodeID>) {
    Distinct(owners) && owners != [] && (forall o :: o in owners ==> o in c) && Keyed(c)
  }

  ghost predicate Keyed(c: Stores) {
    forall n, j :: n in c && j in c[n] ==> c[n][j].key == j
  }

  /** A Get of the run: at a node of the cluster, and overlapping the `w` holders if it gathers. */
  ghost predicate Overlapping(c: Stores, owners: seq<NodeID>, w: nat, g: GetCall) {
    && g.call.reader in c && multiset(g.call.arrivals) == multiset(owners)
    && (!g.lvl.One? ==> RequiredAcks(|owners|, g.lvl) + w > |owners|)
  }

  lemma {:induction false} RepairAllKeyed(c: Stores, net: Net, self: NodeID, chosen: Item, owners: seq<NodeID>)
    requires Keyed(c)
    ensures Keyed(RepairAll(c, net, self, chosen, owners))
  {
    if owners != [] {
      RepairAllKeyed(c, net, self, chosen, owners[..|owners| - 1]);
    }
  }

  lemma {:induction false} RepairStaleKeyed(c: Stores, net: Net, self: NodeID, chosen: Item, stale: seq<NodeID>)
    requires Keyed(c)
    ensures Keyed(RepairStale(c, net, self, chosen, stale))
  {
    if stale != [] {
      RepairStaleKeyed(c, net, self, chosen, stale[..|stale| - 1]);
    }
  }

  /** Over any network an owner ends with what it held or with the choice. */
  lemma RepairedHeld(c: Stores, net: Net, self: NodeID, k: Key, owners: seq<NodeID>, arrivals: seq<NodeID>, needed: nat, n: NodeID)
    requires ReadOf(c, net, self, k, owners, arrivals, needed)
    ensures var st := Gather(Fetches(c, net, self, k, arrivals), needed); var c' := Repaired(c, net, self, st, owners);
            && c'.Keys == c.Keys && Keyed(c') && (Held(c', n, k) == Held(c, n, k) || Held(c', n, k) == st.chosen)
  {
    ReadFacts(c, net, self, k, owners, arrivals, needed);
    var st := Gather(Fetches(c, net, self, k, arrivals), needed);
    hide Gather;
    var it := st.chosen.value;
    var c1 := RepairStale(c, net, self, it, st.stale);
    RepairStaleEffect(c, net, self, it, st.stale, n);
    RepairStaleKeyed(c, net, self, it, st.stale);
    RepairAllEffect(c1, net, self, it, owners, n);
    RepairAllKeyed(c1, net, self, it, owners);
  }

  /** A gathered read that overlaps the holders returns an item at or above `x`. */
  lemma OverlapSees(c: Stores, owners: seq<NodeID>, x: Item, w: nat, g: GetCall)
    requires Sane(c, owners) && |AtOrAbove(c, owners, x)| >= w && Overlapping(c, owners, w, g) && !g.lvl.One?
    ensures var needed := RequiredAcks(|owners|, g.lvl); var st := Outcome(c, x.key, needed, g.call);
            Satisfied(st, needed) ==> AtLeast(st.chosen.value, x)
  {
    var needed := RequiredAcks(|owners|, g.lvl);
    var above, older, all := AtOrAbove(c, owners, x), Older(c, owners, x), set o | o in owners;
    DistinctSize(owners);
    assert above * older == {};
    assert |above + older| == |above| + |older|;
    SubsetSize(above + older, all);
    SeesIff(c, owners, x, needed);
    hide Outcome;
    if Satisfied(Outcome(c, x.key, needed, g.call), needed) {
      assert Returns(c, x.key, owners, needed, g.call);
    }
  }

  /** No Get of the run takes an owner from at or above `x` to below it. */
  lemma GetKeepsHolders(c: Stores, owners: seq<NodeID>, x: Item, w: nat, g: GetCall)
    requires Sane(c, owners) && |AtOrAbove(c, owners, x)| >= w && Overlapping(c, owners, w, g)
    ensures var c' := AfterGet(c, x.key, owners, g);
            Sane(c', owners) && c'.Keys == c.Keys && AtOrAbove(c, owners, x) <= AtOrAbove(c', owners, x)
  {
    var c', k := AfterGet(c, x.key, owners, g), x.key;
    if g.lvl.One? {
      FirstHitHeld(c, g.call.net, g.call.reader, k, owners);
    } else {
      var needed := RequiredAcks(|owners|, g.lvl);
      OverlapSees(c, owners, x, w, g);
      if Satisfied(Outcome(c, k, needed, g.call), needed) {
        RepairedHeld(c, g.call.net, g.call.reader, k, owners, g.call.arrivals, needed, owners[0]);
        hide Gather;
        hide Repaired;
        forall o | o in AtOrAbove(c, owners, x) ensures o in AtOrAbove(c', owners, x) {
          RepairedHeld(c, g.call.net, g.call.reader, k, owners, g.call.arrivals, needed, o);
        }
      }
    }
  }

  /**
   Over any run of Gets without writes, at any nodes and over any networks, the owners at or above `x` only
   grow in number while every gathered read overlaps them.
   */
  lemma {:induction false} ReadsKeepHolders(c: Stores, owners: seq<NodeID>, x: Item, w: nat, gs: seq<GetCall>)
    requires Sane(c, owners) && |AtOrAbove(c, owners, x)| >= w && forall i :: 0 <= i < |gs| ==> Overlapping(c, owners, w, gs[i])
    ensures var c' := AfterGets(c, x.key, owners, gs);
            Sane(c', owners) && c'.Keys == c.Keys && AtOrAbove(c, owners, x) <= AtOrAbove(c', owners, x) && |AtOrAbove(c', owners, x)| >= w
  {
    hide AfterGet;
    hide Sane;
    hide AtOrAbove;
    if gs != [] {
      var pre := gs[..|gs| - 1];
      ReadsKeepHolders(c, owners, x, w, pre);
      var mid := AfterGets(c, x.key, owners, pre);
      GetKeepsHolders(mid, owners, x, w, gs[|gs| - 1]);
      SubsetSize(AtOrAbove(mid, owners, x), AtOrAbove(AfterGets(c, x.key, owners, gs), owners, x));
    }
  }

  /** So every gathered read of such a run returns an item at or above `x`. */
  lemma RunSees(c: Stores, owners: seq<NodeID>, x: Item, w: nat, gs: seq<GetCall>, g: GetCall)
    requires Sane(c, owners) && |AtOrAbove(c, owners, x)| >= w && Overlapping(c, owners, w, g) && !g.lvl.One?
    requires forall i :: 0 <= i < |gs| ==> Overlapping(c, owners, w, gs[i])
    ensures var needed := RequiredAcks(|owners|, g.lvl); var st := Outcome(AfterGets(c, x.key, owners, gs), x.key, needed, g.call);
            Satisfied(st, needed) ==> AtLeast(st.chosen.value, x)
  {
    ReadsKeepHolders(c, owners, x, w, gs);
    hide Sane;
    hide AtOrAbove;
    OverlapSees(AfterGets(c, x.key, owners, gs), owners, x, w, g);
  }

  // ---------- what a read returns was written ----------

  /** No owner holds another item under the version and origin of `x`. */
  ghost predicate Sole(c: Stores, owners: seq<NodeID>, x: Item) {
    forall o :: o in owners && Held(c, o, x.key).Some? ==>
      var y := Held(c, o, x.key).value; y.version == x.version && y.origin == x.origin ==> y == x
  }

  /** A gathered read over stores where `x` is alone returns `x` or something of another version or origin. */
  lemma SoleRead(c: Stores, owners: seq<NodeID>, x: Item, needed: nat, r: ReadCall)
    requires Distinct(owners) && Sole(c, owners, x) && Returns(c, x.key, owners, needed, r)
    ensures var y := Outcome(c, x.key, needed, r).chosen.value; y.version == x.version && y.origin == x.origin ==> y == x
  {
    hide Outcome;
    var used := ReadSummary(c, x.key, owners, needed, r);
  }

  lemma GetKeepsSole(c: Stores, owners: seq<NodeID>, x: Item, w: nat, g: GetCall)
    requires Sane(c, owners) && Sole(c, owners, x) && Overlapping(c, owners, w, g)
    ensures var c' := AfterGet(c, x.key, owners, g); Sane(c', owners) && c'.Keys == c.Keys && Sole(c', owners, x)
  {
    var c', k := AfterGet(c, x.key, owners, g), x.key;
    if g.lvl.One? {
      FirstHitHeld(c, g.call.net, g.call.reader, k, owners);
    } else {
      var needed := RequiredAcks(|owners|, g.lvl);
      if Satisfied(Outcome(c, k, needed, g.call), needed) {
        SoleRead(c, owners, x, needed, g.call);
        RepairedHeld(c, g.call.net, g.call.reader, k, owners, g.call.arrivals, needed, owners[0]);
        hide Gather;
        hide Repaired;
        forall o | o in owners && Held(c', o, k).Some?
          ensures var y := Held(c', o, k).value; y.version == x.version && y.origin == x.origin ==> y == x
        {
          RepairedHeld(c, g.call.net, g.call.reader, k, owners, g.call.arrivals, needed, o);
        }
      }
    }
  }

  /** Reads spread items as they are: over any run of Gets an item stays the only one of its version and origin. */
  lemma {:induction false} ReadsKeepSole(c: Stores, owners: seq<NodeID>, x: Item, w: nat, gs: seq<GetCall>)
    requires Sane(c, owners) && Sole(c, owners, x) && forall i :: 0 <= i < |gs| ==> Overlapping(c, owners, w, gs[i])
    ensures var c' := AfterGets(c, x.key, owners, gs); Sane(c', owners) && c'.Keys == c.Keys && Sole(c', owners, x)
  {
    hide AfterGet;
    hide Sane;
    hide Sole;
    if gs != [] {
      ReadsKeepSole(c, owners, x, w, gs[..|gs| - 1]);
      GetKeepsSole(AfterGets(c, x.key, owners, gs[..|gs| - 1]), owners, x, w, gs[|gs| - 1]);
    }
  }
}
