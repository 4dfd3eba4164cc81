/** Strings under the byte-wise lexicographic order that Go's `<` and strings.Compare use. */
module Lex {

  predicate Less(a: string, b: string) {
    b != [] && (a == [] || a[0] < b[0] || (a[0] == b[0] && Less(a[1..], b[1..])))
  }

  predicate Leq(a: string, b: string) {
    !Less(b, a)
  }

  lemma {:induction false} Trichotomy(a: string, b: string)
    ensures Less(a, b) || a == b || Less(b, a)
    ensures !(Less(a, b) && Less(b, a))
  {
    if a != [] && b != [] {
      Trichotomy(a[1..], b[1..]);
      if a[0] == b[0] && a[1..] == b[1..] {
        assert a == [a[0]] + a[1..] == b;
      }
    }
  }

  lemma {:induction false} Transitive(a: string, b: string, c: string)
    requires Less(a, b) && Less(b, c)
    ensures Less(a, c)
  {
    if a != [] && a[0] == b[0] == c[0] {
      Transitive(a[1..], b[1..], c[1..]);
    }
  }

  lemma LeqTransitive(a: string, b: string, c: string)
    requires Leq(a, b) && Leq(b, c)
    ensures Leq(a, c)
  {
    Trichotomy(a, b);
    Trichotomy(b, c);
    if Less(c, a) {
      if Less(a, b) {
        Transitive(c, a, b);
      }
    }
  }

  /** A key above every key of a finite set. */
  lemma {:induction false} Above(keys: set<string>) returns (z: string)
    ensures forall k :: k in keys ==> Less(k, z)
  {
    if keys == {} {
      z := "";
    } else {
      var k :| k in keys;
      var y := Above(keys - {k});
      var top := if Less(y, k) then k else y;
      z := top + ['a'];
      ExtendAbove(top);
      Trichotomy(y, k);
      forall j | j in keys ensures Less(j, z) {
        if j != k {
          assert j in keys - {k};
          if Less(y, k) { Transitive(j, y, k); }
          Transitive(j, top, z);
        } else if top == y && k != y {
          Transitive(k, y, z);
        }
      }
    }
  }

  lemma {:induction false} ExtendAbove(a: string)
    ensures Less(a, a + ['a'])
  {
    if a != [] {
      ExtendAbove(a[1..]);
      assert (a + ['a'])[1..] == a[1..] + ['a'];
    }
  }
}

/** Cached items and the version order that decides between replicas (pkg/backend/dist_memory.go:3547). */
module Items {
  import opened Lex

  type Key = string

  datatype Option<+T> = None | Some(value: T)

  /** An item as the cluster sees it; the payload is any string. */
  datatype Item = Item(key: Key, value: string, version: nat, origin: string)

  /** `a` is strictly newer than `b`: higher version, or same version and smaller origin. */
  predicate Beats(a: Item, b: Item) {
    a.version > b.version || (a.version == b.version && Less(a.origin, b.origin))
  }

  /** `a` is at or above `b`. */
  predicate AtLeast(a: Item, b: Item) {
    !Beats(b, a)
  }

  function ChooseNewer(a: Option<Item>, b: Option<Item>): Option<Item> {
    if a.None? then b
    else if b.None? then a
    else if b.value.version > a.value.version then b
    else if a.value.version > b.value.version then a
    else if Less(b.value.origin, a.value.origin) then b
    else a
  }

  /** The read-repair queue's own comparison (pkg/backend/dist_read_repair.go:263). */
  predicate IsHigherVersion(candidate: Item, existing: Item) {
    if candidate.version > existing.version then true
    else if candidate.version < existing.version then false
    else Less(candidate.origin, existing.origin)
  }

  lemma AtLeastTransitive(a: Item, b: Item, c: Item)
    requires AtLeast(a, b) && AtLeast(b, c)
    ensures AtLeast(a, c)
  {
    if a.version == b.version == c.version {
      LeqTransitive(a.origin, b.origin, c.origin);
    }
  }

  lemma AtLeastTotal(a: Item, b: Item)
    ensures AtLeast(a, b) || AtLeast(b, a)
    ensures AtLeast(a, a)
    ensures AtLeast(a, b) && AtLeast(b, a) <==> a.version == b.version && a.origin == b.origin
  {
    Trichotomy(a.origin, b.origin);
    Trichotomy(a.origin, a.origin);
  }

  lemma BeatsAtLeast(a: Item, b: Item, c: Item)
    requires Beats(a, b) && AtLeast(b, c)
    ensures Beats(a, c)
  {
    AtLeastTotal(a, b);
    AtLeastTotal(b, c);
    if a.version == b.version == c.version {
      Trichotomy(b.origin, c.origin);
      if Less(b.origin, c.origin) {
        Transitive(a.origin, b.origin, c.origin);
      }
    }
  }

  /** The two comparisons are one order: a candidate replaces a queued repair exactly when a read would prefer it. */
  lemma ComparisonsAgree(existing: Item, candidate: Item)
    ensures IsHigherVersion(candidate, existing) <==> Beats(candidate, existing)
    ensures ChooseNewer(Some(existing), Some(candidate)) ==
            Some(if IsHigherVersion(candidate, existing) then candidate else existing)
  {
  }

  /** ChooseNewer keeps an upper bound of its two arguments. */
  lemma ChooseNewerBound(a: Option<Item>, b: Option<Item>)
    ensures var c := ChooseNewer(a, b);
            && (c.None? <==> a.None? && b.None?) && (c == a || c == b)
            && (a.Some? ==> AtLeast(c.value, a.value)) && (b.Some? ==> AtLeast(c.value, b.value))
  {
    if a.Some? && b.Some? {
      AtLeastTotal(a.value, b.value);
      AtLeastTotal(b.value, a.value);
    } else if a.Some? {
      AtLeastTotal(a.value, a.value);
    } else if b.Some? {
      AtLeastTotal(b.value, b.value);
    }
  }
}
