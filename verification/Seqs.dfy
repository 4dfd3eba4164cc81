/** Facts about sequences and finite sets that several models share. */
module Seqs {

  ghost predicate Distinct<T>(s: seq<T>) {
    forall i, j :: 0 <= i < j < |s| ==> s[i] != s[j]
  }

  lemma {:induction false} DistinctSize<T>(s: seq<T>)
    requires Distinct(s)
    ensures |set x | x in s| == |s|
  {
    if s != [] {
      var init, last := s[..|s| - 1], s[|s| - 1];
      DistinctSize(init);
      assert (set x | x in s) == (set x | x in init) + {last};
    }
  }

  lemma {:induction false} DistinctCount<T>(a: seq<T>, x: T)
    requires Distinct(a)
    ensures multiset(a)[x] <= 1
  {
    if a != [] {
      var init, last := a[..|a| - 1], a[|a| - 1];
      assert a == init + [last];
      DistinctCount(init, x);
      if x == last {
        assert x !in init;
      }
    }
  }

  lemma {:induction false} DistinctPermutation<T>(a: seq<T>, b: seq<T>)
    requires Distinct(a) && multiset(a) == multiset(b)
    ensures Distinct(b)
  {
    forall i, j | 0 <= i < j < |b| ensures b[i] != b[j] {
      if b[i] == b[j] {
        assert b == b[..i] + [b[i]] + b[i + 1..j] + [b[j]] + b[j + 1..];
        assert multiset(b)[b[i]] >= 2;
        DistinctCount(a, b[i]);
      }
    }
  }

  lemma {:induction false} SubsetSize<T>(a: set<T>, b: set<T>)
    requires a <= b
    ensures |a| <= |b|
  {
    if a != {} {
      var x :| x in a;
      SubsetSize(a - {x}, b - {x});
    }
  }

  /** `s` with `v` put in at position `k`. */
  function Splice<T>(s: seq<T>, k: nat, v: T): (r: seq<T>)
    requires k <= |s|
  {
    s[..k] + [v] + s[k..]
  }

  lemma SpliceAt<T>(s: seq<T>, k: nat, v: T)
    requires k <= |s|
    ensures var r := Splice(s, k, v);
            && |r| == |s| + 1
            && forall i :: 0 <= i < |r| ==> r[i] == (if i < k then s[i] else if i == k then v else s[i - 1])
  {
  }

  lemma SpliceBag<T>(s: seq<T>, k: nat, v: T)
    requires k <= |s|
    ensures multiset(Splice(s, k, v)) == multiset(s) + multiset{v}
  {
    assert s == s[..k] + s[k..];
  }

  /** `s` rotated so that position `k` comes first. */
  function Rotate<T>(s: seq<T>, k: nat): (r: seq<T>)
    requires k <= |s|
  {
    s[k..] + s[..k]
  }

  lemma RotateAt<T>(s: seq<T>, k: nat)
    requires k <= |s|
    ensures var r := Rotate(s, k);
            && |r| == |s|
            && forall i :: 0 <= i < |r| ==> r[i] == (if i < |s| - k then s[k + i] else s[i - (|s| - k)])
  {
  }

  lemma RotateMembers<T>(s: seq<T>, k: nat)
    requires k <= |s|
    ensures forall x :: x in Rotate(s, k) <==> x in s
  {
    assert s == s[..k] + s[k..];
  }
}
