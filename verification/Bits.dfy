/** Bitwise AND on naturals, as the shard masks use it. */
module Bits {
  function And(x: nat, y: nat): nat {
    if x == 0 || y == 0 then 0 else 2 * And(x / 2, y / 2) + (if x % 2 == 1 && y % 2 == 1 then 1 else 0)
  }

  function Pow2(p: nat): (r: nat)
    ensures r >= 1
  {
    if p == 0 then 1 else 2 * Pow2(p - 1)
  }

  /** A mask of low ones takes the remainder. */
  lemma {:induction false} AndLowMask(x: nat, p: nat)
    ensures And(x, Pow2(p) - 1) == x % Pow2(p)
    decreases p
  {
    if p > 0 {
      hide And;
      AndLowMask(x / 2, p - 1);
      DoubleMod(x, Pow2(p - 1));
      MaskUnfold(x, Pow2(p - 1));
    }
  }

  lemma MaskUnfold(x: nat, n: nat)
    requires n >= 1
    ensures And(x, 2 * n - 1) == 2 * And(x / 2, n - 1) + x % 2
  {
    assert (2 * n - 1) / 2 == n - 1 && (2 * n - 1) % 2 == 1;
  }

  lemma DoubleMod(x: nat, n: nat)
    requires n >= 1
    ensures x % (2 * n) == 2 * (x / 2 % n) + x % 2
  {
    var h, b := x / 2, x % 2;
    var q, r := h / n, h % n;
    assert x == (2 * n) * q + (2 * r + b) by {
      assert h == n * q + r;
      assert 2 * (n * q) == (2 * n) * q;
    }
    ModUnique(x, 2 * n, q, 2 * r + b);
  }

  lemma NotAbove(n: nat, q: nat, r: nat, q': nat, r': nat)
    requires n * q + r == n * q' + r' && r' < n
    ensures q <= q'
  {
    if q' < q {
      MulGap(n, q', q);
    }
  }

  lemma MulGap(n: nat, p: nat, q: nat)
    requires p < q
    ensures n * q >= n * p + n
  {
    var d := q - p - 1;
    assert n * q == n * p + n * d + n;
    assert n * d >= 0;
  }

  lemma ModUnique(x: nat, n: nat, q: nat, r: nat)
    requires n >= 1 && r < n && x == n * q + r
    ensures x % n == r
  {
    var q', r' := x / n, x % n;
    assert x == n * q' + r';
    NotAbove(n, q, r, q', r');
    NotAbove(n, q', r', q, r);
  }

  lemma {:induction false} AndSelf(x: nat)
    ensures And(x, x) == x
  {
    if x > 0 {
      AndSelf(x / 2);
    }
  }

  ghost predicate IsPow2(n: nat) {
    exists p: nat :: n == Pow2(p)
  }

  lemma HalfPow2(m: nat)
    requires m > 0
    ensures IsPow2(2 * m) <==> IsPow2(m)
    ensures !IsPow2(2 * m + 1)
  {
    if p: nat :| m == Pow2(p) {
      assert 2 * m == Pow2(p + 1);
    }
    if p: nat :| 2 * m == Pow2(p) {
      assert m == Pow2(p - 1);
    }
    forall p: nat ensures 2 * m + 1 != Pow2(p) {
      assert p > 0 ==> Pow2(p) == 2 * Pow2(p - 1);
    }
  }

  lemma HalfAnd(m: nat)
    requires m > 0
    ensures And(2 * m, 2 * m - 1) == 2 * And(m, m - 1) && And(2 * m + 1, 2 * m) == 2 * m
  {
    hide And;
    AndSelf(m);
    AndUnfold(2 * m, 2 * m - 1);
    AndUnfold(2 * m + 1, 2 * m);
    assert (2 * m - 1) / 2 == m - 1;
  }

  lemma AndUnfold(x: nat, y: nat)
    ensures And(x, y) == 2 * And(x / 2, y / 2) + if x % 2 == 1 && y % 2 == 1 then 1 else 0
  {
  }

  /** The test `n & (n - 1) == 0` recognises exactly the powers of two. */
  lemma {:induction false} PowerOfTwoTest(n: nat)
    requires n > 0
    ensures And(n, n - 1) == 0 <==> IsPow2(n)
  {
    if n == 1 {
      assert n == Pow2(0);
    } else {
      hide And;
      hide IsPow2;
      var m := n / 2;
      HalfPow2(m);
      HalfAnd(m);
      PowerOfTwoTest(m);
      assert n == 2 * m || n == 2 * m + 1;
    }
  }

  lemma {:induction false} Pow2Divides(p: nat, q: nat)
    requires p <= q
    ensures Pow2(q) % Pow2(p) == 0
    decreases q - p
  {
    if p == q {
      ModUnique(Pow2(q), Pow2(p), 1, 0);
    } else {
      Pow2Divides(p, q - 1);
      var n, d := Pow2(q - 1), Pow2(p);
      assert n == d * (n / d);
      assert 2 * n == d * (2 * (n / d));
      ModUnique(2 * n, d, 2 * (n / d), 0);
    }
  }

  lemma Regroup(x: nat, n: nat, k: nat, q: nat, r: nat, s: nat, t: nat)
    requires x == (n * k) * q + r && r == n * s + t
    ensures x == n * (k * q + s) + t
  {
    assert (n * k) * q == n * (k * q);
    assert n * (k * q) + n * s == n * (k * q + s);
  }

  lemma ModMod(x: nat, n: nat, k: nat)
    requires n > 0 && k > 0
    ensures n * k > 0 && x % (n * k) % n == x % n
  {
    var w := n * k;
    Divide(x, w);
    Divide(x % w, n);
    Regroup(x, n, k, x / w, x % w, x % w / n, x % w % n);
    ModUnique(x, n, k * (x / w) + x % w / n, x % w % n);
  }

  lemma Divide(x: nat, n: nat)
    requires n > 0
    ensures x == n * (x / n) + x % n && x % n < n
  {
  }
}
