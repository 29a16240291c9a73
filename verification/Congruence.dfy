/** Congruence of integers modulo a positive number, stated without quantifiers so
    that callers can pass the multiple they know and get back the one they need. */
module Congruence {

  predicate Cong(x: int, y: int, m: nat)
    requires m > 0
  {
    (x - y) % m == 0
  }

  /** The residue of x, as a function so that proofs can hide the division. */
  function ModOf(x: int, m: nat): int
    requires m > 0
  {
    x % m
  }

  lemma SmallMultiple(k: int, m: int)
    requires -m < k * m < m
    ensures k == 0
  {
    assert k >= 1 ==> k * m >= m;
    assert k <= -1 ==> k * m <= -m;
  }

  lemma MultipleModZero(k: int, m: nat)
    requires m > 0
    ensures (k * m) % m == 0
  {
    var q, r := (k * m) / m, (k * m) % m;
    assert k * m == q * m + r;
    assert (k - q) * m == r;
    SmallMultiple(k - q, m);
  }

  /** Introduction: a known multiple k gives the congruence. */
  lemma Intro(x: int, y: int, m: nat, k: int)
    requires m > 0 && x - y == k * m
    ensures Cong(x, y, m)
  {
    MultipleModZero(k, m);
  }

  /** Elimination: a congruence gives a multiple. */
  lemma Elim(x: int, y: int, m: nat) returns (k: int)
    requires m > 0 && Cong(x, y, m)
    ensures x - y == k * m
  {
    k := (x - y) / m;
  }

  lemma Refl(x: int, m: nat)
    requires m > 0
    ensures Cong(x, x, m)
  {
    Intro(x, x, m, 0);
  }

  lemma Sym(x: int, y: int, m: nat)
    requires m > 0 && Cong(x, y, m)
    ensures Cong(y, x, m)
  {
    var k := Elim(x, y, m);
    Intro(y, x, m, -k);
  }

  lemma Trans(x: int, y: int, z: int, m: nat)
    requires m > 0 && Cong(x, y, m) && Cong(y, z, m)
    ensures Cong(x, z, m)
  {
    var k := Elim(x, y, m);
    var l := Elim(y, z, m);
    assert x - z == (k + l) * m;
    Intro(x, z, m, k + l);
  }

  lemma Add(x: int, y: int, u: int, v: int, m: nat)
    requires m > 0 && Cong(x, y, m) && Cong(u, v, m)
    ensures Cong(x + u, y + v, m)
  {
    var k := Elim(x, y, m);
    var l := Elim(u, v, m);
    assert (x + u) - (y + v) == (k + l) * m;
    Intro(x + u, y + v, m, k + l);
  }

  lemma Sub(x: int, y: int, u: int, v: int, m: nat)
    requires m > 0 && Cong(x, y, m) && Cong(u, v, m)
    ensures Cong(x - u, y - v, m)
  {
    var k := Elim(x, y, m);
    var l := Elim(u, v, m);
    assert (x - u) - (y - v) == (k - l) * m;
    Intro(x - u, y - v, m, k - l);
  }

  lemma Scale(x: int, y: int, c: int, m: nat)
    requires m > 0 && Cong(x, y, m)
    ensures Cong(x * c, y * c, m)
  {
    var k := Elim(x, y, m);
    calc {
      x * c - y * c;
      (x - y) * c;
      (k * m) * c;
      (k * c) * m;
    }
    Intro(x * c, y * c, m, k * c);
  }

  lemma Mul(x: int, y: int, u: int, v: int, m: nat)
    requires m > 0 && Cong(x, y, m) && Cong(u, v, m)
    ensures Cong(x * u, y * v, m)
  {
    Scale(x, y, u, m);
    Scale(u, v, y, m);
    assert u * y == y * u && v * y == y * v;
    Trans(x * u, y * u, y * v, m);
  }

  /** A factor f with inverse g modulo m can be cancelled. */
  lemma Cancel(x: int, y: int, f: int, g: int, m: nat)
    requires m > 0 && Cong(f * g, 1, m) && Cong(x * f, y * f, m)
    ensures Cong(x, y, m)
  {
    Undo(x, f, g, m);
    Undo(y, f, g, m);
    Scale(x * f, y * f, g, m);
    Sym((x * f) * g, x, m);
    Trans(x, (x * f) * g, (y * f) * g, m);
    Trans(x, (y * f) * g, y, m);
  }

  lemma Undo(x: int, f: int, g: int, m: nat)
    requires m > 0 && Cong(f * g, 1, m)
    ensures Cong((x * f) * g, x, m)
  {
    Scale(f * g, 1, x, m);
    assert (f * g) * x == (x * f) * g;
  }

  /** The residue in [0, m) is the only member of its class there. */
  lemma Residue(x: int, y: int, m: nat)
    requires m > 0 && Cong(x, y, m) && 0 <= x < m
    ensures x == y % m
  {
    var k := Elim(x, y, m);
    var q, r := y / m, y % m;
    assert y == q * m + r;
    assert x - r == (k + q) * m;
    SmallMultiple(k + q, m);
  }

  function Pow(b: int, e: nat): int
  {
    if e == 0 then 1 else b * Pow(b, e - 1)
  }

  lemma PowPos(b: int, e: nat)
    requires b > 0
    ensures Pow(b, e) > 0
  {
    if e > 0 {
      PowPos(b, e - 1);
    }
  }

  lemma {:induction false} PowAdd(b: int, e: nat, f: nat)
    ensures Pow(b, e + f) == Pow(b, e) * Pow(b, f)
  {
    if e > 0 {
      PowAdd(b, e - 1, f);
      assert b * (Pow(b, e - 1) * Pow(b, f)) == (b * Pow(b, e - 1)) * Pow(b, f);
    }
  }

  /** Inverses are multiplied along: (f·g) ≡ 1 gives f^e · g^e ≡ 1. */
  lemma {:induction false} PowInverse(f: int, g: int, e: nat, m: nat)
    requires m > 0 && Cong(f * g, 1, m)
    ensures Cong(Pow(f, e) * Pow(g, e), 1, m)
  {
    if e == 0 {
      Refl(1, m);
    } else {
      PowInverse(f, g, e - 1, m);
      var p, q := Pow(f, e - 1), Pow(g, e - 1);
      Mul(f * g, 1, p * q, 1, m);
      assert (f * g) * (p * q) == (f * p) * (g * q);
    }
  }
}
