/** Rounding to multiples, as the DIV_ROUND_UP, ALIGN and ALIGN_DOWN macros do. */
module Rounding {
  import opened Congruence

  function DivUp(x: nat, y: nat): (r: nat)
    requires y > 0
  {
    (x + y - 1) / y
  }

  function Align(x: nat, y: nat): (r: nat)
    requires y > 0
  {
    y * ((x + y - 1) / y)
  }

  function AlignDown(x: nat, y: nat): nat
    requires y > 0
  {
    y * (x / y)
  }

  function Quotient(x: nat, y: nat): nat
    requires y > 0
  {
    x / y
  }

  lemma DivUnique(v: int, d: nat, q: int, r: int)
    requires d > 0 && v == d * q + r && 0 <= r < d
    ensures v / d == q && v % d == r
  {
    hide Cong;
    Intro(r, v, d, -q);
    Residue(r, v, d);
    var q' := v / d;
    assert v == d * q' + r;
    assert (q' - q) * d == d * q' - d * q == 0;
    SmallMultiple(q' - q, d);
  }

  lemma AlignFacts(x: nat, y: nat)
    requires y > 0
    ensures x <= Align(x, y) < x + y && Align(Align(x, y), y) == Align(x, y)
    ensures Align(x, y) == DivUp(x, y) * y
  {
    var q, r := (x + y - 1) / y, (x + y - 1) % y;
    assert x + y - 1 == y * q + r;
    assert (y * q + (y - 1)) / y == q by {
      DivUnique(y * q + (y - 1), y, q, y - 1);
    }
  }

  lemma AlignDownFacts(x: nat, y: nat)
    requires y > 0
    ensures x - y < AlignDown(x, y) <= x
    ensures AlignDown(x, y) / y == x / y
    ensures y <= x ==> x / y >= 1 && AlignDown(x, y) >= y
    ensures x < y ==> AlignDown(x, y) == 0
  {
    var q, r := x / y, x % y;
    assert x == y * q + r;
    DivUnique(y * q, y, q, 0);
    assert q < 1 ==> y * q <= 0;
    if x < y {
      DivUnique(x, y, 0, x);
    }
  }

  /** k blocks of y bytes start below x exactly for the first DivUp(x, y) values of k. */
  lemma DivUpCounts(x: nat, y: nat, k: int)
    requires y > 0
    ensures k * y < x <==> k < DivUp(x, y)
  {
    AlignFacts(x, y);
    var d := DivUp(x, y);
    if k < d {
      assert (k + 1) * y <= d * y by { MulLe(k + 1, d, y); }
    } else {
      assert d * y <= k * y by { MulLe(d, k, y); }
    }
  }

  lemma MulLe(a: int, b: int, y: nat)
    requires a <= b
    ensures a * y <= b * y
  {
    assert (b - a) * y >= 0;
  }

  lemma DivUpAdd(x: nat, q: nat, y: nat)
    requires y > 0
    ensures DivUp(q * y + x, y) == q + DivUp(x, y)
  {
    var d, r := (x + y - 1) / y, (x + y - 1) % y;
    assert x + y - 1 == y * d + r;
    assert q * y + x + y - 1 == y * (q + d) + r;
    DivUnique(q * y + x + y - 1, y, q + d, r);
  }

  lemma DivUpPositive(x: nat, y: nat)
    requires y > 0
    ensures DivUp(x, y) > 0 <==> x > 0
  {
    DivUpCounts(x, y, 0);
  }

  /** Rounding down and up agree only on multiples. */
  lemma DivUpExact(x: nat, y: nat)
    requires y > 0 && x / y >= DivUp(x, y)
    ensures x == (x / y) * y
  {
    AlignFacts(x, y);
    AlignDownFacts(x, y);
    MulLe(DivUp(x, y), x / y, y);
  }
}
