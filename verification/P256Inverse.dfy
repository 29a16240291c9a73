/** Binary Euclid on digit arrays (p256_modinv_vartime and what it calls). */
module P256Inverse {
  import opened Words
  import opened Congruence
  import opened P256

  // ----- digit-array routines; the output may be one of the inputs -----

  predicate IsOdd(a: seq<u32>)
    requires a != []
  {
    a[0] % 2 == 1
  }

  lemma Parity(a: seq<u32>)
    requires a != []
    ensures Val(a) % 2 == a[0] % 2 && (IsOdd(a) <==> Val(a) % 2 == 1)
  {
    hide Val;
    ValSplit(a, 1);
    assert a[..1] == [a[0]];
    ValSingle(a[0]);
    assert R(1) == BASE * R(0) == BASE;
    EvenMultiple(a[0], Val(a[1..]));
  }

  lemma EvenMultiple(d: int, v: int)
    ensures (d + BASE * v) % 2 == d % 2
  {
  }

  ghost predicate Shifted(w: seq<u32>, i: nat, done: seq<u32>)
    requires i < |w|
  {
    |done| == i && 2 * Val(done) + w[0] % 2 == Val(w[..i]) + (w[i] % 2) * R(i)
  }

  lemma ShiftedSnoc(w: seq<u32>, i: nat, done: seq<u32>, d: u32, next: int, top: int)
    requires i < |w| && Shifted(w, i, done) && d == w[i] / 2 + next * 0x8000_0000
    ensures 2 * Val(done + [d]) + w[0] % 2 == Val(w[..i + 1]) + next * R(i + 1)
  {
    ValSnoc(w, i);
    ValAppend(done, d);
    var r, h, l := R(i), w[i] / 2, w[i] % 2;
    assert w[i] == 2 * h + l;
    hide Val;
    ShiftDigit(r, h, l, next);
  }

  lemma ShiftDigit(r: int, h: int, l: int, next: int)
    ensures 2 * ((h + next * 0x8000_0000) * r) == (2 * h + l) * r - l * r + next * (BASE * r)
  {
    assert (h + next * 0x8000_0000) * r == h * r + (next * r) * 0x8000_0000;
    assert next * (BASE * r) == (next * r) * BASE;
  }

  /** b = (highbit, a) >> 1. */
  method Shr1(a: array<u32>, highbit: u32, b: array<u32>)
    requires a.Length == b.Length > 0 && highbit <= 1
    modifies b
    ensures 2 * Val(b[..]) + old(a[0]) % 2 == Val(old(a[..])) + highbit * R(a.Length)
  {
    hide Val, R;
    ghost var w := a[..];
    var n := a.Length;
    assert Shifted(w, 0, b[..0]) by { ShiftStart(w); }
    for i := 0 to n - 1
      invariant forall k :: i <= k < n ==> a[k] == w[k]
      invariant Shifted(w, i, b[..i])
    {
      ghost var done := b[..i];
      var accu: u32 := a[i] / 2 + (a[i + 1] * 0x8000_0000) % BASE;
      assert (a[i + 1] * 0x8000_0000) % BASE == (a[i + 1] % 2) * 0x8000_0000 by { HighBit(a[i + 1]); }
      ShiftedSnoc(w, i, done, accu, a[i + 1] % 2, 0);
      b[i] := accu;
      assert b[..i + 1] == done + [accu];
    }
    ghost var done := b[..n - 1];
    ShiftedSnoc(w, n - 1, done, a[n - 1] / 2 + highbit * 0x8000_0000, highbit, 0);
    b[n - 1] := a[n - 1] / 2 + highbit * 0x8000_0000;
    assert b[..] == done + [b[n - 1]];
    assert w[..n] == w;
  }

  lemma ShiftStart(w: seq<u32>)
    requires w != []
    ensures Shifted(w, 0, [])
  {
  }

  lemma HighBit(x: u32)
    ensures (x * 0x8000_0000) % BASE == (x % 2) * 0x8000_0000
  {
    assert x == 2 * (x / 2) + x % 2;
  }

  /** Returns the borrow of a - b, and stores the difference unless c is null. */
  method Sub(a: array<u32>, b: array<u32>, c: array?<u32>) returns (borrow: int)
    requires a.Length == b.Length && (c != null ==> c.Length == a.Length)
    modifies c
    ensures
      var x, y := Val(old(a[..])), Val(old(b[..]));
      && borrow == (if x < y then -1 else 0)
      && (c != null ==> Val(c[..]) == x - y + (if x < y then R(a.Length) else 0))
  {
    hide Val, R, Carried;
    ghost var x, y: seq<u32>, done: seq<u32> := a[..], b[..], [];
    borrow := 0;
    CarriedStart(x, y, -1);
    for i := 0 to a.Length
      invariant -1 <= borrow <= 0
      invariant forall k :: i <= k < a.Length ==> a[k] == x[k] && b[k] == y[k]
      invariant Carried(x, y, -1, i, done, borrow) && |done| == i
      invariant c != null ==> c[..i] == done
    {
      CarriedSnoc(x, y, -1, i, done, borrow);
      borrow := borrow + a[i] - b[i];
      done := done + [borrow % BASE];
      if c != null {
        c[i] := borrow % BASE;
      }
      borrow := borrow / BASE;
    }
    CarriedEnd(x, y, -1, done, borrow);
    ValBound(done);
    ValBound(x);
    ValBound(y);
    BorrowOut(Val(done), borrow, R(a.Length), Val(x), Val(y));
    if c != null {
      assert c[..] == c[..a.Length];
    }
  }

  /** Returns the carry of a + b, and stores the sum unless c is null. */
  method Add(a: array<u32>, b: array<u32>, c: array?<u32>) returns (carry: u32)
    requires a.Length == b.Length && (c != null ==> c.Length == a.Length)
    modifies c
    ensures
      var s := Val(old(a[..])) + Val(old(b[..]));
      && carry == (if s >= R(a.Length) then 1 else 0)
      && (c != null ==> Val(c[..]) == s - (if s >= R(a.Length) then R(a.Length) else 0))
  {
    hide Val, R, Carried;
    ghost var x, y: seq<u32>, done: seq<u32> := a[..], b[..], [];
    carry := 0;
    CarriedStart(x, y, 1);
    for i := 0 to a.Length
      invariant 0 <= carry <= 1
      invariant forall k :: i <= k < a.Length ==> a[k] == x[k] && b[k] == y[k]
      invariant Carried(x, y, 1, i, done, carry) && |done| == i
      invariant c != null ==> c[..i] == done
    {
      CarriedSnoc(x, y, 1, i, done, carry);
      var sum: u64 := carry + a[i] + b[i];
      done := done + [sum % BASE];
      if c != null {
        c[i] := sum % BASE;
      }
      carry := sum / BASE;
    }
    CarriedEnd(x, y, 1, done, carry);
    ValBound(done);
    CarryOut(Val(done), carry, R(a.Length), Val(x) + Val(y));
    if c != null {
      assert c[..] == c[..a.Length];
    }
  }

  method IsZero(a: array<u32>) returns (zero: bool)
    ensures zero <==> Val(a[..]) == 0
  {
    hide Val, R;
    zero := true;
    for i := 0 to a.Length
      invariant zero <==> forall k :: 0 <= k < i ==> a[k] == 0
    {
      if a[i] != 0 {
        zero := false;
      }
    }
    ZeroDigits(a[..]);
  }

  lemma {:induction false} ZeroDigits(s: seq<u32>)
    ensures Val(s) == 0 <==> forall k :: 0 <= k < |s| ==> s[k] == 0
  {
    if s != [] {
      var h := |s| - 1;
      ZeroDigits(s[..h]);
      MulMono(if s[h] > 0 then 1 else 0, R(h), s[h]);
      assert forall k :: 0 <= k < h ==> s[k] == s[..h][k];
    }
  }

  /** out = in mod MOD, for in below twice MOD. */
  method Mod(MOD: array<u32>, a: array<u32>, out: array<u32>)
    requires MOD.Length == a.Length == out.Length && out != MOD
    modifies out
    ensures
      var x, m := Val(old(a[..])), Val(MOD[..]);
      Val(out[..]) == if x >= m then x - m else x
  {
    hide Val;
    ghost var w := a[..];
    CopyDigits(out, a);
    assert out[..a.Length] == w[..a.Length] == w;
    ReduceOnce(MOD[..], out);
    assert out[..] == out[..a.Length];
  }

  // ----- divisors -----

  predicate Divides(d: nat, x: int)
    requires d > 0
  {
    x % d == 0
  }

  lemma DividesElim(d: nat, x: int) returns (k: int)
    requires d > 0 && Divides(d, x)
    ensures x == k * d
  {
    k := x / d;
  }

  lemma DividesIntro(d: nat, x: int, k: int)
    requires d > 0 && x == k * d
    ensures Divides(d, x)
  {
    MultipleModZero(k, d);
  }

  /** (u, v) and (m, a) have the same common divisors. */
  ghost predicate SameDivisors(u: int, v: int, m: int, a: int)
  {
    forall d: nat | d > 0 :: Divides(d, u) && Divides(d, v) <==> Divides(d, m) && Divides(d, a)
  }

  /** Halving an even number loses no divisor shared with an odd one. */
  lemma HalveDivisors(d: nat, u: int, h: int, v: int)
    requires d > 0 && u == 2 * h && v % 2 == 1
    ensures Divides(d, u) && Divides(d, v) <==> Divides(d, h) && Divides(d, v)
  {
    hide Divides;
    if Divides(d, h) {
      var k := DividesElim(d, h);
      assert u == (2 * k) * d;
      DividesIntro(d, u, 2 * k);
    }
    if Divides(d, u) && Divides(d, v) {
      var k := DividesElim(d, u);
      var l := DividesElim(d, v);
      OddFactor(l, d);
      EvenFactor(k, d, h);
      DividesIntro(d, h, k / 2);
    }
  }

  lemma OddFactor(l: int, d: int)
    requires (l * d) % 2 == 1
    ensures d % 2 == 1
  {
    var q, r := d / 2, d % 2;
    assert d == 2 * q + r;
    assert l * d == 2 * (l * q) + l * r;
  }

  lemma EvenFactor(k: int, d: int, h: int)
    requires k * d == 2 * h && d % 2 == 1
    ensures h == (k / 2) * d
  {
    var q, r := k / 2, k % 2;
    assert k == 2 * q + r;
    assert k * d == 2 * (q * d) + r * d;
    assert r == 1 ==> d == 2 * (h - q * d);
  }

  lemma SubtractDivisors(d: nat, u: int, v: int)
    requires d > 0
    ensures Divides(d, u) && Divides(d, v) <==> Divides(d, u) && Divides(d, v - u)
  {
    hide Divides;
    if Divides(d, u) {
      var k := DividesElim(d, u);
      if Divides(d, v) {
        var l := DividesElim(d, v);
        assert v - u == (l - k) * d;
        DividesIntro(d, v - u, l - k);
      }
      if Divides(d, v - u) {
        var l := DividesElim(d, v - u);
        assert v == (l + k) * d;
        DividesIntro(d, v, l + k);
      }
    }
  }

  /** g is the greatest common divisor of m and a: the positive number whose divisors are
      exactly their common divisors. */
  ghost predicate IsGcd(g: nat, m: int, a: int)
  {
    g > 0 && forall d: nat | d > 0 :: Divides(d, g) <==> Divides(d, m) && Divides(d, a)
  }

  // ----- the Euclid invariant -----

  /** What the loop keeps: u and v are the multiples r·a and s·a modulo m, at least one
      of them is odd, and no common divisor was lost or gained. */
  ghost predicate Euclid(u: int, v: int, r: int, s: int, m: nat, a: int)
    requires m > 0
  {
    && 0 <= r < m && 0 <= s < m
    && Cong(u, r * a, m) && Cong(v, s * a, m)
    && (u % 2 == 1 || v % 2 == 1)
    && SameDivisors(u, v, m, a)
  }

  lemma EuclidStart(m: nat, a: nat)
    requires m > 1 && m % 2 == 1
    ensures Euclid(m, a, 0, 1, m, a)
  {
    Intro(m, 0 * a, m, 1);
    Refl(a, m);
    assert 1 * a == a;
  }

  lemma EuclidSwap(u: int, v: int, r: int, s: int, m: nat, a: int)
    requires m > 0 && Euclid(u, v, r, s, m, a)
    ensures Euclid(v, u, s, r, m, a)
  {
  }

  /** Two has the inverse (m + 1) / 2 modulo an odd m. */
  lemma HalveCong(h: int, x: int, y: int, a: int, m: nat)
    requires m > 0 && m % 2 == 1 && Cong(2 * h, x * a, m) && (2 * y == x || 2 * y == x + m)
    ensures Cong(h, y * a, m)
  {
    hide Cong;
    if 2 * y == x + m {
      Intro(x * a, (2 * y) * a, m, -a) by { assert x * a - (2 * y) * a == -a * m; }
    } else {
      Refl(x * a, m);
    }
    assert (2 * y) * a == (y * a) * 2;
    Trans(h * 2, x * a, (y * a) * 2, m);
    var g := (m + 1) / 2;
    assert 2 * g - 1 == 1 * m;
    Intro(2 * g, 1, m, 1);
    Cancel(h, y * a, 2, g, m);
  }

  /** Halving an even u keeps the invariant when r is halved modulo m. */
  lemma EuclidHalve(u: int, h: int, v: int, r: int, r2: int, s: int, m: nat, a: int)
    requires m > 0 && m % 2 == 1 && Euclid(u, v, r, s, m, a) && u == 2 * h
    requires 2 * r2 == if r % 2 == 0 then r else r + m
    ensures Euclid(h, v, r2, s, m, a)
  {
    assert v % 2 == 1;
    HalveCong(h, r, r2, a, m);
    forall d: nat | d > 0
      ensures Divides(d, h) && Divides(d, v) <==> Divides(d, m) && Divides(d, a)
    {
      HalveDivisors(d, u, h, v);
      assert Divides(d, u) && Divides(d, v) <==> Divides(d, m) && Divides(d, a);
    }
  }

  /** Subtracting one odd number from the other keeps the invariant. */
  lemma EuclidSubtract(u: int, v: int, r: int, s: int, s2: int, m: nat, a: int)
    requires m > 0 && Euclid(u, v, r, s, m, a) && u % 2 == 1
    requires s2 == if s < r then s - r + m else s - r
    ensures Euclid(u, v - u, r, s2, m, a)
  {
    Congruence.Sub(v, s * a, u, r * a, m);
    assert s * a - r * a == (s - r) * a;
    Intro((s - r) * a, s2 * a, m, if s < r then -a else 0) by {
      if s < r {
        assert (s - r) * a - s2 * a == -a * m;
      }
    }
    Trans(v - u, (s - r) * a, s2 * a, m);
    forall d: nat | d > 0
      ensures Divides(d, u) && Divides(d, v - u) <==> Divides(d, m) && Divides(d, a)
    {
      SubtractDivisors(d, u, v);
      assert Divides(d, u) && Divides(d, v) <==> Divides(d, m) && Divides(d, a);
    }
  }

  /** When v reaches zero, u is the gcd and r its multiplier. */
  lemma EuclidEnd(u: nat, r: int, s: int, m: nat, a: int)
    requires m > 0 && u > 0 && Euclid(u, 0, r, s, m, a)
    ensures IsGcd(u, m, a) && Cong(r * a, u, m)
  {
    Congruence.Sym(u, r * a, m);
    forall d: nat | d > 0
      ensures Divides(d, u) <==> Divides(d, m) && Divides(d, a)
    {
      DividesIntro(d, 0, 0);
      assert Divides(d, u) && Divides(d, 0) <==> Divides(d, m) && Divides(d, a);
    }
  }

  ghost predicate Coprime(m: int, a: int)
  {
    forall d: nat | d > 0 :: Divides(d, m) && Divides(d, a) ==> d == 1
  }

  /** One half-step of the loop on a pair (value, multiplier). */
  method Halve(MOD: array<u32>, X: array<u32>, Y: array<u32>)
    requires MOD.Length == X.Length == Y.Length > 0 && MOD != X && MOD != Y && X != Y
    requires X[0] % 2 == 0 && MOD[0] % 2 == 1 && Val(Y[..]) < Val(MOD[..])
    modifies X, Y
    ensures 2 * Val(X[..]) == Val(old(X[..]))
    ensures 2 * Val(Y[..]) == Val(old(Y[..])) + if Val(old(Y[..])) % 2 == 0 then 0 else Val(MOD[..])
  {
    hide Val, R;
    Parity(Y[..]);
    ghost var m := MOD[..];
    Shr1(X, 0, X);
    if Y[0] % 2 == 0 {
      Shr1(Y, 0, Y);
    } else {
      ghost var y := Val(Y[..]);
      Parity(m);
      var carry := Add(Y, MOD, Y);
      Parity(Y[..]);
      ghost var z := Val(Y[..]);
      RParity(MOD.Length);
      Shr1(Y, carry, Y);
      assert MOD[..] == m;
    }
  }

  lemma RParity(n: nat)
    requires n > 0
    ensures R(n) % 2 == 0
  {
    assert R(n) == 2 * (0x8000_0000 * R(n - 1));
  }

  /** X -= Y, and P -= Q modulo MOD. */
  method Subtract(MOD: array<u32>, X: array<u32>, Y: array<u32>, P: array<u32>, Q: array<u32>)
    requires MOD.Length == X.Length == Y.Length == P.Length == Q.Length > 0
    requires MOD != X && MOD != P && X != Y && X != P && X != Q && P != Q && Y != P
    requires Val(X[..]) >= Val(Y[..]) && Val(P[..]) < Val(MOD[..]) && Val(Q[..]) < Val(MOD[..])
    modifies X, P
    ensures Val(X[..]) == Val(old(X[..])) - Val(Y[..])
    ensures
      var p, q := Val(old(P[..])), Val(Q[..]);
      Val(P[..]) == if p < q then p - q + Val(MOD[..]) else p - q
  {
    hide Val, R;
    ghost var m, y, q, p := MOD[..], Y[..], Q[..], P[..];
    ValBound(m);
    ValBound(p);
    ValBound(q);
    var _ := Sub(X, Y, X);
    assert P[..] == p && Q[..] == q;
    var borrow := Sub(P, Q, P);
    assert MOD[..] == m;
    if borrow != 0 {
      var _ := Add(P, MOD, P);
    }
    assert MOD[..] == m && Y[..] == y && Q[..] == q;
  }

  /** The branch for an even value X with multiplier P, beside (Y, Q). */
  method HalveStep(MOD: array<u32>, X: array<u32>, Y: array<u32>, P: array<u32>, Q: array<u32>, ghost a: int)
    requires MOD.Length == X.Length == Y.Length == P.Length == Q.Length > 0
    requires MOD != X && MOD != P && X != Y && X != P && X != Q && P != Q && Y != P
    requires X[0] % 2 == 0 && IsOdd(MOD[..]) && Val(MOD[..]) > 0
    requires Euclid(Val(X[..]), Val(Y[..]), Val(P[..]), Val(Q[..]), Val(MOD[..]), a)
    modifies X, P
    ensures 2 * Val(X[..]) == Val(old(X[..]))
    ensures Euclid(Val(X[..]), Val(Y[..]), Val(P[..]), Val(Q[..]), Val(MOD[..]), a)
  {
    hide Val, R, Cong, Euclid;
    ghost var mod, x, y, p, q := MOD[..], X[..], Y[..], P[..], Q[..];
    EuclidFacts(Val(x), Val(y), Val(p), Val(q), Val(mod), a);
    Parity(mod);
    Halve(MOD, X, P);
    assert MOD[..] == mod && Y[..] == y && Q[..] == q;
    EuclidHalve(Val(x), Val(X[..]), Val(y), Val(p), Val(P[..]), Val(q), Val(mod), a);
  }

  /** The branch for two odd values with X at least Y. */
  method SubtractStep(MOD: array<u32>, X: array<u32>, Y: array<u32>, P: array<u32>, Q: array<u32>, ghost a: int)
    requires MOD.Length == X.Length == Y.Length == P.Length == Q.Length > 0
    requires MOD != X && MOD != P && X != Y && X != P && X != Q && P != Q && Y != P
    requires IsOdd(Y[..]) && Val(X[..]) >= Val(Y[..]) && Val(MOD[..]) > 0
    requires Euclid(Val(Y[..]), Val(X[..]), Val(Q[..]), Val(P[..]), Val(MOD[..]), a)
    modifies X, P
    ensures Val(X[..]) == Val(old(X[..])) - Val(Y[..])
    ensures Euclid(Val(Y[..]), Val(X[..]), Val(Q[..]), Val(P[..]), Val(MOD[..]), a)
  {
    hide Val, R, Cong, Euclid;
    ghost var mod, x, y, p, q := MOD[..], X[..], Y[..], P[..], Q[..];
    EuclidFacts(Val(y), Val(x), Val(q), Val(p), Val(mod), a);
    Parity(y);
    Subtract(MOD, X, Y, P, Q);
    assert MOD[..] == mod && Y[..] == y && Q[..] == q;
    EuclidSubtract(Val(y), Val(x), Val(q), Val(p), Val(P[..]), Val(mod), a);
  }

  /** The branch for U and V both odd. */
  method OddRound(MOD: array<u32>, U: array<u32>, V: array<u32>, P: array<u32>, Q: array<u32>, ghost a: int)
    returns (done: bool)
    requires MOD.Length == U.Length == V.Length == P.Length == Q.Length > 0
    requires MOD !in {U, V, P, Q} && U !in {V, P, Q} && V !in {P, Q} && P != Q
    requires IsOdd(MOD[..]) && Val(MOD[..]) > 0 && IsOdd(U[..]) && IsOdd(V[..]) && Val(U[..]) > 0 && Val(V[..]) > 0
    requires Euclid(Val(U[..]), Val(V[..]), Val(P[..]), Val(Q[..]), Val(MOD[..]), a)
    modifies U, V, P, Q
    ensures Val(U[..]) > 0 && (done <==> Val(V[..]) == 0)
    ensures Val(U[..]) + Val(V[..]) < Val(old(U[..])) + Val(old(V[..]))
    ensures Euclid(Val(U[..]), Val(V[..]), Val(P[..]), Val(Q[..]), Val(MOD[..]), a)
  {
    hide Val, R, Cong, Euclid;
    ghost var m, u, v := Val(MOD[..]), U[..], V[..];
    done := false;
    var borrow := Sub(V, U, null);
    if borrow == 0 {
      SubtractStep(MOD, V, U, Q, P, a);
      assert U[..] == u;
      done := IsZero(V);
    } else {
      EuclidSwap(Val(U[..]), Val(V[..]), Val(P[..]), Val(Q[..]), m, a);
      SubtractStep(MOD, U, V, P, Q, a);
      assert V[..] == v;
      EuclidSwap(Val(V[..]), Val(U[..]), Val(Q[..]), Val(P[..]), Val(MOD[..]), a);
    }
  }

  /** One round of the loop; returns whether it is the last one. It makes progress unless V
      is zero, and then nothing but S changes. */
  method EuclidRound(MOD: array<u32>, U: array<u32>, V: array<u32>, P: array<u32>, Q: array<u32>, ghost a: int)
    returns (done: bool)
    requires MOD.Length == U.Length == V.Length == P.Length == Q.Length > 0
    requires MOD !in {U, V, P, Q} && U !in {V, P, Q} && V !in {P, Q} && P != Q
    requires IsOdd(MOD[..]) && Val(MOD[..]) > 0 && Val(U[..]) > 0
    requires Euclid(Val(U[..]), Val(V[..]), Val(P[..]), Val(Q[..]), Val(MOD[..]), a)
    modifies U, V, P, Q
    ensures Val(U[..]) > 0
    ensures Val(old(V[..])) > 0 ==>
              (done <==> Val(V[..]) == 0) && Val(U[..]) + Val(V[..]) < Val(old(U[..])) + Val(old(V[..]))
    ensures Val(old(V[..])) == 0 ==> !done && Val(V[..]) == 0 && U[..] == old(U[..])
    ensures Euclid(Val(U[..]), Val(V[..]), Val(P[..]), Val(Q[..]), Val(MOD[..]), a)
  {
    hide Val, R, Cong, Euclid;
    ghost var m, u, v := Val(MOD[..]), U[..], V[..];
    EuclidFacts(Val(u), Val(v), Val(P[..]), Val(Q[..]), m, a);
    Parity(u);
    Parity(v);
    done := false;
    if U[0] % 2 == 0 {
      HalveStep(MOD, U, V, P, Q, a);
      assert V[..] == v;
    } else if V[0] % 2 == 0 {
      EuclidSwap(Val(U[..]), Val(V[..]), Val(P[..]), Val(Q[..]), m, a);
      HalveStep(MOD, V, U, Q, P, a);
      assert U[..] == u;
      EuclidSwap(Val(V[..]), Val(U[..]), Val(Q[..]), Val(P[..]), Val(MOD[..]), a);
    } else {
      done := OddRound(MOD, U, V, P, Q, a);
    }
  }

  /** The initial values of U, V, R and S. */
  method EuclidArrays(MOD: array<u32>, a: array<u32>) returns (U: array<u32>, V: array<u32>, P: array<u32>, Q: array<u32>)
    requires MOD.Length == a.Length > 0 && IsOdd(MOD[..]) && Val(MOD[..]) > 1
    ensures fresh({U, V, P, Q}) && U.Length == V.Length == P.Length == Q.Length == MOD.Length
    ensures U !in {V, P, Q} && V !in {P, Q} && P != Q
    ensures Val(U[..]) == Val(MOD[..]) && Val(V[..]) == Val(a[..])
    ensures Euclid(Val(U[..]), Val(V[..]), Val(P[..]), Val(Q[..]), Val(MOD[..]), Val(a[..]))
  {
    hide Val, R, Cong, Euclid;
    var n := MOD.Length;
    P, Q := new u32[n](_ => 0), new u32[n](k => if k == 0 then 1 else 0);
    U, V := new u32[n], new u32[n];
    CopyDigits(U, MOD);
    CopyDigits(V, a);
    assert U[..] == MOD[..n] == MOD[..] && V[..] == a[..n] == a[..];
    UnitValues(P[..], Q[..]);
    Parity(MOD[..]);
    EuclidStart(Val(MOD[..]), Val(a[..]));
  }

  /** The loop does not end for a = 0: it is not over after any number of rounds. */
  method RoundsOnZero(MOD: array<u32>, a: array<u32>, rounds: nat) returns (done: bool)
    requires MOD.Length == a.Length > 0 && IsOdd(MOD[..]) && Val(MOD[..]) > 1 && Val(a[..]) == 0
    ensures !done
  {
    hide Val, R, Cong, Euclid;
    var U, V, P, Q := EuclidArrays(MOD, a);
    done := false;
    ghost var mod0 := MOD[..];
    for i := 0 to rounds
      invariant !done && MOD[..] == mod0 && Val(U[..]) > 0 && Val(V[..]) == 0
      invariant Euclid(Val(U[..]), Val(V[..]), Val(P[..]), Val(Q[..]), Val(MOD[..]), 0)
    {
      done := EuclidRound(MOD, U, V, P, Q, 0);
    }
  }

  /** b = 1/a mod MOD. The loop does not end for a = 0 (RoundsOnZero), so a must be positive; b gets the
      number below MOD with a·b congruent to the gcd. */
  method ModInvVartime(MOD: array<u32>, a: array<u32>, b: array<u32>) returns (ghost g: nat)
    requires MOD.Length == a.Length == b.Length > 0 && b != MOD
    requires IsOdd(MOD[..]) && Val(MOD[..]) > 1 && Val(a[..]) > 0
    modifies b
    ensures
      var m, x := Val(MOD[..]), Val(old(a[..]));
      && IsGcd(g, m, x)
      && Val(b[..]) < m
      && Cong(Val(b[..]) * x, g, m)
      && (Coprime(m, x) ==> g == 1)
  {
    hide Val, R, Cong, Euclid, IsGcd, Divides;
    ghost var mod0, av := MOD[..], Val(a[..]);
    ghost var m := Val(mod0);
    var U, V, P, Q := EuclidArrays(MOD, a);
    var done := false;
    while !done
      invariant MOD[..] == mod0
      invariant Val(U[..]) > 0 && (done <==> Val(V[..]) == 0)
      invariant Euclid(Val(U[..]), Val(V[..]), Val(P[..]), Val(Q[..]), m, av)
      decreases Val(U[..]) + Val(V[..])
    {
      done := EuclidRound(MOD, U, V, P, Q, av);
    }
    g := Val(U[..]);
    EuclidFacts(Val(U[..]), Val(V[..]), Val(P[..]), Val(Q[..]), m, av);
    EuclidEnd(g, Val(P[..]), Val(Q[..]), m, av);
    if Coprime(m, av) {
      CoprimeGcd(g, m, av);
    }
    Mod(MOD, P, b);
  }

  lemma UnitValues(zero: seq<u32>, one: seq<u32>)
    requires |zero| == |one| > 0
    requires forall k :: 0 <= k < |zero| ==> zero[k] == 0 && one[k] == if k == 0 then 1 else 0
    ensures Val(zero) == 0 && Val(one) == 1
  {
    ValZeros(zero);
    ValSplit(one, 1);
    ValZeros(one[1..]);
    assert one[..1] == [1];
    ValSingle(1);
  }

  lemma EuclidFacts(u: int, v: int, r: int, s: int, m: nat, a: int)
    requires m > 0 && Euclid(u, v, r, s, m, a)
    ensures 0 <= r < m && 0 <= s < m && (u % 2 == 1 || v % 2 == 1)
  {
  }

  lemma CoprimeGcd(g: nat, m: int, a: int)
    requires IsGcd(g, m, a) && Coprime(m, a)
    ensures g == 1
  {
    DividesIntro(g, g, 1);
    assert Divides(g, m) && Divides(g, a);
  }

  /** The result is an inverse exactly when one exists: a·x congruent to 1 for some x
      forces the gcd to be 1. */
  lemma InvertibleIffCoprime(m: nat, a: int, b: int, g: nat)
    requires m > 1 && IsGcd(g, m, a) && Cong(b * a, g, m)
    ensures (exists x: int :: Cong(x * a, 1, m)) <==> g == 1
  {
    if x: int :| Cong(x * a, 1, m) {
      DividesIntro(g, g, 1);
      assert Divides(g, m) && Divides(g, a);
      var k := Elim(x * a, 1, m);
      var p := DividesElim(g, m);
      var q := DividesElim(g, a);
      assert (x * q - k * p) * g == 1 by {
        assert x * (q * g) == (x * q) * g && k * (p * g) == (k * p) * g;
      }
      UnitFactor(x * q - k * p, g);
    }
  }

  lemma UnitFactor(t: int, g: nat)
    requires t * g == 1
    ensures g == 1
  {
    assert t >= 1 ==> t * g >= g;
    assert t <= 0 ==> t * g <= 0;
  }
}
