/** Modular arithmetic on fixed-length digit arrays (tools/libmincrypt/p256.c). The
    digit count, 8 in the source, is the length of the modulus here. */
module P256 {
  import opened Words
  import opened Congruence

  function Masked(v: int, mask: u32): int { if mask == 0 then 0 else v }

  /** c differs from `was` at most in the digits [off, off + n). */
  ghost predicate OnlyDigits(c: seq<u32>, was: seq<u32>, off: nat, n: nat)
    requires |c| == |was| && off + n <= |c|
  {
    forall k :: 0 <= k < off || off + n <= k < |c| ==> c[k] == was[k]
  }

  /** c[off..] += a[] * b; returns the top digit with the carry added, modulo 2^32. */
  method MulAdd(a: seq<u32>, b: u32, top: u32, c: array<u32>, off: nat) returns (newTop: u32)
    requires off + |a| <= c.Length
    modifies c
    ensures OnlyDigits(c[..], old(c[..]), off, |a|)
    ensures Val(c[off..off + |a|]) + (newTop - top) % BASE * R(|a|) == Val(old(c[off..off + |a|])) + b * Val(a)
    ensures top == 0 ==> Val(c[off..off + |a|]) + newTop * R(|a|) == Val(old(c[off..off + |a|])) + b * Val(a)
  {
    hide Val, R, Carried;
    ghost var w := c[off..off + |a|];
    var carry: u64 := 0;
    CarriedStart(w, a, b);
    assert c[off..off + 0] == [];
    for i := 0 to |a|
      invariant 0 <= carry < BASE
      invariant OnlyDigits(c[..], old(c[..]), off, i)
      invariant Carried(w, a, b, i, c[off..off + i], carry)
    {
      CarriedSnoc(w, a, b, i, c[off..off + i], carry);
      ghost var done := c[off..off + i];
      assert c[off + i] == w[i];
      ProductFits(a[i], b);
      assert a[i] * b == b * a[i];
      carry := carry + c[off + i];
      carry := carry + a[i] * b;
      c[off + i] := carry % BASE;
      assert c[off..off + i + 1] == done + [carry % BASE];
      carry := carry / BASE;
    }
    CarriedEnd(w, a, b, c[off..off + |a|], carry);
    newTop := (top + carry) % BASE;
    TopCarry(top, carry);
  }

  lemma TopCarry(top: u32, carry: u32)
    ensures ((top + carry) % BASE - top) % BASE == carry
  {
  }

  /** top, c[off..] -= top_a, a[]. The assertion is the source's own. */
  method SubTop(topA: u32, a: seq<u32>, topC: u32, c: array<u32>, off: nat) returns (newTop: u32)
    requires off + |a| <= c.Length
    requires 0 <= Val(c[off..off + |a|]) + topC * R(|a|) - (Val(a) + topA * R(|a|)) < BASE * R(|a|)
    modifies c
    ensures OnlyDigits(c[..], old(c[..]), off, |a|)
    ensures Val(c[off..off + |a|]) + newTop * R(|a|)
         == Val(old(c[off..off + |a|])) + topC * R(|a|) - (Val(a) + topA * R(|a|))
  {
    hide Val, R, Carried;
    ghost var w := c[off..off + |a|];
    var borrow: i64 := 0;
    CarriedStart(w, a, -1);
    assert c[off..off + 0] == [];
    for i := 0 to |a|
      invariant -1 <= borrow <= 0
      invariant OnlyDigits(c[..], old(c[..]), off, i)
      invariant Carried(w, a, -1, i, c[off..off + i], borrow)
    {
      CarriedSnoc(w, a, -1, i, c[off..off + i], borrow);
      ghost var done := c[off..off + i];
      assert c[off + i] == w[i];
      borrow := borrow + c[off + i];
      borrow := borrow - a[i];
      c[off + i] := borrow % BASE;
      assert c[off..off + i + 1] == done + [borrow % BASE];
      borrow := borrow / BASE;
    }
    CarriedEnd(w, a, -1, c[off..off + |a|], borrow);
    ghost var v, b := Val(c[off..off + |a|]), borrow;
    borrow := borrow + topC;
    borrow := borrow - topA;
    newTop := borrow % BASE;
    TopBorrow(v, b, topC, topA, R(|a|), Val(w), Val(a));
    assert borrow / BASE == 0;
  }

  lemma TopBorrow(v: int, b: int, topC: int, topA: int, r: int, x: int, y: int)
    requires 0 <= v < r && v + b * r == x - y && 0 <= x + topC * r - (y + topA * r) < BASE * r
    ensures 0 <= b + topC - topA < BASE && v + (b + topC - topA) * r == x + topC * r - (y + topA * r)
  {
    var t := b + topC - topA;
    assert v + t * r == x + topC * r - (y + topA * r);
    if t <= -1 {
      MulMono(t, r, -1);
    } else if t >= BASE {
      MulMono(BASE, r, t);
    }
  }

  /** top, c[off..] -= MOD[] & mask; returns the new top digit. */
  method SubM(MOD: seq<u32>, top: u32, c: array<u32>, off: nat, mask: u32) returns (newTop: u32)
    requires off + |MOD| <= c.Length && (mask == 0 || mask == BASE - 1)
    modifies c
    ensures OnlyDigits(c[..], old(c[..]), off, |MOD|)
    ensures
      var x, m := Val(old(c[off..off + |MOD|])), Masked(Val(MOD), mask);
      && newTop == (top + (if x < m then -1 else 0)) % BASE
      && Val(c[off..off + |MOD|]) == x - m + (if x < m then R(|MOD|) else 0)
  {
    hide Val, R, Carried;
    ghost var w := c[off..off + |MOD|];
    ghost var k := if mask == 0 then 0 else -1;
    var borrow: i64 := 0;
    CarriedStart(w, MOD, k);
    assert c[off..off + 0] == [];
    for i := 0 to |MOD|
      invariant -1 <= borrow <= 0
      invariant OnlyDigits(c[..], old(c[..]), off, i)
      invariant Carried(w, MOD, k, i, c[off..off + i], borrow)
    {
      CarriedSnoc(w, MOD, k, i, c[off..off + i], borrow);
      ghost var done := c[off..off + i];
      assert c[off + i] == w[i];
      borrow := borrow + c[off + i];
      borrow := borrow - And(MOD[i], mask);
      c[off + i] := borrow % BASE;
      assert c[off..off + i + 1] == done + [borrow % BASE];
      borrow := borrow / BASE;
    }
    CarriedEnd(w, MOD, k, c[off..off + |MOD|], borrow);
    ValBound(c[off..off + |MOD|]);
    ValBound(w);
    ValBound(MOD);
    BorrowOut(Val(c[off..off + |MOD|]), borrow, R(|MOD|), Val(w), Masked(Val(MOD), mask));
    newTop := (top + borrow) % BASE;
  }

  /** top, c[off..] += MOD[] & mask; returns the new top digit. */
  method AddM(MOD: seq<u32>, top: u32, c: array<u32>, off: nat, mask: u32) returns (newTop: u32)
    requires off + |MOD| <= c.Length && (mask == 0 || mask == BASE - 1)
    modifies c
    ensures OnlyDigits(c[..], old(c[..]), off, |MOD|)
    ensures
      var x := Val(old(c[off..off + |MOD|])) + Masked(Val(MOD), mask);
      && newTop == (top + (if x >= R(|MOD|) then 1 else 0)) % BASE
      && Val(c[off..off + |MOD|]) == x - (if x >= R(|MOD|) then R(|MOD|) else 0)
  {
    hide Val, R, Carried;
    ghost var w := c[off..off + |MOD|];
    ghost var k := if mask == 0 then 0 else 1;
    var carry: u64 := 0;
    CarriedStart(w, MOD, k);
    assert c[off..off + 0] == [];
    for i := 0 to |MOD|
      invariant 0 <= carry <= 1
      invariant OnlyDigits(c[..], old(c[..]), off, i)
      invariant Carried(w, MOD, k, i, c[off..off + i], carry)
    {
      CarriedSnoc(w, MOD, k, i, c[off..off + i], carry);
      ghost var done := c[off..off + i];
      assert c[off + i] == w[i];
      carry := carry + c[off + i];
      carry := carry + And(MOD[i], mask);
      c[off + i] := carry % BASE;
      assert c[off..off + i + 1] == done + [carry % BASE];
      carry := carry / BASE;
    }
    CarriedEnd(w, MOD, k, c[off..off + |MOD|], carry);
    ValBound(c[off..off + |MOD|]);
    ValBound(w);
    ValBound(MOD);
    CarryOut(Val(c[off..off + |MOD|]), carry, R(|MOD|), Val(w) + Masked(Val(MOD), mask));
    newTop := (top + carry) % BASE;
  }

  /** What the modulus must satisfy: its top digit is all ones, as for both P-256 moduli. */
  ghost predicate TopHeavy(MOD: seq<u32>)
  {
    MOD != [] && MOD[|MOD| - 1] == BASE - 1
  }

  lemma TopHeavyBound(MOD: seq<u32>)
    requires TopHeavy(MOD)
    ensures R(|MOD|) == BASE * R(|MOD| - 1)
    ensures R(|MOD|) - R(|MOD| - 1) <= Val(MOD) < R(|MOD|)
  {
    assert MOD[..|MOD|] == MOD;
    ValSnoc(MOD, |MOD| - 1);
    assert (BASE - 1) * R(|MOD| - 1) == R(|MOD|) - R(|MOD| - 1);
  }

  /** Guessing the quotient digit as the top digit itself is off by at most one. */
  lemma QuotientGuess(top: int, low: int, m: int, p: int)
    requires 0 <= top < BASE && p >= 1 && BASE * p - p <= m < BASE * p && 0 <= low < BASE * p
    ensures 0 <= low + top * (BASE * p) - top * m < BASE * p + (BASE - 1) * p <= BASE * (BASE * p)
    ensures low + top * (BASE * p) - top * m < BASE * p + m
  {
    var gap := BASE * p - m;
    assert low + top * (BASE * p) - top * m == low + top * gap;
    MulNonneg(top, gap);
    MulMono(top, gap, BASE - 1);
    MulMono(gap, BASE - 1, p);
  }

  /** A change confined to n digits changes the prefix value by that much, scaled. */
  lemma LocalChange(c: seq<u32>, w: seq<u32>, off: nat, n: nat)
    requires |c| == |w| && off + n <= |c| && OnlyDigits(c, w, off, n)
    ensures Val(c[..off + n]) - Val(w[..off + n]) == R(off) * (Val(c[off..off + n]) - Val(w[off..off + n]))
  {
    hide Val, R;
    assert c[..off] == w[..off];
    ValSlice(c, off, off + n);
    ValSlice(w, off, off + n);
    MulSub(R(off), Val(c[off..off + n]), Val(w[off..off + n]));
  }

  /** The product accumulated after i rows: the prefix of tmp, then the pending digit. */
  ghost predicate Rows(tmp: seq<u32>, n: nat, top: int, a: int, b: int, i: nat)
    requires i + n <= |tmp|
  {
    Val(tmp[..i + n]) + top * R(i + n) == a * b
  }

  lemma RowAdded(c: seq<u32>, w: seq<u32>, i: nat, n: nat, a: int, bs: seq<u32>, top: int)
    requires i + n <= |w| == |c| && i < |bs| && OnlyDigits(c, w, i, n)
    requires Rows(w, n, 0, a, Val(bs[..i]), i)
    requires Val(c[i..i + n]) + top * R(n) == Val(w[i..i + n]) + bs[i] * a
    ensures Rows(c, n, top, a, Val(bs[..i + 1]), i)
  {
    hide Val, R;
    LocalChange(c, w, i, n);
    RAdd(i, n);
    ValSnoc(bs, i);
    RowValue(R(i), R(n), bs[i], a, top, Val(bs[..i]), Val(c[..i + n]), Val(w[..i + n]));
  }

  lemma RowValue(r: int, rn: int, d: int, a: int, top: int, v: int, x: int, y: int)
    requires x - y == r * (d * a - top * rn) && y == a * v
    ensures x + top * (r * rn) == a * (v + d * r)
  {
    MulSub(r, d * a, top * rn);
    MulAssoc(r, top, rn);
    MulAssoc(top, r, rn);
    MulAssoc(a, d, r);
    assert r * (d * a) == a * (d * r);
  }

  /** Storing the pending digit makes room for the next row. */
  lemma RowStored(w: seq<u32>, i: nat, n: nat, top: u32, a: int, b: int)
    requires i + n < |w| && Rows(w, n, top, a, b, i)
    ensures Rows(w[i + n := top], n, 0, a, b, i + 1)
  {
    var c := w[i + n := top];
    ValSnoc(c, i + n);
    assert c[..i + n] == w[..i + n];
  }

  /** What is still to be reduced: the low i + n digits and the digit above them. */
  ghost predicate Remaining(tmp: seq<u32>, n: nat, i: int, top: int, product: int, m: nat)
    requires m > 0 && 0 <= i + n <= |tmp|
  {
    Cong(Val(tmp[..i + n]) + top * R(i + n), product, m)
  }

  lemma DigitReduced(c: seq<u32>, w: seq<u32>, n: nat, i: nat, top: int, k: int, product: int, m: nat)
    requires m > 0 && n > 0 && i + n <= |w| == |c| && OnlyDigits(c, w, i, n)
    requires Remaining(w, n, i, top, product, m)
    requires Val(c[i..i + n]) == Val(w[i..i + n]) + top * R(n) - k * m
    ensures Remaining(c, n, i - 1, c[i + n - 1], product, m)
  {
    hide Val, R, Cong;
    LocalChange(c, w, i, n);
    RAdd(i, n);
    ValSnoc(c, i + n - 1);
    DigitValue(R(i), R(n), top, k, m, Val(c[..i + n]), Val(w[..i + n]), product);
  }

  lemma DigitValue(r: int, rn: int, top: int, k: int, m: nat, x: int, y: int, product: int)
    requires m > 0 && x - y == r * (top * rn - k * m) && Cong(y + top * (r * rn), product, m)
    ensures Cong(x, product, m)
  {
    hide Cong;
    MulSub(r, top * rn, k * m);
    MulAssoc(r, top, rn);
    MulAssoc(top, r, rn);
    MulAssoc(r, k, m);
    Intro(x, y + top * (r * rn), m, -(r * k));
    Trans(x, y + top * (r * rn), product, m);
  }

  lemma RowsStart(tmp: seq<u32>, n: nat, a: int, bs: seq<u32>)
    requires n <= |tmp| && forall k :: 0 <= k < |tmp| ==> tmp[k] == 0
    ensures Rows(tmp, n, 0, a, Val(bs[..0]), 0)
  {
    ValZeros(tmp[..n]);
  }

  lemma RowsEnd(tmp: seq<u32>, n: nat, top: int, a: seq<u32>, b: seq<u32>, topB: u32, m: nat)
    requires m > 0 && |b| == n && n + n <= |tmp| && Rows(tmp, n, top, Val(a), Val((b + [topB])[..n + 1]), n)
    ensures Remaining(tmp, n, n, top, WideProduct(a, topB, b), m)
  {
    hide Val, R, Cong;
    assert (b + [topB])[..n + 1] == b + [topB];
    ValAppend(b, topB);
    Refl(WideProduct(a, topB, b), m);
  }

  lemma ZeroValue(reducer: seq<u32>)
    requires forall k :: 0 <= k < |reducer| ==> reducer[k] == 0
    ensures Val(reducer) == 0
  {
    ValZeros(reducer);
  }

  /** After the guess is subtracted less than R + m is left: the top digit is a bit, and
      when it is set the rest is below m. */
  lemma TopIsBit(v: int, top: int, r: int, m: int)
    requires 0 <= v < r && 0 < m < r && 0 <= top && v + top * r < r + m
    ensures top <= 1 && (top == 1 ==> v < m)
  {
    if top >= 2 {
      MulMono(2, r, top);
    }
  }

  lemma LastDigit(tmp: seq<u32>, n: nat, product: int, m: nat)
    requires m > 0 && 1 <= n <= |tmp| && Remaining(tmp, n, -1, tmp[n - 1], product, m)
    ensures Cong(Val(tmp[..n]), product, m)
  {
    ValSnoc(tmp, n - 1);
  }

  /** One round of the reduction loop: takes `top` off the digit above tmp[i + n - 1],
      and returns the next one. The assertions are the source's own. */
  method ReduceDigit(MOD: seq<u32>, tmp: array<u32>, i: nat, top: u32, ghost product: int) returns (next: u32)
    requires TopHeavy(MOD) && i + |MOD| <= tmp.Length && Val(MOD) > 0
    requires Remaining(tmp[..], |MOD|, i, top, product, Val(MOD))
    modifies tmp
    ensures Remaining(tmp[..], |MOD|, i - 1, next, product, Val(MOD)) && next == tmp[i + |MOD| - 1]
  {
    hide Val, R, Remaining;
    var n := |MOD|;
    ghost var w, m := tmp[..], Val(MOD);
    var reducer: array<u32> := new u32[n](_ => 0);
    ZeroValue(reducer[..]);
    assert reducer[0..n] == reducer[..];
    var topReducer := MulAdd(MOD, top, 0, reducer, 0);
    assert reducer[0..n] == reducer[..];
    TopHeavyBound(MOD);
    ValBound(w[i..i + n]);
    assert tmp[i..i + n] == w[i..i + n];
    QuotientGuess(top, Val(w[i..i + n]), m, R(n - 1));
    var t := SubTop(topReducer, reducer[..], top, tmp, i);
    ValBound(tmp[i..i + n]);
    TopIsBit(Val(tmp[i..i + n]), t, R(n), m);
    assert t <= 1;
    ghost var mid := tmp[..];
    ghost var k := top + t;
    t := SubM(MOD, t, tmp, i, Not((t - 1) % BASE));
    assert t == 0;
    assert Val(tmp[i..i + n]) == Val(w[i..i + n]) + top * R(n) - k * m by {
      SubtractedTwice(top, k - top, R(n), m);
    }
    DigitReduced(tmp[..], w, n, i, top, k, product, m);
    next := tmp[i + n - 1];
  }

  /** The final fixed-time subtraction: MOD is taken off the low digits if it fits. */
  method ReduceOnce(MOD: seq<u32>, c: array<u32>)
    requires |MOD| <= c.Length
    modifies c
    ensures OnlyDigits(c[..], old(c[..]), 0, |MOD|)
    ensures
      var x, m := Val(old(c[..|MOD|])), Val(MOD);
      Val(c[..|MOD|]) == if x >= m then x - m else x
  {
    hide Val, R;
    assert c[0..|MOD|] == c[..|MOD|];
    ValBound(c[..|MOD|]);
    ValBound(MOD);
    var mask := SubM(MOD, 0, c, 0, BASE - 1);
    ghost var mid := c[..];
    var top := AddM(MOD, 0, c, 0, mask);
    assert c[0..|MOD|] == c[..|MOD|];
  }

  lemma SubtractedTwice(top: int, t: int, r: int, m: int)
    requires 0 <= t <= 1
    ensures (top + t) * m == top * m + (if t == 0 then 0 else m) && t * r == (if t == 0 then 0 else r)
  {
  }

  /** The number p256_modmul reduces: a times b extended by one more digit. */
  ghost function WideProduct(a: seq<u32>, topB: u32, b: seq<u32>): int
  {
    Val(a) * (Val(b) + topB * R(|b|))
  }

  /** memcpy and struct assignment; dst may be src. */
  method CopyDigits(dst: array<u32>, src: array<u32>)
    requires dst.Length <= src.Length
    modifies dst
    ensures dst[..] == old(src[..dst.Length])
  {
    ghost var w := src[..];
    for j := 0 to dst.Length
      invariant forall k :: 0 <= k < j ==> dst[k] == w[k]
      invariant forall k :: j <= k < src.Length ==> src[k] == w[k]
    {
      dst[j] := src[j];
    }
  }

  /** The multiplication phase: tmp and the returned digit hold a * (top_b, b). */
  method MulRows(a: seq<u32>, topB: u32, b: seq<u32>, tmp: array<u32>, ghost m: nat) returns (top: u32)
    requires |a| == |b| >= 1 && tmp.Length == 2 * |a| + 1 && m > 0
    requires forall k :: 0 <= k < tmp.Length ==> tmp[k] == 0
    modifies tmp
    ensures Remaining(tmp[..], |a|, |a|, top, WideProduct(a, topB, b), m)
  {
    hide Val, R, Rows, Remaining;
    ghost var av := Val(a);
    ghost var bs := b + [topB];
    var n := |a|;
    top := 0;
    RowsStart(tmp[..], n, av, bs);
    var i := 0;
    while i < n
      invariant 0 <= i <= n
      invariant i == 0 ==> Rows(tmp[..], n, 0, av, Val(bs[..0]), 0)
      invariant i > 0 ==> Rows(tmp[..], n, top, av, Val(bs[..i]), i - 1)
    {
      if i != 0 {
        RowStored(tmp[..], i - 1, n, top, av, Val(bs[..i]));
        tmp[i + n - 1] := top;
      }
      ghost var w := tmp[..];
      top := MulAdd(a, b[i], 0, tmp, i);
      assert tmp[i..i + n] == tmp[..][i..i + n];
      RowAdded(tmp[..], w, i, n, av, bs, top);
      i := i + 1;
    }
    RowStored(tmp[..], i - 1, n, top, av, Val(bs[..i]));
    tmp[i + n - 1] := top;
    ghost var w := tmp[..];
    top := MulAdd(a, topB, 0, tmp, i);
    assert tmp[i..i + n] == tmp[..][i..i + n];
    RowAdded(tmp[..], w, i, n, av, bs, top);
    RowsEnd(tmp[..], n, top, a, b, topB, m);
  }

  /** c = a * (top_b, b) mod MOD. c may be any of the other arrays. */
  method ModMul(MOD: array<u32>, a: array<u32>, topB: u32, b: array<u32>, c: array<u32>)
    requires TopHeavy(MOD[..]) && MOD.Length == a.Length == b.Length == c.Length
    modifies c
    ensures Val(old(MOD[..])) > 0
    ensures Val(c[..]) == ModOf(WideProduct(old(a[..]), topB, old(b[..])), Val(old(MOD[..])))
  {
    hide Val, R, Remaining, Cong, WideProduct, ModOf;
    var mod0 := MOD[..];
    ghost var m, product := Val(mod0), WideProduct(a[..], topB, b[..]);
    var n := MOD.Length;
    TopHeavyBound(mod0);
    var tmp: array<u32> := new u32[n * 2 + 1](_ => 0);
    var top := MulRows(a[..], topB, b[..], tmp, m);
    var i := n;
    while i >= 0
      invariant -1 <= i <= n
      invariant Remaining(tmp[..], n, i, top, product, m)
      invariant i == -1 ==> top == tmp[n - 1]
    {
      top := ReduceDigit(mod0, tmp, i, top, product);
      i := i - 1;
    }
    LastDigit(tmp[..], n, product, m);
    ghost var w := tmp[..];
    ValBound(w[..n]);
    ReduceOnce(mod0, tmp);
    CopyDigits(c, tmp);
    ReducedIsResidue(Val(w[..n]), Val(c[..]), product, m);
  }

  lemma ReducedIsResidue(x: int, v: int, product: int, m: nat)
    requires 0 <= x < 2 * m && Cong(x, product, m) && v == (if x >= m then x - m else x)
    ensures v == ModOf(product, m)
  {
    if x >= m {
      Intro(v, x, m, -1);
      Trans(v, x, product, m);
    }
    Residue(v, product, m);
  }
}
