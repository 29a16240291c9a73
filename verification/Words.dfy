/** Little-endian numbers in base 2^32, as the digit arrays of libmincrypt hold them. */
module Words {

  const BASE: int := 0x1_0000_0000

  /** The C types uint32_t, uint64_t and int64_t. A value of one of these types that is
      computed without a `%` is a proof that the C expression does not wrap around. */
  type u32 = x: int | 0 <= x < 0x1_0000_0000
  type u64 = x: int | 0 <= x < 0x1_0000_0000_0000_0000
  type i64 = x: int | -0x8000_0000_0000_0000 <= x < 0x8000_0000_0000_0000

  lemma MulMono(x: int, y: int, k: int)
    requires x <= k && 0 <= y
    ensures x * y <= k * y
  {
  }

  lemma MulSub(r: int, x: int, y: int)
    ensures r * (x - y) == r * x - r * y
  {
  }

  lemma MulAssoc(x: int, y: int, z: int)
    ensures x * (y * z) == (x * y) * z == y * (x * z)
  {
  }

  lemma MulNonneg(x: int, y: int)
    requires 0 <= x && 0 <= y
    ensures 0 <= x * y
  {
  }

  function R(n: nat): (r: int)
    ensures r >= 1
  {
    if n == 0 then 1 else BASE * R(n - 1)
  }

  function Val(s: seq<u32>): (v: int)
    ensures 0 <= v < R(|s|)
  {
    if s == [] then 0
    else
      var h := |s| - 1;
      assert Val(s[..h]) + s[h] * R(h) < R(|s|) by { TopDigitBound(Val(s[..h]), s[h], R(h)); }
      Val(s[..h]) + s[h] * R(h)
  }

  lemma TopDigitBound(v: int, d: u32, r: int)
    requires 0 <= v < r
    ensures 0 <= d * r && v + d * r < BASE * r
  {
    assert 0 <= d * r <= (BASE - 1) * r;
  }

  lemma ValSnoc(s: seq<u32>, i: nat)
    requires i < |s|
    ensures Val(s[..i + 1]) == Val(s[..i]) + s[i] * R(i)
  {
    assert s[..i + 1][..i] == s[..i];
  }

  lemma ValAppend(s: seq<u32>, d: u32)
    ensures Val(s + [d]) == Val(s) + d * R(|s|)
  {
    assert (s + [d])[..|s|] == s;
  }

  lemma {:induction false} ValSplit(s: seq<u32>, i: nat)
    requires i <= |s|
    ensures Val(s) == Val(s[..i]) + R(i) * Val(s[i..])
    decreases |s|
  {
    if i == |s| {
      assert s[..i] == s;
    } else {
      var h := |s| - 1;
      ValSplit(s[..h], i);
      assert s[..h][..i] == s[..i];
      assert s[..h][i..] == s[i..h];
      assert s[i..][..h - i] == s[i..h];
      RAdd(i, h - i);
      calc {
        Val(s);
        Val(s[..h]) + s[h] * R(h);
        Val(s[..i]) + R(i) * Val(s[i..h]) + s[h] * (R(i) * R(h - i));
        { Factor(R(i), Val(s[i..h]), s[h], R(h - i)); }
        Val(s[..i]) + R(i) * (Val(s[i..h]) + s[h] * R(h - i));
        Val(s[..i]) + R(i) * Val(s[i..]);
      }
    }
  }

  lemma ValSlice(s: seq<u32>, i: nat, j: nat)
    requires i <= j <= |s|
    ensures Val(s[..j]) == Val(s[..i]) + R(i) * Val(s[i..j])
  {
    hide Val, R;
    ValSplit(s[..j], i);
    assert s[..j][..i] == s[..i] && s[..j][i..] == s[i..j];
  }

  lemma Factor(r: int, v: int, d: int, q: int)
    ensures r * v + d * (r * q) == r * (v + d * q)
  {
    assert d * (r * q) == r * (d * q);
  }

  lemma {:induction false} RAdd(i: nat, j: nat)
    ensures R(i + j) == R(i) * R(j)
  {
    if i > 0 {
      RAdd(i - 1, j);
      MulAssoc(BASE, R(i - 1), R(j));
    }
  }

  lemma {:induction false} ValZeros(s: seq<u32>)
    requires forall k :: 0 <= k < |s| ==> s[k] == 0
    ensures Val(s) == 0
  {
    if s != [] {
      ValZeros(s[..|s| - 1]);
    }
  }

  /** The state of a carry or borrow chain that adds k·a to w: after i digits, `done`
      holds the stored words and `carry` what is still to be added (negative for a
      borrow). Additions use k = 1, subtractions k = -1, multiplications by a digit k = b. */
  ghost predicate Carried(w: seq<u32>, a: seq<u32>, k: int, i: nat, done: seq<u32>, carry: int)
    requires i <= |w| == |a|
  {
    |done| == i && Val(done) + carry * R(i) == Val(w[..i]) + k * Val(a[..i])
  }

  lemma CarriedStart(w: seq<u32>, a: seq<u32>, k: int)
    requires |w| == |a|
    ensures Carried(w, a, k, 0, [], 0)
  {
  }

  lemma CarriedSnoc(w: seq<u32>, a: seq<u32>, k: int, i: nat, done: seq<u32>, carry: int)
    requires i < |w| == |a| && Carried(w, a, k, i, done, carry)
    ensures
      var t := carry + w[i] + k * a[i];
      Carried(w, a, k, i + 1, done + [t % BASE], t / BASE)
  {
    var t := carry + w[i] + k * a[i];
    ValSnoc(w, i);
    ValSnoc(a, i);
    ValAppend(done, t % BASE);
    var v, x, y, r, d, e := Val(done), Val(w[..i]), Val(a[..i]), R(i), w[i], a[i];
    hide Val;
    CarryStep(v, carry, r, x, k, y, d, e);
  }

  lemma CarryStep(v: int, c: int, r: int, x: int, k: int, y: int, d: int, e: int)
    requires v + c * r == x + k * y
    ensures
      var t := c + d + k * e;
      (v + (t % BASE) * r) + (t / BASE) * (BASE * r) == (x + d * r) + k * (y + e * r)
  {
    var t := c + d + k * e;
    Recombine(t, r);
    calc {
      v + t * r;
      { Distribute(c, d, k * e, r); }
      v + c * r + d * r + (k * e) * r;
      (x + d * r) + (k * y + (k * e) * r);
      { Refactor(k, y, e, r); }
      (x + d * r) + k * (y + e * r);
    }
  }

  lemma Recombine(t: int, r: int)
    ensures (t % BASE) * r + (t / BASE) * (BASE * r) == t * r
  {
    var q, m := t / BASE, t % BASE;
    assert t == q * BASE + m;
    assert q * (BASE * r) == (q * BASE) * r;
  }

  lemma Distribute(a: int, b: int, c: int, r: int)
    ensures (a + b + c) * r == a * r + b * r + c * r
  {
  }

  lemma Refactor(k: int, y: int, e: int, r: int)
    ensures k * y + (k * e) * r == k * (y + e * r)
  {
    assert (k * e) * r == k * (e * r);
  }

  lemma CarriedEnd(w: seq<u32>, a: seq<u32>, k: int, done: seq<u32>, carry: int)
    requires |w| == |a| && Carried(w, a, k, |w|, done, carry)
    ensures Val(done) + carry * R(|w|) == Val(w) + k * Val(a)
  {
    assert w[..|w|] == w && a[..|a|] == a;
  }

  lemma ValBound(s: seq<u32>)
    ensures 0 <= Val(s) < R(|s|)
  {
  }

  /** The last carry out of a subtraction is -1 exactly when it went below zero. */
  lemma BorrowOut(v: int, c: int, r: int, x: int, n: int)
    requires 0 <= v < r && 0 <= x < r && 0 <= n < r && -1 <= c <= 0 && v + c * r == x - n
    ensures c == (if x < n then -1 else 0) && v == x - n - c * r
  {
    if c == -1 {
      assert c * r == -r;
    }
  }

  lemma CarryOut(v: int, c: int, r: int, x: int)
    requires 0 <= v < r && 0 <= c <= 1 && v + c * r == x
    ensures c == (if x >= r then 1 else 0) && v == x - (if x >= r then r else 0)
  {
    if c == 1 {
      assert c * r == r;
    }
  }

  /** The products of two words leave room for two more words in 64 bits. */
  lemma ProductFits(a: u32, b: u32)
    ensures 0 <= a * b <= (BASE - 1) * (BASE - 1)
  {
    MulNonneg(a, b);
    MulMono(a, b, BASE - 1);
  }

  lemma ValSingle(d: u32)
    ensures Val([d]) == d
  {
    assert [d][..0] == [];
  }

  /** `d & mask` and `~x` on 32-bit words; masks are all zeros or all ones. */
  function And(d: u32, mask: u32): u32
    requires mask == 0 || mask == BASE - 1
  {
    if mask == 0 then 0 else d
  }

  function Not(x: u32): u32 { BASE - 1 - x }

  /** NON_ZERO_TO_ALL_ONES. */
  function NonZeroToAllOnes(x: u32): (m: u32)
    ensures x == 0 ==> m == 0
    ensures 0 < x <= 0x8000_0000 ==> m == BASE - 1
  {
    ((x - 1) % BASE / 0x8000_0000 - 1) % BASE
  }
}
