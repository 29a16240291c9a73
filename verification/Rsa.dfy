/** RSA public-key operation: word-by-word Montgomery multiplication and the
    fixed-exponent power built on it (tools/libmincrypt/rsa.c). The word count is a
    parameter; every routine is proved for all of them. */
module Rsa {
  import opened Words
  import opened Congruence

  /** The key. `n` and `rr` are little-endian word arrays of the same length. */
  datatype Key = Key(n: seq<u32>, n0inv: u32, rr: seq<u32>, exponent: int) {
    ghost function N(): int { Val(n) }

    /** What the Montgomery step needs: n0inv is -1/n[0] modulo 2^32. */
    ghost predicate MontgomeryKey() {
      && n != []
      && (n[0] * n0inv + 1) % BASE == 0
    }

    /** What a generated key promises: rr is R^2 modulo n, n fills its top bit, and
        the exponent is one of the two the code handles. */
    ghost predicate Valid() {
      && MontgomeryKey()
      && |rr| == |n|
      && 2 * N() > R(|n|)
      && Cong(Val(rr), R(|n|) * R(|n|), N())
      && (exponent == 3 || exponent == 65537)
    }
  }

  lemma ModulusPositive(key: Key)
    requires key.MontgomeryKey()
    ensures key.N() > 0
  {
    assert key.n[..1] == [key.n[0]];
    ValSplit(key.n, 1);
    ValSingle(key.n[0]);
    assert R(1) * Val(key.n[1..]) >= 0;
    assert key.n[0] != 0;
  }

  /** a[] -= mod, modulo R. */
  method SubM(key: Key, a: array<u32>)
    requires a.Length == |key.n|
    modifies a
    ensures Val(a[..]) == Val(old(a[..])) - key.N() + (if Val(old(a[..])) < key.N() then R(a.Length) else 0)
  {
    hide Carried, Val, R;
    ghost var was := a[..];
    var A: i64 := 0;
    CarriedStart(was, key.n, -1);
    for i := 0 to |key.n|
      invariant -1 <= A <= 0
      invariant forall k :: i <= k < |key.n| ==> a[k] == was[k]
      invariant Carried(was, key.n, -1, i, a[..i], A)
    {
      CarriedSnoc(was, key.n, -1, i, a[..i], A);
      ghost var done := a[..i];
      A := A + a[i] - key.n[i];
      a[i] := A % BASE;
      assert a[..i + 1] == done + [A % BASE];
      A := A / BASE;
    }
    assert a[..a.Length] == a[..];
    CarriedEnd(was, key.n, -1, a[..], A);
    ValBound(was);
    ValBound(key.n);
    ValBound(a[..]);
    BorrowOut(Val(a[..]), A, R(a.Length), Val(was), key.N());
  }

  lemma DigitDominates(x: int, d: int, y: int, e: int, r: int)
    requires 0 <= x && 0 <= y < r && d > e
    ensures x + d * r > y + e * r
  {
    assert d * r >= (e + 1) * r;
  }

  lemma CompareAt(s: seq<u32>, t: seq<u32>, i: nat)
    requires |s| == |t| && i < |s| && s[i + 1..] == t[i + 1..] && s[i] > t[i]
    ensures Val(s) > Val(t)
  {
    ValSplit(s, i + 1);
    ValSplit(t, i + 1);
    ValSnoc(s, i);
    ValSnoc(t, i);
    DigitDominates(Val(s[..i]), s[i], Val(t[..i]), t[i], R(i));
  }

  /** Returns whether a[] >= mod. */
  method GeM(key: Key, a: array<u32>) returns (ge: bool)
    requires a.Length == |key.n|
    ensures ge <==> Val(a[..]) >= key.N()
  {
    var i := |key.n|;
    while i != 0
      invariant 0 <= i <= |key.n|
      invariant a[i..] == key.n[i..]
    {
      i := i - 1;
      if a[i] < key.n[i] {
        CompareAt(key.n, a[..], i);
        return false;
      }
      if a[i] > key.n[i] {
        CompareAt(a[..], key.n, i);
        return true;
      }
      assert a[i..] == [a[i]] + a[i + 1..];
    }
    assert a[..] == key.n;
    return true;
  }

  /** The digit d0 makes the lowest word of c + a·b + d0·n vanish. */
  lemma LowWordVanishes(key: Key, t: int)
    requires key.MontgomeryKey()
    ensures (((t % BASE) * key.n0inv) % BASE * key.n[0] + t % BASE) % BASE == 0
  {
    var x, k, m := t % BASE, key.n0inv, key.n[0];
    var d := (x * k) % BASE;
    Intro(d, x * k, BASE, -((x * k) / BASE));
    Scale(d, x * k, m, BASE);
    Refl(x, BASE);
    Add(d * m, (x * k) * m, x, x, BASE);
    var q := (m * k + 1) / BASE;
    assert m * k + 1 == q * BASE;
    calc {
      (x * k) * m + x;
      x * (m * k + 1);
      x * (q * BASE);
      (x * q) * BASE;
    }
    Intro((x * k) * m + x, 0, BASE, x * q);
    Trans(d * m + x, (x * k) * m + x, 0, BASE);
  }

  /** One word of the interleaved carry chains A and B. */
  lemma ChainStep(p: int, x: int, y: int, z: int, c: int, a: int, d: int, ci: int, bi: int, ni: int, Ah: int, Bh: int)
    requires x + a * y + d * z == BASE * c + (BASE * p) * (Ah + Bh)
    ensures
      var r := BASE * p;
      var A := Ah + a * bi + ci;
      var B := Bh + d * ni + A % BASE;
      (x + ci * r) + a * (y + bi * r) + d * (z + ni * r) == BASE * (c + (B % BASE) * p) + (BASE * r) * (A / BASE + B / BASE)
  {
    var r := BASE * p;
    var A := Ah + a * bi + ci;
    var B := Bh + d * ni + A % BASE;
    var Aq, Bq, Bm := A / BASE, B / BASE, B % BASE;
    assert Ah + Bh + ci + a * bi + d * ni == BASE * (Aq + Bq) + Bm;
    calc {
      (x + ci * r) + a * (y + bi * r) + d * (z + ni * r);
      { Distribute3(a, y, bi, r); Distribute3(d, z, ni, r); }
      (x + a * y + d * z) + ci * r + (a * bi) * r + (d * ni) * r;
      BASE * c + r * (Ah + Bh) + ci * r + (a * bi) * r + (d * ni) * r;
      { Collect(r, Ah + Bh, ci, a * bi, d * ni); }
      BASE * c + r * (Ah + Bh + ci + a * bi + d * ni);
      BASE * c + r * (BASE * (Aq + Bq) + Bm);
      { assert r * (BASE * (Aq + Bq) + Bm) == (BASE * r) * (Aq + Bq) + Bm * r; }
      BASE * c + (BASE * r) * (Aq + Bq) + Bm * r;
      { assert Bm * r == BASE * (Bm * p); }
      BASE * (c + Bm * p) + (BASE * r) * (Aq + Bq);
    }
  }

  lemma Distribute3(a: int, y: int, b: int, r: int)
    ensures a * (y + b * r) == a * y + (a * b) * r
  {
    assert a * (b * r) == (a * b) * r;
  }

  lemma Collect(r: int, u: int, v: int, w: int, z: int)
    ensures r * u + v * r + w * r + z * r == r * (u + v + w + z)
  {
  }

  lemma ChainEnd(x: int, a: int, y: int, d: int, n: int, c: int, r: int, s: int)
    requires 0 <= x < r && 0 <= y < r && 0 < n < r && 0 <= a < BASE && 0 <= d < BASE
    requires x + a * y + d * n == BASE * (c + r * s)
    ensures c + r * s < r + n
  {
    MulMono(a, y, BASE - 1);
    MulMono(d, n, BASE - 1);
    assert BASE * (c + r * s) < BASE * (r + n);
  }

  /** The state of the two carry chains after i words: `done` holds the words already
      shifted down, s the sum of the two pending carries. */
  ghost predicate Chain(was: seq<u32>, b: seq<u32>, n: seq<u32>, a: int, d0: int, i: nat, done: seq<u32>, s: int)
    requires 1 <= i <= |was| == |b| == |n|
  {
    && |done| == i - 1
    && Val(was[..i]) + a * Val(b[..i]) + d0 * Val(n[..i]) == BASE * Val(done) + (BASE * R(i - 1)) * s
  }

  lemma ChainExtends(was: seq<u32>, b: seq<u32>, n: seq<u32>, a: int, d0: int, i: nat, done: seq<u32>,
                     Ah: int, Bh: int, A: int, B: int)
    requires 1 <= i < |was| == |b| == |n|
    requires Chain(was, b, n, a, d0, i, done, Ah + Bh)
    requires A == Ah + a * b[i] + was[i] && B == Bh + d0 * n[i] + A % BASE
    ensures Chain(was, b, n, a, d0, i + 1, done + [B % BASE], A / BASE + B / BASE)
  {
    ValSnoc(was, i);
    ValSnoc(b, i);
    ValSnoc(n, i);
    ValAppend(done, B % BASE);
    ChainStep(R(i - 1), Val(was[..i]), Val(b[..i]), Val(n[..i]), Val(done), a, d0, was[i], b[i], n[i], Ah, Bh);
  }

  /** c[] += a * b[] / 2^32 modulo n, keeping c below R. */
  method MontMulAdd(key: Key, c: array<u32>, a: u32, b: seq<u32>)
    requires key.MontgomeryKey() && c.Length == |b| == |key.n|
    modifies c
    ensures key.N() > 0 && Cong(Val(c[..]) * BASE, Val(old(c[..])) + a * Val(b), key.N())
  {
    hide Chain, Cong, Val, R;
    ghost var was := c[..];
    ModulusPositive(key);
    assert |key.n| > 0;
    hide Key.MontgomeryKey;
    ProductFits(a, b[0]);
    var A: u64 := a * b[0] + c[0];
    var d0: u32 := ((A % BASE) * key.n0inv) % BASE;
    ProductFits(d0, key.n[0]);
    var B: u64 := d0 * key.n[0] + A % BASE;
    LowWordVanishes(key, A);
    FirstWord(was, b, key.n, a, d0, A, B);
    var i := 1;
    while i < |key.n|
      invariant 1 <= i <= |key.n|
      invariant c[i..] == was[i..]
      invariant Chain(was, b, key.n, a, d0, i, c[..i - 1], A / BASE + B / BASE)
    {
      ghost var done, high, high' := c[..i - 1], A / BASE, B / BASE;
      assert c[i] == c[i..][0] == was[i];
      ProductFits(a, b[i]);
      ProductFits(d0, key.n[i]);
      A := A / BASE + a * b[i] + c[i];
      B := B / BASE + d0 * key.n[i] + A % BASE;
      ChainExtends(was, b, key.n, a, d0, i, done, high, high', A, B);
      c[i - 1] := B % BASE;
      assert c[..i] == done + [B % BASE];
      assert c[i + 1..] == was[i + 1..] by { assert c[i..][1..] == c[i + 1..]; assert was[i..][1..] == was[i + 1..]; }
      i := i + 1;
    }
    ghost var done, s := c[..i - 1], A / BASE + B / BASE;
    A := A / BASE + B / BASE;
    c[i - 1] := A % BASE;
    assert c[..] == done + [s % BASE];
    ChainFinish(key, was, b, a, d0, done, s);
    if A / BASE != 0 {
      SubM(key, c);
    }
  }

  lemma ChainEnds(was: seq<u32>, b: seq<u32>, n: seq<u32>, a: u32, d0: u32, done: seq<u32>, s: nat)
    requires |was| == |b| == |n| >= 1
    requires Chain(was, b, n, a, d0, |was|, done, s)
    ensures
      var p := R(|was| - 1);
      && R(|was|) == BASE * p
      && 0 <= Val(was) < BASE * p && 0 <= Val(b) < BASE * p && Val(n) < BASE * p && 0 <= Val(done) < p
      && Val(was) + a * Val(b) + d0 * Val(n) == BASE * Val(done) + (BASE * p) * s
      && Val(done + [s % BASE]) == Val(done) + (s % BASE) * p
  {
    var k := |was|;
    assert was[..k] == was && b[..k] == b && n[..k] == n;
    ValAppend(done, s % BASE);
  }

  lemma ChainFinish(key: Key, was: seq<u32>, b: seq<u32>, a: u32, d0: u32, done: seq<u32>, s: nat)
    requires |was| == |b| == |key.n| >= 1 && key.N() > 0
    requires Chain(was, b, key.n, a, d0, |was|, done, s)
    ensures
      var cv := Val(done + [s % BASE]);
      && 0 <= s / BASE <= 1
      && (s / BASE == 0 ==> Cong(cv * BASE, Val(was) + a * Val(b), key.N()))
      && (s / BASE == 1 ==> cv < key.N() && Cong((cv - key.N() + R(|was|)) * BASE, Val(was) + a * Val(b), key.N()))
  {
    hide Val, R, Cong, Chain;
    ChainEnds(was, b, key.n, a, d0, done, s);
    LastCarry(Val(was), a, Val(b), d0, Val(key.n), Val(done), R(|was| - 1), s);
  }

  /** After the last word: the carry is 0 or 1, and when it is 1 one subtraction of n
      brings the value back below R. */
  lemma LastCarry(x: int, a: int, y: int, d: int, n: int, v: int, p: int, s: int)
    requires p >= 1 && 0 <= x < BASE * p && 0 <= y < BASE * p && 0 < n < BASE * p
    requires 0 <= a < BASE && 0 <= d < BASE && 0 <= v < p && 0 <= s
    requires x + a * y + d * n == BASE * v + (BASE * p) * s
    ensures
      var cv := v + (s % BASE) * p;
      && 0 <= s / BASE <= 1
      && (s / BASE == 0 ==> Cong(cv * BASE, x + a * y, n))
      && (s / BASE == 1 ==> cv < n && Cong((cv - n + BASE * p) * BASE, x + a * y, n))
  {
    var cv, q, r := v + (s % BASE) * p, s / BASE, BASE * p;
    TopSplit(v, p, s);
    ChainEnd(x, a, y, d, n, cv, r, q);
    MulNonneg(s % BASE, p);
    assert cv + r * q < 2 * r;
    QuotientBit(r, q, cv);
    if q == 0 {
      Intro(cv * BASE, x + a * y, n, d);
    } else {
      assert (cv - n + r) * BASE - (x + a * y) == (d - BASE) * n;
      Intro((cv - n + r) * BASE, x + a * y, n, d - BASE);
    }
  }

  lemma QuotientBit(r: int, q: int, c: int)
    requires r >= 1 && q >= 0 && c >= 0 && c + r * q < 2 * r
    ensures q <= 1
  {
    if q >= 2 {
      MulMono(2, r, q);
    }
  }

  lemma TopSplit(v: int, p: int, s: int)
    ensures BASE * v + (BASE * p) * s == BASE * ((v + (s % BASE) * p) + (BASE * p) * (s / BASE))
  {
    var q, m := s / BASE, s % BASE;
    calc {
      (BASE * p) * s;
      (BASE * p) * (q * BASE + m);
      BASE * (p * (q * BASE + m));
      { assert p * (q * BASE + m) == (BASE * p) * q + m * p; }
      BASE * ((BASE * p) * q + m * p);
    }
  }

  lemma FirstWord(was: seq<u32>, b: seq<u32>, n: seq<u32>, a: int, d0: int, A: int, B: int)
    requires was != [] && b != [] && n != []
    requires A == a * b[0] + was[0] && B == d0 * n[0] + A % BASE && B % BASE == 0
    requires |was| == |b| == |n|
    ensures Chain(was, b, n, a, d0, 1, [], A / BASE + B / BASE)
  {
    ValSnoc(was, 0);
    ValSnoc(b, 0);
    ValSnoc(n, 0);
  }

  lemma ProductStep(c: int, c': int, a: int, d: int, b: int, r: int, n: int)
    requires n > 0 && Cong(c * r, a * b, n) && Cong(c' * BASE, c + d * b, n)
    ensures Cong(c' * (BASE * r), (a + d * r) * b, n)
  {
    Scale(c' * BASE, c + d * b, r, n);
    Refl((d * b) * r, n);
    Add(c * r, a * b, (d * b) * r, (d * b) * r, n);
    assert (c' * BASE) * r == c' * (BASE * r);
    assert (c + d * b) * r == c * r + (d * b) * r;
    assert (a + d * r) * b == a * b + (d * b) * r by { assert (d * r) * b == (d * b) * r; }
    Trans(c' * (BASE * r), c * r + (d * b) * r, (a + d * r) * b, n);
  }

  /** c[] = a[] * b[] / R modulo n, below R. */
  method MontMul(key: Key, c: array<u32>, a: seq<u32>, b: seq<u32>)
    requires key.MontgomeryKey() && c.Length == |a| == |b| == |key.n|
    modifies c
    ensures key.N() > 0 && Cong(Val(c[..]) * R(|key.n|), Val(a) * Val(b), key.N())
  {
    ModulusPositive(key);
    for i := 0 to |key.n|
      invariant forall k :: 0 <= k < i ==> c[k] == 0
    {
      c[i] := 0;
    }
    ValZeros(c[..]);
    Refl(0, key.N());
    for i := 0 to |key.n|
      invariant Cong(Val(c[..]) * R(i), Val(a[..i]) * Val(b), key.N())
    {
      ghost var before := Val(c[..]);
      MontMulAdd(key, c, a[i], b);
      ProductStep(before, Val(c[..]), Val(a[..i]), a[i], Val(b), R(i), key.N());
      ValSnoc(a, i);
    }
    assert a[..|a|] == a;
  }

  /** 2^32 is invertible modulo n, with an inverse that n0inv gives away. */
  ghost function BaseInverse(key: Key): int
    requires key.MontgomeryKey()
  {
    (key.N() * key.n0inv + 1) / BASE
  }

  lemma BaseInvertible(key: Key)
    requires key.MontgomeryKey() && key.N() > 0
    ensures Cong(BASE * BaseInverse(key), 1, key.N())
  {
    var t, k, m, hi := key.N(), key.n0inv, key.n[0], Val(key.n[1..]);
    assert t == m + BASE * hi by {
      assert key.n[..1] == [m];
      ValSplit(key.n, 1);
      ValSingle(m);
    }
    hide Val, Cong;
    LowWordDivides(t, m, hi, k);
    Intro(BASE * BaseInverse(key), 1, t, k);
  }

  lemma LowWordDivides(t: int, m: int, hi: int, k: int)
    requires t == m + BASE * hi && (m * k + 1) % BASE == 0
    ensures BASE * ((t * k + 1) / BASE) == t * k + 1 && t * k == k * t
  {
    var q := (m * k + 1) / BASE;
    calc {
      t * k + 1;
      (m + BASE * hi) * k + 1;
      m * k + BASE * (hi * k) + 1;
      BASE * (q + hi * k);
    }
  }

  lemma {:induction false} RIsPow(i: nat)
    ensures R(i) == Pow(BASE, i)
  {
    if i > 0 {
      RIsPow(i - 1);
    }
  }

  /** Dividing a congruence by R. */
  lemma CancelR(key: Key, x: int, y: int)
    requires key.MontgomeryKey() && key.N() > 0
    requires Cong(x * R(|key.n|), y * R(|key.n|), key.N())
    ensures Cong(x, y, key.N())
  {
    BaseInvertible(key);
    RIsPow(|key.n|);
    PowInverse(BASE, BaseInverse(key), |key.n|, key.N());
    Cancel(x, y, R(|key.n|), Pow(BaseInverse(key), |key.n|), key.N());
  }

  /** v is the Montgomery form of x^e. */
  ghost predicate MontPower(key: Key, v: int, x: int, e: nat)
    requires key.N() > 0
  {
    Cong(v, Pow(x, e) * R(|key.n|), key.N())
  }

  lemma EnterMontgomery(key: Key, v: int, x: int)
    requires key.Valid() && key.N() > 0
    requires Cong(v * R(|key.n|), x * Val(key.rr), key.N())
    ensures MontPower(key, v, x, 1)
  {
    hide Cong, R, Val, Pow;
    var r := R(|key.n|);
    Scale(Val(key.rr), r * r, x, key.N());
    MulComm(x, Val(key.rr));
    MulComm(r * r, x);
    MulAssoc(x, r, r);
    Trans(v * r, x * Val(key.rr), (x * r) * r, key.N());
    CancelR(key, v, x * r);
    PowOne(x);
  }

  lemma PowOne(x: int)
    ensures Pow(x, 1) == x
  {
    assert Pow(x, 1) == x * Pow(x, 0);
  }

  lemma MulComm(x: int, y: int)
    ensures x * y == y * x
  {
  }

  lemma SquareMontgomery(key: Key, v: int, w: int, x: int, e: nat)
    requires key.Valid() && key.N() > 0
    requires MontPower(key, w, x, e) && Cong(v * R(|key.n|), w * w, key.N())
    ensures MontPower(key, v, x, 2 * e)
  {
    hide Cong, R, Val, Pow;
    var r, p := R(|key.n|), Pow(x, e);
    Mul(w, p * r, w, p * r, key.N());
    MulAssoc(p * r, p, r);
    MulComm(p * r, p);
    MulAssoc(p, p, r);
    Trans(v * r, w * w, ((p * p) * r) * r, key.N());
    CancelR(key, v, (p * p) * r);
    PowAdd(x, e, e);
  }

  lemma LeaveMontgomery(key: Key, v: int, w: int, x: int, e: nat)
    requires key.Valid() && key.N() > 0
    requires MontPower(key, w, x, e) && Cong(v * R(|key.n|), w * x, key.N())
    ensures Cong(v, Pow(x, e + 1), key.N())
  {
    hide Cong, R, Val, Pow;
    var r, p := R(|key.n|), Pow(x, e);
    Scale(w, p * r, x, key.N());
    MulComm(p * r, x);
    MulAssoc(x, p, r);
    Trans(v * r, w * x, (x * p) * r, key.N());
    CancelR(key, v, x * p);
    PowNext(x, e);
  }

  lemma PowNext(x: int, e: nat)
    ensures Pow(x, e + 1) == x * Pow(x, e)
  {
  }

  type u8 = x: int | 0 <= x < 256

  /** The value of a big-endian byte string. */
  function BigEndian(s: seq<u8>): nat
  {
    if s == [] then 0 else BigEndian(s[..|s| - 1]) * 256 + s[|s| - 1]
  }

  /** The four bytes of a word, most significant first, and back. */
  function WordBytes(w: u32): (s: seq<u8>)
  {
    [w / 0x100_0000, w / 0x1_0000 % 256, w / 0x100 % 256, w % 256]
  }

  function WordOf(b0: u8, b1: u8, b2: u8, b3: u8): u32
  {
    b0 * 0x100_0000 + b1 * 0x1_0000 + b2 * 0x100 + b3
  }

  lemma WordRoundTrip(b0: u8, b1: u8, b2: u8, b3: u8)
    ensures WordBytes(WordOf(b0, b1, b2, b3)) == [b0, b1, b2, b3]
  {
    var w := WordOf(b0, b1, b2, b3);
    assert w / 0x1_0000 == b0 * 256 + b1;
    assert w / 0x100 == b0 * 0x1_0000 + b1 * 256 + b2;
  }

  /** The big-endian bytes of a little-endian word array. */
  function Bytes(s: seq<u32>): (t: seq<u8>)
    ensures |t| == 4 * |s|
  {
    if s == [] then [] else WordBytes(s[|s| - 1]) + Bytes(s[..|s| - 1])
  }

  lemma {:induction false} BigEndianWord(w: u32, t: seq<u8>, k: nat)
    requires |t| == 4 * k
    ensures BigEndian(WordBytes(w) + t) == w * R(k) + BigEndian(t)
  {
    var b := WordBytes(w);
    if k == 0 {
      assert b + t == b;
      FourBytes(w);
    } else {
      var m := |t|;
      var t4 := t[..m - 4];
      BigEndianWord(w, t4, k - 1);
      FourMore(t);
      FourMore(b + t);
      assert (b + t)[..|b + t| - 4] == b + t4;
      assert R(k) == BASE * R(k - 1);
      hide BigEndian, R;
      ShiftProduct(w, R(k - 1), BigEndian(t4));
    }
  }

  lemma FourBytes(w: u32)
    ensures BigEndian(WordBytes(w)) == w
  {
    var b := WordBytes(w);
    FourMore(b);
    assert b[..0] == [] && BigEndian([]) == 0;
    hide BigEndian;
    assert w / 0x1_0000 == (w / 0x100_0000) * 0x100 + w / 0x1_0000 % 0x100;
    assert w / 0x100 == (w / 0x1_0000) * 0x100 + w / 0x100 % 0x100;
  }

  lemma ShiftProduct(w: int, r: int, v: int)
    ensures (w * r + v) * BASE == w * (BASE * r) + v * BASE
  {
  }

  lemma Unsnoc(t: seq<u8>, k: nat)
    requires 1 <= k <= |t|
    ensures BigEndian(t[..k]) == BigEndian(t[..k - 1]) * 256 + t[k - 1]
  {
    assert t[..k][..k - 1] == t[..k - 1];
  }

  lemma FourMore(t: seq<u8>)
    requires |t| >= 4
    ensures
      var m := |t|;
      BigEndian(t) == BigEndian(t[..m - 4]) * BASE + WordOf(t[m - 4], t[m - 3], t[m - 2], t[m - 1])
  {
    hide BigEndian;
    var m := |t|;
    Unsnoc(t, m);
    Unsnoc(t, m - 1);
    Unsnoc(t, m - 2);
    Unsnoc(t, m - 3);
    assert t[..m] == t;
  }

  /** Reading the bytes of a word array big-endian gives the array's value. */
  lemma {:induction false} BytesValue(s: seq<u32>)
    ensures BigEndian(Bytes(s)) == Val(s)
  {
    if s != [] {
      var h := |s| - 1;
      BytesValue(s[..h]);
      BigEndianWord(s[h], Bytes(s[..h]), h);
    }
  }

  lemma BytesSnoc(s: seq<u32>, i: int)
    requires -1 <= i < |s|
    ensures i >= 0 ==> Bytes(s[..i + 1]) == WordBytes(s[i]) + Bytes(s[..i])
    ensures Bytes([]) == []
  {
    if i >= 0 {
      assert s[..i + 1][..i] == s[..i];
    }
  }

  /** Converts the byte string to words. */
  method LoadWords(a: array<u32>, bytes: array<u8>)
    requires bytes.Length == 4 * a.Length && bytes as object != a
    modifies a
    ensures Bytes(a[..]) == bytes[..] && Val(a[..]) == BigEndian(bytes[..])
  {
    for i := 0 to a.Length
      invariant Bytes(a[..i]) == bytes[4 * (a.Length - i)..]
    {
      var p := (a.Length - 1 - i) * 4;
      ghost var done := a[..i];
      a[i] := WordOf(bytes[p], bytes[p + 1], bytes[p + 2], bytes[p + 3]);
      WordRoundTrip(bytes[p], bytes[p + 1], bytes[p + 2], bytes[p + 3]);
      assert a[..i + 1] == done + [a[i]] && (done + [a[i]])[..i] == done;
      assert bytes[p..] == bytes[p..p + 4] + bytes[p + 4..];
    }
    assert a[..a.Length] == a[..] && bytes[0..] == bytes[..];
    BytesValue(a[..]);
  }

  /** Converts the words back to a byte string. */
  method StoreWords(a: array<u32>, bytes: array<u8>)
    requires bytes.Length == 4 * a.Length && bytes as object != a
    modifies bytes
    ensures bytes[..] == Bytes(a[..]) && BigEndian(bytes[..]) == Val(a[..])
  {
    hide Val, BigEndian, Bytes;
    var i, p := a.Length - 1, 0;
    ghost var all := Bytes(a[..]);
    assert a[..a.Length] == a[..];
    while i >= 0
      invariant -1 <= i < a.Length && p == 4 * (a.Length - 1 - i)
      invariant bytes[..p] + Bytes(a[..i + 1]) == all
    {
      var tmp := a[i];
      ghost var done := bytes[..p];
      bytes[p] := tmp / 0x100_0000;
      bytes[p + 1] := tmp / 0x1_0000 % 256;
      bytes[p + 2] := tmp / 0x100 % 256;
      bytes[p + 3] := tmp % 256;
      assert bytes[..p + 4] == done + WordBytes(tmp);
      BytesSnoc(a[..], i);
      assert a[..][..i + 1] == a[..i + 1] && a[..][..i] == a[..i];
      assert (done + WordBytes(tmp)) + Bytes(a[..i]) == done + (WordBytes(tmp) + Bytes(a[..i]));
      p := p + 4;
      i := i - 1;
    }
    BytesSnoc(a[..], -1);
    assert a[..0] == [] && bytes[..p] + [] == bytes[..];
    BytesValue(a[..]);
  }

  /** The exponent reached after i squarings. */
  function Squared(i: nat): nat
  {
    if i == 0 then 1 else 2 * Squared(i - 1)
  }

  lemma SquaredValues(i: nat)
    ensures Squared(0) == 1 && Squared(16) == 65536
    ensures Squared(i + 1) == 2 * Squared(i) && Squared(i + 2) == 2 * Squared(i + 1)
  {
    assert Squared(4) == 16 && Squared(8) == 256 && Squared(12) == 4096;
  }

  /** In-place public exponentiation of a big-endian byte string. */
  method ModPow(key: Key, inout: array<u8>)
    requires key.Valid() && inout.Length == 4 * |key.n|
    modifies inout
    ensures key.N() > 0
    ensures BigEndian(inout[..]) == Pow(BigEndian(old(inout[..])), key.exponent) % key.N()
  {
    hide Cong, Val, R, Pow, MontPower, BigEndian, Bytes, Squared;
    ModulusPositive(key);
    var len := |key.n|;
    var a, aR, aaR := new u32[len], new u32[len], new u32[len];
    LoadWords(a, inout);
    ghost var x := Val(a[..]);

    var aaa;
    if key.exponent == 65537 {
      aaa := aaR;
      MontMul(key, aR, a[..], key.rr);
      EnterMontgomery(key, Val(aR[..]), x);
      var i := 0;
      SquaredValues(0);
      while i < 16
        invariant 0 <= i <= 16 && i % 2 == 0
        invariant MontPower(key, Val(aR[..]), x, Squared(i))
        invariant x == Val(a[..])
      {
        SquaredValues(i);
        ghost var w := Val(aR[..]);
        MontMul(key, aaR, aR[..], aR[..]);
        SquareMontgomery(key, Val(aaR[..]), w, x, Squared(i));
        w := Val(aaR[..]);
        MontMul(key, aR, aaR[..], aaR[..]);
        SquareMontgomery(key, Val(aR[..]), w, x, Squared(i + 1));
        i := i + 2;
      }
      SquaredValues(16);
      ghost var w := Val(aR[..]);
      MontMul(key, aaa, aR[..], a[..]);
      LeaveMontgomery(key, Val(aaa[..]), w, x, 65536);
    } else {
      aaa := aR;
      MontMul(key, aR, a[..], key.rr);
      EnterMontgomery(key, Val(aR[..]), x);
      ghost var w := Val(aR[..]);
      MontMul(key, aaR, aR[..], aR[..]);
      SquareMontgomery(key, Val(aaR[..]), w, x, 1);
      w := Val(aaR[..]);
      MontMul(key, aaa, aaR[..], a[..]);
      LeaveMontgomery(key, Val(aaa[..]), w, x, 2);
    }

    var ge := GeM(key, aaa);
    ReduceOnce(key, Val(aaa[..]), Pow(x, key.exponent));
    if ge {
      SubM(key, aaa);
    }
    StoreWords(aaa, inout);
  }

  /** Below R < 2n, one conditional subtraction gives the residue. */
  lemma ReduceOnce(key: Key, v: int, y: int)
    requires key.Valid() && key.N() > 0 && 0 <= v < R(|key.n|) && Cong(v, y, key.N())
    ensures (if v >= key.N() then v - key.N() else v) == y % key.N()
  {
    var n := key.N();
    if v >= n {
      Intro(v - n, v, n, -1);
      Trans(v - n, v, y, n);
      Residue(v - n, y, n);
    } else {
      Residue(v, y, n);
    }
  }
}
