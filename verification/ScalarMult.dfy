/** The comb and window scalar multiplications of tools/libmincrypt/p256_ec.c, over an
    abstract group. The coordinate formulas appear only through what the source says of
    them: doubling is right, and addition is right unless its operands are equal,
    opposite or infinite. */
module ScalarMult {
  import opened Words

  /** The group and the point routines. `junk` stands for whatever the code leaves in a
      register that holds no point: the affine pair (0, 0) with z = 1. */
  datatype Curve<!E(==)> = Curve(
    zero: E, add: (E, E) -> E, neg: E -> E,
    double: E -> E, addMixed: (E, E) -> E, addFull: (E, E) -> E, addOrDouble: (E, E) -> E,
    junk: E)

  ghost predicate IsGroup<E(!new)>(c: Curve<E>)
  {
    && (forall x :: c.add(x, c.zero) == x)
    && (forall x :: c.add(x, c.neg(x)) == c.zero)
    && (forall x, y :: c.add(x, y) == c.add(y, x))
    && (forall x, y, z :: c.add(c.add(x, y), z) == c.add(x, c.add(y, z)))
  }

  ghost predicate Separate<E>(c: Curve<E>, x: E, y: E)
  {
    x != c.zero && y != c.zero && x != y && x != c.neg(y)
  }

  /** What is assumed of point_double, point_add_mixed, point_add and
      point_add_or_double_vartime. */
  ghost predicate PointOps<E(!new)>(c: Curve<E>)
  {
    && (forall x :: c.double(x) == c.add(x, x))
    && (forall x, y :: Separate(c, x, y) ==> c.addMixed(x, y) == c.add(x, y))
    && (forall x, y :: Separate(c, x, y) ==> c.addFull(x, y) == c.add(x, y))
    && (forall x, y :: x != c.zero && y != c.zero ==> c.addOrDouble(x, y) == c.add(x, y))
  }

  ghost function Times<E>(c: Curve<E>, k: nat, p: E): E
  {
    if k == 0 then c.zero else c.add(Times(c, k - 1, p), p)
  }

  /** p has order n. */
  ghost predicate Order<E(!new)>(c: Curve<E>, p: E, n: nat)
  {
    n > 0 && Times(c, n, p) == c.zero && forall k: nat :: 0 < k < n ==> Times(c, k, p) != c.zero
  }

  // ----- group facts -----

  lemma Assoc<E(!new)>(c: Curve<E>, x: E, y: E, z: E)
    requires IsGroup(c)
    ensures c.add(c.add(x, y), z) == c.add(x, c.add(y, z))
  {
  }

  lemma Unit<E(!new)>(c: Curve<E>, x: E)
    requires IsGroup(c)
    ensures c.add(x, c.zero) == x == c.add(c.zero, x) && c.add(x, c.neg(x)) == c.zero == c.add(c.neg(x), x)
  {
    assert c.add(c.zero, x) == c.add(x, c.zero) && c.add(c.neg(x), x) == c.add(x, c.neg(x));
  }

  lemma {:induction false} TimesAdd<E(!new)>(c: Curve<E>, a: nat, b: nat, p: E)
    requires IsGroup(c)
    ensures Times(c, a + b, p) == c.add(Times(c, a, p), Times(c, b, p))
  {
    hide IsGroup;
    if b == 0 {
      Unit(c, Times(c, a, p));
    } else {
      TimesAdd(c, a, b - 1, p);
      Assoc(c, Times(c, a, p), Times(c, b - 1, p), p);
    }
  }

  lemma NotFixed<E(!new)>(c: Curve<E>, t: E, x: E)
    requires IsGroup(c) && t != c.zero
    ensures c.add(t, x) != x
  {
    hide IsGroup;
    Assoc(c, t, x, c.neg(x));
    Unit(c, x);
    Unit(c, t);
  }

  /** Below the order, distinct positive multiples whose sum is below the order too are
      neither equal nor opposite nor infinite. */
  lemma MultiplesSeparate<E(!new)>(c: Curve<E>, a: nat, b: nat, p: E, n: nat)
    requires IsGroup(c) && Order(c, p, n)
    requires 0 < a && 0 < b && a != b && a + b < n
    ensures Separate(c, Times(c, a, p), Times(c, b, p))
  {
    hide IsGroup, Times;
    TimesAdd(c, a, b, p);
    Unit(c, Times(c, b, p));
    if a < b {
      TimesAdd(c, b - a, a, p);
      NotFixed(c, Times(c, b - a, p), Times(c, a, p));
    } else {
      TimesAdd(c, a - b, b, p);
      NotFixed(c, Times(c, a - b, p), Times(c, b, p));
    }
  }

  // ----- masks -----

  /** copy_conditional: the whole register moves or none of it does. */
  function CopyConditional<E>(out: E, src: E, mask: u32): E
    requires mask == 0 || mask == BASE - 1
  {
    if mask == 0 then out else src
  }

  // ----- scalars as bits -----

  function Pow2(k: nat): nat
  {
    if k == 0 then 1 else 2 * Pow2(k - 1)
  }

  /** w >> k. */
  function Shr(w: nat, k: nat): nat
  {
    if k == 0 then w else Shr(w / 2, k - 1)
  }

  function GetBit(s: seq<u32>, bit: nat): nat
    requires bit < 32 * |s|
  {
    Shr(s[bit / 32], bit % 32) % 2
  }

  lemma {:induction false} ShrStep(w: nat, k: nat)
    ensures Shr(w, k) == 2 * Shr(w, k + 1) + Shr(w, k) % 2
  {
    if k > 0 {
      ShrStep(w / 2, k - 1);
    }
  }

  lemma {:induction false} ShrAll(w: nat, k: nat)
    requires w < Pow2(k)
    ensures Shr(w, k) == 0
  {
    if k > 0 {
      ShrAll(w / 2, k - 1);
    }
  }

  lemma {:induction false} ShrLe(w: nat, k: nat)
    ensures Shr(w, k) <= w
  {
    if k > 0 {
      ShrLe(w / 2, k - 1);
    }
  }

  lemma WordBits(w: u32)
    ensures Shr(w, 32) == 0
  {
    assert Pow2(8) == 256 && Pow2(16) == 0x1_0000 && Pow2(24) == 0x100_0000 && Pow2(32) == 0x1_0000_0000;
    ShrAll(w, 32);
  }

  // ----- the comb, word by word -----

  lemma {:induction false} ValLe(x: seq<u32>, y: seq<u32>)
    requires |x| == |y| && forall w :: 0 <= w < |x| ==> x[w] <= y[w]
    ensures Val(x) <= Val(y)
  {
    if x != [] {
      var h := |x| - 1;
      ValLe(x[..h], y[..h]);
      MulMono(x[h], R(h), y[h]);
    }
  }

  lemma {:induction false} ValSum(x: seq<u32>, y: seq<u32>, z: seq<u32>)
    requires |x| == |y| == |z| && forall w :: 0 <= w < |x| ==> z[w] as int == x[w] as int + y[w] as int
    ensures Val(z) == Val(x) + Val(y)
  {
    if x != [] {
      var h := |x| - 1;
      ValSum(x[..h], y[..h], z[..h]);
      assert (x[h] + y[h]) * R(h) == x[h] * R(h) + y[h] * R(h);
    }
  }

  lemma {:induction false} ValInjective(x: seq<u32>, y: seq<u32>)
    requires |x| == |y| && Val(x) == Val(y)
    ensures x == y
  {
    if x != [] {
      var h := |x| - 1;
      ValBound(x[..h]);
      ValBound(y[..h]);
      TopDigitsEqual(Val(x[..h]), x[h], Val(y[..h]), y[h], R(h));
      ValInjective(x[..h], y[..h]);
      assert x == x[..h] + [x[h]] && y == y[..h] + [y[h]];
    }
  }

  lemma TopDigitsEqual(v: int, d: int, u: int, e: int, r: int)
    requires 0 <= v < r && 0 <= u < r && v + d * r == u + e * r
    ensures d == e && v == u
  {
    if d >= e + 1 {
      MulMono(e + 1, r, d);
    } else if e >= d + 1 {
      MulMono(d + 1, r, e);
    }
  }

  /** The partial scalar in round i, after the doubling and h of the two table additions:
      every word of the scalar has contributed its top i bits, doubled, and the words of
      the table halves already added one bit more. */
  ghost function Partial(s: seq<u32>, i: nat, h: nat): (p: seq<u32>)
    requires i < 32
    ensures |p| == |s| && forall w :: 0 <= w < |s| ==> p[w] <= s[w]
  {
    seq(|s|, w requires 0 <= w < |s| => PartialWord(s[w], i, w % 2 < h))
  }

  ghost function PartialWord(w: u32, i: nat, added: bool): (p: u32)
    requires i < 32
    ensures p <= w
  {
    ShrStep(w, 31 - i);
    ShrLe(w, 31 - i);
    2 * Shr(w, 32 - i) + if added then Shr(w, 31 - i) % 2 else 0
  }

  /** The top i bits of every word. */
  ghost function Tops(s: seq<u32>, i: nat): (p: seq<u32>)
    requires i <= 32
    ensures |p| == |s| && forall w :: 0 <= w < |s| ==> p[w] <= s[w]
  {
    forall w | 0 <= w < |s| ensures Shr(s[w], 32 - i) <= s[w] { ShrLe(s[w], 32 - i); }
    seq(|s|, w requires 0 <= w < |s| => Shr(s[w], 32 - i))
  }

  /** The scalar that table entry `index` of half h multiplies the base point by: bit m
      of the index stands for 2^(64m), times 2^32 in the second half. */
  ghost function TableScalar(h: nat, index: nat): nat
  {
    Val(TableWords(h, index))
  }

  ghost function TableWords(h: nat, index: nat): (p: seq<u32>)
    ensures |p| == 8 && forall w: nat :: w < 8 ==> p[w] == if w % 2 == h then Shr(index, w / 2) % 2 else 0
  {
    seq(8, w requires 0 <= w < 8 => if w % 2 == h then Shr(index, w / 2) % 2 else 0)
  }

  /** In numbers, as the comment on the tables lists them: 1, 2^64, 2^128 and 2^192 for the bits
      of the index, and 2^32, 2^96, 2^160 and 2^224 in the second table. */
  lemma TableScalars(index: nat)
    ensures
      var b0, b1, b2, b3 := index % 2, index / 2 % 2, index / 4 % 2, index / 8 % 2;
      && TableScalar(0, index) == b0 + 0x1_0000_0000_0000_0000 * b1 + 0x1_0000_0000_0000_0000_0000_0000_0000_0000 * b2
                                  + 0x1_0000_0000_0000_0000_0000_0000_0000_0000_0000_0000_0000_0000 * b3
      && TableScalar(1, index) == 0x1_0000_0000 * TableScalar(0, index)
  {
    hide Shr, TableWords, Val;
    ShiftedIndex(index);
    EightWords(TableWords(0, index));
    EightWords(TableWords(1, index));
  }

  lemma ShiftedIndex(index: nat)
    ensures Shr(index, 0) == index && Shr(index, 1) == index / 2 && Shr(index, 2) == index / 4 && Shr(index, 3) == index / 8
  {
    assert Shr(index / 2, 1) == Shr(index / 4, 0);
    assert Shr(index / 2, 2) == Shr(index / 4, 1) == Shr(index / 8, 0);
  }

  lemma EightWords(s: seq<u32>)
    requires |s| == 8
    ensures Val(s) == s[0] as int + 0x1_0000_0000 * s[1] as int + 0x1_0000_0000_0000_0000 * s[2] as int
                      + 0x1_0000_0000_0000_0000_0000_0000 * s[3] as int
                      + 0x1_0000_0000_0000_0000_0000_0000_0000_0000 * s[4] as int
                      + 0x1_0000_0000_0000_0000_0000_0000_0000_0000_0000_0000 * s[5] as int
                      + 0x1_0000_0000_0000_0000_0000_0000_0000_0000_0000_0000_0000_0000 * s[6] as int
                      + 0x1_0000_0000_0000_0000_0000_0000_0000_0000_0000_0000_0000_0000_0000_0000 * s[7] as int
  {
    hide Val, R;
    Radixes();
    assert s[..8] == s;
    ValNone(s);
    ValSnoc(s, 0);
    ValSnoc(s, 1);
    ValSnoc(s, 2);
    ValSnoc(s, 3);
    ValSnoc(s, 4);
    ValSnoc(s, 5);
    ValSnoc(s, 6);
    ValSnoc(s, 7);
  }

  lemma ValNone(s: seq<u32>)
    ensures Val(s[..0]) == 0
  {
  }

  lemma Radixes()
    ensures R(0) == 1 && R(1) == 0x1_0000_0000 && R(2) == 0x1_0000_0000_0000_0000 && R(3) == 0x1_0000_0000_0000_0000_0000_0000
    ensures R(4) == 0x1_0000_0000_0000_0000_0000_0000_0000_0000
    ensures R(5) == 0x1_0000_0000_0000_0000_0000_0000_0000_0000_0000_0000
    ensures R(6) == 0x1_0000_0000_0000_0000_0000_0000_0000_0000_0000_0000_0000_0000
    ensures R(7) == 0x1_0000_0000_0000_0000_0000_0000_0000_0000_0000_0000_0000_0000_0000_0000
  {
    assert R(1) == BASE * R(0);
    assert R(2) == BASE * R(1);
    assert R(3) == BASE * R(2);
    assert R(4) == BASE * R(3);
    assert R(5) == BASE * R(4);
    assert R(6) == BASE * R(5);
    assert R(7) == BASE * R(6);
  }

  function Index(b0: nat, b1: nat, b2: nat, b3: nat): nat
  {
    b0 + 2 * b1 + 4 * b2 + 8 * b3
  }

  lemma ShrSmall(x: nat)
    ensures Shr(x, 0) == x && Shr(x, 1) == x / 2 && Shr(x, 2) == x / 2 / 2 && Shr(x, 3) == x / 2 / 2 / 2
  {
    assert Shr(x / 2 / 2, 1) == Shr(x / 2 / 2 / 2, 0);
    assert Shr(x / 2, 2) == Shr(x / 2 / 2, 1) && Shr(x / 2, 1) == Shr(x / 2 / 2, 0);
  }

  lemma IndexBits(b0: nat, b1: nat, b2: nat, b3: nat)
    requires b0 < 2 && b1 < 2 && b2 < 2 && b3 < 2
    ensures
      var x := Index(b0, b1, b2, b3);
      Shr(x, 0) % 2 == b0 && Shr(x, 1) % 2 == b1 && Shr(x, 2) % 2 == b2 && Shr(x, 3) % 2 == b3
  {
    ShrSmall(Index(b0, b1, b2, b3));
  }

  /** The index read in round i for half h. */
  ghost function CombIndex(s: seq<u32>, i: nat, h: nat): nat
    requires |s| == 8 && i < 32 && h < 2
  {
    Index(Shr(s[h], 31 - i) % 2, Shr(s[h + 2], 31 - i) % 2, Shr(s[h + 4], 31 - i) % 2, Shr(s[h + 6], 31 - i) % 2)
  }

  lemma TableWordsAt(s: seq<u32>, i: nat, h: nat, w: nat)
    requires |s| == 8 && i < 32 && h < 2 && w < 8
    ensures TableWords(h, CombIndex(s, i, h))[w] == if w % 2 == h then Shr(s[w], 31 - i) % 2 else 0
  {
    hide Shr, Index;
    IndexBits(Shr(s[h], 31 - i) % 2, Shr(s[h + 2], 31 - i) % 2, Shr(s[h + 4], 31 - i) % 2, Shr(s[h + 6], 31 - i) % 2);
    if w % 2 == h {
      assert w == h || w == h + 2 || w == h + 4 || w == h + 6;
    }
  }

  /** One table addition: the new partial scalar is the sum, it stays at most the scalar,
      and the two operands differ, because in a word where the table has a 1 the partial
      scalar has an even digit. */
  lemma CombAddition(s: seq<u32>, i: nat, h: nat)
    requires |s| == 8 && i < 32 && h < 2
    ensures
      var index := CombIndex(s, i, h);
      var p := TableScalar(h, index);
      && index < 16
      && Val(Partial(s, i, h + 1)) == Val(Partial(s, i, h)) + p <= Val(s)
      && (p == 0 <==> index == 0)
      && (p > 0 ==> Val(Partial(s, i, h)) != p)
  {
    hide Val, Partial, TableWords, CombIndex;
    var index := CombIndex(s, i, h);
    var x, y, z := Partial(s, i, h), TableWords(h, index), Partial(s, i, h + 1);
    forall w | 0 <= w < 8
      ensures z[w] as int == x[w] as int + y[w] as int && (y[w] == 0 || (y[w] == 1 && x[w] % 2 == 0))
    {
      CombWord(s, i, h, w);
    }
    CombIndexSmall(s, i, h);
    ValSum(x, y, z);
    ValLe(z, s);
    ZeroIndex(h, index);
    if Val(x) == Val(y) {
      ValInjective(x, y);
      ZeroWords(y);
    }
  }

  lemma CombIndexSmall(s: seq<u32>, i: nat, h: nat)
    requires |s| == 8 && i < 32 && h < 2
    ensures CombIndex(s, i, h) < 16
  {
    hide Shr;
  }

  lemma CombWord(s: seq<u32>, i: nat, h: nat, w: nat)
    requires |s| == 8 && i < 32 && h < 2 && w < 8
    ensures
      var x, y, z := Partial(s, i, h)[w], TableWords(h, CombIndex(s, i, h))[w], Partial(s, i, h + 1)[w];
      z as int == x as int + y as int && (y == 0 || (y == 1 && x % 2 == 0))
  {
    hide Shr, TableWords, CombIndex;
    TableWordsAt(s, i, h, w);
  }

  lemma ZeroWords(y: seq<u32>)
    requires forall w :: 0 <= w < |y| ==> y[w] == 0
    ensures Val(y) == 0
  {
    ValZeros(y);
  }

  lemma ZeroIndex(h: nat, index: nat)
    requires h < 2 && index < 16
    ensures TableScalar(h, index) == 0 <==> index == 0
  {
    var y := TableWords(h, index);
    ShrSmall(index);
    if index == 0 {
      forall w | 0 <= w < 8 ensures y[w] == 0 { ShrLe(0, w / 2); }
      ZeroWords(y);
    } else {
      NonZeroIndex(h, index, y);
    }
  }

  lemma NonZeroIndex(h: nat, index: nat, y: seq<u32>)
    requires h < 2 && 0 < index < 16 && y == TableWords(h, index)
    ensures Val(y) != 0
  {
    hide Val;
    ShrSmall(index);
    if Val(y) == 0 {
      ZeroDigit(y, h);
      ZeroDigit(y, h + 2);
      ZeroDigit(y, h + 4);
      ZeroDigit(y, h + 6);
      assert false;
    }
  }

  lemma ZeroDigit(y: seq<u32>, w: nat)
    requires w < |y| && Val(y) == 0
    ensures y[w] == 0
  {
    hide Val, R;
    ValSplit(y, w + 1);
    ValSnoc(y, w);
    ValBound(y[..w]);
    ValBound(y[w + 1..]);
    MulNonneg(R(w + 1), Val(y[w + 1..]));
    MulMono(if y[w] > 0 then 1 else 0, R(w), y[w]);
  }

  lemma PartialEnds(s: seq<u32>, i: nat)
    requires i < 32
    ensures Partial(s, i, 2) == Tops(s, i + 1)
    ensures Val(Partial(s, i, 0)) == 2 * Val(Tops(s, i))
  {
    forall w | 0 <= w < |s|
      ensures Partial(s, i, 2)[w] == Tops(s, i + 1)[w] && Partial(s, i, 0)[w] as int == Tops(s, i)[w] as int + Tops(s, i)[w] as int
    {
      ShrStep(s[w], 31 - i);
    }
    ValSum(Tops(s, i), Tops(s, i), Partial(s, i, 0));
  }

  lemma TopsEnds(s: seq<u32>)
    ensures Val(Tops(s, 0)) == 0 && Tops(s, 32) == s
  {
    forall w | 0 <= w < |s| ensures Tops(s, 0)[w] == 0 { WordBits(s[w]); }
    ZeroWords(Tops(s, 0));
  }

  lemma WordBit(s: seq<u32>, r: nat, q: nat)
    requires r < 32 && q < |s|
    ensures GetBit(s, r + 32 * q) == Shr(s[q], r) % 2
  {
    assert (r + 32 * q) / 32 == q && (r + 32 * q) % 32 == r;
  }

  /** The two precomputed tables hold the multiples their comment lists. */
  ghost predicate CombTables<E>(c: Curve<E>, tables: seq<seq<E>>, G: E)
  {
    && |tables| == 2
    && |tables[0]| == |tables[1]| == 15
    && (forall index :: 0 < index < 16 ==> tables[0][index - 1] == Times(c, TableScalar(0, index), G))
    && (forall index :: 0 < index < 16 ==> tables[1][index - 1] == Times(c, TableScalar(1, index), G))
  }

  /** The register n and its infinity mask describe k times p. */
  ghost predicate Holds<E>(c: Curve<E>, n: E, inf: u32, k: nat, p: E)
  {
    && (inf == 0 || inf == BASE - 1)
    && (inf == 0 <==> k > 0)
    && (k > 0 ==> n == Times(c, k, p))
  }

  /** Adding p times the base to the register: the branch-free selection keeps the sum of
      the incomplete addition only when that sum is right. */
  method Accumulate<E(!new)>(c: Curve<E>, n: E, inf: u32, table: E, index: u32, sum: E, ghost k: nat, ghost p: nat, ghost G: E, ghost order: nat)
    returns (n': E, inf': u32)
    requires IsGroup(c) && Order(c, G, order) && Holds(c, n, inf, k, G)
    requires index < 16 && (p == 0 <==> index == 0) && (p > 0 ==> table == Times(c, p, G) && p != k)
    requires k + p < order
    requires Separate(c, n, table) ==> sum == c.add(n, table)
    ensures Holds(c, n', inf', k + p, G)
    ensures k + p == 0 ==> n' == table
  {
    hide IsGroup, Order, Times;
    n' := CopyConditional(n, table, inf);
    var noninfinite := NonZeroToAllOnes(index);
    var mask := And(noninfinite, Not(inf));
    n' := CopyConditional(n', sum, mask);
    inf' := And(inf, Not(noninfinite));
    if k > 0 && p > 0 {
      MultiplesSeparate(c, k, p, G, order);
      TimesAdd(c, k, p, G);
    }
  }

  /** n = scalar * G, for a scalar below the order of G; the zero scalar leaves the pair
      (0, 0) with z = 1. */
  method ScalarBaseMult<E(!new)>(c: Curve<E>, tables: seq<seq<E>>, scalar: seq<u32>, ghost G: E, ghost order: nat)
    returns (n: E)
    requires IsGroup(c) && PointOps(c) && Order(c, G, order) && CombTables(c, tables, G)
    requires |scalar| == 8 && Val(scalar) < order
    ensures Val(scalar) > 0 ==> n == Times(c, Val(scalar), G)
    ensures Val(scalar) == 0 ==> n == c.junk
  {
    hide IsGroup, PointOps, Order, Times, Val, Shr, Partial, Tops, CombIndex, TableScalar, GetBit;
    n := c.junk;
    var inf: u32 := BASE - 1;
    TopsEnds(scalar);
    for i := 0 to 32
      invariant Holds(c, n, inf, Val(Tops(scalar, i)), G)
      invariant Val(Tops(scalar, i)) == 0 ==> n == c.junk
    {
      PartialEnds(scalar, i);
      ghost var k := Val(Tops(scalar, i));
      if i != 0 {
        DoubleMultiple(c, n, k, G);
        n := c.double(n);
      }
      var h := 0;
      while h < 2
        invariant 0 <= h <= 2
        invariant Holds(c, n, inf, Val(Partial(scalar, i, h)), G)
        invariant h > 0 && Val(Partial(scalar, i, h)) == 0 ==> n == c.junk
      {
        var j := 32 * h;
        CombIndexBits(scalar, i, h);
        var index: u32 := Index(GetBit(scalar, 31 - i + j), GetBit(scalar, 95 - i + j), GetBit(scalar, 159 - i + j), GetBit(scalar, 223 - i + j));
        CombAddition(scalar, i, h);
        var table := if index == 0 then c.junk else tables[h][index - 1];
        var sum := c.addMixed(n, table);
        AdditionRight(c, n, table);
        ValLe(Partial(scalar, i, h), scalar);
        n, inf := Accumulate(c, n, inf, table, index, sum, Val(Partial(scalar, i, h)), TableScalar(h, index), G, order);
        h := h + 1;
      }
    }
  }

  lemma CombIndexBits(s: seq<u32>, i: nat, h: nat)
    requires |s| == 8 && i < 32 && h < 2
    ensures
      var j := 32 * h;
      CombIndex(s, i, h) == Index(GetBit(s, 31 - i + j), GetBit(s, 95 - i + j), GetBit(s, 159 - i + j), GetBit(s, 223 - i + j))
    ensures CombIndex(s, i, h) < 16
  {
    hide Shr;
    WordBit(s, 31 - i, h);
    WordBit(s, 31 - i, h + 2);
    WordBit(s, 31 - i, h + 4);
    WordBit(s, 31 - i, h + 6);
  }

  lemma DoubleMultiple<E(!new)>(c: Curve<E>, n: E, k: nat, p: E)
    requires IsGroup(c) && PointOps(c)
    ensures n == Times(c, k, p) ==> c.double(n) == Times(c, 2 * k, p)
  {
    hide IsGroup, Times;
    TimesAdd(c, k, k, p);
  }

  // ----- the 4-bit window -----

  /** The scalar's bits from `bit` upwards, as a number. */
  ghost function Prefix(s: seq<u32>, bit: nat): nat
    requires bit <= 32 * |s|
    decreases 32 * |s| - bit
  {
    if bit == 32 * |s| then 0 else 2 * Prefix(s, bit + 1) + GetBit(s, bit)
  }

  lemma {:induction false} PrefixWord(s: seq<u32>, d: nat, r: nat)
    requires d < |s| && r <= 32
    ensures Prefix(s, 32 * d + r) == Shr(s[d], r) + Pow2(32 - r) * Val(s[d + 1..])
    decreases |s| - d, 32 - r
  {
    hide Val, R, Shr, GetBit;
    if r < 32 {
      PrefixWord(s, d, r + 1);
      WordBit(s, r, d);
      ShrStep(s[d], r);
      Pow2Double(31 - r, Val(s[d + 1..]));
    } else {
      WordBits(s[d]);
      ShrZero();
      if d + 1 == |s| {
        assert s[d + 1..] == [];
        ValEmpty();
      } else {
        PrefixWord(s, d + 1, 0);
        Pow2Word();
        ValFirst(s, d + 1);
      }
    }
  }

  lemma ValEmpty()
    ensures Val([]) == 0
  {
  }

  lemma ShrZero()
    ensures Pow2(0) == 1 && forall w: nat :: Shr(w, 0) == w
  {
  }

  lemma Pow2Double(k: nat, v: int)
    ensures 2 * (Pow2(k) * v) == Pow2(k + 1) * v
  {
  }

  lemma ValFirst(s: seq<u32>, d: nat)
    requires d < |s|
    ensures Val(s[d..]) == s[d] + R(1) * Val(s[d + 1..])
  {
    hide Val, R;
    ValSplit(s[d..], 1);
    assert s[d..][..1] == [s[d]] && s[d..][1..] == s[d + 1..];
    ValSingle(s[d]);
  }

  lemma Pow2Word()
    ensures Pow2(32) == BASE == R(1)
  {
    assert Pow2(8) == 256 && Pow2(16) == 0x1_0000 && Pow2(24) == 0x100_0000;
  }

  lemma PrefixAll(s: seq<u32>)
    requires s != []
    ensures Prefix(s, 0) == Val(s) && Prefix(s, 32 * |s|) == 0
  {
    hide Val, R, Shr;
    PrefixWord(s, 0, 0);
    Pow2Word();
    ShrZero();
    ValFirst(s, 0);
    assert s[0..] == s;
  }

  lemma {:induction false} PrefixLe(s: seq<u32>, bit: nat, top: nat)
    requires bit <= top <= 32 * |s|
    ensures Prefix(s, top) <= Prefix(s, bit)
    decreases top - bit
  {
    if bit < top {
      PrefixLe(s, bit + 1, top);
    }
  }

  lemma PrefixWindow(s: seq<u32>, bit: nat)
    requires bit + 4 <= 32 * |s|
    ensures Prefix(s, bit) == 16 * Prefix(s, bit + 4) + Index(GetBit(s, bit), GetBit(s, bit + 1), GetBit(s, bit + 2), GetBit(s, bit + 3))
    ensures |s| == 8 ==> Prefix(s, bit) == 16 * Prefix(s, bit + 4) + Window(s, 252 - bit)
  {
    hide GetBit;
    assert Prefix(s, bit + 2) == 2 * Prefix(s, bit + 3) + GetBit(s, bit + 2);
    assert Prefix(s, bit + 3) == 2 * Prefix(s, bit + 4) + GetBit(s, bit + 3);
  }

  /** The multiples 0, 1, ..., 15 of P. */
  method Precompute<E(!new)>(c: Curve<E>, P: E, ghost order: nat) returns (precomp: seq<E>)
    requires IsGroup(c) && PointOps(c) && Order(c, P, order) && order > 15
    ensures |precomp| == 16 && precomp[0] == c.zero
    ensures forall m :: 0 < m < 16 ==> precomp[m] == Times(c, m, P)
  {
    hide IsGroup, PointOps, Order, Times;
    precomp := seq(16, _ => c.zero);
    precomp := precomp[1 := P];
    SmallMultiples(c, P);
    for i := 1 to 8
      invariant |precomp| == 16 && precomp[0] == c.zero
      invariant forall m :: 0 < m < 2 * i ==> precomp[m] == Times(c, m, P)
    {
      DoubleMultiple(c, precomp[i], i, P);
      precomp := precomp[2 * i := c.double(precomp[i])];
      MultiplesSeparate(c, 2 * i, 1, P, order);
      AdditionRight(c, precomp[2 * i], P);
      precomp := precomp[2 * i + 1 := c.addMixed(precomp[2 * i], P)];
      TimesAdd(c, 2 * i, 1, P);
    }
  }

  lemma AdditionRight<E(!new)>(c: Curve<E>, x: E, y: E)
    requires PointOps(c)
    ensures Separate(c, x, y) ==> c.addMixed(x, y) == c.add(x, y) == c.addFull(x, y)
  {
  }

  lemma HoldsDoubledFourTimes<E(!new)>(c: Curve<E>, n: E, inf: u32, k: nat, p: E)
    requires IsGroup(c) && PointOps(c) && Holds(c, n, inf, k, p)
    ensures Holds(c, c.double(c.double(c.double(c.double(n)))), inf, 16 * k, p)
  {
    hide IsGroup, PointOps, Times;
    DoubleMultiple(c, n, k, p);
    DoubleMultiple(c, c.double(n), 2 * k, p);
    DoubleMultiple(c, c.double(c.double(n)), 4 * k, p);
    DoubleMultiple(c, c.double(c.double(c.double(n))), 8 * k, p);
  }

  lemma HoldsFacts<E>(c: Curve<E>, n: E, inf: u32, k: nat, p: E)
    ensures Holds(c, n, inf, k, p) && k > 0 ==> n == Times(c, k, p)
    ensures Holds(c, n, BASE - 1, 0, p)
  {
  }

  /** The four bits read in the round that starts at bit 255 - i. */
  function Window(s: seq<u32>, i: nat): (index: u32)
    requires |s| == 8 && i <= 252
    ensures index < 16
  {
    Index(GetBit(s, 255 - i - 3), GetBit(s, 255 - i - 2), GetBit(s, 255 - i - 1), GetBit(s, 255 - i - 0))
  }

  /** One round: four doublings and an addition from the table of multiples. */
  method WindowRound<E(!new)>(c: Curve<E>, n: E, inf: u32, precomp: seq<E>, scalar: seq<u32>, i: nat, ghost P: E, ghost order: nat)
    returns (n': E, inf': u32)
    requires IsGroup(c) && PointOps(c) && Order(c, P, order)
    requires |scalar| == 8 && Val(scalar) < order && i <= 252
    requires |precomp| == 16 && precomp[0] == c.zero && forall m :: 0 < m < 16 ==> precomp[m] == Times(c, m, P)
    requires Holds(c, n, inf, Prefix(scalar, 256 - i), P)
    requires i == 0 ==> Prefix(scalar, 256) == 0
    ensures Holds(c, n', inf', Prefix(scalar, 256 - (i + 4)), P)
    ensures Prefix(scalar, 256 - (i + 4)) == 0 ==> n' == c.zero
  {
    hide IsGroup, PointOps, Order, Times, Val, Prefix, Holds, Window;
    ghost var k := Prefix(scalar, 256 - i);
    n', inf' := n, inf;
    if i != 0 {
      HoldsDoubledFourTimes(c, n, inf, k, P);
      n' := c.double(n');
      n' := c.double(n');
      n' := c.double(n');
      n' := c.double(n');
    }
    var index := Window(scalar, i);
    WindowStep(scalar, i);
    var table := precomp[index];
    var sum := c.addFull(n', table);
    AdditionRight(c, n', table);
    n', inf' := Accumulate(c, n', inf', table, index, sum, 16 * k, index, P, order);
  }

  lemma WindowStep(s: seq<u32>, i: nat)
    requires |s| == 8 && i <= 252
    ensures Prefix(s, 256 - (i + 4)) == 16 * Prefix(s, 256 - i) + Window(s, i) <= Val(s)
  {
    hide Prefix, Val, Window;
    PrefixWindow(s, 252 - i);
    PrefixLe(s, 0, 252 - i);
    PrefixAll(s);
    assert 252 - i + 4 == 256 - i && 252 - (252 - i) == i && 256 - (i + 4) == 252 - i;
  }

  /** n = scalar * P by windows of four bits. */
  method ScalarWindowMult<E(!new)>(c: Curve<E>, P: E, scalar: seq<u32>, ghost order: nat) returns (n: E)
    requires IsGroup(c) && PointOps(c) && Order(c, P, order) && order > 15
    requires |scalar| == 8 && Val(scalar) < order
    ensures Val(scalar) > 0 ==> n == Times(c, Val(scalar), P)
    ensures Val(scalar) == 0 ==> n == c.zero
  {
    hide IsGroup, PointOps, Order, Times, Val, Prefix, Holds, Window;
    var precomp := Precompute(c, P, order);
    n := c.zero;
    var inf: u32 := BASE - 1;
    PrefixAll(scalar);
    HoldsFacts(c, n, inf, 0, P);
    var i := 0;
    ghost var round := 0;
    while i < 256
      invariant 0 <= i <= 256 && i == 4 * round
      invariant Holds(c, n, inf, Prefix(scalar, 256 - i), P)
      invariant Prefix(scalar, 256 - i) == 0 ==> n == c.zero
    {
      n, inf := WindowRound(c, n, inf, precomp, scalar, i, P, order);
      i := i + 4;
      round := round + 1;
    }
    HoldsFacts(c, n, inf, Val(scalar), P);
  }

  lemma SmallMultiples<E(!new)>(c: Curve<E>, p: E)
    requires IsGroup(c)
    ensures Times(c, 0, p) == c.zero && Times(c, 1, p) == p
  {
    Unit(c, p);
  }

  /** p256_is_zero. */
  predicate IsZero(s: seq<u32>)
  {
    forall w :: 0 <= w < |s| ==> s[w] == 0
  }

  lemma IsZeroValue(s: seq<u32>)
    ensures IsZero(s) <==> Val(s) == 0
  {
    if IsZero(s) {
      ValZeros(s);
    } else {
      var w :| 0 <= w < |s| && s[w] != 0;
      if Val(s) == 0 {
        ZeroDigit(s, w);
      }
    }
  }

  /** n1 * G + n2 * P, for any two scalars below the common order. */
  method PointsMulVartime<E(!new)>(c: Curve<E>, tables: seq<seq<E>>, P: E, n1: seq<u32>, n2: seq<u32>, ghost G: E, ghost order: nat)
    returns (out: E)
    requires IsGroup(c) && PointOps(c) && Order(c, G, order) && Order(c, P, order) && order > 15 && CombTables(c, tables, G)
    requires |n1| == |n2| == 8 && Val(n1) < order && Val(n2) < order
    ensures out == c.add(Times(c, Val(n1), G), Times(c, Val(n2), P))
  {
    hide IsGroup, Times, Val, CombTables;
    IsZeroValue(n1);
    IsZeroValue(n2);
    SmallMultiples(c, G);
    SmallMultiples(c, P);
    if IsZero(n1) && IsZero(n2) {
      Unit(c, c.zero);
      return c.zero;
    }
    var x1 := ScalarBaseMult(c, tables, n1, G, order);
    var x2 := ScalarWindowMult(c, P, n2, order);
    if IsZero(n2) {
      Unit(c, x1);
      return x1;
    } else if IsZero(n1) {
      Unit(c, x2);
      return x2;
    } else {
      return c.addOrDouble(x1, x2);
    }
  }
}
