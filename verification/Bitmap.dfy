/** Block bitmaps: bit operations on bytes, and what they do to ranges of blocks. */
module Bitmap {
  /** Bit k of a byte. */
  predicate Bit(x: bv8, k: nat)
    requires k < 8
  {
    x & (1 << k) != 0
  }

  lemma SetBit(x: bv8, k: nat, j: nat)
    requires k < 8 && j < 8
    ensures Bit(x | (1 << k), j) <==> j == k || Bit(x, j)
  {
  }

  lemma ClearBit(x: bv8, k: nat, j: nat)
    requires k < 8 && j < 8
    ensures Bit(x & !(1 << k), j) <==> j != k && Bit(x, j)
  {
  }

  lemma AllBits(j: nat)
    requires j < 8
    ensures Bit(0xFF, j) && !Bit(0, j)
  {
  }

  lemma SomeBit(x: bv8) returns (j: nat)
    requires x != 0
    ensures j < 8 && Bit(x, j)
  {
    if Bit(x, 0) { j := 0; } else if Bit(x, 1) { j := 1; } else if Bit(x, 2) { j := 2; } else if Bit(x, 3) { j := 3; }
    else if Bit(x, 4) { j := 4; } else if Bit(x, 5) { j := 5; } else if Bit(x, 6) { j := 6; } else { j := 7; }
  }

  /** Block n is marked as used. */
  predicate Used(bits: seq<bv8>, n: nat)
    requires n < 8 * |bits|
  {
    Bit(bits[n / 8], n % 8)
  }

  /** Block n is bit n mod 8 of byte n div 8, the lowest bit first. */
  lemma LowestFirst(bits: seq<bv8>, n: nat)
    requires n < 8 * |bits|
    ensures Used(bits, n) <==> (bits[n / 8] >> (n % 8)) & 1 == 1
  {
    ShiftedBit(bits[n / 8], n % 8);
  }

  lemma ShiftedBit(x: bv8, k: nat)
    requires k < 8
    ensures Bit(x, k) <==> (x >> k) & 1 == 1
  {
  }

  /** `after` is `before` with blocks lo to hi marked, and nothing else changed. */
  ghost predicate Marked(before: seq<bv8>, after: seq<bv8>, lo: nat, hi: nat) {
    |after| == |before| && forall n: nat :: n < 8 * |before| ==> (Used(after, n) <==> lo <= n < hi || Used(before, n))
  }

  /** `after` is `before` with blocks lo to hi cleared. */
  ghost predicate Cleared(before: seq<bv8>, after: seq<bv8>, lo: nat, hi: nat) {
    |after| == |before| && forall n: nat :: n < 8 * |before| ==> (Used(after, n) <==> !(lo <= n < hi) && Used(before, n))
  }

  ghost predicate AllClear(bits: seq<bv8>, lo: nat, hi: nat)
    requires hi <= 8 * |bits|
  {
    forall n: nat :: lo <= n < hi ==> !Used(bits, n)
  }

  lemma MarkOne(before: seq<bv8>, bits: seq<bv8>, lo: nat, n: nat)
    requires lo <= n < 8 * |bits| && Marked(before, bits, lo, n)
    ensures Marked(before, bits[n / 8 := bits[n / 8] | (1 << (n % 8))], lo, n + 1)
  {
    hide Used;
    var after := bits[n / 8 := bits[n / 8] | (1 << (n % 8))];
    forall m: nat | m < 8 * |before| ensures Used(after, m) <==> lo <= m < n + 1 || Used(before, m) {
      SetInByte(bits, n, m);
    }
  }

  lemma SetInByte(bits: seq<bv8>, n: nat, m: nat)
    requires n < 8 * |bits| && m < 8 * |bits|
    ensures Used(bits[n / 8 := bits[n / 8] | (1 << (n % 8))], m) <==> m == n || Used(bits, m)
  {
    hide Bit;
    var byte := bits[n / 8] | (1 << (n % 8));
    var after := bits[n / 8 := byte];
    SameBit(m, n);
    if m / 8 == n / 8 {
      SetBit(bits[n / 8], n % 8, m % 8);
      assert after[m / 8] == byte;
    } else {
      assert after[m / 8] == bits[m / 8];
    }
  }

  lemma SameBit(m: nat, n: nat)
    ensures m == n <==> m / 8 == n / 8 && m % 8 == n % 8
  {
    assert m == 8 * (m / 8) + m % 8 && n == 8 * (n / 8) + n % 8;
  }

  lemma SameByte(m: nat, n: nat)
    requires n % 8 == 0
    ensures n <= m < n + 8 <==> m / 8 == n / 8
  {
  }

  lemma MarkEight(before: seq<bv8>, bits: seq<bv8>, lo: nat, n: nat)
    requires lo <= n && n + 8 <= 8 * |bits| && n % 8 == 0 && Marked(before, bits, lo, n)
    ensures Marked(before, bits[n / 8 := 0xFF], lo, n + 8)
  {
    hide Bit;
    var after := bits[n / 8 := 0xFF];
    forall m: nat | m < 8 * |before| ensures Used(after, m) <==> lo <= m < n + 8 || Used(before, m) {
      AllBits(m % 8);
      SameByte(m, n);
    }
  }

  /** A byte of eight unmarked blocks is zero exactly if they were clear. */
  lemma EightClear(before: seq<bv8>, bits: seq<bv8>, lo: nat, n: nat)
    requires lo <= n && n + 8 <= 8 * |bits| && n % 8 == 0 && Marked(before, bits, lo, n)
    ensures bits[n / 8] == 0 <==> AllClear(before, n, n + 8)
  {
    hide Bit;
    if bits[n / 8] == 0 {
      forall m: nat | n <= m < n + 8 ensures !Used(before, m) {
        AllBits(m % 8);
        assert m / 8 == n / 8;
      }
    } else {
      var j := SomeBit(bits[n / 8]);
      assert Used(bits, n + j);
    }
  }

  lemma ClearOne(before: seq<bv8>, bits: seq<bv8>, n: nat, hi: nat)
    requires n < hi <= 8 * |bits| && Cleared(before, bits, n + 1, hi)
    ensures Cleared(before, bits[n / 8 := bits[n / 8] & !(1 << (n % 8))], n, hi)
  {
    hide Bit, Used;
    var after := bits[n / 8 := bits[n / 8] & !(1 << (n % 8))];
    forall m: nat | m < 8 * |before| ensures Used(after, m) <==> !(n <= m < hi) && Used(before, m) {
      ClearInByte(bits, n, m);
    }
  }

  lemma ClearInByte(bits: seq<bv8>, n: nat, m: nat)
    requires n < 8 * |bits| && m < 8 * |bits|
    ensures Used(bits[n / 8 := bits[n / 8] & !(1 << (n % 8))], m) <==> m != n && Used(bits, m)
  {
    hide Bit;
    ClearBit(bits[n / 8], n % 8, m % 8);
    assert m == 8 * (m / 8) + m % 8 && n == 8 * (n / 8) + n % 8;
  }
}
