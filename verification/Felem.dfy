/** Field elements of P-256 in nine limbs of alternately 29 and 28 bits, in Montgomery
    form with R = 2^257 (tools/libmincrypt/p256_ec.c). */
module Felem {
  import opened Words
  import opened Congruence

  /** 2^256 - 2^224 + 2^192 + 2^96 - 1, section D.1.2.3 of FIPS 186-4. */
  const P: int := 0xffffffff_00000001_00000000_00000000_00000000_ffffffff_ffffffff_ffffffff

  /** The Montgomery radix 2^257. */
  const MONT: int := 0x2_0000_0000_0000_0000_0000_0000_0000_0000_0000_0000_0000_0000_0000_0000_0000_0000

  /** The value of a limb sequence whose first limb is 29, or 28, bits wide. Limbs may
      hold more than their width, and in proofs even be negative. */
  function EvenVal(s: seq<int>): int
  {
    if s == [] then 0 else s[0] + 0x2000_0000 * OddVal(s[1..])
  }

  function OddVal(s: seq<int>): int
  {
    if s == [] then 0 else s[0] + 0x1000_0000 * EvenVal(s[1..])
  }

  predicate InRange(a: seq<int>)
  {
    |a| == 9 && forall i :: 0 <= i < 9 ==> 0 <= a[i] < if i % 2 == 0 then 0x4000_0000 else 0x2000_0000
  }

  predicate Tight(a: seq<int>)
  {
    |a| == 9 && forall i :: 0 <= i < 9 ==> 0 <= a[i] < if i % 2 == 0 then 0x2000_0000 else 0x1000_0000
  }

  function Add32(a: u32, b: u32): u32 { (a + b) % BASE }
  function Sub32(a: u32, b: u32): u32 { (a - b) % BASE }

  lemma TwoLimbs(s: seq<int>)
    requires |s| >= 2
    ensures EvenVal(s) == s[0] + 0x2000_0000 * s[1] + 0x200_0000_0000_0000 * EvenVal(s[2..])
    ensures OddVal(s) == s[0] + 0x1000_0000 * s[1] + 0x200_0000_0000_0000 * OddVal(s[2..])
  {
    assert s[1..][1..] == s[2..];
  }

  lemma Expand9(s: seq<int>)
    requires |s| == 9
    ensures EvenVal(s) == s[0]
      + 0x2000_0000 * s[1]
      + 0x200_0000_0000_0000 * s[2]
      + 0x40_0000_0000_0000_0000_0000 * s[3]
      + 0x4_0000_0000_0000_0000_0000_0000_0000 * s[4]
      + 0x8000_0000_0000_0000_0000_0000_0000_0000_0000 * s[5]
      + 0x800_0000_0000_0000_0000_0000_0000_0000_0000_0000_0000 * s[6]
      + 0x100_0000_0000_0000_0000_0000_0000_0000_0000_0000_0000_0000_0000 * s[7]
      + 0x10_0000_0000_0000_0000_0000_0000_0000_0000_0000_0000_0000_0000_0000_0000 * s[8]
  {
    hide EvenVal, OddVal;
    TwoLimbs(s);
    TwoLimbs(s[2..]);
    assert s[2..][2..] == s[4..];
    TwoLimbs(s[4..]);
    assert s[4..][2..] == s[6..];
    TwoLimbs(s[6..]);
    assert s[6..][2..] == s[8..];
    OneLimb(s[8..]);
  }

  lemma OneLimb(s: seq<int>)
    requires |s| == 1
    ensures EvenVal(s) == s[0] == OddVal(s)
  {
  }

  lemma Expand10(s: seq<int>)
    requires |s| >= 10
    ensures EvenVal(s) == s[0]
      + 0x2000_0000 * s[1]
      + 0x200_0000_0000_0000 * s[2]
      + 0x40_0000_0000_0000_0000_0000 * s[3]
      + 0x4_0000_0000_0000_0000_0000_0000_0000 * s[4]
      + 0x8000_0000_0000_0000_0000_0000_0000_0000_0000 * s[5]
      + 0x800_0000_0000_0000_0000_0000_0000_0000_0000_0000_0000 * s[6]
      + 0x100_0000_0000_0000_0000_0000_0000_0000_0000_0000_0000_0000_0000 * s[7]
      + 0x10_0000_0000_0000_0000_0000_0000_0000_0000_0000_0000_0000_0000_0000_0000 * s[8]
      + MONT * s[9]
      + 0x2000_0000_0000_0000_0000_0000_0000_0000_0000_0000_0000_0000_0000_0000_0000_0000_0000_0000 * EvenVal(s[10..])
  {
    hide EvenVal, OddVal;
    TwoLimbs(s);
    TwoLimbs(s[2..]);
    assert s[2..][2..] == s[4..];
    TwoLimbs(s[4..]);
    assert s[4..][2..] == s[6..];
    TwoLimbs(s[6..]);
    assert s[6..][2..] == s[8..];
    TwoLimbs(s[8..]);
    assert s[8..][2..] == s[10..];
  }

  // ----- felem_reduce_carry -----

  /** Cancels `carry`, a term at 2^257, by adding a multiple of P. Limb 7 may wrap below
      zero for one statement; the next one brings it back. */
  method ReduceCarry(inout: array<u32>, carry: u32)
    requires inout.Length == 9 && Tight(inout[..]) && carry < 8
    modifies inout
    ensures InRange(inout[..])
    ensures EvenVal(inout[..]) == EvenVal(old(inout[..])) + carry * (MONT - 2 * P)
  {
    hide EvenVal, OddVal, Add32, Sub32, And, NonZeroToAllOnes;
    ghost var a := inout[..];
    assert forall i :: 0 <= i < 9 ==> inout[i] == a[i];
    var mask := NonZeroToAllOnes(carry);
    ghost var z := if carry == 0 then 0 else 1;
    MaskedBit(carry);
    AddExact(inout[0], carry * 2);
    inout[0] := Add32(inout[0], carry * 2);
    AddThenSub(inout[3], z * 0x1000_0000, carry * 0x800);
    inout[3] := Add32(inout[3], And(0x1000_0000, mask));
    inout[3] := Sub32(inout[3], carry * 0x800);
    AddExact(inout[4], z * 0x1fff_ffff);
    inout[4] := Add32(inout[4], And(0x2000_0000 - 1, mask));
    AddExact(inout[5], z * 0x0fff_ffff);
    inout[5] := Add32(inout[5], And(0x1000_0000 - 1, mask));
    AddThenSub(inout[6], z * 0x1fff_ffff, carry * 0x40_0000);
    inout[6] := Add32(inout[6], And(0x2000_0000 - 1, mask));
    inout[6] := Sub32(inout[6], carry * 0x40_0000);
    SubThenAdd(inout[7], z, carry * 0x200_0000);
    inout[7] := Sub32(inout[7], And(1, mask));
    inout[7] := Add32(inout[7], carry * 0x200_0000);
    CarryCancelled(a, inout[..], carry);
  }

  lemma MaskedBit(carry: u32)
    requires carry < 8
    ensures NonZeroToAllOnes(carry) == 0 || NonZeroToAllOnes(carry) == BASE - 1
    ensures
      var z, m := if carry == 0 then 0 else 1, NonZeroToAllOnes(carry);
      && And(0x1000_0000, m) == z * 0x1000_0000 && And(0x1fff_ffff, m) == z * 0x1fff_ffff
      && And(0x0fff_ffff, m) == z * 0x0fff_ffff && And(1, m) == z
  {
  }

  lemma AddExact(x: u32, y: u32)
    requires x + y < BASE
    ensures Add32(x, y) == x + y
  {
  }

  lemma SubThenAdd(x: u32, y: u32, z: u32)
    requires 0 <= x - y + z < BASE
    ensures Add32(Sub32(x, y), z) == x - y + z
  {
  }

  lemma AddThenSub(x: u32, y: u32, z: u32)
    requires 0 <= x + y - z < BASE
    ensures Sub32(Add32(x, y), z) == x + y - z
  {
  }

  lemma CarryCancelled(a: seq<int>, b: seq<int>, carry: nat)
    requires Tight(a) && |b| == 9 && carry < 8
    requires
      var z := if carry == 0 then 0 else 1;
      && b[0] == a[0] + 2 * carry && b[1] == a[1] && b[2] == a[2]
      && b[3] == a[3] + z * 0x1000_0000 - carry * 0x800
      && b[4] == a[4] + z * 0x1fff_ffff
      && b[5] == a[5] + z * 0x0fff_ffff
      && b[6] == a[6] + z * 0x1fff_ffff - carry * 0x40_0000
      && b[7] == a[7] - z + carry * 0x200_0000
      && b[8] == a[8]
    ensures InRange(b)
    ensures EvenVal(b) == EvenVal(a) + carry * (MONT - 2 * P)
  {
    hide EvenVal, OddVal;
    Expand9(a);
    Expand9(b);
  }

  lemma Expand11(s: seq<int>)
    requires |s| >= 11
    ensures EvenVal(s) == s[0]
      + 0x2000_0000 * s[1]
      + 0x200_0000_0000_0000 * s[2]
      + 0x40_0000_0000_0000_0000_0000 * s[3]
      + 0x4_0000_0000_0000_0000_0000_0000_0000 * s[4]
      + 0x8000_0000_0000_0000_0000_0000_0000_0000_0000 * s[5]
      + 0x800_0000_0000_0000_0000_0000_0000_0000_0000_0000_0000 * s[6]
      + 0x100_0000_0000_0000_0000_0000_0000_0000_0000_0000_0000_0000_0000 * s[7]
      + 0x10_0000_0000_0000_0000_0000_0000_0000_0000_0000_0000_0000_0000_0000_0000 * s[8]
      + MONT * s[9]
      + 0x2000_0000_0000_0000_0000_0000_0000_0000_0000_0000_0000_0000_0000_0000_0000_0000_0000_0000 * s[10]
      + 0x400_0000_0000_0000_0000_0000_0000_0000_0000_0000_0000_0000_0000_0000_0000_0000_0000_0000_0000_0000 * OddVal(s[11..])
  {
    hide EvenVal, OddVal;
    Expand10(s);
    OneMore(s[10..]);
    assert s[10..][1..] == s[11..];
  }

  lemma OneMore(s: seq<int>)
    requires s != []
    ensures EvenVal(s) == s[0] + 0x2000_0000 * OddVal(s[1..]) && OddVal(s) == s[0] + 0x1000_0000 * EvenVal(s[1..])
  {
  }

  // ----- Montgomery elimination -----

  /** What the top half of an elimination round does to the limbs from the eliminated one
      on, in exact integers: it carries limb 0 into limb 1 and adds x times P. */
  function TopStep(s: seq<int>): (t: seq<int>)
    requires |s| >= 10
    ensures |t| == |s|
  {
    var x := s[0] % 0x2000_0000;
    var z := if x == 0 then 0 else 1;
    s[0 := 0]
    [1 := s[1] + s[0] / 0x2000_0000]
    [3 := s[3] + (x * 0x400) % 0x1000_0000]
    [4 := s[4] + x / 0x4_0000]
    [6 := s[6] + (x * 0x20_0000) % 0x2000_0000]
    [7 := s[7] + x / 0x100 + z * 0x1000_0000 - (x * 0x100_0000) % 0x1000_0000]
    [8 := s[8] + z * 0x1fff_ffff - x / 16 + (x % 2) * 0x1000_0000]
    [9 := s[9] + x / 2 - z]
  }

  /** The bottom half, which eliminates limb 1. */
  function BottomStep(s: seq<int>): (t: seq<int>)
    requires |s| >= 11
    ensures |t| == |s|
  {
    var y := s[1] % 0x1000_0000;
    var z := if y == 0 then 0 else 1;
    s[1 := 0]
    [2 := s[2] + s[1] / 0x1000_0000]
    [4 := s[4] + (y * 0x800) % 0x2000_0000]
    [5 := s[5] + y / 0x4_0000]
    [7 := s[7] + (y * 0x20_0000) % 0x1000_0000]
    [8 := s[8] + y / 0x80 + z * 0x2000_0000 - (y * 0x200_0000) % 0x2000_0000]
    [9 := s[9] + z * 0x0fff_ffff - y / 16]
    [10 := s[10] + y - z]
  }

  lemma TopValue(s: seq<int>)
    requires |s| >= 10
    ensures TopStep(s)[0] == 0 && EvenVal(TopStep(s)) == EvenVal(s) + (s[0] % 0x2000_0000) * P
  {
    hide EvenVal, OddVal;
    var t := TopStep(s);
    assert t[10..] == s[10..];
    Expand10(s);
    Expand10(t);
    TopDigits(s[0] % 0x2000_0000);
  }

  /** The pieces of the shifted x that land in neighbouring limbs. */
  lemma TopDigits(x: int)
    requires 0 <= x < 0x2000_0000
    ensures x * 0x400 == (x * 0x400) % 0x1000_0000 + 0x1000_0000 * (x / 0x4_0000)
    ensures x * 0x20_0000 == (x * 0x20_0000) % 0x2000_0000 + 0x2000_0000 * (x / 0x100)
    ensures x * 0x100_0000 == (x * 0x100_0000) % 0x1000_0000 + 0x1000_0000 * (x / 16)
    ensures x == 2 * (x / 2) + x % 2
  {
    TopDigitsA(x);
    TopDigitsB(x);
    TopDigitsC(x);
  }

  lemma TopDigitsA(x: int)
    requires 0 <= x < 0x2000_0000
    ensures x * 0x400 == (x * 0x400) % 0x1000_0000 + 0x1000_0000 * (x / 0x4_0000)
  {
    var q, r := x / 0x4_0000, x % 0x4_0000;
    assert x * 0x400 == q * 0x1000_0000 + r * 0x400;
    assert 0 <= r * 0x400 < 0x1000_0000;
  }

  lemma TopDigitsB(x: int)
    requires 0 <= x < 0x2000_0000
    ensures x * 0x20_0000 == (x * 0x20_0000) % 0x2000_0000 + 0x2000_0000 * (x / 0x100)
  {
    var q, r := x / 0x100, x % 0x100;
    assert x * 0x20_0000 == q * 0x2000_0000 + r * 0x20_0000;
    assert 0 <= r * 0x20_0000 < 0x2000_0000;
  }

  lemma TopDigitsC(x: int)
    requires 0 <= x < 0x2000_0000
    ensures x * 0x100_0000 == (x * 0x100_0000) % 0x1000_0000 + 0x1000_0000 * (x / 16)
  {
    var q, r := x / 16, x % 16;
    assert x * 0x100_0000 == q * 0x1000_0000 + r * 0x100_0000;
    assert 0 <= r * 0x100_0000 < 0x1000_0000;
  }

  lemma BottomValue(s: seq<int>)
    requires |s| >= 11 && s[0] == 0
    ensures BottomStep(s)[0] == 0 && BottomStep(s)[1] == 0
    ensures EvenVal(BottomStep(s)) == EvenVal(s) + 0x2000_0000 * (s[1] % 0x1000_0000) * P
  {
    hide EvenVal, OddVal;
    var t := BottomStep(s);
    assert t[11..] == s[11..];
    Expand11(s);
    Expand11(t);
    BottomDigits(s[1] % 0x1000_0000);
  }

  lemma BottomDigits(y: int)
    requires 0 <= y < 0x1000_0000
    ensures y * 0x800 == (y * 0x800) % 0x2000_0000 + 0x2000_0000 * (y / 0x4_0000)
    ensures y * 0x20_0000 == (y * 0x20_0000) % 0x1000_0000 + 0x1000_0000 * (y / 0x80)
    ensures y * 0x200_0000 == (y * 0x200_0000) % 0x2000_0000 + 0x2000_0000 * (y / 16)
  {
    BottomDigitsA(y);
    BottomDigitsB(y);
    BottomDigitsC(y);
  }

  lemma BottomDigitsA(x: int)
    requires 0 <= x < 0x1000_0000
    ensures x * 0x800 == (x * 0x800) % 0x2000_0000 + 0x2000_0000 * (x / 0x4_0000)
  {
    var q, r := x / 0x4_0000, x % 0x4_0000;
    assert x * 0x800 == q * 0x2000_0000 + r * 0x800;
    assert 0 <= r * 0x800 < 0x2000_0000;
  }

  lemma BottomDigitsB(x: int)
    requires 0 <= x < 0x1000_0000
    ensures x * 0x20_0000 == (x * 0x20_0000) % 0x1000_0000 + 0x1000_0000 * (x / 0x80)
  {
    var q, r := x / 0x80, x % 0x80;
    assert x * 0x20_0000 == q * 0x1000_0000 + r * 0x20_0000;
    assert 0 <= r * 0x20_0000 < 0x1000_0000;
  }

  lemma BottomDigitsC(x: int)
    requires 0 <= x < 0x1000_0000
    ensures x * 0x200_0000 == (x * 0x200_0000) % 0x2000_0000 + 0x2000_0000 * (x / 16)
  {
    var q, r := x / 16, x % 16;
    assert x * 0x200_0000 == q * 0x2000_0000 + r * 0x200_0000;
    assert 0 <= r * 0x200_0000 < 0x2000_0000;
  }

  /** Upper bound of the limb m places above the one eliminated in round i: its initial
      width plus everything the earlier rounds may have added to it. Limb 17 starts
      wider, because it takes the whole top of the last word; it may not fit its word. */
  function Cap(i: nat, m: nat): nat
  {
    if i + m == 17 then 0x8_0000_0200
    else if m == 0 then 0xc020_080f
    else if m == 1 then 0x6020_0400
    else if m == 2 then 0xc020_0800
    else if m == 3 then 0x5020_0400
    else if m == 4 then 0xa020_0000
    else if m == 5 then 0x5020_0000
    else if m == 6 then 0x8020_0000
    else if m == 7 then 0x3000_0000
    else if m == 8 then 0x3000_0000
    else if m % 2 == 0 then 0x1fff_ffff else 0x0fff_ffff
  }

  /** A limb may be -1 for a while: (x >> 1) - 1 with x == 1. The same step then added at
      least 2^29 to the limb below, whose carry makes up for it. */
  predicate LimbOk(s: seq<int>, i: nat, m: nat)
    requires m < |s|
  {
    && s[m] <= Cap(i, m)
    && (s[m] >= 0 || (s[m] == -1 && m % 2 == 1 && m < 9 && i + m >= 9 && s[m - 1] >= 0x2000_0000))
  }

  predicate Bounded(s: seq<int>, i: nat)
  {
    i <= 8 && i % 2 == 0 && |s| == 18 - i && forall m :: 0 <= m < |s| ==> LimbOk(s, i, m)
  }

  lemma TopRange(s: seq<int>)
    requires |s| >= 10 && s[0] >= 0
    ensures
      var t := TopStep(s);
      && t[1] == s[1] + s[0] / 0x2000_0000 && t[2] == s[2] && t[5] == s[5]
      && s[3] <= t[3] <= s[3] + 0x0fff_ffff
      && s[4] <= t[4] <= s[4] + 0x7ff
      && s[6] <= t[6] <= s[6] + 0x1fff_ffff
      && s[7] <= t[7] <= s[7] + 0x1020_0000
      && s[8] <= t[8] <= s[8] + 0x2fff_ffff
      && s[9] - 1 <= t[9] <= s[9] + 0x0fff_ffff
      && (t[9] == s[9] - 1 ==> t[8] >= s[8] + 0x2000_0000)
      && forall m :: 10 <= m < |s| ==> t[m] == s[m]
  {
    hide EvenVal, OddVal;
  }

  lemma BottomRange(s: seq<int>)
    requires |s| >= 11 && s[1] >= 0
    ensures
      var t := BottomStep(s);
      && t[2] == s[2] + s[1] / 0x1000_0000 && t[3] == s[3] && t[6] == s[6]
      && s[4] <= t[4] <= s[4] + 0x1fff_ffff
      && s[5] <= t[5] <= s[5] + 0x3ff
      && s[7] <= t[7] <= s[7] + 0x0fff_ffff
      && s[8] <= t[8] <= s[8] + 0x201f_ffff
      && s[9] <= t[9] <= s[9] + 0x0fff_ffff
      && s[10] <= t[10] <= s[10] + 0x0fff_ffff
      && forall m :: 11 <= m < |s| ==> t[m] == s[m]
  {
    hide EvenVal, OddVal;
  }

  lemma RoundAt(s: seq<int>, i: nat, m: nat)
    requires Bounded(s, i) && i < 8 && 2 <= m < |s|
    ensures
      var t := BottomStep(TopStep(s));
      && t[m] <= Cap(i + 2, m - 2)
      && (t[m] >= 0 || (t[m] == -1 && m % 2 == 1 && m < 11 && i + m >= 9 && t[m - 1] >= 0x2000_0000))
  {
    hide TopStep, BottomStep;
    assert LimbOk(s, i, 0) && LimbOk(s, i, 1) && LimbOk(s, i, m) && LimbOk(s, i, m - 1);
    TopRange(s);
    BottomRange(TopStep(s));
  }

  lemma RoundBounded(s: seq<int>, i: nat)
    requires Bounded(s, i) && i < 8
    ensures Bounded(BottomStep(TopStep(s))[2..], i + 2)
  {
    hide BottomStep, TopStep, LimbOk, Cap;
    var t := BottomStep(TopStep(s));
    var u, j := t[2..], i + 2;
    forall m | 0 <= m < |u|
      ensures LimbOk(u, j, m)
    {
      RoundAt(s, i, m + 2);
      LimbOkIntro(u, j, m, t[m + 2], if m >= 1 then t[m + 1] else 0);
    }
  }

  lemma LimbOkIntro(s: seq<int>, i: nat, m: nat, v: int, w: int)
    requires m < |s| && v == s[m] && (m >= 1 ==> w == s[m - 1])
    requires v <= Cap(i, m) && (v >= 0 || (v == -1 && m % 2 == 1 && m < 9 && i + m >= 9 && w >= 0x2000_0000))
    ensures LimbOk(s, i, m)
  {
  }

  /** The words of tmp2 from i on are the exact limbs s, modulo 2^32. */
  predicate Words32(w: seq<u32>, i: nat, s: seq<int>)
  {
    i + |s| == |w| && forall k :: 0 <= k < |s| ==> w[i + k] == s[k] % BASE
  }

  lemma AddMod(v: u32, u: int, d: int)
    requires v == u % BASE
    ensures Add32(v, d % BASE) == (u + d) % BASE
  {
  }

  lemma SubMod(v: u32, u: int, d: int)
    requires v == u % BASE
    ensures Sub32(v, d % BASE) == (u - d) % BASE
  {
  }

  lemma SmallMod(u: int)
    ensures 0 <= u < BASE ==> u % BASE == u
  {
  }

  /** tmp2[i + k] += d, as the exact limbs u see it. */
  method Bump(tmp2: array<u32>, i: nat, k: nat, d: u32, ghost u: seq<int>, ghost e: int) returns (ghost u': seq<int>)
    requires k < |u| && Words32(tmp2[..], i, u) && d == e % BASE
    modifies tmp2
    ensures u' == u[k := u[k] + e] && Words32(tmp2[..], i, u')
  {
    hide Add32;
    AddMod(tmp2[i + k], u[k], e);
    tmp2[i + k] := Add32(tmp2[i + k], d);
    u' := u[k := u[k] + e];
  }

  /** tmp2[i + k] -= d. */
  method Drop(tmp2: array<u32>, i: nat, k: nat, d: u32, ghost u: seq<int>, ghost e: int) returns (ghost u': seq<int>)
    requires k < |u| && Words32(tmp2[..], i, u) && d == e % BASE
    modifies tmp2
    ensures u' == u[k := u[k] - e] && Words32(tmp2[..], i, u')
  {
    hide Sub32;
    SubMod(tmp2[i + k], u[k], e);
    tmp2[i + k] := Sub32(tmp2[i + k], d);
    u' := u[k := u[k] - e];
  }

  /** Reads the limb to eliminate, exactly, and clears it. */
  method Take(tmp2: array<u32>, i: nat, k: nat, ghost u: seq<int>) returns (w: u32, ghost u': seq<int>)
    requires k < |u| && Words32(tmp2[..], i, u) && 0 <= u[k] < BASE
    modifies tmp2
    ensures w == u[k] && u' == u[k := 0] && Words32(tmp2[..], i, u')
  {
    SmallMod(u[k]);
    w := tmp2[i + k];
    tmp2[i + k] := 0;
    u' := u[k := 0];
  }

  lemma MaskAfterShift(v: int, m: int, k: int)
    requires m > 0 && k > 0 && m * k == BASE
    ensures v % BASE % m == v % m
  {
    var q, r := v / BASE, v % BASE;
    assert v == q * BASE + r == (q * k) * m + r;
    var a, b := r / m, r % m;
    assert r == a * m + b;
    assert v == (q * k + a) * m + b;
    Intro(b, v, m, -(q * k + a));
    Residue(b, v, m);
  }

  lemma ShiftMasked(v: int, m: int, k: int, e: int)
    requires m > 0 && k > 0 && m * k == BASE && e == v % m
    ensures v % BASE % m == e % BASE && 0 <= e < m
  {
    MaskAfterShift(v, m, k);
    assert m * k >= m;
    SmallMod(e);
  }

  lemma LastBit(x: int)
    ensures (x * 0x1000_0000) % 0x2000_0000 == (x % 2) * 0x1000_0000
  {
    assert x * 0x1000_0000 == (x / 2) * 0x2000_0000 + (x % 2) * 0x1000_0000;
  }

  /** The masked constants, and the masked decrement of v, in terms of "x is not zero". */
  lemma DigitMasks(x: u32, v: u32)
    requires x < 0x2000_0000 && v <= x
    ensures
      var z, m := if x == 0 then 0 else 1, NonZeroToAllOnes(x);
      && (m == 0 || m == BASE - 1)
      && And(0x1000_0000, m) == z * 0x1000_0000 % BASE
      && And(0x2000_0000, m) == z * 0x2000_0000 % BASE
      && And(Sub32(v, 1), m) == (v - z) % BASE
      && And(Sub32(x, 1), m) == (x - z) % BASE
  {
  }

  /** Every word the top half adds or subtracts is its exact amount modulo 2^32; the bits
      the 32-bit shifts drop are masked off anyway. */
  lemma TopAmounts(x: u32)
    requires x < 0x2000_0000
    ensures
      var z, m := if x == 0 then 0 else 1, NonZeroToAllOnes(x);
      && (m == 0 || m == BASE - 1)
      && x * 0x400 % BASE % 0x1000_0000 == (x * 0x400) % 0x1000_0000 % BASE
      && x / 0x4_0000 == x / 0x4_0000 % BASE
      && x * 0x20_0000 % BASE % 0x2000_0000 == (x * 0x20_0000) % 0x2000_0000 % BASE
      && x / 0x100 == x / 0x100 % BASE
      && And(0x1000_0000, m) == z * 0x1000_0000 % BASE
      && And(Sub32(x, 1), m) == (x - z) % BASE
      && x * 0x100_0000 % BASE % 0x1000_0000 == (x * 0x100_0000) % 0x1000_0000 % BASE
      && x / 16 == x / 16 % BASE
      && And(0x2000_0000, m) == z * 0x2000_0000 % BASE
      && x == x % BASE
      && x * 0x1000_0000 % BASE % 0x2000_0000 == (x % 2) * 0x1000_0000 % BASE
      && And(Sub32(x / 2, 1), m) == (x / 2 - z) % BASE
  {
    hide And, Sub32, NonZeroToAllOnes;
    DigitMasks(x, x / 2);
    SmallMod(x / 0x4_0000);
    SmallMod(x / 0x100);
    SmallMod(x / 16);
    SmallMod(x);
    ShiftMasked(x * 0x400, 0x1000_0000, 16, (x * 0x400) % 0x1000_0000);
    ShiftMasked(x * 0x20_0000, 0x2000_0000, 8, (x * 0x20_0000) % 0x2000_0000);
    ShiftMasked(x * 0x100_0000, 0x1000_0000, 16, (x * 0x100_0000) % 0x1000_0000);
    LastBit(x);
    ShiftMasked(x * 0x1000_0000, 0x2000_0000, 8, (x % 2) * 0x1000_0000);
  }

  lemma TopStepLimbs(s: seq<int>, u: seq<int>)
    requires |s| >= 10
    requires
      var x := s[0] % 0x2000_0000;
      var z := if x == 0 then 0 else 1;
      && |u| == |s| && u[0] == 0 && u[1] == s[1] + s[0] / 0x2000_0000 && u[2] == s[2]
      && u[3] == s[3] + (x * 0x400) % 0x1000_0000 && u[4] == s[4] + x / 0x4_0000 && u[5] == s[5]
      && u[6] == s[6] + (x * 0x20_0000) % 0x2000_0000
      && u[7] == s[7] + x / 0x100 + z * 0x1000_0000 - (x * 0x100_0000) % 0x1000_0000
      && u[8] == s[8] + (x - z) - x / 16 + z * 0x2000_0000 - x + (x % 2) * 0x1000_0000
      && u[9] == s[9] + (x / 2 - z)
      && u[10..] == s[10..]
    ensures u == TopStep(s)
  {
    var t := TopStep(s);
    assert t[10..] == s[10..];
    assert forall k :: 10 <= k < |s| ==> u[k] == u[10..][k - 10] == s[k];
  }

  /** The top half of a round: tmp2[i] is eliminated. */
  method EliminateEven(tmp2: array<u32>, i: nat, ghost s: seq<int>)
    requires |s| >= 10 && 0 <= s[0] < BASE && Words32(tmp2[..], i, s)
    modifies tmp2
    ensures Words32(tmp2[..], i, TopStep(s))
  {
    hide Add32, Sub32, And, NonZeroToAllOnes, Words32, TopStep;
    var w: u32;
    ghost var u;
    w, u := Take(tmp2, i, 0, s);
    u := Bump(tmp2, i, 1, w / 0x2000_0000, u, w / 0x2000_0000);
    var x: u32 := w % 0x2000_0000;
    TopAmounts(x);

    u := Bump(tmp2, i, 3, x * 0x400 % BASE % 0x1000_0000, u, (x * 0x400) % 0x1000_0000);
    u := Bump(tmp2, i, 4, x / 0x4_0000, u, x / 0x4_0000);

    u := Bump(tmp2, i, 6, x * 0x20_0000 % BASE % 0x2000_0000, u, (x * 0x20_0000) % 0x2000_0000);
    ghost var v := u;
    u := EliminateEvenTop(tmp2, i, x, NonZeroToAllOnes(x), u);
    assert u[10..] == s[10..];
    TopStepLimbs(s, u);
  }

  /** The part of the top half that works around position 228, where P has a minus sign. */
  method EliminateEvenTop(tmp2: array<u32>, i: nat, x: u32, mask: u32, ghost s: seq<int>) returns (ghost u: seq<int>)
    requires |s| >= 10 && x < 0x2000_0000 && mask == NonZeroToAllOnes(x) && Words32(tmp2[..], i, s)
    modifies tmp2
    ensures Words32(tmp2[..], i, u)
    ensures
      var z := if x == 0 then 0 else 1;
      u == s[7 := s[7] + x / 0x100 + z * 0x1000_0000 - (x * 0x100_0000) % 0x1000_0000]
            [8 := s[8] + (x - z) - x / 16 + z * 0x2000_0000 - x + (x % 2) * 0x1000_0000]
            [9 := s[9] + (x / 2 - z)]
  {
    hide Add32, Sub32, And, NonZeroToAllOnes, Words32;
    ghost var z := if x == 0 then 0 else 1;
    TopAmounts(x);
    u := Bump(tmp2, i, 7, x / 0x100, s, x / 0x100);

    u := Bump(tmp2, i, 7, And(0x1000_0000, mask), u, z * 0x1000_0000);
    u := Bump(tmp2, i, 8, And(Sub32(x, 1), mask), u, x - z);
    u := Drop(tmp2, i, 7, x * 0x100_0000 % BASE % 0x1000_0000, u, (x * 0x100_0000) % 0x1000_0000);
    u := Drop(tmp2, i, 8, x / 16, u, x / 16);

    u := Bump(tmp2, i, 8, And(0x2000_0000, mask), u, z * 0x2000_0000);
    u := Drop(tmp2, i, 8, x, u, x);
    u := Bump(tmp2, i, 8, x * 0x1000_0000 % BASE % 0x2000_0000, u, (x % 2) * 0x1000_0000);
    u := Bump(tmp2, i, 9, And(Sub32(x / 2, 1), mask), u, x / 2 - z);
  }

  lemma BottomAmounts(y: u32)
    requires y < 0x1000_0000
    ensures
      var z, m := if y == 0 then 0 else 1, NonZeroToAllOnes(y);
      && (m == 0 || m == BASE - 1)
      && y * 0x800 % BASE % 0x2000_0000 == (y * 0x800) % 0x2000_0000 % BASE
      && y / 0x4_0000 == y / 0x4_0000 % BASE
      && y * 0x20_0000 % BASE % 0x1000_0000 == (y * 0x20_0000) % 0x1000_0000 % BASE
      && y / 0x80 == y / 0x80 % BASE
      && And(0x2000_0000, m) == z * 0x2000_0000 % BASE
      && And(Sub32(y, 1), m) == (y - z) % BASE
      && y * 0x200_0000 % BASE % 0x2000_0000 == (y * 0x200_0000) % 0x2000_0000 % BASE
      && y / 16 == y / 16 % BASE
      && And(0x1000_0000, m) == z * 0x1000_0000 % BASE
      && y == y % BASE
  {
    hide And, Sub32, NonZeroToAllOnes;
    DigitMasks(y, y);
    SmallMod(y / 0x4_0000);
    SmallMod(y / 0x80);
    SmallMod(y / 16);
    SmallMod(y);
    ShiftMasked(y * 0x800, 0x2000_0000, 8, (y * 0x800) % 0x2000_0000);
    ShiftMasked(y * 0x20_0000, 0x1000_0000, 16, (y * 0x20_0000) % 0x1000_0000);
    ShiftMasked(y * 0x200_0000, 0x2000_0000, 8, (y * 0x200_0000) % 0x2000_0000);
  }

  lemma BottomStepLimbs(s: seq<int>, u: seq<int>)
    requires |s| >= 11
    requires
      var y := s[1] % 0x1000_0000;
      var z := if y == 0 then 0 else 1;
      && |u| == |s| && u[0] == s[0] && u[1] == 0 && u[2] == s[2] + s[1] / 0x1000_0000 && u[3] == s[3]
      && u[4] == s[4] + (y * 0x800) % 0x2000_0000 && u[5] == s[5] + y / 0x4_0000 && u[6] == s[6]
      && u[7] == s[7] + (y * 0x20_0000) % 0x1000_0000
      && u[8] == s[8] + y / 0x80 + z * 0x2000_0000 - (y * 0x200_0000) % 0x2000_0000
      && u[9] == s[9] + (y - z) - y / 16 + z * 0x1000_0000 - y
      && u[10] == s[10] + (y - z)
      && u[11..] == s[11..]
    ensures u == BottomStep(s)
  {
    var t := BottomStep(s);
    assert t[11..] == s[11..];
    assert forall k :: 11 <= k < |s| ==> u[k] == u[11..][k - 11] == s[k];
  }

  /** The bottom half of a round: tmp2[i + 1] is eliminated. */
  method EliminateOdd(tmp2: array<u32>, i: nat, ghost s: seq<int>)
    requires |s| >= 11 && 0 <= s[1] < BASE && Words32(tmp2[..], i, s)
    modifies tmp2
    ensures Words32(tmp2[..], i, BottomStep(s))
  {
    hide Add32, Sub32, And, NonZeroToAllOnes, Words32, BottomStep;
    var w: u32;
    ghost var u;
    w, u := Take(tmp2, i, 1, s);
    u := Bump(tmp2, i, 2, w / 0x1000_0000, u, w / 0x1000_0000);
    var y: u32 := w % 0x1000_0000;
    BottomAmounts(y);

    u := Bump(tmp2, i, 4, y * 0x800 % BASE % 0x2000_0000, u, (y * 0x800) % 0x2000_0000);
    u := Bump(tmp2, i, 5, y / 0x4_0000, u, y / 0x4_0000);

    u := Bump(tmp2, i, 7, y * 0x20_0000 % BASE % 0x1000_0000, u, (y * 0x20_0000) % 0x1000_0000);
    u := EliminateOddTop(tmp2, i, y, NonZeroToAllOnes(y), u);
    assert u[11..] == s[11..];
    BottomStepLimbs(s, u);
  }

  method EliminateOddTop(tmp2: array<u32>, i: nat, y: u32, mask: u32, ghost s: seq<int>) returns (ghost u: seq<int>)
    requires |s| >= 11 && y < 0x1000_0000 && mask == NonZeroToAllOnes(y) && Words32(tmp2[..], i, s)
    modifies tmp2
    ensures Words32(tmp2[..], i, u)
    ensures
      var z := if y == 0 then 0 else 1;
      u == s[8 := s[8] + y / 0x80 + z * 0x2000_0000 - (y * 0x200_0000) % 0x2000_0000]
            [9 := s[9] + (y - z) - y / 16 + z * 0x1000_0000 - y]
            [10 := s[10] + (y - z)]
  {
    hide Add32, Sub32, And, NonZeroToAllOnes, Words32;
    ghost var z := if y == 0 then 0 else 1;
    BottomAmounts(y);
    u := Bump(tmp2, i, 8, y / 0x80, s, y / 0x80);

    u := Bump(tmp2, i, 8, And(0x2000_0000, mask), u, z * 0x2000_0000);
    u := Bump(tmp2, i, 9, And(Sub32(y, 1), mask), u, y - z);
    u := Drop(tmp2, i, 8, y * 0x200_0000 % BASE % 0x2000_0000, u, (y * 0x200_0000) % 0x2000_0000);
    u := Drop(tmp2, i, 9, y / 16, u, y / 16);

    u := Bump(tmp2, i, 9, And(0x1000_0000, mask), u, z * 0x1000_0000);
    u := Drop(tmp2, i, 9, y, u, y);
    u := Bump(tmp2, i, 10, And(Sub32(y, 1), mask), u, y - z);
  }

  // ----- splitting the product words into limbs -----

  /** The pieces of a 64-bit product word at a limb position: the limb's own bits, the
      next limb's, and what is left above them. */
  function Width(i: nat): int { if i % 2 == 0 then 0x2000_0000 else 0x1000_0000 }

  function Low(t: seq<u64>, i: nat): int
    requires i < |t|
  {
    t[i] % Width(i)
  }

  function Middle(t: seq<u64>, i: int): int
    requires i < |t|
  {
    if i < 0 then 0 else t[i] / Width(i) % Width(i + 1)
  }

  function High(t: seq<u64>, i: int): int
    requires i < |t|
  {
    if i < 0 then 0 else t[i] / 0x200_0000_0000_0000
  }

  lemma Pieces(t: seq<u64>, i: nat)
    requires i < |t|
    ensures t[i] == Low(t, i) + Width(i) * Middle(t, i) + 0x200_0000_0000_0000 * High(t, i)
    ensures 0 <= Low(t, i) < Width(i) && 0 <= Middle(t, i) < Width(i + 1) && 0 <= High(t, i) < 0x80
  {
    var q := t[i] / Width(i);
    if i % 2 == 0 {
      assert q == (t[i] / 0x200_0000_0000_0000) * 0x1000_0000 + q % 0x1000_0000;
    } else {
      assert q == (t[i] / 0x200_0000_0000_0000) * 0x2000_0000 + q % 0x2000_0000;
    }
  }

  /** The source takes the pieces from the two 32-bit halves of the word. */
  lemma HalvesOdd(t: u64)
    ensures t % BASE / 0x1000_0000 + t / BASE * 16 % BASE % 0x2000_0000 == t / 0x1000_0000 % 0x2000_0000
    ensures t / BASE / 0x200_0000 == t / 0x200_0000_0000_0000
    ensures t % BASE % 0x1000_0000 == t % 0x1000_0000
  {
    var hi, lo := t / BASE, t % BASE;
    MaskAfterShift(hi * 16, 0x2000_0000, 8);
    MaskAfterShift(t, 0x1000_0000, 16);
    assert t == hi * BASE + lo;
    assert t / 0x1000_0000 == hi * 16 + lo / 0x1000_0000;
    LowDigit(hi, lo / 0x1000_0000, 16, 0x200_0000);
  }

  lemma HalvesEven(t: u64)
    ensures t % BASE / 0x2000_0000 + t / BASE * 8 % BASE % 0x1000_0000 == t / 0x2000_0000 % 0x1000_0000
    ensures t / BASE / 0x200_0000 == t / 0x200_0000_0000_0000
    ensures t % BASE % 0x2000_0000 == t % 0x2000_0000
  {
    var hi, lo := t / BASE, t % BASE;
    MaskAfterShift(hi * 8, 0x1000_0000, 16);
    MaskAfterShift(t, 0x2000_0000, 8);
    assert t == hi * BASE + lo;
    assert t / 0x2000_0000 == hi * 8 + lo / 0x2000_0000;
    LowDigit(hi, lo / 0x2000_0000, 8, 0x200_0000);
  }

  lemma LowDigit(hi: int, d: int, k: int, m: int)
    requires k > 0 && m > 0 && 0 <= d < k
    ensures (hi * k + d) % (k * m) == (hi * k) % (k * m) + d
  {
    var q, r := hi / m, hi % m;
    assert hi == q * m + r;
    LowDigitResidue(q, r, 0, k, m);
    LowDigitResidue(q, r, d, k, m);
  }

  lemma LowDigitResidue(q: int, r: int, d: int, k: int, m: int)
    requires k > 0 && m > 0 && 0 <= d < k && 0 <= r < m
    ensures k * m > 0 && ((q * m + r) * k + d) % (k * m) == r * k + d
  {
    hide Cong;
    MulNonneg(r, k);
    MulMono(r, k, m - 1);
    MulMono(1, m, k);
    assert (m - 1) * k == k * m - k;
    assert (q * m + r) * k == q * (k * m) + r * k by { MulAssoc(q, m, k); }
    Intro(r * k + d, (q * m + r) * k + d, k * m, -q);
    Residue(r * k + d, (q * m + r) * k + d, k * m);
  }

  ghost predicate SplitAt(t: seq<u64>, l: seq<int>, cs: seq<int>, i: nat)
    requires i < |l| && i < |t| && i + 1 < |cs|
  {
    && 0 <= l[i] < Width(i)
    && l[i] + Width(i) * cs[i + 1] == High(t, i - 2) + Middle(t, i - 1) + Low(t, i) + cs[i]
  }

  ghost predicate SplitUpTo(t: seq<u64>, l: seq<int>, cs: seq<int>, i: nat)
  {
    && |t| == 17 && i <= 17 && |l| == i && |cs| == i + 1 && cs[0] == 0 && 0 <= cs[i] <= 2
    && forall k :: 0 <= k < i ==> SplitAt(t, l, cs, k)
  }

  ghost predicate SplitTop(t: seq<u64>, l: seq<int>, cs: seq<int>)
    requires |l| == 18 && |t| == 17 && |cs| == 18
  {
    l[17] == High(t, 15) + t[16] / 0x2000_0000 + cs[17]
  }

  /** The value of a suffix that starts with limb i. */
  function ValFrom(s: seq<int>, i: nat): int
    requires i <= |s|
  {
    if i % 2 == 0 then EvenVal(s[i..]) else OddVal(s[i..])
  }

  lemma ValFromStep(s: seq<int>, i: nat)
    requires i < |s|
    ensures ValFrom(s, i) == s[i] + Width(i) * ValFrom(s, i + 1)
  {
    assert s[i..][1..] == s[i + 1..];
  }

  lemma {:induction false} SplitSuffix(t: seq<u64>, l: seq<int>, cs: seq<int>, i: nat)
    requires |l| == 18 && |t| == 17 && |cs| == 18 && i <= 17 && SplitTop(t, l, cs)
    requires forall k :: i <= k < 17 ==> SplitAt(t, l, cs, k)
    ensures ValFrom(l, i) == cs[i] + High(t, i - 2) + Middle(t, i - 1) + Width(i) * High(t, i - 1) + ValFrom(t, i)
    decreases 17 - i
  {
    hide EvenVal, OddVal, ValFrom, Low, Middle, High;
    ValFromStep(l, i);
    if i == 17 {
      ValFromEnd(l);
      ValFromEnd(t);
      TopPieces(t);
    } else {
      SplitSuffix(t, l, cs, i + 1);
      ValFromStep(t, i);
      Pieces(t, i);
      assert SplitAt(t, l, cs, i);
    }
  }

  lemma TopPieces(t: seq<u64>)
    requires |t| == 17
    ensures t[16] / 0x2000_0000 == Middle(t, 16) + 0x1000_0000 * High(t, 16)
  {
    TopWord(t[16]);
  }

  lemma ValFromEnd(s: seq<int>)
    ensures ValFrom(s, |s|) == 0
  {
    assert s[|s|..] == [];
  }

  lemma TopWord(t: u64)
    ensures t / 0x2000_0000 == t / 0x2000_0000 % 0x1000_0000 + 0x1000_0000 * (t / 0x200_0000_0000_0000)
  {
    var q := t / 0x2000_0000;
    assert q == (t / 0x200_0000_0000_0000) * 0x1000_0000 + q % 0x1000_0000;
  }

  /** The unmasked `(tmp[16] >> 32) << 3` keeps the top of the last word modulo 2^32. */
  lemma TopWordMod(t: u64)
    ensures (t % BASE / 0x2000_0000 + t / BASE * 8 % BASE) % BASE == t / 0x2000_0000 % BASE
  {
    var hi, lo := t / BASE, t % BASE;
    assert t == hi * BASE + lo;
    assert t / 0x2000_0000 == hi * 8 + lo / 0x2000_0000;
  }

  /** The sum that falls on an even limb: the top of the word two below, the middle of the
      word below, the low bits of its own word, and the carry. */
  function EvenSum(t2: u64, t1: u64, t0: u64, carry: u32): (v: u32)
    requires carry <= 2
    ensures v == t2 / 0x200_0000_0000_0000 + t1 / 0x1000_0000 % 0x2000_0000 + t0 % 0x2000_0000 + carry
  {
    HalvesEven(t2);
    HalvesOdd(t1);
    HalvesEven(t0);
    t2 / BASE / 0x200_0000 + t1 % BASE / 0x1000_0000 + t1 / BASE * 16 % BASE % 0x2000_0000
      + t0 % BASE % 0x2000_0000 + carry
  }

  /** The sum that falls on an odd limb. */
  function OddSum(t2: u64, t1: u64, t0: u64, carry: u32): (v: u32)
    requires carry <= 2
    ensures v == t2 / 0x200_0000_0000_0000 + t1 / 0x2000_0000 % 0x1000_0000 + t0 % 0x1000_0000 + carry
  {
    HalvesOdd(t2);
    HalvesEven(t1);
    HalvesOdd(t0);
    t2 / BASE / 0x200_0000 + t1 % BASE / 0x2000_0000 + t1 / BASE * 8 % BASE % 0x1000_0000
      + t0 % BASE % 0x1000_0000 + carry
  }

  /** The sum for the last limb, whose shift is not masked. */
  function TopSum(t2: u64, t1: u64, carry: u32): (v: u32)
    requires carry <= 2
    ensures v == (t2 / 0x200_0000_0000_0000 + t1 / 0x2000_0000 + carry) % BASE
  {
    HalvesOdd(t2);
    TopWordMod(t1);
    FourAdded(t2 / BASE / 0x200_0000, t1 % BASE / 0x2000_0000, t1 / BASE * 8 % BASE, carry, t1 / 0x2000_0000);
    Add32(Add32(Add32(t2 / BASE / 0x200_0000, t1 % BASE / 0x2000_0000), t1 / BASE * 8 % BASE), carry)
  }

  lemma FourAdded(a: u32, b: u32, c: u32, d: u32, w: int)
    requires (b + c) % BASE == w % BASE
    ensures Add32(Add32(Add32(a, b), c), d) == (a + w + d) % BASE
  {
    hide Add32;
    SmallMod(a);
    SmallMod(b);
    SmallMod(c);
    SmallMod(d);
    AddMod(a, a, b);
    AddMod(Add32(a, b), a + b, c);
    AddMod(Add32(Add32(a, b), c), a + b + c, d);
    var v: u32 := (b + c) % BASE;
    AddMod(v, b + c, a + d);
    AddMod(v, w, a + d);
  }

  /** The first i limbs have been split off. */
  ghost predicate SplitState(tmp: seq<u64>, out: seq<u32>, carry: u32, l: seq<int>, cs: seq<int>, i: nat) {
    && |tmp| == 17 && 2 <= i <= 17 && |out| == 18 && |l| == i && |cs| == i + 1 && SplitUpTo(tmp, l, cs, i)
    && out[..i] == l && carry == cs[i] && carry <= 2
  }

  /** One limb, of the given width, from the sum of the pieces that fall on it. */
  method SplitLimb(tmp: seq<u64>, tmp2: array<u32>, i: nat, v: u32, ghost carry: u32, ghost l: seq<int>, ghost cs: seq<int>)
    returns (carry': u32, ghost l': seq<int>, ghost cs': seq<int>)
    requires tmp2.Length == 18 && i < 17 && SplitState(tmp, tmp2[..], carry, l, cs, i)
    requires v == tmp[i - 2] / 0x200_0000_0000_0000 + tmp[i - 1] / Width(i - 1) % Width(i) + tmp[i] % Width(i) + carry
    modifies tmp2
    ensures SplitState(tmp, tmp2[..], carry', l', cs', i + 1)
  {
    hide SplitUpTo;
    NextLimb(tmp, l, cs, i, v);
    carry' := v / Width(i);
    tmp2[i] := v % Width(i);
    l', cs' := l + [v % Width(i)], cs + [carry' as int];
  }

  /** Removes the overlap between the words: 18 limbs of the same value, of which only the
      last may be too large for its word. */
  method SplitWords(tmp: seq<u64>) returns (tmp2: array<u32>, ghost s: seq<int>)
    requires |tmp| == 17
    ensures fresh(tmp2) && tmp2.Length == 18
    ensures Words32(tmp2[..], 0, s) && EvenVal(s) == EvenVal(tmp) && Bounded(s, 0)
  {
    hide EvenVal, OddVal, SplitUpTo, Bounded, EvenSum, OddSum, TopSum;
    var carry: u32;
    ghost var l: seq<int>, cs: seq<int>;
    tmp2, carry, l, cs := SplitFirst(tmp);
    var i := 2;
    while i < 17
      invariant 2 <= i <= 17 && (i % 2 == 0 || i == 17)
      invariant SplitState(tmp, tmp2[..], carry, l, cs, i)
    {
      var v := EvenSum(tmp[i - 2], tmp[i - 1], tmp[i], carry);
      carry, l, cs := SplitLimb(tmp, tmp2, i, v, carry, l, cs);
      i := i + 1;
      if i == 17 {
        break;
      }
      v := OddSum(tmp[i - 2], tmp[i - 1], tmp[i], carry);
      carry, l, cs := SplitLimb(tmp, tmp2, i, v, carry, l, cs);
      i := i + 1;
    }
    tmp2[17] := TopSum(tmp[15], tmp[16], carry);
    s := l + [tmp[15] / 0x200_0000_0000_0000 + tmp[16] / 0x2000_0000 + carry];
    assert tmp2[..17] == l == s[..17];
    SplitDone(tmp, s, cs);
    forall k | 0 <= k < 18 ensures tmp2[0 + k] == s[k] % BASE {
      if k < 17 {
        assert tmp2[k] == tmp2[..17][k] == s[..17][k];
        SmallMod(s[k]);
      }
    }
  }

  /** The first two limbs. */
  method SplitFirst(tmp: seq<u64>) returns (tmp2: array<u32>, carry: u32, ghost l: seq<int>, ghost cs: seq<int>)
    requires |tmp| == 17
    ensures fresh(tmp2) && tmp2.Length == 18 && SplitState(tmp, tmp2[..], carry, l, cs, 2)
  {
    hide SplitUpTo, OddSum;
    tmp2 := new u32[18];
    tmp2[0] := tmp[0] % BASE % 0x2000_0000;
    HalvesEven(tmp[0]);
    tmp2[1] := OddSum(0, tmp[0], tmp[1], 0);
    carry := tmp2[1] / 0x1000_0000;
    tmp2[1] := tmp2[1] % 0x1000_0000;
    l, cs := [tmp2[0] as int, tmp2[1] as int], [0, 0, carry];
    FirstLimbs(tmp, l, cs);
  }

  lemma FirstLimbs(t: seq<u64>, l: seq<int>, cs: seq<int>)
    requires |t| == 17 && |l| == 2 && |cs| == 3 && cs[0] == cs[1] == 0
    requires l[0] == t[0] % 0x2000_0000
    requires
      var v := 0 / 0x200_0000_0000_0000 + t[0] / 0x2000_0000 % 0x1000_0000 + t[1] % 0x1000_0000;
      l[1] == v % 0x1000_0000 && cs[2] == v / 0x1000_0000
    ensures SplitUpTo(t, l, cs, 2) && 0 <= cs[2] <= 2
  {
    assert SplitAt(t, l, cs, 0) && SplitAt(t, l, cs, 1);
  }

  /** The next limb and carry, from the sum of the pieces that fall on it. */
  lemma NextLimb(t: seq<u64>, l: seq<int>, cs: seq<int>, i: nat, v: int)
    requires |t| == 17 && 2 <= i < 17 && |l| == i && |cs| == i + 1 && SplitUpTo(t, l, cs, i)
    requires v == t[i - 2] / 0x200_0000_0000_0000 + t[i - 1] / Width(i - 1) % Width(i) + t[i] % Width(i) + cs[i]
    ensures 0 <= v / Width(i) <= 2 && SplitUpTo(t, l + [v % Width(i)], cs + [v / Width(i)], i + 1)
  {
    var l', cs' := l + [v % Width(i)], cs + [v / Width(i)];
    NextLimbAt(t, l', cs', i, v);
    hide Low, Middle, High;
    forall k | 0 <= k < i + 1
      ensures SplitAt(t, l', cs', k)
    {
      if k < i {
        assert SplitAt(t, l, cs, k);
      }
    }
  }

  lemma NextLimbAt(t: seq<u64>, l: seq<int>, cs: seq<int>, i: nat, v: int)
    requires |t| == 17 && 2 <= i < 17 && |l| == i + 1 && |cs| == i + 2 && 0 <= cs[i] <= 2
    requires v == t[i - 2] / 0x200_0000_0000_0000 + t[i - 1] / Width(i - 1) % Width(i) + t[i] % Width(i) + cs[i]
    requires l[i] == v % Width(i) && cs[i + 1] == v / Width(i)
    ensures 0 <= v / Width(i) <= 2 && SplitAt(t, l, cs, i)
  {
    PiecesAre(t, i);
    Pieces(t, i);
    Pieces(t, i - 1);
    Pieces(t, i - 2);
    hide High, Middle, Low, Width;
    assert Width(i) == 0x2000_0000 || Width(i) == 0x1000_0000 by { TwoWidths(i); }
    CarryBound(v, Width(i));
  }

  lemma PiecesAre(t: seq<u64>, i: nat)
    requires 2 <= i < |t|
    ensures High(t, i - 2) == t[i - 2] / 0x200_0000_0000_0000
    ensures Middle(t, i - 1) == t[i - 1] / Width(i - 1) % Width(i) && Low(t, i) == t[i] % Width(i)
  {
    hide Width;
  }

  lemma TwoWidths(i: nat)
    ensures Width(i) == 0x2000_0000 || Width(i) == 0x1000_0000
  {
  }

  lemma CarryBound(v: int, w: int)
    requires w == 0x2000_0000 || w == 0x1000_0000
    requires 0 <= v < 2 * w + 0x82
    ensures 0 <= v / w <= 2 && 0 <= v % w < w && v % w + w * (v / w) == v
  {
  }

  lemma SplitDone(t: seq<u64>, l: seq<int>, cs: seq<int>)
    requires |l| == 18 && |t| == 17 && |cs| == 18
    requires SplitUpTo(t, l[..17], cs, 17)
    requires l[17] == t[15] / 0x200_0000_0000_0000 + t[16] / 0x2000_0000 + cs[17]
    ensures EvenVal(l) == EvenVal(t) && Bounded(l, 0)
  {
    hide EvenVal, OddVal, Low, Middle, High, Bounded;
    NegativePieces(t);
    forall k | 0 <= k < 17 ensures SplitAt(t, l, cs, k) && 0 <= l[k] < Width(k) {
      assert SplitAt(t, l[..17], cs, k);
    }
    SplitSuffix(t, l, cs, 0);
    assert l[0..] == l && t[0..] == t;
    LimbsBounded(l);
  }

  lemma NegativePieces(t: seq<u64>)
    requires |t| == 17
    ensures High(t, -2) == High(t, -1) == Middle(t, -1) == 0 && 0 <= High(t, 15) < 0x80
    ensures High(t, 15) == t[15] / 0x200_0000_0000_0000
  {
  }

  lemma LimbsBounded(l: seq<int>)
    requires |l| == 18 && forall k :: 0 <= k < 17 ==> 0 <= l[k] < Width(k)
    requires 0 <= l[17] <= 0x8_0000_0200
    ensures Bounded(l, 0)
  {
    forall m | 0 <= m < 18 ensures LimbOk(l, 0, m) {
    }
  }

  // ----- the shift by 2^257 -----

  lemma ExpandOdd9(s: seq<int>)
    requires |s| == 9
    ensures OddVal(s) == s[0]
      + 0x1000_0000 * s[1]
      + 0x200_0000_0000_0000 * s[2]
      + 0x20_0000_0000_0000_0000_0000 * s[3]
      + 0x4_0000_0000_0000_0000_0000_0000_0000 * s[4]
      + 0x4000_0000_0000_0000_0000_0000_0000_0000_0000 * s[5]
      + 0x800_0000_0000_0000_0000_0000_0000_0000_0000_0000_0000 * s[6]
      + 0x80_0000_0000_0000_0000_0000_0000_0000_0000_0000_0000_0000_0000 * s[7]
      + 0x10_0000_0000_0000_0000_0000_0000_0000_0000_0000_0000_0000_0000_0000_0000 * s[8]
  {
    hide EvenVal, OddVal;
    TwoLimbs(s);
    TwoLimbs(s[2..]);
    assert s[2..][2..] == s[4..];
    TwoLimbs(s[4..]);
    assert s[4..][2..] == s[6..];
    TwoLimbs(s[6..]);
    assert s[6..][2..] == s[8..];
    OneLimb(s[8..]);
  }

  /** The limbs from 2^257 up, when the elimination is done: even ones may be -1 beside a
      large lower neighbour, and the last one may be too large for its word. */
  predicate Shiftable(t: seq<int>)
  {
    |t| == 9 && forall k :: 0 <= k < 9 ==> ShiftLimb(t, k)
  }

  predicate ShiftLimb(t: seq<int>, k: nat)
    requires k < |t|
  {
    && t[k] < (if k == 8 then 0x9_0000_0000 else if k % 2 == 0 then 0xb000_0000 else BASE)
    && (t[k] >= 0 || (k % 2 == 0 && k >= 2 && t[k] == -1 && t[k - 1] >= 0x2000_0000))
  }

  lemma EliminatedAt(s: seq<int>, k: nat)
    requires Bounded(s, 8) && k < 9
    ensures
      var t := TopStep(s);
      var v := t[k + 1];
      && v < (if k == 8 then 0x9_0000_0000 else if k % 2 == 0 then 0xb000_0000 else BASE)
      && (v >= 0 || (k % 2 == 0 && k >= 2 && v == -1 && t[k] >= 0x2000_0000))
  {
    hide TopStep;
    assert LimbOk(s, 8, 0) && LimbOk(s, 8, k) && LimbOk(s, 8, k + 1) && LimbOk(s, 8, 8) && LimbOk(s, 8, 9);
    TopRange(s);
  }

  lemma EliminatedShiftable(s: seq<int>)
    requires Bounded(s, 8)
    ensures Shiftable(TopStep(s)[1..])
  {
    hide TopStep, Bounded;
    BoundedLength(s, 8);
    var u := TopStep(s);
    var t := u[1..];
    forall k | 0 <= k < 9
      ensures ShiftLimb(t, k)
    {
      EliminatedAt(s, k);
      assert t[k] == u[k + 1] && (k >= 1 ==> t[k - 1] == u[k]);
    }
  }

  lemma BoundedLength(s: seq<int>, i: nat)
    requires Bounded(s, i)
    ensures |s| == 18 - i
  {
  }

  /** What limb k of the result and the carry out of it are made of. */
  ghost predicate ShiftedAt(t: seq<int>, out: seq<int>, cs: seq<int>, k: nat)
    requires |t| == 9 && k < 8 && k < |out| && k + 1 < |cs|
  {
    && 0 <= out[k] < Width(k)
    && out[k] + Width(k) * cs[k + 1] == cs[k] + if k % 2 == 0 then t[k] + (t[k + 1] % 2) * 0x1000_0000 else t[k] / 2
  }

  ghost predicate ShiftedUpTo(t: seq<int>, out: seq<int>, cs: seq<int>, i: nat)
  {
    && |t| == 9 && i <= 8 && |out| == i && |cs| == i + 1 && cs[0] == 0 && 0 <= cs[i] <= 8
    && (i > 0 && t[i] < 0 ==> cs[i] >= 1)
    && forall k :: 0 <= k < i ==> ShiftedAt(t, out, cs, k)
  }

  lemma ShiftedTotal(t: seq<int>, out: seq<int>, cs: seq<int>)
    requires |t| == 9 && |out| == 9 && |cs| == 10 && cs[0] == 0
    requires forall k :: 0 <= k < 8 ==> ShiftedAt(t, out, cs, k)
    requires out[8] + 0x2000_0000 * cs[9] == t[8] + cs[8] && 0 <= out[8] < 0x2000_0000
    ensures Tight(out)
    ensures EvenVal(out) + cs[9] * MONT == OddVal(t)
  {
    hide EvenVal, OddVal;
    Expand9(out);
    ExpandOdd9(t);
    assert ShiftedAt(t, out, cs, 0) && ShiftedAt(t, out, cs, 1) && ShiftedAt(t, out, cs, 2) && ShiftedAt(t, out, cs, 3);
    assert ShiftedAt(t, out, cs, 4) && ShiftedAt(t, out, cs, 5) && ShiftedAt(t, out, cs, 6) && ShiftedAt(t, out, cs, 7);
  }

  /** The first i limbs have been copied down. */
  ghost predicate ShiftState(t: seq<int>, out: seq<u32>, carry: u32, l: seq<int>, cs: seq<int>, i: nat) {
    && |t| == 9 && i <= 8 && |out| == 9 && |l| == i && |cs| == i + 1 && ShiftedUpTo(t, l, cs, i)
    && out[..i] == l && carry == cs[i] && carry <= 8 && (i > 0 && t[i] < 0 ==> carry >= 1)
  }

  /** A limb and the carry out of it, from the sum. */
  method ShiftPut(out: array<u32>, i: nat, v: u32, ghost carry: u32, ghost t: seq<int>, ghost l: seq<int>, ghost cs: seq<int>)
    returns (carry': u32, ghost l': seq<int>, ghost cs': seq<int>)
    requires out.Length == 9 && |t| == 9 && Shiftable(t) && i < 8 && ShiftState(t, out[..], carry, l, cs, i)
    requires v == carry + if i % 2 == 0 then t[i] + (t[i + 1] % 2) * 0x1000_0000 else t[i] / 2
    modifies out
    ensures ShiftState(t, out[..], carry', l', cs', i + 1)
  {
    hide Shiftable, ShiftedUpTo;
    ShiftedSnoc(t, l, cs, i, v);
    hide Width;
    carry' := v / Width(i);
    out[i] := v % Width(i);
    l', cs' := l + [v % Width(i)], cs + [carry' as int];
  }

  /** The sum for an even limb. */
  method ShiftEven(tmp2: array<u32>, i: nat, carry: u32, ghost t: seq<int>) returns (v: u32)
    requires tmp2.Length == 18 && |t| == 9 && Shiftable(t) && Words32(tmp2[..], 9, t)
    requires i < 8 && i % 2 == 0 && carry <= 8 && (i > 0 && t[i] < 0 ==> carry >= 1)
    ensures v == carry + t[i] + (t[i + 1] % 2) * 0x1000_0000
  {
    hide Add32, Words32, Shiftable, EvenOut;
    LimbWord(tmp2[..], t, i);
    LimbWord(tmp2[..], t, i + 1);
    ShiftableAt(t, i);
    ShiftableAt(t, i + 1);
    v := EvenOut(tmp2[i + 9], carry, tmp2[i + 10], t[i]);
  }

  /** The sum for an odd limb. */
  method ShiftOdd(tmp2: array<u32>, i: nat, carry: u32, ghost t: seq<int>) returns (v: u32)
    requires tmp2.Length == 18 && |t| == 9 && Shiftable(t) && Words32(tmp2[..], 9, t)
    requires i < 8 && i % 2 == 1 && carry <= 8
    ensures v == carry + t[i] / 2
  {
    hide Words32, Shiftable;
    LimbWord(tmp2[..], t, i);
    ShiftableAt(t, i);
    v := tmp2[i + 9] / 2 + carry;
  }

  /** The carry chain that copies the upper limbs down, half a limb to the right. What the
      last word could not hold is lost. */
  method ShiftDown(out: array<u32>, tmp2: array<u32>, ghost t: seq<int>) returns (carry: u32, ghost lost: nat)
    requires out.Length == 9 && tmp2.Length == 18 && out != tmp2
    requires |t| == 9 && Shiftable(t) && Words32(tmp2[..], 9, t)
    modifies out
    ensures carry < 8 && Tight(out[..]) && lost < 16
    ensures EvenVal(out[..]) + (carry + 8 * lost) * MONT == OddVal(t)
  {
    hide EvenVal, OddVal, Words32, Shiftable, ShiftState, Tight;
    carry := 0;
    ghost var l: seq<int>, cs: seq<int> := [], [0];
    ghost var w := tmp2[..];
    ShiftStart(t, out[..]);
    var i := 0;
    ghost var h := 0;
    while i < 8
      invariant 0 <= i <= 8 && i == 2 * h && tmp2[..] == w
      invariant ShiftState(t, out[..], carry, l, cs, i)
      decreases 8 - i
    {
      StateFacts(t, out[..], carry, l, cs, i);
      var v := ShiftEven(tmp2, i, carry, t);
      carry, l, cs := ShiftPut(out, i, v, carry, t, l, cs);
      assert tmp2[..] == w;
      i := i + 1;
      StateFacts(t, out[..], carry, l, cs, i);
      v := ShiftOdd(tmp2, i, carry, t);
      carry, l, cs := ShiftPut(out, i, v, carry, t, l, cs);
      assert tmp2[..] == w;
      i := i + 1;
      h := h + 1;
    }
    carry, lost := ShiftLast(out, tmp2, carry, t, l, cs);
  }

  lemma StateFacts(t: seq<int>, out: seq<u32>, carry: u32, l: seq<int>, cs: seq<int>, i: nat)
    requires ShiftState(t, out, carry, l, cs, i)
    ensures |t| == 9 && carry <= 8 && (0 < i && i < 9 && t[i] < 0 ==> carry >= 1)
  {
  }

  lemma ShiftStart(t: seq<int>, out: seq<u32>)
    requires |t| == 9 && |out| == 9
    ensures ShiftState(t, out, 0, [], [0], 0)
  {
    ShiftedStart(t);
  }

  method ShiftLast(out: array<u32>, tmp2: array<u32>, carry0: u32, ghost t: seq<int>, ghost l0: seq<int>, ghost cs0: seq<int>)
    returns (carry: u32, ghost lost: nat)
    requires out.Length == 9 && tmp2.Length == 18 && out != tmp2
    requires |t| == 9 && Shiftable(t) && Words32(tmp2[..], 9, t) && ShiftState(t, out[..], carry0, l0, cs0, 8)
    modifies out
    ensures carry < 8 && Tight(out[..]) && lost < 16
    ensures EvenVal(out[..]) + (carry + 8 * lost) * MONT == OddVal(t)
  {
    hide EvenVal, OddVal, Add32, Words32, Shiftable, ShiftedUpTo, Tight, LastOut;
    LimbWord(tmp2[..], t, 8);
    ShiftableAt(t, 8);
    var v: u32 := LastOut(tmp2[17], carry0, t[8]);
    carry := v / 0x2000_0000;
    out[8] := v % 0x2000_0000;
    lost := LastLost(t[8] + carry0);
    ghost var l, cs := l0 + [v % 0x2000_0000], cs0 + [carry + 8 * lost];
    assert out[..] == l && l[..8] == out[..8];
    ShiftedPrefix(t, l, cs);
    ShiftedTotal(t, l, cs);
  }

  lemma ShiftableAt(t: seq<int>, k: nat)
    requires Shiftable(t) && k < 9 && |t| == 9
    ensures k % 2 == 0 && k < 8 ==> -1 <= t[k] < 0xb000_0000
    ensures k == 8 ==> -1 <= t[k] < 0x9_0000_0000
    ensures k % 2 == 1 ==> 0 <= t[k] < BASE
    ensures k == 0 ==> t[k] >= 0
  {
    assert ShiftLimb(t, k);
  }

  lemma LimbWord(w: seq<u32>, t: seq<int>, k: nat)
    requires |t| == 9 && k < 9 && |w| == 18 && Words32(w, 9, t)
    ensures w[k + 9] == t[k] % BASE && (0 <= t[k] < BASE ==> w[k + 9] == t[k])
  {
    SmallMod(t[k]);
  }

  /** out[i] = tmp2[i + 9], then += carry, then += the low bit of the next limb. */
  function EvenOut(a: u32, carry: u32, next: u32, ghost t: int): (v: u32)
    requires a == t % BASE && carry <= 8 && -1 <= t < 0xb000_0000 && (t == -1 ==> carry >= 1)
    ensures v == t + carry + (next % 2) * 0x1000_0000
  {
    hide Add32;
    AddMod(a, t, carry);
    SmallMod(carry);
    SmallMod(t + carry);
    LastBit(next);
    MaskAfterShift(next * 0x1000_0000, 0x2000_0000, 8);
    Add32(a, carry) + next * 0x1000_0000 % BASE % 0x2000_0000
  }

  function LastOut(a: u32, carry: u32, ghost t: int): (v: u32)
    requires a == t % BASE && carry <= 8
    ensures v == (t + carry) % BASE
  {
    hide Add32;
    AddMod(a, t, carry);
    SmallMod(carry);
    Add32(a, carry)
  }

  /** What a word does not hold of a sum. */
  lemma LastLost(v: int) returns (lost: nat)
    requires 0 <= v < 0x9_0000_0010
    ensures lost < 16 && v == lost * BASE + v % BASE
    ensures v % BASE % 0x2000_0000 + 0x2000_0000 * (v % BASE / 0x2000_0000 + 8 * lost) == v
  {
    lost := v / BASE;
  }

  lemma ShiftedSnoc(t: seq<int>, l: seq<int>, cs: seq<int>, i: nat, v: int)
    requires |t| == 9 && Shiftable(t) && i < 8 && |l| == i && |cs| == i + 1 && 0 <= v < BASE
    requires ShiftedUpTo(t, l, cs, i)
    requires v == cs[i] + if i % 2 == 0 then t[i] + (t[i + 1] % 2) * 0x1000_0000 else t[i] / 2
    ensures 0 <= v / Width(i) <= 8 && (t[i + 1] < 0 ==> v / Width(i) >= 1)
    ensures ShiftedUpTo(t, l + [v % Width(i)], cs + [v / Width(i)], i + 1)
  {
    var l', cs' := l + [v % Width(i)], cs + [v / Width(i)];
    assert ShiftLimb(t, i) && ShiftLimb(t, i + 1);
    forall k | 0 <= k < i + 1
      ensures ShiftedAt(t, l', cs', k)
    {
      if k < i {
        assert ShiftedAt(t, l, cs, k);
      }
    }
  }

  lemma ShiftedStart(t: seq<int>)
    requires |t| == 9
    ensures ShiftedUpTo(t, [], [0], 0)
  {
  }

  lemma ShiftedPrefix(t: seq<int>, l: seq<int>, cs: seq<int>)
    requires |t| == 9 && |l| == 9 && |cs| == 10 && ShiftedUpTo(t, l[..8], cs[..9], 8)
    ensures cs[0] == 0 && forall k :: 0 <= k < 8 ==> ShiftedAt(t, l, cs, k)
  {
    forall k | 0 <= k < 8
      ensures ShiftedAt(t, l, cs, k)
    {
      assert ShiftedAt(t, l[..8], cs[..9], k);
    }
  }

  // ----- felem_reduce_degree -----

  /** The rounds before i have added k times P and divided by 2^57 each. */
  ghost predicate Eliminated(s: seq<int>, i: nat, v: int, k: int)
  {
    var w := Pow(0x200_0000_0000_0000, i / 2);
    EvenVal(s) * w == v + k * P && 0 <= k < w
  }

  lemma EliminatedRound(s: seq<int>, t: seq<int>, i: nat, v: int, k: int, k': int)
    requires Eliminated(s, i, v, k) && EvenVal(t) * 0x200_0000_0000_0000 == EvenVal(s) + k' * P && 0 <= k' < 0x200_0000_0000_0000
    ensures Eliminated(t, i + 2, v, k + k' * Pow(0x200_0000_0000_0000, i / 2))
  {
    hide EvenVal, OddVal;
    var w := Pow(0x200_0000_0000_0000, i / 2);
    assert Pow(0x200_0000_0000_0000, (i + 2) / 2) == 0x200_0000_0000_0000 * w by {
      assert (i + 2) / 2 == i / 2 + 1;
    }
    EliminatedStep(EvenVal(t), EvenVal(s), w, v, k, k');
  }

  lemma EliminatedStep(x: int, y: int, w: int, v: int, k: int, k': int)
    requires x * 0x200_0000_0000_0000 == y + k' * P && y * w == v + k * P && 0 <= k < w && 0 <= k' < 0x200_0000_0000_0000
    ensures x * (0x200_0000_0000_0000 * w) == v + (k + k' * w) * P
    ensures 0 <= k + k' * w < 0x200_0000_0000_0000 * w
  {
    assert x * (0x200_0000_0000_0000 * w) == (x * 0x200_0000_0000_0000) * w == y * w + (k' * w) * P by {
      assert (k' * P) * w == (k' * w) * P;
    }
    MulMono(k', w, 0x200_0000_0000_0000 - 1);
    MulNonneg(k', w);
  }

  lemma RoundValue(s: seq<int>)
    requires |s| >= 11 && s[0] >= 0
    ensures
      var t := BottomStep(TopStep(s))[2..];
      var k := s[0] % 0x2000_0000 + 0x2000_0000 * (TopStep(s)[1] % 0x1000_0000);
      EvenVal(t) * 0x200_0000_0000_0000 == EvenVal(s) + k * P
  {
    hide EvenVal, OddVal, TopStep, BottomStep;
    TopValue(s);
    BottomValue(TopStep(s));
    TwoLimbs(BottomStep(TopStep(s)));
  }

  /** The ninth elimination: the remaining limbs times 2^257 are the value with a multiple of
      P below 2^257 times P added. */
  lemma LastRoundValue(s: seq<int>, v: int, k: int)
    requires |s| == 10 && s[0] >= 0 && Eliminated(s, 8, v, k)
    ensures OddVal(TopStep(s)[1..]) * MONT == v + Multiplier(v) * P
  {
    hide EvenVal, OddVal, TopStep, Multiplier;
    var x, y := s[0] % 0x2000_0000, EvenVal(s);
    TopValue(s);
    OneMore(TopStep(s));
    var w := Pow(0x200_0000_0000_0000, 4);
    assert w == 0x10_0000_0000_0000_0000_0000_0000_0000_0000_0000_0000_0000_0000_0000_0000 by {
      assert Pow(0x200_0000_0000_0000, 2) == 0x4_0000_0000_0000_0000_0000_0000_0000;
    }
    var z := OddVal(TopStep(s)[1..]);
    assert z * 0x2000_0000 == y + x * P;
    assert z * MONT == (z * 0x2000_0000) * w == v + (k + x * w) * P;
    IsMultiplier(v, k + x * w, z);
  }

  // ----- the multiplier -----

  /** -1 / P modulo 2^257. */
  const P_NEGATIVE_INVERSE: int := 0xffffffff_00000002_00000000_00000000_00000001_00000000_00000000_00000001

  /** The multiple of P that clears the low 257 bits of v. */
  function Multiplier(v: int): int {
    v * P_NEGATIVE_INVERSE % MONT
  }

  lemma MultiplierClears(v: int)
    ensures 0 <= Multiplier(v) < MONT && Cong(v + Multiplier(v) * P, 0, MONT)
  {
    hide Cong;
    var m := v * P_NEGATIVE_INVERSE;
    Intro(m % MONT, m, MONT, -(m / MONT));
    Scale(m % MONT, m, P, MONT);
    assert P_NEGATIVE_INVERSE * P + 1 == 0x7fffffff_00000001_fffffffe_80000001_00000000_ffffffff_00000001_80000000 * MONT;
    assert m * P == v * (P_NEGATIVE_INVERSE * P) by { MulAssoc(v, P_NEGATIVE_INVERSE, P); }
    Intro(v + m * P, 0, MONT, v * 0x7fffffff_00000001_fffffffe_80000001_00000000_ffffffff_00000001_80000000);
    Refl(v, MONT);
    Add(v, v, m % MONT * P, m * P, MONT);
    Trans(v + m % MONT * P, v + m * P, 0, MONT);
  }

  /** It is the only one below 2^257. */
  lemma IsMultiplier(v: int, k: int, z: int)
    requires 0 <= k < MONT && v + k * P == z * MONT
    ensures k == Multiplier(v)
  {
    hide Cong, Multiplier;
    var m := Multiplier(v);
    MultiplierClears(v);
    Intro(v + k * P, 0, MONT, z);
    Sub(v + k * P, 0, v + m * P, 0, MONT);
    Refl(m * P, MONT);
    Add((v + k * P) - (v + m * P), 0 - 0, m * P, m * P, MONT);
    assert (v + k * P) - (v + m * P) + m * P == k * P;
    Intro(P * -P_NEGATIVE_INVERSE, 1, MONT, -0x7fffffff_00000001_fffffffe_80000001_00000000_ffffffff_00000001_80000000);
    Cancel(k, m, P, -P_NEGATIVE_INVERSE, MONT);
    Residue(k, m, MONT);
    Refl(m, MONT);
    Residue(m, m, MONT);
  }

  lemma RoundFacts(s: seq<int>, i: nat)
    requires Bounded(s, i)
    ensures |s| == 18 - i && 0 <= s[0] < BASE
    ensures i < 8 ==> 0 <= TopStep(s)[1] < BASE
  {
    hide TopStep, BottomStep;
    assert LimbOk(s, i, 0) && LimbOk(s, i, 1);
    TopRange(s);
  }

  lemma DropTwo(w: seq<u32>, i: nat, s: seq<int>)
    requires Words32(w, i, s) && |s| >= 2
    ensures Words32(w, i + 2, s[2..]) && Words32(w, i + 1, s[1..])
  {
  }

  /** What the words can hold after the division by 2^257, times 2^257. */
  const CAPACITY: int := 8 * MONT * MONT

  /** The loss of `lost` times 2^260 is seen modulo P. */
  lemma LossSeen(lost: nat)
    requires lost < 16 && Cong(lost * CAPACITY, 0, P)
    ensures lost == 0
  {
    hide Cong;
    var inverse := 0xb7ffffff_78000000_b7ffffff_d8000000_80000000_78000000_38000000_67ffffff;
    Intro(CAPACITY * inverse, 1, P,
      0x17_00000006_00000005_fffffffb_00000005_00000001_fffffffe_00000003_00000000_ffffffff_00000002_00000000_00000000_00000001_00000000_00000000_00000001);
    Cancel(lost, 0, CAPACITY, inverse, P);
    Residue(lost, 0, P);
  }

  /** From the result before the last carry is folded to the result: it is the right one
      exactly when nothing was lost. */
  lemma FinalValue(x: int, y: int, c: int, lost: nat, o: int, v: int)
    requires y + (c + 8 * lost) * MONT == x && o == y + c * (MONT - 2 * P) && x * MONT == v + Multiplier(v) * P && lost < 16
    ensures Cong(o * MONT, v, P) <==> lost == 0
  {
    hide Cong, Multiplier;
    var k := Multiplier(v);
    assert o * MONT - v == (k - 2 * c * MONT) * P - lost * CAPACITY;
    Intro(v, o * MONT + lost * CAPACITY, P, 2 * c * MONT - k);
    if lost == 0 {
      Sym(v, o * MONT, P);
    } else if Cong(o * MONT, v, P) {
      Trans(o * MONT, v, o * MONT + lost * CAPACITY, P);
      Refl(o * MONT, P);
      Sub(o * MONT, o * MONT + lost * CAPACITY, o * MONT, o * MONT, P);
      Sym(0, lost * CAPACITY, P);
      LossSeen(lost);
    }
  }

  /** Nothing is lost exactly when the value with the multiple of P fits. */
  lemma NothingLost(x: int, y: int, c: int, lost: nat, v: int)
    requires y + (c + 8 * lost) * MONT == x && 0 <= y < MONT && 0 <= c < 8 && x * MONT == v + Multiplier(v) * P
    ensures lost == 0 <==> v + Multiplier(v) * P < CAPACITY
  {
    hide Multiplier;
    if lost == 0 {
      assert x < 8 * MONT;
    } else {
      assert x >= 8 * MONT;
    }
  }

  lemma TightValue(a: seq<int>)
    requires Tight(a)
    ensures 0 <= EvenVal(a) < MONT
  {
    hide EvenVal;
    Expand9(a);
  }

  /** out = tmp / 2^257 modulo P, for any 64-bit words, exactly when the value, once a multiple
      of P has cleared its low 257 bits, is below 2^517. */
  method ReduceDegree(out: array<u32>, tmp: seq<u64>)
    requires out.Length == 9 && |tmp| == 17
    modifies out
    ensures InRange(out[..])
    ensures Cong(EvenVal(out[..]) * MONT, EvenVal(tmp), P) <==> EvenVal(tmp) + Multiplier(EvenVal(tmp)) * P < CAPACITY
  {
    hide EvenVal, OddVal, Cong, Eliminated, Bounded, TopStep, BottomStep, Words32, InRange, Tight, Shiftable, Multiplier;
    ghost var s: seq<int>, v, k := [], EvenVal(tmp), 0;
    var tmp2;
    tmp2, s := SplitWords(tmp);
    EliminationStart(s, v);
    var i := 0;
    while true
      invariant i % 2 == 0 && i <= 8 && Bounded(s, i) && Words32(tmp2[..], i, s) && Eliminated(s, i, v, k)
      decreases 8 - i
    {
      RoundFacts(s, i);
      EliminateEven(tmp2, i, s);
      if i + 1 == 9 {
        break;
      }
      EliminateOdd(tmp2, i, TopStep(s));
      RoundValue(s);
      RoundBounded(s, i);
      DropTwo(tmp2[..], i, BottomStep(TopStep(s)));
      ghost var k' := s[0] % 0x2000_0000 + 0x2000_0000 * (TopStep(s)[1] % 0x1000_0000);
      EliminatedRound(s, BottomStep(TopStep(s))[2..], i, v, k, k');
      k := k + k' * Pow(0x200_0000_0000_0000, i / 2);
      s := BottomStep(TopStep(s))[2..];
      i := i + 2;
    }
    LastRoundValue(s, v, k);
    EliminatedShiftable(s);
    DropTwo(tmp2[..], 8, TopStep(s));
    ghost var x := OddVal(TopStep(s)[1..]);
    ghost var lost;
    var carry;
    carry, lost := ShiftDown(out, tmp2, TopStep(s)[1..]);
    ghost var y := EvenVal(out[..]);
    TightValue(out[..]);
    ReduceCarry(out, carry);
    FinalValue(x, y, carry, lost, EvenVal(out[..]), v);
    NothingLost(x, y, carry, lost, v);
  }

  lemma EliminationStart(s: seq<int>, v: int)
    requires EvenVal(s) == v
    ensures Eliminated(s, 0, v, 0)
  {
    hide EvenVal;
  }

  /** A bound on the last word is enough. */
  lemma LastWordBound(tmp: seq<u64>)
    requires |tmp| == 17 && tmp[16] <= 0x1c00_0000_0000_0000
    ensures EvenVal(tmp) + Multiplier(EvenVal(tmp)) * P < CAPACITY
  {
    hide EvenVal, OddVal, Multiplier;
    Expand17(tmp);
    MultiplierClears(EvenVal(tmp));
  }

  /** 64-bit words are not enough: these have a last word below 2^61, and even its own shift
      loses nothing, but the carry into limb 17 does. */
  method TopLost(out: array<u32>)
    requires out.Length == 9
    modifies out
    ensures var tmp: seq<u64> := TopLostWords();
            |tmp| == 17 && InRange(out[..]) && !Cong(EvenVal(out[..]) * MONT, EvenVal(tmp), P)
  {
    hide EvenVal, OddVal, Multiplier, Cong, InRange;
    var tmp := TopLostWords();
    Expand17(tmp);
    MultiplierClears(EvenVal(tmp));
    ReduceDegree(out, tmp);
  }

  function TopLostWords(): (tmp: seq<u64>)
    ensures |tmp| == 17
  {
    [0, 0, 0, 0, 0, 0, 0, 0, 0, 0, 0, 0, 0, 0, 0, 0x200_0000_0000_0000, 0x1fff_ffff_ffff_ffff]
  }

  // ----- felem_mul and felem_square -----

  /** y << k in 32 bits. */
  function Shl(y: u32, k: nat): u32
    decreases k
  {
    if k == 0 then y else Shl(2 * y % BASE, k - 1)
  }

  /** The 64-bit product of x and y << k. */
  function Wide(x: u32, y: u32, k: nat): int
  {
    x * Shl(y, k)
  }

  /** The product words of felem_mul: word k collects the limb products of index sum k,
      doubled where both indices are odd. */
  function MulWords(a: seq<u32>, b: seq<u32>): (t: seq<int>)
    requires |a| == |b| == 9
    ensures |t| == 17
  {
    [
      Wide(a[0], b[0], 0),
      Wide(a[0], b[1], 0) + Wide(a[1], b[0], 0),
      Wide(a[0], b[2], 0) + Wide(a[1], b[1], 1) + Wide(a[2], b[0], 0),
      Wide(a[0], b[3], 0) + Wide(a[1], b[2], 0) + Wide(a[2], b[1], 0) + Wide(a[3], b[0], 0),
      Wide(a[0], b[4], 0) + Wide(a[1], b[3], 1) + Wide(a[2], b[2], 0) + Wide(a[3], b[1], 1)
        + Wide(a[4], b[0], 0),
      Wide(a[0], b[5], 0) + Wide(a[1], b[4], 0) + Wide(a[2], b[3], 0) + Wide(a[3], b[2], 0)
        + Wide(a[4], b[1], 0) + Wide(a[5], b[0], 0),
      Wide(a[0], b[6], 0) + Wide(a[1], b[5], 1) + Wide(a[2], b[4], 0) + Wide(a[3], b[3], 1)
        + Wide(a[4], b[2], 0) + Wide(a[5], b[1], 1) + Wide(a[6], b[0], 0),
      Wide(a[0], b[7], 0) + Wide(a[1], b[6], 0) + Wide(a[2], b[5], 0) + Wide(a[3], b[4], 0)
        + Wide(a[4], b[3], 0) + Wide(a[5], b[2], 0) + Wide(a[6], b[1], 0) + Wide(a[7], b[0], 0),
      Wide(a[0], b[8], 0) + Wide(a[1], b[7], 1) + Wide(a[2], b[6], 0) + Wide(a[3], b[5], 1)
        + Wide(a[4], b[4], 0) + Wide(a[5], b[3], 1) + Wide(a[6], b[2], 0) + Wide(a[7], b[1], 1)
        + Wide(a[8], b[0], 0),
      Wide(a[1], b[8], 0) + Wide(a[2], b[7], 0) + Wide(a[3], b[6], 0) + Wide(a[4], b[5], 0)
        + Wide(a[5], b[4], 0) + Wide(a[6], b[3], 0) + Wide(a[7], b[2], 0) + Wide(a[8], b[1], 0),
      Wide(a[2], b[8], 0) + Wide(a[3], b[7], 1) + Wide(a[4], b[6], 0) + Wide(a[5], b[5], 1)
        + Wide(a[6], b[4], 0) + Wide(a[7], b[3], 1) + Wide(a[8], b[2], 0),
      Wide(a[3], b[8], 0) + Wide(a[4], b[7], 0) + Wide(a[5], b[6], 0) + Wide(a[6], b[5], 0)
        + Wide(a[7], b[4], 0) + Wide(a[8], b[3], 0),
      Wide(a[4], b[8], 0) + Wide(a[5], b[7], 1) + Wide(a[6], b[6], 0) + Wide(a[7], b[5], 1)
        + Wide(a[8], b[4], 0),
      Wide(a[5], b[8], 0) + Wide(a[6], b[7], 0) + Wide(a[7], b[6], 0) + Wide(a[8], b[5], 0),
      Wide(a[6], b[8], 0) + Wide(a[7], b[7], 1) + Wide(a[8], b[6], 0),
      Wide(a[7], b[8], 0) + Wide(a[8], b[7], 0),
      Wide(a[8], b[8], 0)
    ]
  }

  /** The product words of felem_square. */
  function SquareWords(a: seq<u32>): (t: seq<int>)
    requires |a| == 9
    ensures |t| == 17
  {
    [
      Wide(a[0], a[0], 0),
      Wide(a[0], a[1], 1),
      Wide(a[0], a[2], 1) + Wide(a[1], a[1], 1),
      Wide(a[0], a[3], 1) + Wide(a[1], a[2], 1),
      Wide(a[0], a[4], 1) + Wide(a[1], a[3], 2) + Wide(a[2], a[2], 0),
      Wide(a[0], a[5], 1) + Wide(a[1], a[4], 1) + Wide(a[2], a[3], 1),
      Wide(a[0], a[6], 1) + Wide(a[1], a[5], 2) + Wide(a[2], a[4], 1) + Wide(a[3], a[3], 1),
      Wide(a[0], a[7], 1) + Wide(a[1], a[6], 1) + Wide(a[2], a[5], 1) + Wide(a[3], a[4], 1),
      Wide(a[0], a[8], 1) + Wide(a[1], a[7], 2) + Wide(a[2], a[6], 1) + Wide(a[3], a[5], 2)
        + Wide(a[4], a[4], 0),
      Wide(a[1], a[8], 1) + Wide(a[2], a[7], 1) + Wide(a[3], a[6], 1) + Wide(a[4], a[5], 1),
      Wide(a[2], a[8], 1) + Wide(a[3], a[7], 2) + Wide(a[4], a[6], 1) + Wide(a[5], a[5], 1),
      Wide(a[3], a[8], 1) + Wide(a[4], a[7], 1) + Wide(a[5], a[6], 1),
      Wide(a[4], a[8], 1) + Wide(a[5], a[7], 2) + Wide(a[6], a[6], 0),
      Wide(a[5], a[8], 1) + Wide(a[6], a[7], 1),
      Wide(a[6], a[8], 1) + Wide(a[7], a[7], 1),
      Wide(a[7], a[8], 1),
      Wide(a[8], a[8], 0)
    ]
  }

  lemma WideFacts(x: u32, y: u32, c: nat, d: nat)
    requires x <= c && y <= d && 4 * d < BASE
    ensures 0 <= Wide(x, y, 0) <= c * d
    ensures Wide(x, y, 1) == 2 * Wide(x, y, 0) && Wide(x, y, 2) == 4 * Wide(x, y, 0)
    ensures Wide(x, y, 0) == x * y
  {
    assert Shl(y, 1) == Shl(2 * y, 0) == 2 * y;
    assert Shl(y, 2) == Shl(2 * y, 1) == Shl(4 * y, 0) == 4 * y;
    assert x * (2 * y) == 2 * (x * y) && x * (4 * y) == 4 * (x * y);
    MulNonneg(x, y);
    MulMono(x, y, c);
    MulMono(y, c, d);
  }

  function Limit(i: nat): nat { if i % 2 == 0 then 0x3fff_ffff else 0x1fff_ffff }

  lemma WideTable(a: seq<u32>, b: seq<u32>)
    requires InRange(a) && InRange(b)
    ensures forall i, j :: 0 <= i < 9 && 0 <= j < 9 ==> 0 <= Wide(a[i], b[j], 0) < if i % 2 == 0 && j % 2 == 0 then 0x1000_0000_0000_0000 else if i % 2 == 1 && j % 2 == 1 then 0x400_0000_0000_0000 else 0x800_0000_0000_0000
    ensures forall i, j :: 0 <= i < 9 && 0 <= j < 9 ==> Wide(a[i], b[j], 1) == 2 * Wide(a[i], b[j], 0)
    ensures forall i, j :: 0 <= i < 9 && 0 <= j < 9 ==> Wide(a[i], b[j], 2) == 4 * Wide(a[i], b[j], 0)
  {
    hide Wide;
    forall i, j | 0 <= i < 9 && 0 <= j < 9
      ensures 0 <= Wide(a[i], b[j], 0) < if i % 2 == 0 && j % 2 == 0 then 0x1000_0000_0000_0000 else if i % 2 == 1 && j % 2 == 1 then 0x400_0000_0000_0000 else 0x800_0000_0000_0000
      ensures Wide(a[i], b[j], 1) == 2 * Wide(a[i], b[j], 0) && Wide(a[i], b[j], 2) == 4 * Wide(a[i], b[j], 0)
    {
      WideFacts(a[i], b[j], Limit(i), Limit(j));
    }
  }

  /** No product word overflows 64 bits, and the last one is below 2^60. */
  lemma MulWordsFit(a: seq<u32>, b: seq<u32>)
    requires InRange(a) && InRange(b)
    ensures forall k :: 0 <= k < 17 ==> 0 <= MulWords(a, b)[k] < 0x1_0000_0000_0000_0000
    ensures MulWords(a, b)[16] < 0x1000_0000_0000_0000
  {
    hide Wide;
    WideTable(a, b);
  }

  lemma Row(x: u32, b: seq<u32>)
    requires |b| == 9
    ensures x * EvenVal(b) == Wide(x, b[0], 0)
      + 0x2000_0000 * Wide(x, b[1], 0)
      + 0x200_0000_0000_0000 * Wide(x, b[2], 0)
      + 0x40_0000_0000_0000_0000_0000 * Wide(x, b[3], 0)
      + 0x4_0000_0000_0000_0000_0000_0000_0000 * Wide(x, b[4], 0)
      + 0x8000_0000_0000_0000_0000_0000_0000_0000_0000 * Wide(x, b[5], 0)
      + 0x800_0000_0000_0000_0000_0000_0000_0000_0000_0000_0000 * Wide(x, b[6], 0)
      + 0x100_0000_0000_0000_0000_0000_0000_0000_0000_0000_0000_0000_0000 * Wide(x, b[7], 0)
      + 0x10_0000_0000_0000_0000_0000_0000_0000_0000_0000_0000_0000_0000_0000_0000 * Wide(x, b[8], 0)
  {
    hide EvenVal, OddVal;
    Expand9(b);
  }

  lemma ScaleRows(a: seq<u32>, v: int)
    requires |a| == 9
    ensures EvenVal(a) * v == (a[0] * v)
      + 0x2000_0000 * (a[1] * v)
      + 0x200_0000_0000_0000 * (a[2] * v)
      + 0x40_0000_0000_0000_0000_0000 * (a[3] * v)
      + 0x4_0000_0000_0000_0000_0000_0000_0000 * (a[4] * v)
      + 0x8000_0000_0000_0000_0000_0000_0000_0000_0000 * (a[5] * v)
      + 0x800_0000_0000_0000_0000_0000_0000_0000_0000_0000_0000 * (a[6] * v)
      + 0x100_0000_0000_0000_0000_0000_0000_0000_0000_0000_0000_0000_0000 * (a[7] * v)
      + 0x10_0000_0000_0000_0000_0000_0000_0000_0000_0000_0000_0000_0000_0000_0000 * (a[8] * v)
  {
    hide EvenVal, OddVal;
    Expand9(a);
  }

  lemma Expand17(s: seq<int>)
    requires |s| == 17
    ensures EvenVal(s) == s[0]
      + 0x2000_0000 * s[1]
      + 0x200_0000_0000_0000 * s[2]
      + 0x40_0000_0000_0000_0000_0000 * s[3]
      + 0x4_0000_0000_0000_0000_0000_0000_0000 * s[4]
      + 0x8000_0000_0000_0000_0000_0000_0000_0000_0000 * s[5]
      + 0x800_0000_0000_0000_0000_0000_0000_0000_0000_0000_0000 * s[6]
      + 0x100_0000_0000_0000_0000_0000_0000_0000_0000_0000_0000_0000_0000 * s[7]
      + 0x10_0000_0000_0000_0000_0000_0000_0000_0000_0000_0000_0000_0000_0000_0000 * s[8]
      + 0x2_0000_0000_0000_0000_0000_0000_0000_0000_0000_0000_0000_0000_0000_0000_0000_0000 * s[9]
      + 0x2000_0000_0000_0000_0000_0000_0000_0000_0000_0000_0000_0000_0000_0000_0000_0000_0000_0000 * s[10]
      + 0x400_0000_0000_0000_0000_0000_0000_0000_0000_0000_0000_0000_0000_0000_0000_0000_0000_0000_0000_0000 * s[11]
      + 0x40_0000_0000_0000_0000_0000_0000_0000_0000_0000_0000_0000_0000_0000_0000_0000_0000_0000_0000_0000_0000_0000 * s[12]
      + 0x8_0000_0000_0000_0000_0000_0000_0000_0000_0000_0000_0000_0000_0000_0000_0000_0000_0000_0000_0000_0000_0000_0000_0000 * s[13]
      + 0x8000_0000_0000_0000_0000_0000_0000_0000_0000_0000_0000_0000_0000_0000_0000_0000_0000_0000_0000_0000_0000_0000_0000_0000_0000 * s[14]
      + 0x1000_0000_0000_0000_0000_0000_0000_0000_0000_0000_0000_0000_0000_0000_0000_0000_0000_0000_0000_0000_0000_0000_0000_0000_0000_0000_0000 * s[15]
      + 0x100_0000_0000_0000_0000_0000_0000_0000_0000_0000_0000_0000_0000_0000_0000_0000_0000_0000_0000_0000_0000_0000_0000_0000_0000_0000_0000_0000_0000 * s[16]
  {
    hide EvenVal, OddVal;
    Expand10(s);
    TwoLimbs(s[10..]);
    assert s[10..][2..] == s[12..];
    TwoLimbs(s[12..]);
    assert s[12..][2..] == s[14..];
    TwoLimbs(s[14..]);
    assert s[14..][2..] == s[16..];
    OneLimb(s[16..]);
  }

  /** The product words have the value of the product. */
  lemma MulWordsValue(a: seq<u32>, b: seq<u32>)
    requires InRange(a) && InRange(b)
    ensures EvenVal(MulWords(a, b)) == EvenVal(a) * EvenVal(b)
  {
    hide EvenVal, OddVal, Wide;
    WideTable(a, b);
    ScaleRows(a, EvenVal(b));
    Row(a[0], b);
    Row(a[1], b);
    Row(a[2], b);
    Row(a[3], b);
    Row(a[4], b);
    Row(a[5], b);
    Row(a[6], b);
    Row(a[7], b);
    Row(a[8], b);
    Expand17(MulWords(a, b));
  }

  lemma SquareWordsMul(a: seq<u32>)
    requires InRange(a)
    ensures SquareWords(a) == MulWords(a, a)
  {
    hide Wide;
    WideTable(a, a);
    forall i, j | 0 <= i < 9 && 0 <= j < 9
      ensures Wide(a[i], a[j], 0) == Wide(a[j], a[i], 0)
    {
      WideFacts(a[i], a[j], Limit(i), Limit(j));
      WideFacts(a[j], a[i], Limit(j), Limit(i));
      assert a[i] as int * a[j] as int == a[j] as int * a[i] as int;
    }
  }

  /** out = a * b / 2^257 modulo P; out may be a or b. */
  method FelemMul(out: array<u32>, a: array<u32>, b: array<u32>)
    requires out.Length == 9 && InRange(a[..]) && InRange(b[..])
    modifies out
    ensures InRange(out[..])
    ensures Cong(EvenVal(out[..]) * MONT, EvenVal(old(a[..])) * EvenVal(old(b[..])), P)
  {
    hide EvenVal, OddVal, Cong, MulWords, InRange, Multiplier;
    InRangeLength(a[..]);
    InRangeLength(b[..]);
    MulWordsFit(a[..], b[..]);
    MulWordsValue(a[..], b[..]);
    var tmp: seq<u64> := MulWords(a[..], b[..]);
    LastWordBound(tmp);
    ReduceDegree(out, tmp);
  }

  /** out = a * a / 2^257 modulo P; out may be a. */
  method FelemSquare(out: array<u32>, a: array<u32>)
    requires out.Length == 9 && InRange(a[..])
    modifies out
    ensures InRange(out[..])
    ensures Cong(EvenVal(out[..]) * MONT, EvenVal(old(a[..])) * EvenVal(old(a[..])), P)
  {
    hide EvenVal, OddVal, Cong, MulWords, SquareWords, InRange, Multiplier;
    InRangeLength(a[..]);
    MulWordsFit(a[..], a[..]);
    MulWordsValue(a[..], a[..]);
    SquareWordsMul(a[..]);
    var tmp: seq<u64> := SquareWords(a[..]);
    LastWordBound(tmp);
    ReduceDegree(out, tmp);
  }

  lemma InRangeLength(a: seq<int>)
    requires InRange(a)
    ensures |a| == 9
  {
  }

  // ----- felem_inv -----

  /** v is the Montgomery product of e factors x. */
  ghost predicate Power(v: int, x: int, e: nat)
  {
    e > 0 && Cong(v * Pow(MONT, e - 1), Pow(x, e), P)
  }

  lemma PowerOne(x: int)
    ensures Power(x, x, 1)
  {
    assert Pow(MONT, 0) == 1 && Pow(x, 1) == x * Pow(x, 0) == x;
    Refl(x, P);
  }

  lemma PowerMul(c: int, a: int, b: int, x: int, e: nat, f: nat)
    requires Power(a, x, e) && Power(b, x, f) && Cong(c * MONT, a * b, P)
    ensures Power(c, x, e + f)
  {
    hide Cong;
    var m, n := Pow(MONT, e - 1), Pow(MONT, f - 1);
    Mul(a * m, Pow(x, e), b * n, Pow(x, f), P);
    PowAdd(x, e, f);
    PowAdd(MONT, e - 1, f - 1);
    assert e + f - 1 == (e - 1) + (f - 1) + 1;
    var mn := Pow(MONT, e - 1 + (f - 1));
    assert Pow(MONT, e + f - 1) == MONT * mn;
    Scale(c * MONT, a * b, mn, P);
    Rearrange(a, m, b, n, c);
    Trans(c * (MONT * mn), (a * m) * (b * n), Pow(x, e + f), P);
  }

  lemma Rearrange(a: int, m: int, b: int, n: int, c: int)
    ensures (a * b) * (m * n) == (a * m) * (b * n)
    ensures (c * MONT) * (m * n) == c * (MONT * (m * n))
  {
    MulAssoc(a, m, b * n);
    MulAssoc(a, b, m * n);
    MulAssoc(m, b, n);
  }

  function TwoTo(n: nat): (p: nat)
    ensures p > 0
  {
    if n == 0 then 1 else 2 * TwoTo(n - 1)
  }

  lemma {:induction false} TwoToAdd(m: nat, n: nat)
    ensures TwoTo(m + n) == TwoTo(m) * TwoTo(n)
  {
    if m > 0 {
      TwoToAdd(m - 1, n);
      MulAssoc(2, TwoTo(m - 1), TwoTo(n));
    }
  }

  /** The array holds the Montgomery product of e factors x. */
  ghost predicate HoldsPower(a: array<u32>, x: int, e: nat)
    reads a
  {
    a.Length == 9 && InRange(a[..]) && Power(EvenVal(a[..]), x, e)
  }

  /** f := f^(2^n), by n squarings. */
  method SquareTimes(f: array<u32>, n: nat, ghost x: int, ghost e: nat, ghost e2: nat)
    requires HoldsPower(f, x, e) && e2 == e * TwoTo(n)
    modifies f
    ensures HoldsPower(f, x, e2)
  {
    hide EvenVal, Cong, InRange, Power, TwoTo;
    TwoToStep(0);
    for i := 0 to n
      invariant HoldsPower(f, x, e * TwoTo(i))
    {
      ghost var v := EvenVal(f[..]);
      FelemSquare(f, f);
      PowerMul(EvenVal(f[..]), v, v, x, e * TwoTo(i), e * TwoTo(i));
      TwoToStep(i);
      assert e * TwoTo(i + 1) == e * TwoTo(i) + e * TwoTo(i);
    }
  }

  lemma TwoToStep(i: nat)
    ensures TwoTo(0) == 1 && TwoTo(i + 1) == 2 * TwoTo(i)
  {
  }

  lemma TwoToValues()
    ensures TwoTo(1) == 2 && TwoTo(2) == 4 && TwoTo(4) == 16 && TwoTo(8) == 0x100 && TwoTo(16) == 0x1_0000
    ensures TwoTo(32) == BASE && TwoTo(192) == 0x1_0000_0000_0000_0000_0000_0000_0000_0000_0000_0000_0000_0000
  {
    assert TwoTo(1) == 2 && TwoTo(2) == 4 && TwoTo(4) == 16 && TwoTo(8) == 0x100;
    TwoToAdd(8, 8);
    TwoToAdd(16, 16);
    TwoToAdd(32, 32);
    TwoToAdd(64, 64);
    TwoToAdd(128, 64);
  }

  /** felem_assign, for a power of x. */
  method Assign(out: array<u32>, src: array<u32>, ghost x: int, ghost e: nat)
    requires out.Length == 9 && HoldsPower(src, x, e)
    modifies out
    ensures HoldsPower(out, x, e)
  {
    hide EvenVal, InRange, Power;
    ghost var w := src[..];
    for i := 0 to out.Length
      invariant forall k :: 0 <= k < i ==> out[k] == w[k]
      invariant forall k :: i <= k < out.Length ==> src[k] == w[k]
    {
      out[i] := src[i];
    }
    assert out[..] == w;
  }

  /** out = a * b, as powers of x. */
  method Times(out: array<u32>, a: array<u32>, b: array<u32>, ghost x: int, ghost e: nat, ghost f: nat)
    requires out.Length == 9 && HoldsPower(a, x, e) && HoldsPower(b, x, f)
    modifies out
    ensures HoldsPower(out, x, e + f)
  {
    hide EvenVal, Cong, InRange, Power;
    ghost var v, w := EvenVal(a[..]), EvenVal(b[..]);
    FelemMul(out, a, b);
    PowerMul(EvenVal(out[..]), v, w, x, e, f);
  }

  /** out = in^(P - 2), in Montgomery form, for arrays that do not overlap; `in` is kept. */
  method FelemInv(out: array<u32>, input: array<u32>)
    requires out.Length == input.Length == 9 && out != input && InRange(input[..])
    modifies out
    ensures InRange(out[..]) && Power(EvenVal(out[..]), EvenVal(input[..]), P - 2)
  {
    hide EvenVal, Cong, InRange, Power, TwoTo;
    ghost var x := EvenVal(input[..]);
    PowerOne(x);
    var e2, e4, e8, e16, ftmp := InvLadderLow(input, x);
    var e32, e64 := InvLadderHigh(input, e16, ftmp, x);
    InvTail(out, input, e2, e4, e8, e16, e32, e64, ftmp, x);
  }

  /** One rung: n squarings and a multiplication by the power the rung started from. */
  method Extend(f: array<u32>, n: nat, start: array<u32>, ghost x: int, ghost e: nat, ghost e2: nat)
    requires f != start && HoldsPower(f, x, e) && HoldsPower(start, x, e) && e2 == e * TwoTo(n) + e
    modifies f
    ensures HoldsPower(f, x, e2)
  {
    hide HoldsPower, TwoTo;
    HoldsLength(f, x, e);
    SquareTimes(f, n, x, e, e * TwoTo(n));
    Times(f, f, start, x, e * TwoTo(n), e);
  }

  /** The powers e_I = in^(2^I - 1) for I = 2, 4, 8 and 16; ftmp is the last one. */
  method InvLadderLow(base: array<u32>, ghost x: int)
    returns (e2: array<u32>, e4: array<u32>, e8: array<u32>, e16: array<u32>, ftmp: array<u32>)
    requires HoldsPower(base, x, 1)
    ensures fresh(e2) && fresh(e4) && fresh(e8) && fresh(e16) && fresh(ftmp)
    ensures ftmp !in {e2, e4, e8, e16}
    ensures HoldsPower(e2, x, 3) && HoldsPower(e4, x, 0xf) && HoldsPower(e8, x, 0xff)
    ensures HoldsPower(e16, x, 0xffff) && HoldsPower(ftmp, x, 0xffff)
  {
    hide HoldsPower, TwoTo;
    e2, e4, ftmp := InvFirstRungs(base, x);
    HoldsLength(ftmp, x, 0xf);
    TwoToValues();
    e8, e16 := new u32[9], new u32[9];
    Extend(ftmp, 4, e4, x, 0xf, 0xff);
    Assign(e8, ftmp, x, 0xff);
    Extend(ftmp, 8, e8, x, 0xff, 0xffff);
    Assign(e16, ftmp, x, 0xffff);
  }

  /** The first two of them. */
  method InvFirstRungs(base: array<u32>, ghost x: int) returns (e2: array<u32>, e4: array<u32>, ftmp: array<u32>)
    requires HoldsPower(base, x, 1)
    ensures fresh(e2) && fresh(e4) && fresh(ftmp) && ftmp !in {e2, e4}
    ensures HoldsPower(e2, x, 3) && HoldsPower(e4, x, 0xf) && HoldsPower(ftmp, x, 0xf)
  {
    hide HoldsPower, TwoTo;
    HoldsLength(base, x, 1);
    TwoToValues();
    e2, e4, ftmp := new u32[9], new u32[9], new u32[9];
    Assign(ftmp, base, x, 1);
    SquareTimes(ftmp, 1, x, 1, 2);
    Times(ftmp, base, ftmp, x, 1, 2);
    Assign(e2, ftmp, x, 3);
    Extend(ftmp, 2, e2, x, 3, 0xf);
    Assign(e4, ftmp, x, 0xf);
  }

  /** The powers e_32 and 2^64 - 2^32, and the exponent 2^256 - 2^224 + 2^192 in ftmp. */
  method InvLadderHigh(base: array<u32>, e16: array<u32>, ftmp: array<u32>, ghost x: int)
    returns (e32: array<u32>, e64: array<u32>)
    requires HoldsPower(base, x, 1) && HoldsPower(e16, x, 0xffff) && HoldsPower(ftmp, x, 0xffff)
    requires ftmp !in {base, e16}
    modifies ftmp
    ensures fresh(e32) && fresh(e64)
    ensures HoldsPower(e32, x, 0xffff_ffff) && HoldsPower(e64, x, 0xffff_ffff_0000_0000)
    ensures HoldsPower(ftmp, x, 0xffff_ffff_0000_0001_0000_0000_0000_0000_0000_0000_0000_0000_0000_0000_0000_0000)
  {
    hide HoldsPower, TwoTo;
    HoldsLength(ftmp, x, 0xffff);
    TwoToValues();
    e32, e64 := new u32[9], new u32[9];
    Extend(ftmp, 16, e16, x, 0xffff, 0xffff_ffff);
    Assign(e32, ftmp, x, 0xffff_ffff);
    SquareTimes(ftmp, 32, x, 0xffff_ffff, 0xffff_ffff_0000_0000);
    Assign(e64, ftmp, x, 0xffff_ffff_0000_0000);
    Times(ftmp, ftmp, base, x, 0xffff_ffff_0000_0000, 1);
    SquareTimes(ftmp, 192, x, 0xffff_ffff_0000_0001,
                0xffff_ffff_0000_0001_0000_0000_0000_0000_0000_0000_0000_0000_0000_0000_0000_0000);
  }

  lemma HoldsLength(a: array<u32>, x: int, e: nat)
    requires HoldsPower(a, x, e)
    ensures a.Length == 9
  {
  }

  /** The exponent 2^96 - 3 in ftmp2, and the final product. */
  method InvTail(out: array<u32>, base: array<u32>, e2: array<u32>, e4: array<u32>, e8: array<u32>, e16: array<u32>,
                 e32: array<u32>, e64: array<u32>, ftmp: array<u32>, ghost x: int)
    requires out.Length == 9 && HoldsPower(base, x, 1)
    requires HoldsPower(e2, x, 3) && HoldsPower(e4, x, 0xf) && HoldsPower(e8, x, 0xff)
    requires HoldsPower(e16, x, 0xffff) && HoldsPower(e32, x, 0xffff_ffff) && HoldsPower(e64, x, 0xffff_ffff_0000_0000)
    requires HoldsPower(ftmp, x, 0xffff_ffff_0000_0001_0000_0000_0000_0000_0000_0000_0000_0000_0000_0000_0000_0000)
    modifies out
    ensures HoldsPower(out, x, P - 2)
  {
    hide HoldsPower, TwoTo;
    TwoToValues();
    var ftmp2 := new u32[9];
    Times(ftmp2, e64, e32, x, 0xffff_ffff_0000_0000, 0xffff_ffff);
    SquareTimes(ftmp2, 16, x, 0xffff_ffff_ffff_ffff, 0xffff_ffff_ffff_ffff_0000);
    Times(ftmp2, ftmp2, e16, x, 0xffff_ffff_ffff_ffff_0000, 0xffff);
    SquareTimes(ftmp2, 8, x, 0xffff_ffff_ffff_ffff_ffff, 0xffff_ffff_ffff_ffff_ffff_00);
    Times(ftmp2, ftmp2, e8, x, 0xffff_ffff_ffff_ffff_ffff_00, 0xff);
    SquareTimes(ftmp2, 4, x, 0xffff_ffff_ffff_ffff_ffff_ff, 0xffff_ffff_ffff_ffff_ffff_ff0);
    Times(ftmp2, ftmp2, e4, x, 0xffff_ffff_ffff_ffff_ffff_ff0, 0xf);
    SquareTimes(ftmp2, 2, x, 0xffff_ffff_ffff_ffff_ffff_fff, 0x3fff_ffff_ffff_ffff_ffff_fffc);
    Times(ftmp2, ftmp2, e2, x, 0x3fff_ffff_ffff_ffff_ffff_fffc, 3);
    SquareTimes(ftmp2, 2, x, 0x3fff_ffff_ffff_ffff_ffff_ffff, 0xffff_ffff_ffff_ffff_ffff_fffc);
    Times(ftmp2, ftmp2, base, x, 0xffff_ffff_ffff_ffff_ffff_fffc, 1);
    Times(out, ftmp2, ftmp, x, 0xffff_ffff_ffff_ffff_ffff_fffd,
          0xffff_ffff_0000_0001_0000_0000_0000_0000_0000_0000_0000_0000_0000_0000_0000_0000);
  }

  /** What felem_inv is for: if Fermat's little theorem holds for x and for the radix, the
      power P - 2 of the Montgomery form of y is the Montgomery form of 1/y, that is, the
      product of the two is the square of the radix. */
  lemma InverseByFermat(v: int, x: int)
    requires Power(v, x, P - 2)
    requires Cong(Pow(x, P - 1), 1, P) && Cong(Pow(MONT, P - 1), 1, P)
    ensures Cong(v * x, MONT * MONT, P)
  {
    hide Cong, Pow;
    var m := Pow(MONT, P - 3);
    PowStep(x, P - 2);
    PowStep(MONT, P - 2);
    PowStep(MONT, P - 3);
    Scale(v * m, Pow(x, P - 2), x, P);
    assert (v * m) * x == (v * x) * m && Pow(x, P - 2) * x == x * Pow(x, P - 2);
    Trans((v * x) * m, Pow(x, P - 1), 1, P);
    assert (MONT * MONT) * m == Pow(MONT, P - 1);
    Sym((MONT * MONT) * m, 1, P);
    Trans((v * x) * m, 1, (MONT * MONT) * m, P);
    assert m * (MONT * MONT) == (MONT * MONT) * m;
    Sym(1, (MONT * MONT) * m, P);
    Cancel(v * x, MONT * MONT, m, MONT * MONT, P);
  }

  lemma PowStep(x: int, e: nat)
    ensures Pow(x, e + 1) == x * Pow(x, e)
  {
  }
}
