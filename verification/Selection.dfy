/** The table lookups of tools/libmincrypt/p256_ec.c, which read every entry and keep one
    under a mask. */
module Selection {
  type limb = bv32

  const NLIMBS: nat := 9

  /** All ones if the entry is the one looked for, and zero otherwise. */
  function Mask(i: limb, index: limb): limb {
    var a := i ^ index;
    var b := a | (a >> 2);
    var c := b | (b >> 1);
    (c & 1) - 1
  }

  lemma MaskIs(i: limb, index: limb)
    requires i < 16 && index < 16
    ensures Mask(i, index) == if i == index then 0xffff_ffff else 0
  {
  }

  /** The number n as a limb. */
  function Limb(n: nat): limb
    requires n <= 16
  {
    if n == 0 then 0 else Limb(n - 1) + 1
  }

  lemma LimbIs(n: nat)
    requires n <= 16
    ensures Limb(n) ==
            if n < 4 then (if n == 0 then 0 else if n == 1 then 1 else if n == 2 then 2 else 3)
            else if n < 8 then (if n == 4 then 4 else if n == 5 then 5 else if n == 6 then 6 else 7)
            else if n < 12 then (if n == 8 then 8 else if n == 9 then 9 else if n == 10 then 10 else 11)
            else if n == 12 then 12 else if n == 13 then 13 else if n == 14 then 14 else if n == 15 then 15 else 16
  {
    assert Limb(1) == 1 && Limb(2) == 2 && Limb(3) == 3 && Limb(4) == 4;
    assert Limb(5) == 5 && Limb(6) == 6 && Limb(7) == 7 && Limb(8) == 8;
    assert Limb(9) == 9 && Limb(10) == 10 && Limb(11) == 11 && Limb(12) == 12;
    assert Limb(13) == 13 && Limb(14) == 14 && Limb(15) == 15 && Limb(16) == 16;
  }

  lemma SameLimb(i: nat, n: nat)
    requires i < 16 && n < 16
    ensures Mask(Limb(i), Limb(n)) == if i == n then 0xffff_ffff else 0
  {
    hide Mask, Limb;
    LimbIs(i);
    LimbIs(n);
    MaskIs(Limb(i), Limb(n));
  }

  /** out |= entry & mask. */
  function Or(out: limb, entry: limb, mask: limb): limb {
    out | (entry & mask)
  }

  /** One coordinate of an entry, under the mask. */
  method OrMasked(out: array<limb>, table: seq<limb>, at: nat, mask: limb)
    requires out.Length == NLIMBS && at + NLIMBS <= |table|
    modifies out
    ensures forall j :: 0 <= j < NLIMBS ==> out[j] == Or(old(out[j]), table[at + j], mask)
  {
    hide Or;
    for j := 0 to NLIMBS
      invariant forall k :: 0 <= k < j ==> out[k] == Or(old(out[k]), table[at + k], mask)
      invariant forall k :: j <= k < NLIMBS ==> out[k] == old(out[k])
    {
      out[j] := Or(out[j], table[at + j], mask);
    }
  }

  lemma Kept(before: limb, entry: limb)
    ensures Or(before, entry, 0) == before && Or(0, entry, 0xffff_ffff) == entry
  {
  }

  /** After the entries below i, of which `entries` has one coordinate each. */
  ghost predicate Selected(out: seq<limb>, entries: seq<seq<limb>>, n: nat, i: nat)
    requires |out| == NLIMBS && Coordinates(entries) && i <= 16
  {
    forall j :: 0 <= j < NLIMBS ==> out[j] == if 0 < n < i then entries[n - 1][j] else 0
  }

  ghost predicate Coordinates(entries: seq<seq<limb>>) {
    |entries| == 15 && forall k :: 0 <= k < 15 ==> |entries[k]| == NLIMBS
  }

  /** The step for one coordinate: entry i is kept exactly if it is the n-th. */
  lemma SelectStep(before: seq<limb>, after: seq<limb>, entries: seq<seq<limb>>, n: nat, i: nat, mask: limb)
    requires |before| == |after| == NLIMBS && 1 <= i < 16 && n < 16 && Coordinates(entries)
    requires Selected(before, entries, n, i) && mask == Mask(Limb(i), Limb(n))
    requires forall j :: 0 <= j < NLIMBS ==> after[j] == Or(before[j], entries[i - 1][j], mask)
    ensures Selected(after, entries, n, i + 1)
  {
    hide Mask, Limb, Or;
    SameLimb(i, n);
    forall j | 0 <= j < NLIMBS ensures after[j] == if 0 < n < i + 1 then entries[n - 1][j] else 0 {
      Kept(before[j], entries[i - 1][j]);
    }
  }

  /** One coordinate of the i-th entry. */
  method OrEntry(out: array<limb>, table: seq<limb>, at: nat, mask: limb, ghost entries: seq<seq<limb>>, ghost n: nat, ghost i: nat)
    requires out.Length == NLIMBS && 1 <= i < 16 && n < 16 && mask == Mask(Limb(i), Limb(n)) && Coordinates(entries)
    requires at + NLIMBS <= |table| && table[at..at + NLIMBS] == entries[i - 1]
    requires Selected(out[..], entries, n, i)
    modifies out
    ensures Selected(out[..], entries, n, i + 1)
  {
    hide Mask, Limb, Selected, Or;
    ghost var before := out[..];
    OrMasked(out, table, at, mask);
    forall j | 0 <= j < NLIMBS ensures out[j] == Or(before[j], entries[i - 1][j], mask) {
      assert table[at..at + NLIMBS][j] == table[at + j];
    }
    SelectStep(before, out[..], entries, n, i, mask);
  }

  lemma NoneSelected(out: seq<limb>, entries: seq<seq<limb>>, n: nat)
    requires |out| == NLIMBS && Coordinates(entries) && forall j :: 0 <= j < NLIMBS ==> out[j] == 0
    ensures Selected(out, entries, n, 1)
  {
  }

  /** The coordinate at `offset` of the entries of `width` limbs from `base` on. */
  ghost function Column(table: seq<limb>, base: nat, width: nat, offset: nat): (r: seq<seq<limb>>)
    requires (width == 18 || width == 27) && offset + NLIMBS <= width && base + 15 * width <= |table|
    ensures Coordinates(r)
    ensures forall k :: 0 <= k < 15 ==> r[k] == Piece(table, base, width, offset, k)
  {
    seq(15, k requires 0 <= k < 15 => Piece(table, base, width, offset, k))
  }

  ghost function Piece(table: seq<limb>, base: nat, width: nat, offset: nat, k: nat): (r: seq<limb>)
    requires (width == 18 || width == 27) && offset + NLIMBS <= width && base + 15 * width <= |table| && k < 15
    ensures |r| == NLIMBS
  {
    var at := base + (if width == 18 then k * 18 else k * 27) + offset;
    table[at..at + NLIMBS]
  }

  /** select_affine_point, for the table entry n: the first entry is zero and not stored. */
  method SelectAffinePoint(x: array<limb>, y: array<limb>, table: seq<limb>, index: limb, ghost n: nat)
    requires x.Length == y.Length == NLIMBS && x != y && |table| == 15 * 18 && n < 16 && index == Limb(n)
    modifies x, y
    ensures forall j :: 0 <= j < NLIMBS ==>
              && x[j] == (if n == 0 then 0 else table[(n - 1) * 18 + j])
              && y[j] == (if n == 0 then 0 else table[(n - 1) * 18 + 9 + j])
  {
    hide Mask, Limb, Selected;
    Clear(x);
    Clear(y);
    ghost var xs, ys := Column(table, 0, 18, 0), Column(table, 0, 18, 9);
    NoneSelected(x[..], xs, n);
    NoneSelected(y[..], ys, n);
    var i, at, entry: nat := FirstEntry(), 0, 1;
    while entry < 16
      invariant 1 <= entry <= 16 && i == Limb(entry) && at == (entry - 1) * 18
      invariant Selected(x[..], xs, n, entry) && Selected(y[..], ys, n, entry)
    {
      var mask := Mask(i, index);
      OrEntry(x, table, at, mask, xs, n, entry);
      OrEntry(y, table, at + NLIMBS, mask, ys, n, entry);
      at := at + 2 * NLIMBS;
      i := NextEntry(i, entry);
      entry := entry + 1;
    }
    AllSelected(x[..], xs, n);
    AllSelected(y[..], ys, n);
  }

  /** select_jacobian_point; the entry at index 0 is stored, and passed over. */
  method SelectJacobianPoint(x: array<limb>, y: array<limb>, z: array<limb>, table: seq<limb>, index: limb, ghost n: nat)
    requires x.Length == y.Length == z.Length == NLIMBS && x != y && x != z && y != z
    requires |table| == 16 * 27 && n < 16 && index == Limb(n) && forall j :: 0 <= j < 27 ==> table[j] == 0
    modifies x, y, z
    ensures forall j :: 0 <= j < NLIMBS ==>
              x[j] == table[n * 27 + j] && y[j] == table[n * 27 + 9 + j] && z[j] == table[n * 27 + 18 + j]
  {
    hide Mask, Limb, Selected;
    Clear(x);
    Clear(y);
    Clear(z);
    ghost var xs, ys, zs := Column(table, 27, 27, 0), Column(table, 27, 27, 9), Column(table, 27, 27, 18);
    NoneSelected(x[..], xs, n);
    NoneSelected(y[..], ys, n);
    NoneSelected(z[..], zs, n);
    var i, at, entry: nat := FirstEntry(), 3 * NLIMBS, 1;
    while entry < 16
      invariant 1 <= entry <= 16 && i == Limb(entry) && at == entry * 27
      invariant Selected(x[..], xs, n, entry) && Selected(y[..], ys, n, entry) && Selected(z[..], zs, n, entry)
    {
      var mask := Mask(i, index);
      OrEntry(x, table, at, mask, xs, n, entry);
      OrEntry(y, table, at + NLIMBS, mask, ys, n, entry);
      OrEntry(z, table, at + 2 * NLIMBS, mask, zs, n, entry);
      at := at + 3 * NLIMBS;
      i := NextEntry(i, entry);
      entry := entry + 1;
    }
    AllSelected(x[..], xs, n);
    AllSelected(y[..], ys, n);
    AllSelected(z[..], zs, n);
  }

  method Clear(out: array<limb>)
    requires out.Length == NLIMBS
    modifies out
    ensures forall j :: 0 <= j < NLIMBS ==> out[j] == 0
  {
    for j := 0 to NLIMBS
      invariant forall k :: 0 <= k < j ==> out[k] == 0
    {
      out[j] := 0;
    }
  }

  function FirstEntry(): (i: limb)
    ensures i == Limb(1)
  {
    1
  }

  function NextEntry(i: limb, ghost entry: nat): (r: limb)
    requires entry < 16 && i == Limb(entry)
    ensures r == Limb(entry + 1)
  {
    i + 1
  }

  lemma AllSelected(out: seq<limb>, entries: seq<seq<limb>>, n: nat)
    requires |out| == NLIMBS && n < 16 && Coordinates(entries) && Selected(out, entries, n, 16)
    ensures forall j :: 0 <= j < NLIMBS ==> out[j] == if n == 0 then 0 else entries[n - 1][j]
  {
  }
}
