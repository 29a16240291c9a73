/** The block allocator of tools/ext4_utils/allocate.c. */
module Allocator {
  import opened Bitmap

  /** struct block_group_info. `limit` is the number of its blocks that the image has. */
  class BlockGroup {
    const firstBlock: nat
    const headerBlocks: nat
    const perGroup: nat
    ghost const limit: nat
    const bitmap: array<bv8>
    var freeBlocks: nat
    var firstFree: nat
    var dataBlocksUsed: nat

    /** Used blocks are those before the first free one and those past the end of the image;
        all others are free. In a last group of header blocks only, marking what is past the
        end moves the first free block to the end of the group. */
    ghost predicate Valid()
      reads this, bitmap
    {
      && headerBlocks <= limit <= perGroup <= 8 * bitmap.Length
      && headerBlocks <= firstFree
      && (forall n: nat :: n < perGroup ==> (Used(bitmap[..], n) <==> n < firstFree || n >= limit))
      && if firstFree <= limit then freeBlocks == limit - firstFree
         else firstFree == perGroup && freeBlocks == 0 && headerBlocks == limit
    }

    /** init_bg, for a group whose header fits in the part of it that the image has. */
    constructor (firstBlock: nat, headerBlocks: nat, perGroup: nat, blockSize: nat, lenBlocks: nat)
      requires perGroup <= 8 * blockSize && headerBlocks <= perGroup && firstBlock + headerBlocks <= lenBlocks
      ensures Valid() && fresh(bitmap)
      ensures this.firstBlock == firstBlock && this.headerBlocks == headerBlocks && this.perGroup == perGroup
      ensures limit == if firstBlock + perGroup > lenBlocks then lenBlocks - firstBlock else perGroup
      ensures freeBlocks == limit - headerBlocks && (firstFree == headerBlocks || freeBlocks == 0)
      ensures dataBlocksUsed == 0
    {
      this.firstBlock, this.headerBlocks, this.perGroup := firstBlock, headerBlocks, perGroup;
      limit := if firstBlock + perGroup > lenBlocks then lenBlocks - firstBlock else perGroup;
      bitmap := new bv8[blockSize](_ => 0);
      freeBlocks, firstFree, dataBlocksUsed := perGroup, 0, 0;
      new;
      NoneUsed(bitmap[..]);
      hide Used, Bit;
      var ok := Reserve(0, headerBlocks);
      assert ok;
      if firstBlock + perGroup > lenBlocks {
        var overrun := firstBlock + perGroup - lenBlocks;
        ok := Reserve(perGroup - overrun, overrun);
        assert ok;
      }
    }

    /** reserve_blocks. */
    method Reserve(start: nat, num: nat) returns (ok: bool)
      requires start + num <= 8 * bitmap.Length
      modifies this`freeBlocks, this`firstFree, bitmap
      ensures ok <==> num <= old(freeBlocks) && AllClear(old(bitmap[..]), start, start + num)
      ensures ok ==> Marked(old(bitmap[..]), bitmap[..], start, start + num)
      ensures ok ==> freeBlocks == old(freeBlocks) - num
      ensures ok ==> firstFree == if start == old(firstFree) then start + num else old(firstFree)
      ensures !ok ==> freeBlocks == old(freeBlocks) && firstFree == old(firstFree)
      ensures num > old(freeBlocks) ==> bitmap[..] == old(bitmap[..])
    {
      hide Used, Bit, Marked, AllClear;
      ghost var bits := bitmap[..];
      NoneMarked(bits, start);
      var i: nat := 0;
      var block := start;
      if num > freeBlocks {
        return false;
      }
      while i < num && block % 8 != 0
        invariant i <= num && block == start + i
        invariant Marked(bits, bitmap[..], start, block) && AllClear(bits, start, block)
        invariant freeBlocks == old(freeBlocks) && firstFree == old(firstFree)
      {
        var used := SetBitIn(block, bits, start, start + num);
        if used {
          return false;
        }
        i := i + 1;
        block := block + 1;
      }
      ghost var q := block / 8;
      while i + 8 <= num - num % 8
        invariant i <= num && block == start + i && (block == 8 * q || i == num)
        invariant Marked(bits, bitmap[..], start, block) && AllClear(bits, start, block)
        invariant freeBlocks == old(freeBlocks) && firstFree == old(firstFree)
      {
        var used := Set8BitsIn(block, bits, start, start + num);
        if used {
          return false;
        }
        i := i + 8;
        block := block + 8;
        q := q + 1;
      }
      while i < num
        invariant i <= num && block == start + i
        invariant Marked(bits, bitmap[..], start, block) && AllClear(bits, start, block)
        invariant freeBlocks == old(freeBlocks) && firstFree == old(firstFree)
      {
        var used := SetBitIn(block, bits, start, start + num);
        if used {
          return false;
        }
        i := i + 1;
        block := block + 1;
      }
      freeBlocks := freeBlocks - num;
      if start == firstFree {
        firstFree := start + num;
      }
      return true;
    }

    /** bitmap_set_bit, after blocks start to bit have been marked. */
    method SetBitIn(bit: nat, ghost bits: seq<bv8>, ghost start: nat, ghost end: nat) returns (used: bool)
      requires start <= bit < end <= 8 * bitmap.Length && Marked(bits, bitmap[..], start, bit) && AllClear(bits, start, bit)
      modifies bitmap
      ensures used ==> !AllClear(bits, start, end)
      ensures !used ==> Marked(bits, bitmap[..], start, bit + 1) && AllClear(bits, start, bit + 1)
    {
      if bitmap[bit / 8] & (1 << (bit % 8)) != 0 {
        assert Used(bitmap[..], bit);
        return true;
      }
      assert !Used(bitmap[..], bit);
      hide Used, Bit;
      MarkOne(bits, bitmap[..], start, bit);
      ghost var now := bitmap[..];
      bitmap[bit / 8] := bitmap[bit / 8] | (1 << (bit % 8));
      assert bitmap[..] == now[bit / 8 := now[bit / 8] | (1 << (bit % 8))];
      return false;
    }

    /** bitmap_set_8_bits, which returns the bits it has overwritten. */
    method Set8BitsIn(bit: nat, ghost bits: seq<bv8>, ghost start: nat, ghost end: nat) returns (used: bool)
      requires start <= bit && bit + 8 <= end <= 8 * bitmap.Length && bit % 8 == 0
      requires Marked(bits, bitmap[..], start, bit) && AllClear(bits, start, bit)
      modifies bitmap
      ensures used ==> !AllClear(bits, start, end)
      ensures !used ==> Marked(bits, bitmap[..], start, bit + 8) && AllClear(bits, start, bit + 8)
    {
      hide Used, Bit;
      MarkEight(bits, bitmap[..], start, bit);
      EightClear(bits, bitmap[..], start, bit);
      ghost var now := bitmap[..];
      used := bitmap[bit / 8] != 0;
      bitmap[bit / 8] := 0xFF;
      assert bitmap[..] == now[bit / 8 := 0xFF];
    }

    /** free_blocks: the blocks last allocated. */
    method FreeBlocks(num: nat)
      requires Valid() && firstFree <= limit && num <= firstFree - headerBlocks
      modifies this`freeBlocks, this`firstFree, bitmap
      ensures Valid()
      ensures freeBlocks == old(freeBlocks) + num && firstFree == old(firstFree) - num
    {
      hide Used, Bit, Cleared;
      ghost var bits := bitmap[..];
      NoneCleared(bits, firstFree);
      var block: int := firstFree - 1;
      for i := 0 to num
        invariant -1 <= block == firstFree - 1 - i
        invariant Cleared(bits, bitmap[..], block + 1, firstFree)
        invariant freeBlocks == old(freeBlocks) && firstFree == old(firstFree)
      {
        ClearedLength(bits, bitmap[..], block + 1, firstFree);
        ClearOne(bits, bitmap[..], block, firstFree);
        ghost var now := bitmap[..];
        bitmap[block / 8] := bitmap[block / 8] & !(1 << (block % 8));
        assert bitmap[..] == now[block / 8 := now[block / 8] & !(1 << (block % 8))];
        block := block - 1;
      }
      freeBlocks := freeBlocks + num;
      firstFree := firstFree - num;
      ClearedTail(bits, bitmap[..], firstFree, firstFree + num, limit, perGroup);
    }

    /** ext4_allocate_blocks_from_block_group: succeeds exactly if the group has the blocks,
        and hands out the first free ones; the error of reserve_blocks does not fire. */
    method Allocate(len: nat) returns (ok: bool, start: nat)
      requires Valid()
      modifies this`freeBlocks, this`firstFree, this`dataBlocksUsed, bitmap
      ensures Valid()
      ensures ok <==> len <= old(freeBlocks)
      ensures !ok ==> freeBlocks == old(freeBlocks) && firstFree == old(firstFree) && bitmap[..] == old(bitmap[..])
      ensures ok ==> start == old(firstFree) && freeBlocks == old(freeBlocks) - len && firstFree == start + len
      ensures dataBlocksUsed == old(dataBlocksUsed) + if ok then len else 0
      ensures ok && len > 0 ==> firstFree <= limit
    {
      if freeBlocks < len {
        return false, 0;
      }
      hide Used, Bit;
      start := firstFree;
      ok := Reserve(firstFree, len);
      assert ok;
      dataBlocksUsed := dataBlocksUsed + len;
    }
  }

  lemma NoneMarked(bits: seq<bv8>, lo: nat)
    requires lo <= 8 * |bits|
    ensures Marked(bits, bits, lo, lo) && AllClear(bits, lo, lo)
  {
  }

  lemma NoneCleared(bits: seq<bv8>, hi: nat)
    ensures Cleared(bits, bits, hi, hi)
  {
  }

  lemma ClearedLength(before: seq<bv8>, after: seq<bv8>, lo: nat, hi: nat)
    requires Cleared(before, after, lo, hi)
    ensures |before| == |after|
  {
  }

  lemma ClearedTail(before: seq<bv8>, after: seq<bv8>, lo: nat, hi: nat, limit: nat, size: nat)
    requires Cleared(before, after, lo, hi) && lo <= hi <= limit && size <= 8 * |before|
    requires forall n: nat :: n < size ==> (Used(before, n) <==> n < hi || n >= limit)
    ensures |after| == |before| && forall n: nat :: n < size ==> (Used(after, n) <==> n < lo || n >= limit)
  {
    hide Used;
  }

  lemma NoneUsed(bits: seq<bv8>)
    requires forall i :: 0 <= i < |bits| ==> bits[i] == 0
    ensures forall n: nat :: n < 8 * |bits| ==> !Used(bits, n)
  {
    hide Bit;
    forall n: nat | n < 8 * |bits| ensures !Used(bits, n) {
      AllBits(n % 8);
    }
  }

  // ----- which group to allocate from -----

  /** The scan's choice: the smallest group that fits, or else the largest; the first of
      several. */
  ghost predicate IsPick(f: seq<nat>, len: nat, g: nat) {
    && g < |f| && f[g] > 0
    && if exists i :: 0 <= i < |f| && f[i] >= len then
         && f[g] >= len
         && (forall i :: 0 <= i < |f| && f[i] >= len ==> f[g] <= f[i])
         && (forall i :: 0 <= i < g && f[i] >= len ==> f[g] < f[i])
       else
         && (forall i :: 0 <= i < |f| ==> f[i] <= f[g])
         && (forall i :: 0 <= i < g ==> f[i] < f[g])
  }

  function Min(a: nat, b: nat): nat { if a < b then a else b }

  /** The choices of a whole allocation: each takes what it can. */
  ghost predicate Picks(f: seq<nat>, len: nat, picks: seq<nat>)
    decreases |picks|
  {
    if len == 0 then picks == []
    else
      && picks != [] && IsPick(f, len, picks[0])
      && var m := Min(len, f[picks[0]]);
         Picks(f[picks[0] := f[picks[0]] - m], len - m, picks[1..])
  }

  /** Free blocks in the groups of a set, among the first n. */
  ghost function SumIn(f: seq<nat>, s: set<nat>, n: nat): nat
    requires n <= |f|
  {
    if n == 0 then 0 else SumIn(f, s, n - 1) + if n - 1 in s then f[n - 1] else 0
  }

  ghost function Sum(f: seq<nat>, n: nat): nat
    requires n <= |f|
  {
    if n == 0 then 0 else Sum(f, n - 1) + f[n - 1]
  }

  lemma {:induction false} SumInRemove(f: seq<nat>, s: set<nat>, x: nat, n: nat)
    requires n <= |f|
    ensures SumIn(f, s, n) == SumIn(f, s - {x}, n) + if x in s && x < n then f[x] else 0
  {
    if n > 0 {
      SumInRemove(f, s, x, n - 1);
    }
  }

  lemma {:induction false} SumInUpdate(f: seq<nat>, s: set<nat>, g: nat, v: nat, n: nat)
    requires n <= |f| && g < |f| && g !in s
    ensures SumIn(f[g := v], s, n) == SumIn(f, s, n)
  {
    if n > 0 {
      SumInUpdate(f, s, g, v, n - 1);
    }
  }

  lemma {:induction false} SumInEmpty(f: seq<nat>, n: nat)
    requires n <= |f|
    ensures SumIn(f, {}, n) == 0
  {
    if n > 0 {
      SumInEmpty(f, n - 1);
    }
  }

  lemma {:induction false} SumUpdate(f: seq<nat>, g: nat, v: nat, n: nat)
    requires n <= |f| && g < |f|
    ensures Sum(f[g := v], n) == Sum(f, n) + if g < n then v - f[g] else 0
  {
    if n > 0 {
      SumUpdate(f, g, v, n - 1);
    }
  }

  lemma {:induction false} SumZero(f: seq<nat>, n: nat)
    requires n <= |f| && forall i :: 0 <= i < n ==> f[i] == 0
    ensures Sum(f, n) == 0
  {
    if n > 0 {
      SumZero(f, n - 1);
    }
  }

  /** No choice of groups with enough free blocks is smaller: swapping the largest group
      into it, or out of it, leaves the rest enough for the rest. */
  lemma {:induction false} PicksMinimal(f: seq<nat>, len: nat, picks: seq<nat>, s: set<nat>)
    requires Picks(f, len, picks) && SumIn(f, s, |f|) >= len
    ensures |s| >= |picks|
    decreases |picks|
  {
    if len > 0 {
      var g := picks[0];
      var m := Min(len, f[g]);
      if s == {} {
        SumInEmpty(f, |f|);
      } else if f[g] >= len {
        assert picks[1..] == [];
      } else {
        var h: nat := if g in s then g else AnyOf(s);
        var rest := s - {h};
        SumInRemove(f, s, h, |f|);
        var f' := f[g := 0];
        SumInUpdate(f, rest, g, 0, |f|);
        PicksMinimal(f', len - m, picks[1..], rest);
      }
    }
  }

  ghost function AnyOf(s: set<nat>): (x: nat)
    requires s != {}
    ensures x in s
  {
    var x :| x in s;
    x
  }

  /** A group that has nothing is not chosen, so no group is chosen twice. */
  lemma {:induction false} PicksDistinct(f: seq<nat>, len: nat, picks: seq<nat>)
    requires Picks(f, len, picks)
    ensures forall i :: 0 <= i < |picks| ==> picks[i] < |f| && f[picks[i]] > 0
    ensures forall i, j :: 0 <= i < j < |picks| ==> picks[i] != picks[j]
    decreases |picks|
  {
    if len > 0 {
      var g := picks[0];
      var m := Min(len, f[g]);
      var f' := f[g := f[g] - m];
      PicksDistinct(f', len - m, picks[1..]);
      if len > m {
        assert f'[g] == 0;
        forall i | 1 <= i < |picks| ensures picks[i] != g && picks[i] < |f| && f[picks[i]] > 0 {
          assert picks[i] == picks[1..][i - 1];
        }
        forall i, j | 0 <= i < j < |picks| ensures picks[i] != picks[j] {
          if i > 0 {
            assert picks[i] == picks[1..][i - 1] && picks[j] == picks[1..][j - 1];
          }
        }
      } else {
        assert picks[1..] == [];
      }
    }
  }

  lemma PickStep(f: seq<nat>, len: nat, g: nat, m: nat)
    requires len > 0 && IsPick(f, len, g) && m == Min(len, f[g])
    ensures g < |f| && 0 < m <= len && m <= f[g]
    ensures Sum(f[g := f[g] - m], |f|) == Sum(f, |f|) - m
  {
    SumUpdate(f, g, f[g] - m, |f|);
  }

  lemma PicksFirst(f: seq<nat>, len: nat, g: nat, rest: seq<nat>)
    requires len > 0 && IsPick(f, len, g) && g < |f|
    requires Picks(f[g := f[g] - Min(len, f[g])], len - Min(len, f[g]), rest)
    ensures Picks(f, len, [g] + rest)
  {
    hide IsPick;
    assert ([g] + rest)[1..] == rest;
  }

  /** The first region is all that the group chosen first can give. */
  ghost predicate FirstIsPick(regions: seq<Region>, f: seq<nat>, len: nat) {
    regions != [] ==>
      var r := regions[0];
      IsPick(f, len, r.group) && r.group < |f| && r.len == Min(len, f[r.group])
  }

  /** Which group that is, and that it is the only one if it can give all. */
  lemma FirstPick(f: seq<nat>, len: nat, regions: seq<Region>, picks: seq<nat>)
    requires regions != [] && FirstIsPick(regions, f, len) && Picks(f, len, picks) && len > 0
    requires |picks| == |regions| && picks[0] == regions[0].group
    ensures regions[0].group < |f|
    ensures forall i :: 0 <= i < |f| && f[i] >= len ==>
              |regions| == 1 && len <= f[regions[0].group] <= f[i] && (f[regions[0].group] == f[i] ==> regions[0].group <= i)
    ensures (forall i :: 0 <= i < |f| ==> f[i] < len) ==>
              && regions[0].len == f[regions[0].group]
              && forall i :: 0 <= i < |f| ==> f[i] <= regions[0].len && (f[i] == regions[0].len ==> regions[0].group <= i)
  {
    if f[picks[0]] >= len {
      assert picks[1..] == [];
    }
  }

  /** Any choices for what is left continue the choices made so far. */
  ghost predicate Continues(now: seq<nat>, left: nat, f: seq<nat>, len: nat, picks: seq<nat>) {
    forall rest: seq<nat> :: Picks(now, left, rest) ==> Picks(f, len, picks + rest)
  }

  lemma ContinuesStart(f: seq<nat>, len: nat)
    ensures Continues(f, len, f, len, [])
  {
    hide Picks;
    forall rest: seq<nat> | Picks(f, len, rest) ensures Picks(f, len, [] + rest) {
      assert [] + rest == rest;
    }
  }

  lemma ContinuesStep(now: seq<nat>, left: nat, f: seq<nat>, len: nat, picks: seq<nat>, g: nat)
    requires Continues(now, left, f, len, picks) && left > 0 && IsPick(now, left, g) && g < |now|
    ensures Continues(now[g := now[g] - Min(left, now[g])], left - Min(left, now[g]), f, len, picks + [g])
  {
    hide Picks, IsPick;
    var m := Min(left, now[g]);
    forall rest: seq<nat> | Picks(now[g := now[g] - m], left - m, rest) ensures Picks(f, len, (picks + [g]) + rest) {
      PicksFirst(now, left, g, rest);
      assert (picks + [g]) + rest == picks + ([g] + rest);
    }
  }

  lemma ContinuesEnd(now: seq<nat>, f: seq<nat>, len: nat, picks: seq<nat>)
    requires Continues(now, 0, f, len, picks)
    ensures Picks(f, len, picks)
  {
    PicksEnd(now);
    assert picks + [] == picks;
  }

  lemma PicksNone(f: seq<nat>, picks: seq<nat>)
    requires Picks(f, 0, picks)
    ensures picks == []
  {
  }

  lemma PicksEnd(f: seq<nat>)
    ensures Picks(f, 0, [])
  {
  }

  // ----- what has been handed out -----

  /** Blocks start to start + len of a group. */
  datatype Region = Region(group: nat, start: nat, len: nat)

  /** Where the regions of a group end. */
  ghost function Top(live: seq<Region>, g: nat, bottom: nat): nat
  {
    if live == [] then bottom
    else
      var r := live[|live| - 1];
      if r.group == g then r.start + r.len else Top(live[..|live| - 1], g, bottom)
  }

  /** Every region starts where the ones before it in its group end. */
  ghost predicate Stacked(live: seq<Region>, bottoms: seq<nat>) {
    forall i :: 0 <= i < |live| ==> live[i].group < |bottoms| && live[i].start == Top(live[..i], live[i].group, bottoms[live[i].group])
  }

  /** So no two regions share a block, nor does a region share one with a header. */
  lemma {:induction false} StackedApart(live: seq<Region>, bottoms: seq<nat>, i: nat, n: nat)
    requires Stacked(live, bottoms) && i < n <= |live|
    ensures live[i].group < |bottoms| && live[i].start >= bottoms[live[i].group]
    ensures live[i].start + live[i].len <= Top(live[..n], live[i].group, bottoms[live[i].group])
    decreases n
  {
    StackedBottom(live, bottoms, live[i].group, i);
    var r := live[n - 1];
    assert live[..n][..n - 1] == live[..n - 1];
    if i < n - 1 {
      StackedApart(live, bottoms, i, n - 1);
    }
  }

  lemma {:induction false} StackedBottom(live: seq<Region>, bottoms: seq<nat>, g: nat, n: nat)
    requires Stacked(live, bottoms) && g < |bottoms| && n <= |live|
    ensures Top(live[..n], g, bottoms[g]) >= bottoms[g]
  {
    if n > 0 {
      var r := live[n - 1];
      assert live[..n][..n - 1] == live[..n - 1];
      StackedBottom(live, bottoms, g, n - 1);
    }
  }

  lemma RegionsApart(live: seq<Region>, bottoms: seq<nat>, i: nat, j: nat)
    requires Stacked(live, bottoms) && i < j < |live| && live[i].group == live[j].group
    ensures live[i].start + live[i].len <= live[j].start
  {
    StackedApart(live, bottoms, i, j);
  }

  lemma TopOther(live: seq<Region>, r: Region, g: nat, bottom: nat)
    ensures Top(live + [r], g, bottom) == if r.group == g then r.start + r.len else Top(live, g, bottom)
  {
    assert (live + [r])[..|live|] == live;
  }

  lemma StackedSnoc(live: seq<Region>, bottoms: seq<nat>, r: Region)
    requires Stacked(live, bottoms) && r.group < |bottoms| && r.start == Top(live, r.group, bottoms[r.group])
    ensures Stacked(live + [r], bottoms)
  {
    var l := live + [r];
    forall i | 0 <= i < |l| ensures l[i].group < |bottoms| && l[i].start == Top(l[..i], l[i].group, bottoms[l[i].group]) {
      assert l[..i] == live[..i];
      assert live[..|live|] == live;
    }
  }

  lemma {:induction false} StackedTop(live: seq<Region>, i: nat, n: nat, bottom: nat)
    requires i < n <= |live| && forall j :: i < j < n ==> live[j].group != live[i].group
    ensures Top(live[..n], live[i].group, bottom) == live[i].start + live[i].len
    decreases n
  {
    assert live[..n][..n - 1] == live[..n - 1];
    if i < n - 1 {
      StackedTop(live, i, n - 1, bottom);
    }
  }

  lemma {:induction false} TopReplace(live: seq<Region>, i: nat, rest: Region, n: nat, g: nat, bottom: nat)
    requires i < |live| && rest.group == live[i].group && rest.start == live[i].start && n <= |live|
    requires g != rest.group
    ensures Top(live[i := rest][..n], g, bottom) == Top(live[..n], g, bottom)
    decreases n
  {
    if n > 0 {
      assert live[..n][..n - 1] == live[..n - 1];
      assert live[i := rest][..n][..n - 1] == live[i := rest][..n - 1];
      TopReplace(live, i, rest, n - 1, g, bottom);
    }
  }

  lemma StackedReplace(live: seq<Region>, bottoms: seq<nat>, i: nat, rest: Region)
    requires Stacked(live, bottoms) && i < |live| && rest.group == live[i].group && rest.start == live[i].start
    requires forall j :: i < j < |live| ==> live[j].group != rest.group
    ensures Stacked(live[i := rest], bottoms)
  {
    hide Top;
    var l := live[i := rest];
    forall j | 0 <= j < |l| ensures l[j].group < |bottoms| && l[j].start == Top(l[..j], l[j].group, bottoms[l[j].group]) {
      assert live[j].start == Top(live[..j], live[j].group, bottoms[live[j].group]);
      if j <= i {
        assert l[..j] == live[..j];
      } else {
        TopReplace(live, i, rest, j, l[j].group, bottoms[l[j].group]);
      }
    }
  }

  lemma TopAfter(live: seq<Region>, i: nat, rest: Region, g: nat, b: nat)
    requires i < |live| && rest.group == live[i].group && rest.start == live[i].start
    requires forall j :: i < j < |live| ==> live[j].group != rest.group
    ensures Top(live[i := rest], g, b) == if g == rest.group then rest.start + rest.len else Top(live, g, b)
  {
    hide Top;
    var l := live[i := rest];
    assert l[..|l|] == l && live[..|live|] == live;
    if g == rest.group {
      StackedTop(l, i, |l|, b);
    } else {
      TopReplace(live, i, rest, |l|, g, b);
    }
  }

  /** How many of the blocks from `first` on the image has. */
  ghost function Inside(first: nat, perGroup: nat, lenBlocks: nat): int {
    if first + perGroup > lenBlocks then lenBlocks - first else perGroup
  }

  class Allocator {
    const groups: seq<BlockGroup>
    const firstDataBlock: nat
    const perGroup: nat
    ghost var live: seq<Region>

    ghost function Bottoms(): seq<nat> {
      seq(|groups|, i requires 0 <= i < |groups| => groups[i].headerBlocks)
    }

    ghost function Frees(): seq<nat>
      reads groups
    {
      seq(|groups|, i requires 0 <= i < |groups| reads groups => groups[i].freeBlocks)
    }

    ghost predicate GroupOk(i: nat)
      requires i < |groups|
      reads this, groups[i], groups[i].bitmap
    {
      var g := groups[i];
      && g.Valid()
      && g.firstBlock == firstDataBlock + i * perGroup && g.perGroup == perGroup
      && (g.firstFree <= g.limit ==> g.firstFree == Top(live, i, g.headerBlocks))
      && (g.firstFree > g.limit ==> Top(live, i, g.headerBlocks) == g.headerBlocks)
    }

    /** Each group is as its operations keep it, the groups are separate, and what is used
        but no header and in the image is exactly what has been handed out. */
    ghost predicate Valid()
      reads this, groups, set i | 0 <= i < |groups| :: groups[i].bitmap
    {
      && (forall i :: 0 <= i < |groups| ==> GroupOk(i))
      && (forall i, j :: 0 <= i < j < |groups| ==> groups[i] != groups[j] && groups[i].bitmap != groups[j].bitmap)
      && Stacked(live, Bottoms())
    }

    /** A region handed out of group g. */
    method TakeFrom(len: nat, g: nat) returns (ok: bool, start: nat)
      requires Valid() && g < |groups| && len > 0
      modifies groups[g], groups[g].bitmap, `live
      ensures Valid()
      ensures ok <==> len <= old(groups[g].freeBlocks)
      ensures ok ==> live == old(live) + [Region(g, start, len)]
      ensures !ok ==> live == old(live) && Frees() == old(Frees())
      ensures ok ==> Frees() == old(Frees())[g := old(Frees())[g] - len]
    {
      hide Stacked, Top, Used;
      assert GroupOk(g);
      ok, start := groups[g].Allocate(len);
      if ok {
        ghost var r := Region(g, start, len);
        forall i: nat | i < |groups| ensures Top(live + [r], i, groups[i].headerBlocks) == if i == g then start + len else Top(live, i, groups[i].headerBlocks) {
          TopOther(live, r, i, groups[i].headerBlocks);
        }
        StackedSnoc(live, Bottoms(), r);
        live := live + [r];
      }
      forall i: nat | i < |groups| ensures GroupOk(i) {
        if i != g {
          assert old(GroupOk(i));
          assert groups[i] != groups[g] && groups[i].bitmap != groups[g].bitmap;
          assert groups[i].Valid();
        }
      }
    }

    /** block_allocator_init. */
    constructor (firstDataBlock: nat, perGroup: nat, blockSize: nat, lenBlocks: nat, headers: seq<nat>)
      requires perGroup <= 8 * blockSize
      requires forall i: nat :: i < |headers| ==> headers[i] <= perGroup && firstDataBlock + i * perGroup + headers[i] <= lenBlocks
      ensures Valid() && live == [] && Bottoms() == headers
      ensures this.firstDataBlock == firstDataBlock && this.perGroup == perGroup
      ensures forall i: nat :: i < |groups| ==>
                && groups[i].limit == Inside(firstDataBlock + i * perGroup, perGroup, lenBlocks)
                && groups[i].freeBlocks == groups[i].limit - headers[i]
    {
      hide BlockGroup.Valid;
      this.firstDataBlock, this.perGroup := firstDataBlock, perGroup;
      var gs := MakeGroups(firstDataBlock, perGroup, blockSize, lenBlocks, headers);
      groups, live := gs, [];
    }

    static method MakeGroups(firstDataBlock: nat, perGroup: nat, blockSize: nat, lenBlocks: nat, headers: seq<nat>)
      returns (gs: seq<BlockGroup>)
      requires perGroup <= 8 * blockSize
      requires forall i: nat :: i < |headers| ==> headers[i] <= perGroup && firstDataBlock + i * perGroup + headers[i] <= lenBlocks
      ensures |gs| == |headers| && forall i, j :: 0 <= i < j < |gs| ==> gs[i] != gs[j] && gs[i].bitmap != gs[j].bitmap
      ensures forall i: nat :: i < |gs| ==>
                && fresh(gs[i]) && fresh(gs[i].bitmap)
                && Made(gs[i], firstDataBlock + i * perGroup, perGroup, headers[i], lenBlocks)
    {
      hide Made, BlockGroup.Valid;
      gs := [];
      for i := 0 to |headers|
        invariant |gs| == i && forall j, k :: 0 <= j < k < i ==> gs[j] != gs[k] && gs[j].bitmap != gs[k].bitmap
        invariant forall k: nat :: k < i ==>
                    && fresh(gs[k]) && fresh(gs[k].bitmap)
                    && Made(gs[k], firstDataBlock + k * perGroup, perGroup, headers[k], lenBlocks)
      {
        var g := MakeGroup(firstDataBlock + i * perGroup, headers[i], perGroup, blockSize, lenBlocks);
        gs := gs + [g];
      }
    }

    /** A group as init_bg leaves it. */
    static ghost predicate Made(g: BlockGroup, first: nat, perGroup: nat, header: nat, lenBlocks: nat)
      reads g, g.bitmap
    {
      && g.Valid() && g.firstBlock == first && g.perGroup == perGroup && g.headerBlocks == header
      && g.limit == Inside(first, perGroup, lenBlocks) && g.freeBlocks == g.limit - header
      && (g.firstFree <= g.limit ==> g.firstFree == header)
    }

    static method MakeGroup(first: nat, header: nat, perGroup: nat, blockSize: nat, lenBlocks: nat) returns (g: BlockGroup)
      requires perGroup <= 8 * blockSize && header <= perGroup && first + header <= lenBlocks
      ensures fresh(g) && fresh(g.bitmap) && Made(g, first, perGroup, header, lenBlocks)
    {
      hide Used;
      g := new BlockGroup(first, header, perGroup, blockSize, lenBlocks);
    }

    /** allocate_block: the first free block of the first group that has one. */
    method AllocateBlock() returns (ok: bool, block: nat)
      requires Valid()
      modifies groups, set i | 0 <= i < |groups| :: groups[i].bitmap, `live
      ensures Valid()
      ensures ok <==> exists g :: 0 <= g < |groups| && old(Frees())[g] > 0
      ensures !ok ==> live == old(live) && Frees() == old(Frees())
      ensures ok ==> exists g: nat, start: nat :: g < |groups| && block == groups[g].firstBlock + start
                       && live == old(live) + [Region(g, start, 1)]
                       && (forall k :: 0 <= k < g ==> old(Frees())[k] == 0)
                       && old(Frees())[g] > 0 && Frees() == old(Frees())[g := old(Frees())[g] - 1]
    {
      hide Valid;
      for i := 0 to |groups|
        invariant Valid() && live == old(live) && Frees() == old(Frees())
        invariant forall k :: 0 <= k < i ==> Frees()[k] == 0
      {
        var start;
        ok, start := TakeFrom(1, i);
        if ok {
          block := groups[i].firstBlock + start;
          return true, block;
        }
      }
      return false, 0;
    }

    /** The scan of ext4_allocate_best_fit_partial. */
    method Scan(len: nat) returns (foundBg: nat, foundLen: nat)
      requires len > 0
      ensures foundLen == 0 ==> forall i :: 0 <= i < |groups| ==> Frees()[i] == 0
      ensures foundLen > 0 ==> IsPick(Frees(), len, foundBg) && foundLen == Frees()[foundBg]
    {
      foundBg, foundLen := 0, 0;
      ghost var f := Frees();
      for i := 0 to |groups|
        invariant foundLen == 0 ==> forall k :: 0 <= k < i ==> f[k] == 0
        invariant foundLen > 0 ==> foundBg < i && f[foundBg] == foundLen
        invariant foundBg <= i
        invariant foundLen >= len ==> forall k :: 0 <= k < i && f[k] >= len ==> foundLen <= f[k]
        invariant foundLen >= len ==> forall k :: 0 <= k < foundBg && f[k] >= len ==> foundLen < f[k]
        invariant foundLen < len ==> forall k :: 0 <= k < i ==> f[k] <= foundLen
        invariant foundLen < len ==> forall k :: 0 <= k < foundBg ==> f[k] < foundLen
      {
        var bgLen := groups[i].freeBlocks;
        assert f[i] == bgLen;
        if (len <= bgLen && (foundLen == 0 || bgLen < foundLen)) || (len > foundLen && bgLen > foundLen) {
          foundBg, foundLen := i, bgLen;
        }
      }
    }

    /** ext4_allocate_best_fit_partial. */
    method BestFitPartial(len: nat) returns (ok: bool, r: Region)
      requires Valid() && len > 0
      modifies groups, set i | 0 <= i < |groups| :: groups[i].bitmap, `live
      ensures Valid()
      ensures ok <==> exists i :: 0 <= i < |groups| && old(Frees())[i] > 0
      ensures !ok ==> live == old(live) && Frees() == old(Frees())
      ensures ok ==> IsPick(old(Frees()), len, r.group) && r.len == Min(len, old(Frees())[r.group])
      ensures ok ==> live == old(live) + [r] && Frees() == old(Frees())[r.group := old(Frees())[r.group] - r.len]
    {
      hide Valid;
      r := Region(0, 0, 0);
      ghost var f := Frees();
      var foundBg, foundLen := Scan(len);
      if foundLen == 0 {
        assert f == Frees();
        return false, r;
      }
      assert foundLen == groups[foundBg].freeBlocks;
      var allocateLen := Min(len, foundLen);
      var start;
      ok, start := TakeFrom(allocateLen, foundBg);
      r := Region(foundBg, start, allocateLen);
    }

    /** ext4_allocate_best_fit. */
    method BestFit(len: nat) returns (ok: bool, regions: seq<Region>, ghost picks: seq<nat>)
      requires Valid()
      modifies groups, set i | 0 <= i < |groups| :: groups[i].bitmap, `live
      ensures Valid() && live == old(live) + regions
      ensures ok <==> len <= Sum(old(Frees()), |groups|)
      ensures ok ==> TotalLen(regions) == len && Picks(old(Frees()), len, picks)
      ensures ok ==> Sum(Frees(), |groups|) + len == Sum(old(Frees()), |groups|)
      ensures |picks| == |regions| && forall i :: 0 <= i < |regions| ==> regions[i].group == picks[i]
      ensures !ok ==> forall i :: 0 <= i < |groups| ==> Frees()[i] == 0
      ensures FirstIsPick(regions, old(Frees()), len)
    {
      hide Valid, Picks, Sum, IsPick, SumIn, Min, Continues;
      ghost var f := Frees();
      picks := [];
      var left: nat := len;
      regions := [];
      ContinuesStart(f, len);
      while left > 0
        invariant Valid() && live == old(live) + regions && left <= len
        invariant |picks| == |regions| && forall i :: 0 <= i < |regions| ==> regions[i].group == picks[i]
        invariant Sum(Frees(), |groups|) + (len - left) == Sum(f, |groups|)
        invariant TotalLen(regions) + left == len
        invariant Continues(Frees(), left, f, len, picks)
        invariant FirstIsPick(regions, f, len) && (regions == [] ==> left == len && Frees() == f)
      {
        ghost var now := Frees();
        var good, r := BestFitPartial(left);
        if !good {
          SumZero(Frees(), |groups|);
          return false, regions, picks;
        }
        PickStep(now, left, r.group, r.len);
        ContinuesStep(now, left, f, len, picks, r.group);
        picks := picks + [r.group];
        assert (regions + [r])[..|regions|] == regions;
        regions := regions + [r];
        left := left - r.len;
      }
      ContinuesEnd(Frees(), f, len, picks);
      return true, regions, picks;
    }

    /** allocate_blocks. It succeeds exactly if there are enough free blocks, and at least
        one is asked for; the regions come from different groups, add up to the length, and
        no fewer groups would do. If one group has the blocks, the one with the fewest free
        blocks of those that have them gives them all; if none has, the one with the most
        gives the first region. When it fails it has used up every free block. */
    method AllocateBlocks(len: nat) returns (ok: bool, regions: seq<Region>)
      requires Valid()
      modifies groups, set i | 0 <= i < |groups| :: groups[i].bitmap, `live
      ensures Valid() && live == old(live) + regions
      ensures ok <==> 0 < len <= Sum(old(Frees()), |groups|)
      ensures ok ==> TotalLen(regions) == len && Sum(Frees(), |groups|) + len == Sum(old(Frees()), |groups|)
      ensures ok ==> forall i, j :: 0 <= i < j < |regions| ==> regions[i].group != regions[j].group
      ensures ok ==> forall s: set<nat> :: SumIn(old(Frees()), s, |groups|) >= len ==> |s| >= |regions|
      ensures !ok && len > 0 ==> forall i :: 0 <= i < |groups| ==> Frees()[i] == 0
      ensures ok ==> regions != [] && FirstIsPick(regions, old(Frees()), len) && regions[0].group < |groups|
      ensures ok ==> forall i :: 0 <= i < |groups| && old(Frees())[i] >= len ==>
                && |regions| == 1 && len <= old(Frees())[regions[0].group] <= old(Frees())[i]
                && (old(Frees())[regions[0].group] == old(Frees())[i] ==> regions[0].group <= i)
      ensures ok && (forall i :: 0 <= i < |groups| ==> old(Frees())[i] < len) ==>
                && regions[0].len == old(Frees())[regions[0].group]
                && forall i :: 0 <= i < |groups| ==>
                     && old(Frees())[i] <= regions[0].len
                     && (old(Frees())[i] == regions[0].len ==> regions[0].group <= i)
    {
      hide Valid, Picks, Sum, IsPick, SumIn, FirstIsPick;
      ghost var f, picks := Frees(), [];
      ok, regions, picks := BestFit(len);
      if !ok || regions == [] {
        return false, regions;
      }
      if len == 0 {
        PicksNone(f, picks);
      }
      PicksDistinct(f, len, picks);
      FirstPick(f, len, regions, picks);
      forall s: set<nat> | SumIn(f, s, |groups|) >= len ensures |s| >= |regions| {
        PicksMinimal(f, len, picks, s);
      }
    }

    /** What has been handed out lies in its group, past the header and inside the image. */
    lemma RegionInside(i: nat)
      requires Valid() && i < |live|
      ensures live[i].group < |groups|
      ensures
        var g := groups[live[i].group];
        g.headerBlocks <= live[i].start && live[i].start + live[i].len <= g.limit <= perGroup
    {
      hide Top, Used, Stacked;
      assert live[..|live|] == live;
      StackedApart(live, Bottoms(), i, |live|);
      assert GroupOk(live[i].group);
    }

    /** reduce_allocation, for an allocation of one region that is the last one handed out in
        its group. In the record of what is handed out a region reduced to nothing stays. */
    method ReduceAllocation(r: Region, len: nat, ghost i: nat) returns (rest: Region)
      requires Valid() && i < |live| && live[i] == r && len <= r.len
      requires forall j :: i < j < |live| ==> live[j].group != r.group
      requires r.len > 0
      modifies groups, set k | 0 <= k < |groups| :: groups[k].bitmap, `live
      ensures Valid() && rest == r.(len := r.len - len) && live == old(live)[i := rest]
      ensures r.group < |groups| && Frees() == old(Frees())[r.group := old(Frees())[r.group] + len]
    {
      hide Stacked, Top, Used, Valid, ValidBut;
      TopRegion(i);
      FreeFrom(r.group, len);
      rest := r.(len := r.len - len);
      Record(i, rest);
    }

    lemma TopRegion(i: nat)
      requires Valid() && i < |live| && live[i].len > 0 && forall j :: i < j < |live| ==> live[j].group != live[i].group
      ensures live[i].group < |groups|
      ensures
        var g := groups[live[i].group];
        && Top(live, live[i].group, g.headerBlocks) == live[i].start + live[i].len > g.headerBlocks
        && live[i].start >= g.headerBlocks && g.firstFree <= g.limit && g.firstFree == live[i].start + live[i].len
    {
      hide Stacked, Top, Used;
      assert live[..|live|] == live;
      StackedApart(live, Bottoms(), i, |live|);
      StackedTop(live, i, |live|, groups[live[i].group].headerBlocks);
      assert GroupOk(live[i].group);
    }

    /** All is as it should be but for the record of what group g has handed out. */
    ghost predicate ValidBut(g: nat, top: nat)
      requires g < |groups|
      reads this, groups, set i | 0 <= i < |groups| :: groups[i].bitmap
    {
      && (forall i :: 0 <= i < |groups| && i != g ==> GroupOk(i))
      && groups[g].Valid() && groups[g].firstFree == top <= groups[g].limit
      && groups[g].firstBlock == firstDataBlock + g * perGroup && groups[g].perGroup == perGroup
      && (forall i, j :: 0 <= i < j < |groups| ==> groups[i] != groups[j] && groups[i].bitmap != groups[j].bitmap)
      && Stacked(live, Bottoms())
    }

    method FreeFrom(g: nat, len: nat)
      requires Valid() && g < |groups| && groups[g].firstFree <= groups[g].limit && len <= groups[g].firstFree - groups[g].headerBlocks
      modifies groups[g], groups[g].bitmap
      ensures ValidBut(g, old(groups[g].firstFree) - len)
      ensures Frees() == old(Frees())[g := old(Frees())[g] + len]
    {
      hide Stacked, Top, Used;
      assert GroupOk(g);
      groups[g].FreeBlocks(len);
      forall k: nat | k < |groups| && k != g ensures GroupOk(k) {
        assert old(GroupOk(k));
        assert groups[k] != groups[g] && groups[k].bitmap != groups[g].bitmap;
        assert groups[k].Valid();
      }
    }

    ghost method Record(i: nat, rest: Region)
      requires i < |live| && live[i].group == rest.group < |groups| && live[i].start == rest.start
      requires ValidBut(rest.group, rest.start + rest.len)
      requires forall j :: i < j < |live| ==> live[j].group != rest.group
      modifies `live
      ensures Valid() && live == old(live)[i := rest]
    {
      hide Stacked, Top, Used;
      StackedReplace(live, Bottoms(), i, rest);
      live := live[i := rest];
      forall k: nat | k < |groups| ensures GroupOk(k) {
        TopAfter(old(live), i, rest, k, groups[k].headerBlocks);
        if k != rest.group {
          assert old(GroupOk(k));
        }
        assert groups[k].Valid();
      }
    }
  }

  ghost function TotalLen(regions: seq<Region>): nat {
    if regions == [] then 0 else TotalLen(regions[..|regions| - 1]) + regions[|regions| - 1].len
  }
}
