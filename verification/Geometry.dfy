/** The geometry of the image: ext4_create_fs_aux_info and ext4_bg_has_super_block of
    tools/ext4_utils/ext4_utils.c, and the block groups they lead to. */
module Geometry {
  import opened Congruence
  import opened Rounding
  import opened Allocator

  // ----- which groups have a superblock -----

  ghost predicate PowerOf(a: int, b: int) {
    exists k: nat :: k >= 1 && a == Pow(b, k)
  }

  /** is_power_of. */
  method IsPowerOf(a: int, b: int) returns (r: bool)
    requires b > 1
    ensures r <==> PowerOf(a, b)
  {
    var x := a;
    while x > b
      invariant PowerOf(x, b) <==> PowerOf(a, b)
      decreases x
    {
      PowerStep(x, b);
      if x % b != 0 {
        return false;
      }
      x := x / b;
    }
    PowerLow(x, b);
    return x == b;
  }

  lemma PowerStep(x: int, b: int)
    requires 1 < b < x
    ensures PowerOf(x, b) <==> x % b == 0 && PowerOf(x / b, b)
    ensures x / b < x
  {
    hide Pow;
    assert Pow(b, 1) == b by { PowOne(b); }
    var q := x / b;
    assert x == b * q + x % b;
    assert q < x by { Halves(x, b, q); }
    if PowerOf(x, b) {
      var k: nat :| k >= 1 && x == Pow(b, k);
      assert k >= 2;
      PowNext(b, k - 1);
      DivUnique(x, b, Pow(b, k - 1), 0);
    }
    if x % b == 0 && PowerOf(q, b) {
      var k: nat :| k >= 1 && q == Pow(b, k);
      PowNext(b, k);
      assert x == Pow(b, k + 1);
    }
  }

  lemma Halves(x: int, b: int, q: int)
    requires 1 < b < x && b * q <= x
    ensures q < x
  {
    if q > 0 {
      MulLe(2, b, q);
    }
  }

  lemma PowNext(b: int, k: nat)
    ensures Pow(b, k + 1) == b * Pow(b, k)
  {
  }

  lemma PowOne(b: int)
    ensures Pow(b, 1) == b
  {
    assert Pow(b, 1) == b * Pow(b, 0);
  }

  lemma PowerLow(x: int, b: int)
    requires 1 < b && x <= b
    ensures PowerOf(x, b) <==> x == b
  {
    PowOne(b);
    if PowerOf(x, b) {
      var k: nat :| k >= 1 && x == Pow(b, k);
      PowPos(b, k - 1);
      assert Pow(b, k) == b * Pow(b, k - 1) >= b by { MulLe(1, Pow(b, k - 1), b); }
    }
  }

  ghost predicate HasSuper(sparse: bool, bg: nat) {
    !sparse || bg <= 1 || PowerOf(bg, 3) || PowerOf(bg, 5) || PowerOf(bg, 7)
  }

  /** The first groups of a large image that have one. */
  lemma SuperGroups(bg: nat)
    requires bg < 50
    ensures HasSuper(true, bg) <==> bg in [0, 1, 3, 5, 7, 9, 25, 27, 49]
  {
    hide PowerOf;
    PowersOf3(bg);
    PowersOf5(bg);
    PowersOf7(bg);
  }

  lemma PowersOf3(x: nat)
    requires x < 50
    ensures PowerOf(x, 3) <==> x == 3 || x == 9 || x == 27
  {
    hide PowerOf;
    if x <= 3 {
      PowerLow(x, 3);
    } else {
      PowerStep(x, 3);
      PowersOf3(x / 3);
    }
  }

  lemma PowersOf5(x: nat)
    requires x < 50
    ensures PowerOf(x, 5) <==> x == 5 || x == 25
  {
    hide PowerOf;
    if x <= 5 {
      PowerLow(x, 5);
    } else {
      PowerStep(x, 5);
      PowersOf5(x / 5);
    }
  }

  lemma PowersOf7(x: nat)
    requires x < 50
    ensures PowerOf(x, 7) <==> x == 7 || x == 49
  {
    hide PowerOf;
    if x <= 7 {
      PowerLow(x, 7);
    } else {
      PowerStep(x, 7);
      PowersOf7(x / 7);
    }
  }

  /** ext4_bg_has_super_block. */
  method BgHasSuperBlock(sparse: bool, bg: nat) returns (r: bool)
    ensures r <==> HasSuper(sparse, bg)
  {
    if !sparse || bg == 0 || bg == 1 {
      return true;
    }
    r := IsPowerOf(bg, 3);
    if !r {
      r := IsPowerOf(bg, 5);
    }
    if !r {
      r := IsPowerOf(bg, 7);
    }
  }

  // ----- the groups -----

  /** struct fs_info, the fields used here. */
  datatype Info = Info(len: nat, blockSize: nat, blocksPerGroup: nat, inodesPerGroup: nat, inodeSize: nat,
                       reserveBlocks: nat, sparse: bool)

  /** struct fs_aux_info, the fields used here. */
  datatype Aux = Aux(firstDataBlock: nat, lenBlocks: nat, inodeTableBlocks: nat, groups: nat, descBlocks: nat)

  const DESC_SIZE: nat := 32

  ghost function Header(info: Info, aux: Aux, i: nat): nat {
    2 + aux.inodeTableBlocks + if HasSuper(info.sparse, i) then 1 + aux.descBlocks + info.reserveBlocks else 0
  }

  /** Where init_bg puts the two bitmaps of a group, from its start. */
  ghost function BitmapsAt(info: Info, aux: Aux, i: nat): nat {
    if HasSuper(info.sparse, i) then 1 + aux.descBlocks + info.reserveBlocks else 0
  }

  /** Where allocate_bg_inode_table puts the inode table. */
  ghost function TableAt(info: Info, aux: Aux, i: nat): nat {
    2 + if HasSuper(info.sparse, i) then aux.descBlocks + info.reserveBlocks + 1 else 0
  }

  /** The header is made of the superblock, the descriptors and the blocks reserved for more of
      them, where there are any, then the bitmaps and the inode table. */
  lemma HeaderLayout(info: Info, aux: Aux, i: nat)
    ensures HasSuper(info.sparse, i) ==> BitmapsAt(info, aux, i) == 1 + aux.descBlocks + info.reserveBlocks
    ensures !HasSuper(info.sparse, i) ==> BitmapsAt(info, aux, i) == 0
    ensures TableAt(info, aux, i) == BitmapsAt(info, aux, i) + 2
    ensures Header(info, aux, i) == TableAt(info, aux, i) + aux.inodeTableBlocks
  {
    hide HasSuper;
  }

  /** The header blocks of a group, as init_bg counts them. */
  method HeaderBlocks(info: Info, aux: Aux, i: nat) returns (r: nat)
    ensures r == Header(info, aux, i)
  {
    r := 2 + aux.inodeTableBlocks;
    var super := BgHasSuperBlock(info.sparse, i);
    if super {
      r := r + 1 + aux.descBlocks + info.reserveBlocks;
    }
  }

  /** Every group has room for its header in the part of it that lies in the image. */
  ghost predicate GroupsFit(info: Info, aux: Aux) {
    forall i: nat :: i < aux.groups ==> aux.firstDataBlock + i * info.blocksPerGroup + Header(info, aux, i) <= aux.lenBlocks
  }

  /** The geometry before the last group is looked at. */
  function Rough(info: Info): Aux
    requires info.blockSize > 0 && info.blocksPerGroup > 0
  {
    var first := if info.blockSize > 1024 then 0 else 1;
    var len := info.len / info.blockSize;
    var groups := DivUp(if len > first then len - first else 0, info.blocksPerGroup);
    Aux(first, len, DivUp(info.inodesPerGroup * info.inodeSize, info.blockSize), groups, DivUp(groups * DESC_SIZE, info.blockSize))
  }

  /** The counts hold what they count and no more: the blocks lie in the image, descriptors of
      32 bytes and the inodes of a group fill their blocks, and the groups cover the image from
      the block of the superblock, at byte 1024, on. */
  ghost predicate Measures(info: Info, aux: Aux) {
    && aux.lenBlocks * info.blockSize <= info.len < (aux.lenBlocks + 1) * info.blockSize
    && (aux.descBlocks - 1) * info.blockSize < aux.groups * 32 <= aux.descBlocks * info.blockSize
    && (aux.inodeTableBlocks - 1) * info.blockSize < info.inodesPerGroup * info.inodeSize <= aux.inodeTableBlocks * info.blockSize
    && (aux.groups - 1) * info.blocksPerGroup < aux.lenBlocks - aux.firstDataBlock <= aux.groups * info.blocksPerGroup
    && (info.blockSize >= 1024 ==> aux.firstDataBlock * info.blockSize <= 1024 < (aux.firstDataBlock + 1) * info.blockSize)
  }

  lemma RoughMeasures(info: Info)
    requires info.blockSize > 0 && info.len / info.blockSize > (if info.blockSize > 1024 then 0 else 1)
    requires info.blocksPerGroup > 0
    ensures Measures(info, Rough(info))
  {
    hide DivUp;
    var rough := Rough(info);
    Rounded(info.inodesPerGroup * info.inodeSize, info.blockSize);
    Rounded(rough.groups * 32, info.blockSize);
    Rounded(rough.lenBlocks - rough.firstDataBlock, info.blocksPerGroup);
  }

  lemma Rounded(x: nat, y: nat)
    requires y > 0
    ensures (DivUp(x, y) - 1) * y < x <= DivUp(x, y) * y
  {
    DivUpPositive(x, y);
    DivUpCounts(x, y, DivUp(x, y) - 1);
    DivUpCounts(x, y, DivUp(x, y));
  }

  /** The measure of the last group. */
  function LastSize(info: Info, aux: Aux): (r: nat)
    requires info.blocksPerGroup > 0
    ensures r <= aux.lenBlocks
  {
    aux.lenBlocks % info.blocksPerGroup
  }

  lemma RoughGroups(x: nat, b: nat, g: nat)
    requires b > 0 && x > 0 && g == DivUp(x, b)
    ensures g >= 1 && 1 <= x - (g - 1) * b <= b
  {
    DivUpCounts(x, b, g - 1);
    DivUpCounts(x, b, g);
    DivUpPositive(x, b);
    assert (g - 1) * b == g * b - b;
  }

  /** The measure that is taken of the last group, of r blocks. */
  lemma LastMeasure(len: nat, b: nat, first: nat, g: nat, r: nat)
    requires b >= 3 && g >= 1 && first <= 1 && len == first + (g - 1) * b + r && 1 <= r <= b
    ensures len % b == if r + first < b then r + first else r + first - b
  {
    if r + first < b {
      DivUnique(len, b, g - 1, r + first);
    } else {
      assert g * b == (g - 1) * b + b;
      DivUnique(len, b, g, r + first - b);
    }
  }

  /** The blocks that the last group has. */
  function LastBlocks(info: Info, aux: Aux): int {
    aux.lenBlocks - aux.firstDataBlock - (aux.groups - 1) * info.blocksPerGroup
  }

  lemma EarlierFits(first: nat, i: nat, g: nat, b: nat, h: nat, len: int)
    requires i + 1 < g && h < b && len >= first + (g - 1) * b - 1
    ensures first + i * b + h <= len
  {
    MulLe(i + 1, g - 1, b);
    assert (i + 1) * b == i * b + b;
  }

  lemma HeaderFacts(info: Info, rough: Aux, aux: Aux, i: nat)
    requires aux.inodeTableBlocks == rough.inodeTableBlocks && aux.descBlocks == rough.descBlocks
    ensures Header(info, aux, i) == Header(info, rough, i) >= 2
  {
    hide HasSuper;
  }

  lemma Earlier(info: Info, aux: Aux, g: nat, i: nat)
    requires i + 1 < g && Header(info, aux, i) < info.blocksPerGroup
    requires aux.firstDataBlock + (g - 1) * info.blocksPerGroup - 1 <= aux.lenBlocks
    ensures aux.firstDataBlock + i * info.blocksPerGroup + Header(info, aux, i) <= aux.lenBlocks
  {
    EarlierFits(aux.firstDataBlock, i, g, info.blocksPerGroup, Header(info, aux, i), aux.lenBlocks);
  }

  lemma LastGroup(info: Info, rough: Aux, aux: Aux)
    requires info.blockSize > 0 && info.len / info.blockSize > (if info.blockSize > 1024 then 0 else 1)
    requires info.blocksPerGroup > 0 && rough == Rough(info) && rough.groups >= 1
    requires forall i: nat :: Header(info, rough, i) < info.blocksPerGroup
    requires
      var size, header := LastSize(info, rough), Header(info, rough, rough.groups - 1);
      aux == if 0 < size < header then rough.(groups := rough.groups - 1, lenBlocks := rough.lenBlocks - size) else rough
    ensures GroupsFit(info, aux) <==>
            info.blockSize > 1024 || LastSize(info, rough) != Header(info, rough, rough.groups - 1)
  {
    hide Header, DivUp, Rough, GroupsFit;
    var b, first, len, g := info.blocksPerGroup, rough.firstDataBlock, rough.lenBlocks, rough.groups;
    RoughIs(info);
    RoughGroups(len - first, b, g);
    var r := len - first - (g - 1) * b;
    var size, header := LastSize(info, rough), Header(info, rough, g - 1);
    HeaderFacts(info, rough, aux, g - 1);
    LastMeasure(len, b, first, g, r);
    LastInts(len, b, first, g, r, size, header);
    forall i: nat | i + 1 < g ensures first + i * b + Header(info, aux, i) <= aux.lenBlocks {
      HeaderFacts(info, rough, aux, i);
      Earlier(info, aux, g, i);
    }
    if 0 < size < header {
      AllEarlier(info, aux, g);
    } else {
      OnlyLast(info, aux);
    }
  }

  lemma AllEarlier(info: Info, aux: Aux, g: nat)
    requires aux.groups + 1 == g
    requires forall i: nat :: i + 1 < g ==> aux.firstDataBlock + i * info.blocksPerGroup + Header(info, aux, i) <= aux.lenBlocks
    ensures GroupsFit(info, aux)
  {
    hide Header;
  }

  lemma OnlyLast(info: Info, aux: Aux)
    requires aux.groups >= 1
    requires forall i: nat :: i + 1 < aux.groups ==> aux.firstDataBlock + i * info.blocksPerGroup + Header(info, aux, i) <= aux.lenBlocks
    ensures
      var last := aux.groups - 1;
      GroupsFit(info, aux) <==> aux.firstDataBlock + last * info.blocksPerGroup + Header(info, aux, last) <= aux.lenBlocks
  {
    hide Header;
  }

  lemma RoughIs(info: Info)
    requires info.blockSize > 0 && info.len / info.blockSize > (if info.blockSize > 1024 then 0 else 1)
    requires info.blocksPerGroup > 0
    ensures
      var rough := Rough(info);
      && rough.firstDataBlock == (if info.blockSize > 1024 then 0 else 1) && rough.lenBlocks > rough.firstDataBlock
      && rough.groups == DivUp(rough.lenBlocks - rough.firstDataBlock, info.blocksPerGroup)
  {
    hide DivUp;
  }

  lemma LastInts(len: nat, b: nat, first: nat, g: nat, r: nat, size: nat, header: nat)
    requires b >= 3 && g >= 1 && first <= 1 && len == first + (g - 1) * b + r && 1 <= r <= b && 2 <= header < b
    requires size == if r + first < b then r + first else r + first - b
    ensures 0 < size < header ==> len - size >= first + (g - 1) * b - 1
    ensures !(0 < size < header) ==> (header <= r <==> first == 0 || size != header)
    ensures 0 < size < header ==> size != header
  {
  }

  /** A last group that has room for its header is dropped exactly if the measure of a full
      group comes to 1, with a first data block of 1. */
  lemma FullGroup(info: Info)
    requires info.blockSize > 0 && info.len / info.blockSize > (if info.blockSize > 1024 then 0 else 1)
    requires info.blocksPerGroup > 0
    requires forall i: nat :: Header(info, Rough(info), i) < info.blocksPerGroup
    ensures
      var rough := Rough(info);
      && rough.groups >= 1
      && var header := Header(info, rough, rough.groups - 1);
         header <= LastBlocks(info, rough) ==>
           (0 < LastSize(info, rough) < header <==> info.blockSize <= 1024 && LastBlocks(info, rough) == info.blocksPerGroup)
  {
    hide Header, DivUp, Rough;
    var rough := Rough(info);
    RoughIs(info);
    RoughGroups(rough.lenBlocks - rough.firstDataBlock, info.blocksPerGroup, rough.groups);
    HeaderFacts(info, rough, rough, rough.groups - 1);
    LastMeasure(rough.lenBlocks, info.blocksPerGroup, rough.firstDataBlock, rough.groups, LastBlocks(info, rough));
  }

  lemma AtLeastOne(info: Info)
    requires info.blockSize > 0 && info.len / info.blockSize > (if info.blockSize > 1024 then 0 else 1)
    requires info.blocksPerGroup > 0
    ensures Rough(info).groups >= 1
  {
    DivUpPositive(info.len / info.blockSize - Rough(info).firstDataBlock, info.blocksPerGroup);
  }

  /** ext4_create_fs_aux_info. It drops a last group too small for its header, but measures
      it as if the first data block were 0: all groups that are kept fit exactly if that is so,
      or if the measure does not happen to equal the header; and one that has room is dropped
      exactly if it is not so and the group is full. */
  method CreateFsAuxInfo(info: Info) returns (aux: Aux)
    requires info.blockSize > 0 && info.len / info.blockSize > (if info.blockSize > 1024 then 0 else 1)
    requires info.blocksPerGroup > 0
    requires forall i: nat :: Header(info, Rough(info), i) < info.blocksPerGroup
    ensures GroupsFit(info, aux) <==>
            info.blockSize > 1024
            || LastSize(info, Rough(info)) != Header(info, Rough(info), Rough(info).groups - 1)
    ensures Measures(info, Rough(info))
    ensures var rough := Rough(info);
            && (aux == rough
                || (aux == rough.(groups := rough.groups - 1, lenBlocks := rough.lenBlocks - LastSize(info, rough))
                    && LastSize(info, rough) < Header(info, rough, rough.groups - 1)))
    ensures var rough := Rough(info);
            rough.groups >= 1 && Header(info, rough, rough.groups - 1) <= LastBlocks(info, rough) ==>
              (aux.groups < rough.groups <==> info.blockSize <= 1024 && LastBlocks(info, rough) == info.blocksPerGroup)
  {
    hide HasSuper, DivUp, LastSize, Header, GroupsFit, Rough, LastBlocks, Measures;
    aux := Rough(info);
    ghost var rough := aux;
    AtLeastOne(info);
    var lastGroupSize := LastSize(info, aux);
    var lastHeaderSize := HeaderBlocks(info, aux, aux.groups - 1);
    if lastGroupSize > 0 && lastGroupSize < lastHeaderSize {
      aux := aux.(groups := aux.groups - 1, lenBlocks := aux.lenBlocks - lastGroupSize);
    }
    LastGroup(info, rough, aux);
    FullGroup(info);
    RoughMeasures(info);
  }

  /** An image of five 1K blocks: they measure as much as the header of the only group, which
      is kept, but the header ends one block behind the image. */
  lemma HeaderOutside()
    ensures var info := Info(5120, 1024, 8192, 8, 128, 0, true);
            var rough := Rough(info);
            LastSize(info, rough) == Header(info, rough, 0) == 5 && rough.groups == 1 && !GroupsFit(info, rough)
  {
    var info := Info(5120, 1024, 8192, 8, 128, 0, true);
    var rough := Rough(info);
    assert rough == Aux(1, 5, 1, 1, 1);
    assert rough.firstDataBlock + 0 * info.blocksPerGroup + Header(info, rough, 0) > rough.lenBlocks;
  }

  /** An image of one full group of 1K blocks: the group measures 1, and nothing is left. */
  method FullGroupDropped() returns (aux: Aux)
    ensures var rough := Rough(FullGroupInfo());
            && rough.groups == 1 && LastBlocks(FullGroupInfo(), rough) == FullGroupInfo().blocksPerGroup
            && Header(FullGroupInfo(), rough, 0) == 5
    ensures aux.groups == 0
  {
    hide PowerOf;
    FullGroupRough();
    aux := CreateFsAuxInfo(FullGroupInfo());
  }

  function FullGroupInfo(): Info {
    Info(8193 * 1024, 1024, 8192, 8, 128, 0, true)
  }

  lemma FullGroupRough()
    ensures Rough(FullGroupInfo()) == Aux(1, 8193, 1, 1, 1)
  {
    DivUnique(8193 * 1024, 1024, 8193, 0);
    DivUnique(8192 + 8191, 8192, 1, 8191);
    DivUnique(1024 + 1023, 1024, 1, 1023);
    DivUnique(32 + 1023, 1024, 1, 31);
  }

  /** Setting up the allocator for an image, with its block groups as computed. */
  method InitAllocator(info: Info, aux: Aux) returns (a: Allocator)
    requires GroupsFit(info, aux) && info.blocksPerGroup <= 8 * info.blockSize
    requires forall i: nat :: Header(info, aux, i) <= info.blocksPerGroup
    ensures fresh(a) && a.Valid() && a.live == [] && |a.groups| == aux.groups
    ensures forall i: nat :: i < aux.groups ==> a.groups[i].headerBlocks == Header(info, aux, i)
    ensures forall i: nat :: i < aux.groups ==>
              && a.groups[i].limit == Inside(aux.firstDataBlock + i * info.blocksPerGroup, info.blocksPerGroup, aux.lenBlocks)
              && a.groups[i].freeBlocks == a.groups[i].limit - a.groups[i].headerBlocks
              && a.groups[i].firstBlock == aux.firstDataBlock + i * info.blocksPerGroup
  {
    hide HasSuper;
    var headers: seq<nat> := [];
    for i := 0 to aux.groups
      invariant |headers| == i && forall k: nat :: k < i ==> headers[k] == Header(info, aux, k)
    {
      var h := HeaderBlocks(info, aux, i);
      headers := headers + [h];
    }
    a := new Allocator(aux.firstDataBlock, info.blocksPerGroup, info.blockSize, aux.lenBlocks, headers);
    assert |a.Bottoms()| == |a.groups|;
    forall i: nat | i < aux.groups
      ensures
        && a.groups[i].freeBlocks == a.groups[i].limit - a.groups[i].headerBlocks
        && a.groups[i].firstBlock == aux.firstDataBlock + i * info.blocksPerGroup
    {
      assert a.GroupOk(i);
      assert headers[i] == a.Bottoms()[i];
    }
    assert forall i: nat :: i < aux.groups ==> a.Bottoms()[i] == a.groups[i].headerBlocks;
  }
}
