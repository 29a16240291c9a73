/** File extents: written by do_inode_allocate_extents of tools/ext4_utils/extent.c, read
    back by get_block_list_extents of tools/ext4_utils/ext4fixup.c. */
module Extents {
  import opened Rounding
  import opened LittleEndian
  import opened Allocator
  import opened BackedBlocks

  const EXT_MAGIC: nat := 0xf30a
  const RECORD: nat := 12
  /** Bytes in i_block. */
  const I_BLOCK: nat := 60

  /** A run of blocks of the image. */
  datatype Run = Run(block: nat, len: nat)

  function Header(entries: nat, max: nat, depth: nat): (r: Bytes)
    ensures |r| == RECORD
  {
    U16(EXT_MAGIC) + U16(entries) + U16(max) + U16(depth) + U32(0)
  }

  function ExtentRecord(fileBlock: nat, r: Run): (b: Bytes)
    ensures |b| == RECORD
  {
    U32(fileBlock) + U16(r.len) + U16(0) + U32(r.block)
  }

  function IndexRecord(leaf: nat): (b: Bytes)
    ensures |b| == RECORD
  {
    U32(0) + U32(leaf) + U16(0) + U16(0)
  }

  /** Blocks in the first n runs: the file block at which the next one starts. */
  function Before(runs: seq<Run>, n: nat): nat
    requires n <= |runs|
  {
    if n == 0 then 0 else Before(runs, n - 1) + runs[n - 1].len
  }

  /** The blocks of the first n runs, in file order. */
  function BlocksOf(runs: seq<Run>, n: nat): (r: seq<nat>)
    requires n <= |runs|
    ensures |r| == Before(runs, n)
  {
    if n == 0 then [] else BlocksOf(runs, n - 1) + seq(runs[n - 1].len, j requires 0 <= j => runs[n - 1].block + j)
  }

  /** Runs that the fields of an extent can hold. */
  ghost predicate RunsFit(runs: seq<Run>) {
    && Before(runs, |runs|) < 0x1_0000_0000
    && forall i :: 0 <= i < |runs| ==> runs[i].len < 0x1_0000 && runs[i].block < 0x1_0000_0000
  }

  ghost predicate SlotIs(s: Bytes, i: nat, b: Bytes)
    requires |b| == RECORD
  {
    RECORD * i + RECORD <= |s| && s[RECORD * i..RECORD * i + RECORD] == b
  }

  /** The buffer holds a header and, after it, the first n extents. */
  ghost predicate Holds(s: Bytes, entries: nat, max: nat, runs: seq<Run>, n: nat)
    requires n <= |runs|
  {
    SlotIs(s, 0, Header(entries, max, 0)) && forall i: nat :: i < n ==> SlotIs(s, i + 1, ExtentRecord(Before(runs, i), runs[i]))
  }

  lemma HeaderRead(s: Bytes, entries: nat, max: nat, depth: nat)
    requires SlotIs(s, 0, Header(entries, max, depth)) && entries < 0x1_0000 && depth < 0x1_0000
    ensures Get16(s, 0) == EXT_MAGIC == 0xf30a && Get16(s, 2) == entries && Get16(s, 4) == max % 0x1_0000 && Get16(s, 6) == depth
  {
    hide U16, U32, Get16;
    var m, e, x, d, g := U16(EXT_MAGIC), U16(entries), U16(max), U16(depth), U32(0);
    assert m + e + x + d + g == [] + m + (e + x + d + g) == m + e + (x + d + g) == (m + e) + x + (d + g) == (m + e + x) + d + g;
    FieldAt(s, 0, [], m, e + x + d + g);
    FieldAt(s, 0, m, e, x + d + g);
    FieldAt(s, 0, m + e, x, d + g);
    FieldAt(s, 0, m + e + x, d, g);
    Field16(s, 0, EXT_MAGIC);
    Field16(s, 2, entries);
    Field16(s, 4, max);
    Field16(s, 6, depth);
  }

  lemma ExtentRead(s: Bytes, i: nat, fileBlock: nat, r: Run)
    requires SlotIs(s, i, ExtentRecord(fileBlock, r))
    requires fileBlock < 0x1_0000_0000 && r.len < 0x1_0000 && r.block < 0x1_0000_0000
    ensures
      var o := RECORD * i;
      Get32(s, o) == fileBlock && Get16(s, o + 4) == r.len && Get16(s, o + 6) == 0 && Get32(s, o + 8) == r.block
  {
    hide U16, U32, Get16, Get32;
    var o := RECORD * i;
    var f, l, h, b := U32(fileBlock), U16(r.len), U16(0), U32(r.block);
    assert f + l + h + b == [] + f + (l + h + b) == f + l + (h + b) == (f + l) + h + b == (f + l + h) + b + [];
    FieldAt(s, o, [], f, l + h + b);
    FieldAt(s, o, f, l, h + b);
    FieldAt(s, o, f + l, h, b);
    FieldAt(s, o, f + l + h, b, []);
    Field32(s, o, fileBlock);
    Field16(s, o + 4, r.len);
    Field16(s, o + 6, 0);
    Field32(s, o + 8, r.block);
  }

  lemma IndexRead(s: Bytes, leaf: nat)
    requires SlotIs(s, 1, IndexRecord(leaf)) && leaf < 0x1_0000_0000
    ensures Get32(s, RECORD) == 0 && Get32(s, RECORD + 4) == leaf && Get16(s, RECORD + 8) == 0
  {
    hide U16, U32, Get16, Get32;
    var b, l, h, u := U32(0), U32(leaf), U16(0), U16(0);
    assert b + l + h + u == [] + b + (l + h + u) == b + l + (h + u) == (b + l) + h + u;
    FieldAt(s, RECORD, [], b, l + h + u);
    FieldAt(s, RECORD, b, l, h + u);
    FieldAt(s, RECORD, b + l, h, u);
    Field32(s, RECORD, 0);
    Field32(s, RECORD + 4, leaf);
    Field16(s, RECORD + 8, 0);
  }

  lemma SlotPut(s: Bytes, i: nat, b: Bytes, k: nat, c: Bytes)
    requires |b| == RECORD && |c| == RECORD && RECORD * i + RECORD <= |s|
    requires k != i ==> SlotIs(s, k, c)
    ensures SlotIs(Put(s, RECORD * i, b), k, if k == i then b else c)
  {
  }

  lemma HoldsMore(s: Bytes, entries: nat, max: nat, runs: seq<Run>, i: nat)
    requires i < |runs| && Holds(s, entries, max, runs, i) && RECORD * (i + 1) + RECORD <= |s|
    ensures Holds(Put(s, RECORD * (i + 1), ExtentRecord(Before(runs, i), runs[i])), entries, max, runs, i + 1)
  {
    hide Header, ExtentRecord, SlotIs, Put, Before;
    var at := i + 1;
    var b := ExtentRecord(Before(runs, i), runs[i]);
    SlotPut(s, at, b, 0, Header(entries, max, 0));
    forall k: nat | k < at ensures SlotIs(Put(s, RECORD * at, b), k + 1, ExtentRecord(Before(runs, k), runs[k])) {
      SlotPut(s, at, b, k + 1, ExtentRecord(Before(runs, k), runs[k]));
    }
  }

  /** From byte `from` on there are only zeros. */
  ghost predicate ClearFrom(s: Bytes, from: nat) {
    forall k: nat :: from <= k < |s| ==> s[k] == 0
  }

  lemma ClearPast(s: Bytes, from: nat, at: nat, b: Bytes)
    requires at + |b| <= |s| && ClearFrom(s, from) && from <= at + |b|
    ensures ClearFrom(Put(s, at, b), at + |b|)
  {
    var t := Put(s, at, b);
    forall k: nat | at + |b| <= k < |t| ensures t[k] == 0 {
      assert t[k] == s[k];
    }
  }

  /** What the records of a file's tree do not take, in the inode and in the leaf. */
  ghost predicate RestClear(iBlock: Bytes, leaf: nat, leafData: Bytes, n: nat) {
    if leaf == 0 then ClearFrom(iBlock, 12 * (n + 1)) else ClearFrom(iBlock, 24) && ClearFrom(leafData, 12 * (n + 1))
  }

  /** The loop of do_inode_allocate_extents that fills in the extents. */
  method WriteExtents(buf: array<byte>, runs: seq<Run>, ghost entries: nat, ghost max: nat)
    requires RECORD * (|runs| + 1) <= buf.Length && SlotIs(buf[..], 0, Header(entries, max, 0))
    requires ClearFrom(buf[..], RECORD)
    modifies buf
    ensures Holds(buf[..], entries, max, runs, |runs|) && ClearFrom(buf[..], RECORD * (|runs| + 1))
  {
    hide Header, ExtentRecord, SlotIs, Put, Holds, ClearFrom;
    var fileBlock := 0;
    NoneHeld(buf[..], entries, max, runs);
    for i := 0 to |runs|
      invariant fileBlock == Before(runs, i) && Holds(buf[..], entries, max, runs, i)
      invariant ClearFrom(buf[..], RECORD * (i + 1))
    {
      HoldsMore(buf[..], entries, max, runs, i);
      ClearPast(buf[..], RECORD * (i + 1), RECORD * (i + 1), ExtentRecord(fileBlock, runs[i]));
      PutBytes(buf, RECORD * (i + 1), ExtentRecord(fileBlock, runs[i]));
      fileBlock := fileBlock + runs[i].len;
    }
  }

  lemma NoneHeld(s: Bytes, entries: nat, max: nat, runs: seq<Run>)
    requires SlotIs(s, 0, Header(entries, max, 0))
    ensures Holds(s, entries, max, runs, 0)
  {
  }

  /** The fields that the reader finds. */
  lemma HeldExtent(s: Bytes, entries: nat, max: nat, runs: seq<Run>, i: nat)
    requires Holds(s, entries, max, runs, |runs|) && RunsFit(runs) && i < |runs|
    ensures
      var o := RECORD * (i + 1);
      && o + RECORD <= |s| && Get32(s, o) == Before(runs, i) && Get16(s, o + 4) == runs[i].len
      && Get16(s, o + 6) == 0 && Get32(s, o + 8) == runs[i].block
    ensures Before(runs, i) + runs[i].len == Before(runs, i + 1) <= Before(runs, |runs|)
  {
    hide Header, ExtentRecord, Get16, Get32, Holds, SlotIs;
    BeforeMono(runs, i + 1, |runs|);
    HeldSlot(s, entries, max, runs, i);
    SlotFits(s, i + 1, ExtentRecord(Before(runs, i), runs[i]));
    ExtentRead(s, i + 1, Before(runs, i), runs[i]);
  }

  lemma HeldSlot(s: Bytes, entries: nat, max: nat, runs: seq<Run>, i: nat)
    requires Holds(s, entries, max, runs, |runs|) && i < |runs|
    ensures SlotIs(s, i + 1, ExtentRecord(Before(runs, i), runs[i]))
  {
    hide Header, ExtentRecord, SlotIs;
  }

  lemma HeldHeader(s: Bytes, entries: nat, max: nat, runs: seq<Run>, n: nat)
    requires n <= |runs| && Holds(s, entries, max, runs, n) && entries < 0x1_0000
    ensures |s| >= RECORD && Get16(s, 0) == EXT_MAGIC && Get16(s, 2) == entries && Get16(s, 4) == max % 0x1_0000 && Get16(s, 6) == 0
  {
    hide Header, Get16;
    HeaderRead(s, entries, max, 0);
  }

  lemma SlotFits(s: Bytes, i: nat, b: Bytes)
    requires |b| == RECORD && SlotIs(s, i, b)
    ensures RECORD * i + RECORD <= |s|
  {
  }

  lemma {:induction false} BeforeMono(runs: seq<Run>, i: nat, j: nat)
    requires i <= j <= |runs|
    ensures Before(runs, i) <= Before(runs, j)
    decreases j
  {
    if i < j {
      BeforeMono(runs, i, j - 1);
    }
  }

  // ----- which blocks -----

  /** Runs share no block. */
  ghost predicate RunsApart(runs: seq<Run>) {
    forall i, j :: 0 <= i < j < |runs| ==> runs[i].block + runs[i].len <= runs[j].block || runs[j].block + runs[j].len <= runs[i].block
  }

  lemma {:induction false} BlocksIn(runs: seq<Run>, n: nat, k: nat) returns (i: nat)
    requires n <= |runs| && k < Before(runs, n)
    ensures i < n && Before(runs, i) <= k < Before(runs, i + 1)
    ensures BlocksOf(runs, n)[k] == runs[i].block + (k - Before(runs, i))
  {
    if k < Before(runs, n - 1) {
      i := BlocksIn(runs, n - 1, k);
    } else {
      i := n - 1;
    }
  }

  lemma NextBefore(runs: seq<Run>, i: nat)
    requires i < |runs|
    ensures Before(runs, i + 1) == Before(runs, i) + runs[i].len
  {
  }

  /** The blocks of runs that are apart are distinct. */
  lemma BlocksDistinct(runs: seq<Run>, k: nat, m: nat)
    requires RunsApart(runs) && k < m < Before(runs, |runs|)
    ensures BlocksOf(runs, |runs|)[k] != BlocksOf(runs, |runs|)[m]
  {
    hide BlocksOf, Before;
    var i := BlocksIn(runs, |runs|, k);
    var j := BlocksIn(runs, |runs|, m);
    NextBefore(runs, i);
    NextBefore(runs, j);
    if i > j {
      BeforeMono(runs, j + 1, i);
    }
  }

  /** The inode's extent area leads to the runs, directly or through one leaf block. */
  ghost predicate Maps(iBlock: Bytes, leaf: nat, leafData: Bytes, runs: seq<Run>) {
    && RunsFit(runs) && |runs| < 0x1_0000 && leaf < 0x1_0000_0000
    && if leaf == 0 then Holds(iBlock, |runs|, 3, runs, |runs|)
       else
         && SlotIs(iBlock, 0, Header(1, 3, 1)) && SlotIs(iBlock, 1, IndexRecord(leaf)) && |leafData| >= RECORD
         && Holds(leafData, |runs|, (|leafData| - RECORD) / RECORD, runs, |runs|)
  }

  // ----- reading extents -----

  /** An extent of a file: a run, and the block of the file at which it starts. */
  datatype Extent = Extent(fileBlock: nat, run: Run)

  /** The tree of a file's extents. */
  datatype Tree = Leaf(extents: seq<Extent>) | Index(children: seq<Tree>)

  /** The blocks of the disk. */
  type Disk = nat -> Bytes

  ghost predicate ExtentAt(s: Bytes, o: nat, e: Extent) {
    && o + 12 <= |s| && Get32(s, o) == e.fileBlock && Get16(s, o + 4) == e.run.len
    && Get16(s, o + 6) * 0x1_0000_0000 + Get32(s, o + 8) == e.run.block
  }

  /** The block that the index at o leads to. */
  function ChildBlock(s: Bytes, o: nat): nat
    requires o + 12 <= |s|
  {
    Get16(s, o + 8) * 0x1_0000_0000 + Get32(s, o + 4)
  }

  /** The node, and what it leads to on the disk, are the tree. */
  ghost predicate NodeHolds(disk: Disk, s: Bytes, t: Tree)
    decreases t
  {
    && |s| >= 12
    && match t
       case Leaf(es) => Get16(s, 6) == 0 && Get16(s, 2) == |es| && forall i: nat :: i < |es| ==> ExtentAt(s, 12 * (i + 1), es[i])
       case Index(cs) =>
         && Get16(s, 6) != 0 && Get16(s, 2) == |cs| && 12 * (|cs| + 1) <= |s|
         && forall i: nat :: i < |cs| ==> NodeHolds(disk, disk(ChildBlock(s, 12 * (i + 1))), cs[i])
  }

  /** All the extents, in order. */
  ghost function ExtentsOf(t: Tree): seq<Extent>
    decreases t, 0
  {
    match t
    case Leaf(es) => es
    case Index(cs) => AllExtents(cs, |cs|)
  }

  ghost function AllExtents(cs: seq<Tree>, n: nat): seq<Extent>
    requires n <= |cs|
    decreases cs, n
  {
    if n == 0 then [] else AllExtents(cs, n - 1) + ExtentsOf(cs[n - 1])
  }

  ghost predicate ExtentsFit(es: seq<Extent>, len: nat) {
    forall i :: 0 <= i < |es| ==> es[i].fileBlock + es[i].run.len <= len
  }

  /** A block list after the blocks of an extent have been put in it. */
  ghost function Fill(list: seq<nat>, e: Extent): (r: seq<nat>)
    requires e.fileBlock + e.run.len <= |list|
    ensures |r| == |list|
    ensures forall k: nat :: k < |r| ==>
              r[k] == if e.fileBlock <= k < e.fileBlock + e.run.len then e.run.block + (k - e.fileBlock) else list[k]
  {
    seq(|list|, k requires 0 <= k < |list| =>
      if e.fileBlock <= k < e.fileBlock + e.run.len then e.run.block + (k - e.fileBlock) else list[k])
  }

  ghost function Filled(list: seq<nat>, es: seq<Extent>): (r: seq<nat>)
    requires ExtentsFit(es, |list|)
    ensures |r| == |list|
  {
    if es == [] then list else Fill(Filled(list, es[..|es| - 1]), es[|es| - 1])
  }

  lemma {:induction false} FilledAppend(list: seq<nat>, a: seq<Extent>, b: seq<Extent>)
    requires ExtentsFit(a, |list|) && ExtentsFit(b, |list|) && ExtentsFit(a + b, |list|)
    ensures Filled(list, a + b) == Filled(Filled(list, a), b)
    decreases |b|
  {
    hide Fill;
    if b == [] {
      assert a + b == a;
    } else {
      var n := |b| - 1;
      assert (a + b)[..|a| + n] == a + b[..n];
      FilledAppend(list, a, b[..n]);
    }
  }

  /** Extents that have no block of the file in common all end up in the list. */
  lemma {:induction false} FilledAt(list: seq<nat>, es: seq<Extent>, i: nat, j: nat)
    requires ExtentsFit(es, |list|) && i < |es| && j < es[i].run.len
    requires forall k :: i < k < |es| ==>
               es[k].fileBlock + es[k].run.len <= es[i].fileBlock || es[i].fileBlock + es[i].run.len <= es[k].fileBlock
    ensures Filled(list, es)[es[i].fileBlock + j] == es[i].run.block + j
    decreases |es|
  {
    var n := |es| - 1;
    if i < n {
      FilledAt(list, es[..n], i, j);
    }
  }

  /** The inner loop of get_extent_ents: one extent. */
  method ReadExtent(blockList: array<nat>, eeBlock: nat, eeLen: nat, fsBlockNum: nat)
    requires eeBlock + eeLen <= blockList.Length
    modifies blockList
    ensures blockList[..] == Fill(old(blockList[..]), Extent(eeBlock, Run(fsBlockNum, eeLen)))
  {
    for j := 0 to eeLen
      invariant forall m: nat :: m < blockList.Length ==>
                  blockList[m] == if eeBlock <= m < eeBlock + j then fsBlockNum + (m - eeBlock) else old(blockList[m])
    {
      blockList[eeBlock + j] := fsBlockNum + j;
    }
  }

  /** get_extent_ents. */
  method GetExtentEnts(s: Bytes, blockList: array<nat>, ghost disk: Disk, ghost es: seq<Extent>)
    requires NodeHolds(disk, s, Leaf(es)) && ExtentsFit(es, blockList.Length)
    modifies blockList
    ensures blockList[..] == Filled(old(blockList[..]), es)
  {
    hide Get16, Get32, Fill;
    var entries := Get16(s, 2);
    for i := 0 to entries
      invariant ExtentsFit(es[..i], blockList.Length) && blockList[..] == Filled(old(blockList[..]), es[..i])
    {
      var o := 12 * (i + 1);
      assert ExtentAt(s, o, es[i]);
      assert es[..i + 1][..i] == es[..i];
      ReadExtent(blockList, Get32(s, o), Get16(s, o + 4), Get16(s, o + 6) * 0x1_0000_0000 + Get32(s, o + 8));
    }
    assert es[..|es|] == es;
  }

  /** get_extent_idx, on a disk whose indices lead down a tree. */
  method GetExtentIdx(disk: Disk, s: Bytes, blockList: array<nat>, ghost t: Tree)
    requires t.Index? && NodeHolds(disk, s, t) && ExtentsFit(ExtentsOf(t), blockList.Length)
    modifies blockList
    ensures blockList[..] == Filled(old(blockList[..]), ExtentsOf(t))
    decreases t
  {
    hide Get16, Get32, Filled, ExtentsOf;
    ghost var cs := t.children;
    NodeParts(disk, s, t);
    IndexExtents(cs);
    NoneFilled(blockList[..]);
    var entries := Get16(s, 2);
    for i := 0 to entries
      invariant ExtentsFit(AllExtents(cs, i), blockList.Length) && blockList[..] == Filled(old(blockList[..]), AllExtents(cs, i))
    {
      var block := disk(Get16(s, 12 * (i + 1) + 8) * 0x1_0000_0000 + Get32(s, 12 * (i + 1) + 4));
      assert NodeHolds(disk, block, cs[i]);
      PartFits(cs, i, blockList.Length);
      FilledAppend(old(blockList[..]), AllExtents(cs, i), ExtentsOf(cs[i]));
      NodeDepth(disk, block, cs[i]);
      if Get16(block, 6) == 0 {
        GetExtentEnts(block, blockList, disk, cs[i].extents);
      } else {
        GetExtentIdx(disk, block, blockList, cs[i]);
      }
    }
  }

  lemma NodeParts(disk: Disk, s: Bytes, t: Tree)
    requires t.Index? && NodeHolds(disk, s, t)
    ensures Get16(s, 2) == |t.children| && 12 * (|t.children| + 1) <= |s|
    ensures forall i: nat :: i < |t.children| ==> NodeHolds(disk, disk(ChildBlock(s, 12 * (i + 1))), t.children[i])
  {
    hide Get16, Get32;
  }

  lemma NodeDepth(disk: Disk, s: Bytes, t: Tree)
    requires NodeHolds(disk, s, t)
    ensures |s| >= 12 && (Get16(s, 6) == 0 <==> t.Leaf?) && (t.Leaf? ==> ExtentsOf(t) == t.extents)
  {
    hide Get16, Get32;
  }

  lemma IndexExtents(cs: seq<Tree>)
    ensures ExtentsOf(Index(cs)) == AllExtents(cs, |cs|) && AllExtents(cs, 0) == []
  {
  }

  lemma NoneFilled(list: seq<nat>)
    ensures Filled(list, []) == list
  {
  }

  /** The first extents of a list that fits fit too. */
  lemma {:induction false} PartFits(cs: seq<Tree>, i: nat, len: nat)
    requires i < |cs| && ExtentsFit(AllExtents(cs, |cs|), len)
    ensures AllExtents(cs, i + 1) == AllExtents(cs, i) + ExtentsOf(cs[i])
    ensures ExtentsFit(AllExtents(cs, i + 1), len) && ExtentsFit(AllExtents(cs, i), len) && ExtentsFit(ExtentsOf(cs[i]), len)
    decreases |cs| - i
  {
    hide ExtentsOf;
    if i + 1 < |cs| {
      PartFits(cs, i + 1, len);
    }
    FitParts(AllExtents(cs, i), ExtentsOf(cs[i]), len);
  }

  lemma FitParts(a: seq<Extent>, b: seq<Extent>, len: nat)
    requires ExtentsFit(a + b, len)
    ensures ExtentsFit(a, len) && ExtentsFit(b, len)
  {
    forall i | 0 <= i < |a| ensures a[i].fileBlock + a[i].run.len <= len {
      assert (a + b)[i] == a[i];
    }
    forall i | 0 <= i < |b| ensures b[i].fileBlock + b[i].run.len <= len {
      assert (a + b)[|a| + i] == b[i];
    }
  }

  /** get_block_list_extents, for a tree of any depth; it fails for another magic number. */
  method GetBlockListExtents(disk: Disk, iBlock: Bytes, blockList: array<nat>, ghost t: Tree) returns (ok: bool)
    requires |iBlock| >= 12 && (Get16(iBlock, 0) == 0xf30a ==> NodeHolds(disk, iBlock, t) && ExtentsFit(ExtentsOf(t), blockList.Length))
    modifies blockList
    ensures ok <==> Get16(iBlock, 0) == 0xf30a
    ensures blockList[..] == if ok then Filled(old(blockList[..]), ExtentsOf(t)) else old(blockList[..])
  {
    hide Get16, Get32, Filled;
    if Get16(iBlock, 0) != EXT_MAGIC {
      return false;
    }
    NodeDepth(disk, iBlock, t);
    if Get16(iBlock, 6) == 0 {
      GetExtentEnts(iBlock, blockList, disk, t.extents);
      return true;
    }
    GetExtentIdx(disk, iBlock, blockList, t);
    return true;
  }

  // ----- reading back what was written -----

  function RunExtents(runs: seq<Run>, n: nat): (r: seq<Extent>)
    requires n <= |runs|
    ensures |r| == n && forall i: nat :: i < n ==> r[i] == Extent(Before(runs, i), runs[i])
  {
    if n == 0 then [] else RunExtents(runs, n - 1) + [Extent(Before(runs, n - 1), runs[n - 1])]
  }

  function TreeOf(leaf: nat, runs: seq<Run>): Tree {
    if leaf == 0 then Leaf(RunExtents(runs, |runs|)) else Index([Leaf(RunExtents(runs, |runs|))])
  }

  lemma LeafHolds(disk: Disk, s: Bytes, max: nat, runs: seq<Run>)
    requires Holds(s, |runs|, max, runs, |runs|) && RunsFit(runs) && |runs| < 0x1_0000
    ensures NodeHolds(disk, s, Leaf(RunExtents(runs, |runs|)))
  {
    hide Get16, Get32, Holds, RunsFit, RunExtents;
    HeldHeader(s, |runs|, max, runs, |runs|);
    var es := RunExtents(runs, |runs|);
    forall i: nat | i < |es| ensures ExtentAt(s, 12 * (i + 1), es[i]) {
      HeldExtent(s, |runs|, max, runs, i);
    }
  }

  /** What the writer leaves is such a tree, on a disk that has its leaf. */
  lemma MapsHolds(disk: Disk, iBlock: Bytes, leaf: nat, leafData: Bytes, runs: seq<Run>)
    requires Maps(iBlock, leaf, leafData, runs) && (leaf != 0 ==> disk(leaf) == leafData)
    ensures NodeHolds(disk, iBlock, TreeOf(leaf, runs)) && Get16(iBlock, 0) == 0xf30a
    ensures ExtentsOf(TreeOf(leaf, runs)) == RunExtents(runs, |runs|)
  {
    hide Get16, Get32, Holds, RunsFit, RunExtents, Header, IndexRecord, SlotIs;
    if leaf == 0 {
      LeafHolds(disk, iBlock, 3, runs);
      HeldHeader(iBlock, |runs|, 3, runs, |runs|);
    } else {
      LeafHolds(disk, leafData, (|leafData| - RECORD) / RECORD, runs);
      SlotFits(iBlock, 0, Header(1, 3, 1));
      SlotFits(iBlock, 1, IndexRecord(leaf));
      HeaderRead(iBlock, 1, 3, 1);
      IndexRead(iBlock, leaf);
      IndexNode(disk, iBlock, leaf, Leaf(RunExtents(runs, |runs|)));
    }
  }

  lemma IndexNode(disk: Disk, s: Bytes, leaf: nat, t: Tree)
    requires |s| >= 24 && Get16(s, 6) == 1 && Get16(s, 2) == 1 && ChildBlock(s, 12) == leaf && NodeHolds(disk, disk(leaf), t)
    ensures NodeHolds(disk, s, Index([t])) && ExtentsOf(Index([t])) == ExtentsOf(t)
  {
    hide Get16, Get32;
    assert AllExtents([t], 1) == AllExtents([t], 0) + ExtentsOf(t);
  }

  /** Runs that follow each other in the file fill the list from its start. */
  lemma {:induction false} FilledRuns(list: seq<nat>, runs: seq<Run>, n: nat)
    requires n <= |runs| && Before(runs, |runs|) <= |list|
    ensures ExtentsFit(RunExtents(runs, n), |list|) && Before(runs, n) <= |list|
    ensures Filled(list, RunExtents(runs, n))[..Before(runs, n)] == BlocksOf(runs, n)
  {
    hide BlocksOf, Fill, Filled, Before, ExtentsFit;
    BeforeMono(runs, n, |runs|);
    RunExtentsFit(list, runs, n);
    if n > 0 {
      FilledRuns(list, runs, n - 1);
      FilledLast(list, runs, n);
      FillNext(Filled(list, RunExtents(runs, n - 1)), runs, n - 1);
    } else {
      NoBlocks(runs);
    }
  }

  lemma RunExtentsFit(list: seq<nat>, runs: seq<Run>, n: nat)
    requires n <= |runs| && Before(runs, |runs|) <= |list|
    ensures ExtentsFit(RunExtents(runs, n), |list|)
  {
    hide Before;
    forall i: nat | i < n ensures Before(runs, i) + runs[i].len <= |list| {
      NextBefore(runs, i);
      BeforeMono(runs, i + 1, |runs|);
    }
  }

  lemma FilledLast(list: seq<nat>, runs: seq<Run>, n: nat)
    requires 0 < n <= |runs| && ExtentsFit(RunExtents(runs, n), |list|) && ExtentsFit(RunExtents(runs, n - 1), |list|)
    ensures Before(runs, n - 1) + runs[n - 1].len <= |list|
    ensures Filled(list, RunExtents(runs, n)) == Fill(Filled(list, RunExtents(runs, n - 1)), Extent(Before(runs, n - 1), runs[n - 1]))
  {
    hide Fill, Before;
    var es := RunExtents(runs, n);
    assert es[..n - 1] == RunExtents(runs, n - 1) && es[n - 1] == Extent(Before(runs, n - 1), runs[n - 1]);
  }

  lemma NoBlocks(runs: seq<Run>)
    ensures Before(runs, 0) == 0 && BlocksOf(runs, 0) == []
  {
  }

  lemma FillNext(list: seq<nat>, runs: seq<Run>, n: nat)
    requires n < |runs| && Before(runs, n + 1) <= |list| && Before(runs, n) <= |list| && list[..Before(runs, n)] == BlocksOf(runs, n)
    ensures Before(runs, n) + runs[n].len == Before(runs, n + 1)
    ensures Fill(list, Extent(Before(runs, n), runs[n]))[..Before(runs, n + 1)] == BlocksOf(runs, n + 1)
  {
    NextBefore(runs, n);
    var r := Fill(list, Extent(Before(runs, n), runs[n]));
    assert r[..Before(runs, n)] == list[..Before(runs, n)];
    assert r[..Before(runs, n + 1)] == r[..Before(runs, n)] + r[Before(runs, n)..Before(runs, n + 1)];
    assert r[Before(runs, n)..Before(runs, n + 1)] == seq(runs[n].len, j requires 0 <= j => runs[n].block + j);
  }

  // ----- allocating a file's blocks -----

  /** Lost: the regions were taken, but the list of them was left empty, or with only its
      first block, when a block was split off; the file's data has no place to go. */
  datatype Status = Ok | NoSpace | TooBig | Overflow | Lost

  /** Some group has two free blocks. */
  ghost predicate Roomy(f: seq<nat>) {
    exists g :: 0 <= g < |f| && f[g] >= 2
  }

  ghost function RunOf(a: Allocator, r: Region): Run
    requires r.group < |a.groups|
  {
    Run(a.groups[r.group].firstBlock + r.start, r.len)
  }

  /** Every block number fits in 32 bits and every run in 16, and every group has a header. */
  ghost predicate Small(a: Allocator) {
    && a.perGroup < 0x1_0000
    && forall g :: 0 <= g < |a.groups| ==> a.groups[g].firstBlock + a.perGroup < 0x1_0000_0000 && a.groups[g].headerBlocks >= 2
  }

  method ToRuns(a: Allocator, regions: seq<Region>) returns (runs: seq<Run>)
    requires forall i :: 0 <= i < |regions| ==> regions[i].group < |a.groups|
    ensures |runs| == |regions| && forall i :: 0 <= i < |runs| ==> runs[i] == RunOf(a, regions[i])
  {
    runs := [];
    for i := 0 to |regions|
      invariant |runs| == i && forall k :: 0 <= k < i ==> runs[k] == RunOf(a, regions[k])
    {
      runs := runs + [Run(a.groups[regions[i].group].firstBlock + regions[i].start, regions[i].len)];
    }
  }

  /** A run lies in its group, past the header. */
  ghost predicate RunInside(a: Allocator, r: Run, g: nat)
    requires g < |a.groups|
  {
    a.groups[g].firstBlock + a.groups[g].headerBlocks <= r.block && r.block + r.len <= a.groups[g].firstBlock + a.perGroup
  }

  lemma GroupsApart(a: Allocator, g: nat, h: nat)
    requires a.Valid() && g < h < |a.groups|
    ensures a.groups[g].firstBlock + a.perGroup <= a.groups[h].firstBlock
  {
    assert a.GroupOk(g) && a.GroupOk(h);
    MulLe(g + 1, h, a.perGroup);
    assert (g + 1) * a.perGroup == g * a.perGroup + a.perGroup;
  }

  /** Runs in different groups are apart. */
  lemma InsideApart(a: Allocator, runs: seq<Run>, groups: seq<nat>)
    requires a.Valid() && |groups| == |runs|
    requires forall i :: 0 <= i < |runs| ==> groups[i] < |a.groups| && RunInside(a, runs[i], groups[i])
    requires forall i, j :: 0 <= i < j < |runs| ==> groups[i] != groups[j]
    ensures RunsApart(runs)
  {
    forall i, j | 0 <= i < j < |runs|
      ensures runs[i].block + runs[i].len <= runs[j].block || runs[j].block + runs[j].len <= runs[i].block
    {
      assert RunInside(a, runs[i], groups[i]) && RunInside(a, runs[j], groups[j]);
      if groups[i] < groups[j] {
        GroupsApart(a, groups[i], groups[j]);
      } else {
        GroupsApart(a, groups[j], groups[i]);
      }
    }
  }

  lemma {:induction false} RunsTotal(runs: seq<Run>, regions: seq<Region>, n: nat)
    requires |runs| == |regions| && n <= |runs| && forall i :: 0 <= i < |runs| ==> runs[i].len == regions[i].len
    ensures Before(runs, n) == TotalLen(regions[..n])
  {
    if n > 0 {
      RunsTotal(runs, regions, n - 1);
      assert regions[..n][..n - 1] == regions[..n - 1];
    }
  }

  lemma {:induction false} FirstShorter(runs: seq<Run>, runs': seq<Run>, n: nat)
    requires |runs| == |runs'| && 0 < n <= |runs| && runs'[0].len + 1 == runs[0].len
    requires forall i :: 0 < i < |runs| ==> runs'[i].len == runs[i].len
    ensures Before(runs', n) + 1 == Before(runs, n)
  {
    if n > 1 {
      FirstShorter(runs, runs', n - 1);
    } else {
      assert Before(runs, 0) == 0 && Before(runs', 0) == 0;
    }
  }

  /** The regions just handed out, as runs. */
  ghost predicate FreshRuns(a: Allocator, regions: seq<Region>, runs: seq<Run>, blocks: nat) {
    && |runs| == |regions| && Before(runs, |runs|) == blocks
    && (forall i :: 0 <= i < |runs| ==> regions[i].group < |a.groups| && RunInside(a, runs[i], regions[i].group))
    && (forall i, j :: 0 <= i < j < |regions| ==> regions[i].group != regions[j].group)
  }

  lemma RunsFresh(a: Allocator, before: seq<Region>, regions: seq<Region>, runs: seq<Run>, blocks: nat)
    requires a.Valid() && a.live == before + regions && TotalLen(regions) == blocks && |runs| == |regions|
    requires forall i :: 0 <= i < |regions| ==> regions[i].group < |a.groups| && runs[i] == RunOf(a, regions[i])
    requires forall i, j :: 0 <= i < j < |regions| ==> regions[i].group != regions[j].group
    ensures FreshRuns(a, regions, runs, blocks)
  {
    hide RunInside, RunOf, Allocator.Valid;
    assert regions[..|regions|] == regions;
    RunsTotalOf(a, runs, regions);
    forall i | 0 <= i < |runs| ensures RunInside(a, runs[i], regions[i].group) {
      assert a.live[|before| + i] == regions[i];
      RunIn(a, |before| + i, runs[i]);
    }
  }

  lemma RunsTotalOf(a: Allocator, runs: seq<Run>, regions: seq<Region>)
    requires |runs| == |regions|
    requires forall i :: 0 <= i < |regions| ==> regions[i].group < |a.groups| && runs[i] == RunOf(a, regions[i])
    ensures Before(runs, |runs|) == TotalLen(regions)
  {
    assert regions[..|regions|] == regions;
    RunsTotal(runs, regions, |runs|);
  }

  lemma RunIn(a: Allocator, i: nat, r: Run)
    requires a.Valid() && i < |a.live| && a.live[i].group < |a.groups| && r == RunOf(a, a.live[i])
    ensures RunInside(a, r, a.live[i].group)
  {
    hide Allocator.Valid;
    a.RegionInside(i);
  }

  lemma RegionGroups(a: Allocator, before: seq<Region>, regions: seq<Region>)
    requires a.Valid() && a.live == before + regions
    ensures forall i :: 0 <= i < |regions| ==> regions[i].group < |a.groups|
  {
    forall i | 0 <= i < |regions| ensures regions[i].group < |a.groups| {
      a.RegionInside(|before| + i);
      assert a.live[|before| + i] == regions[i];
    }
  }

  /** Taking one block off the first run leaves runs that are apart and fit their fields. */
  lemma FirstTaken(a: Allocator, regions: seq<Region>, runs: seq<Run>, runs': seq<Run>, blocks: nat)
    requires a.Valid() && Small(a) && FreshRuns(a, regions, runs, blocks + 1) && blocks < 0x1_0000_0000 && runs != []
    requires |runs'| == |runs| && runs'[1..] == runs[1..] && runs'[0].len + 1 == runs[0].len
    requires runs[0].block <= runs'[0].block && runs'[0].block + runs'[0].len <= runs[0].block + runs[0].len
    ensures RunsApart(runs') && RunsFit(runs') && Before(runs', |runs'|) == blocks
  {
    forall i | 0 < i < |runs| ensures runs'[i] == runs[i] {
      assert runs'[i] == runs'[1..][i - 1] && runs[i] == runs[1..][i - 1];
    }
    FirstShorter(runs, runs', |runs|);
    var groups := seq(|runs|, i requires 0 <= i < |runs| => regions[i].group);
    forall i | 0 <= i < |runs'| ensures groups[i] < |a.groups| && RunInside(a, runs'[i], groups[i]) {
      assert RunInside(a, runs[i], regions[i].group);
    }
    InsideApart(a, runs', groups);
  }

  /** A block of the first run that was taken off its front is in none of the runs left. */
  lemma LeafApart(a: Allocator, regions: seq<Region>, runs: seq<Run>, runs': seq<Run>, blocks: nat)
    requires a.Valid() && FreshRuns(a, regions, runs, blocks) && runs != []
    requires runs[0].len > 0 && runs' == [Run(runs[0].block + 1, runs[0].len - 1)] + runs[1..]
    ensures runs[0].block !in BlocksOf(runs', |runs'|)
  {
    var groups := seq(|runs|, i requires 0 <= i < |runs| => regions[i].group);
    InsideApart(a, runs, groups);
    var leaf := runs[0].block;
    forall k: nat | k < Before(runs', |runs'|) ensures BlocksOf(runs', |runs'|)[k] != leaf {
      var i := BlocksIn(runs', |runs'|, k);
      if i > 0 {
        assert runs'[i] == runs[i];
      }
    }
  }

  /** The first region has two blocks or more, if any group has and more than one was asked
      for. */
  lemma FirstLarge(f: seq<nat>, len: nat, regions: seq<Region>)
    requires regions != [] && FirstIsPick(regions, f, len) && len > 0
    ensures regions[0].len > 0 && (regions[0].len >= Min(2, len) <==> Roomy(f) || len == 1)
  {
    var p := regions[0].group;
    if Roomy(f) {
      var g :| 0 <= g < |f| && f[g] >= 2;
      assert f[g] >= len || f[p] >= len || f[g] <= f[p];
    } else {
      assert f[p] < 2;
    }
  }

  lemma EmptyRuns(runs: seq<Run>)
    requires runs == [Run(0, 0)]
    ensures RunsApart(runs) && RunsFit(runs) && Before(runs, 1) == 0
  {
    assert Before(runs, 0) == 0;
  }

  lemma LeafNumber(a: Allocator, regions: seq<Region>, runs: seq<Run>, blocks: nat)
    requires Small(a) && FreshRuns(a, regions, runs, blocks) && runs != []
    ensures 0 < runs[0].block < 0x1_0000_0000 || runs[0].len == 0
  {
    assert RunInside(a, runs[0], regions[0].group);
  }

  lemma ClearSlot(s: Bytes, i: nat)
    requires RECORD * i + RECORD <= |s| && forall k :: RECORD * i <= k < RECORD * i + RECORD ==> s[k] == 0
    ensures SlotIs(s, i, ExtentRecord(0, Run(0, 0)))
  {
  }

  // ----- do_inode_allocate_extents -----

  /** The extent area of an inode with at most three runs. An empty file has one extent, of
      no blocks: the slot is left clear. */
  method WriteInline(iBlock: array<byte>, runs: seq<Run>)
    requires iBlock.Length == I_BLOCK && 0 < |runs| <= 3 && (forall k :: 0 <= k < I_BLOCK ==> iBlock[k] == 0)
    requires RunsFit(runs) && runs[0].len > 0
    modifies iBlock
    ensures Holds(iBlock[..], |runs|, 3, runs, |runs|) && ClearFrom(iBlock[..], RECORD * (|runs| + 1))
  {
    hide Header, ExtentRecord, Holds;
    ClearPast(iBlock[..], 0, 0, Header(|runs|, 3, 0));
    PutBytes(iBlock, 0, Header(|runs|, 3, 0));
    WriteExtents(iBlock, runs, |runs|, 3);
  }

  method WriteEmpty(iBlock: array<byte>) returns (runs: seq<Run>)
    requires iBlock.Length == I_BLOCK && (forall k :: 0 <= k < I_BLOCK ==> iBlock[k] == 0)
    modifies iBlock
    ensures runs == [Run(0, 0)] && Holds(iBlock[..], 1, 3, runs, 1) && ClearFrom(iBlock[..], RECORD * 2)
  {
    hide Header, ExtentRecord;
    runs := [Run(0, 0)];
    PutBytes(iBlock, 0, Header(1, 3, 0));
    ClearSlot(iBlock[..], 1);
    assert Before(runs, 0) == 0;
  }

  method WriteIndex(iBlock: array<byte>, leaf: nat)
    requires iBlock.Length == I_BLOCK && (forall k :: 0 <= k < I_BLOCK ==> iBlock[k] == 0)
    modifies iBlock
    ensures SlotIs(iBlock[..], 0, Header(1, 3, 1)) && SlotIs(iBlock[..], 1, IndexRecord(leaf)) && ClearFrom(iBlock[..], RECORD * 2)
  {
    hide Header, IndexRecord;
    ClearPast(iBlock[..], 0, 0, Header(1, 3, 1));
    PutBytes(iBlock, 0, Header(1, 3, 1));
    ClearPast(iBlock[..], RECORD, RECORD, IndexRecord(leaf));
    PutBytes(iBlock, RECORD, IndexRecord(leaf));
  }

  /** The leaf block, if its extents fit. The check of their number lacks a pair of
      parentheses: between what fits and what it lets through, they overflow the block. */
  method WriteLeaf(leafData: array<byte>, runs: seq<Run>) returns (status: Status)
    requires RECORD <= leafData.Length < 0x1_0000 && ClearFrom(leafData[..], 0)
    modifies leafData
    ensures status == if leafData.Length - 1 < |runs| then TooBig else if (leafData.Length - RECORD) / RECORD < |runs| then Overflow else Ok
    ensures status == Ok ==> |runs| < 0x1_0000 && Holds(leafData[..], |runs|, (leafData.Length - RECORD) / RECORD, runs, |runs|)
    ensures status == Ok ==> ClearFrom(leafData[..], RECORD * (|runs| + 1))
  {
    hide Header, ExtentRecord, Holds, ClearFrom;
    var bs := leafData.Length;
    if bs - RECORD / RECORD < |runs| {
      return TooBig;
    }
    if (bs - RECORD) / RECORD < |runs| {
      return Overflow;
    }
    var max := (bs - RECORD) / RECORD;
    ClearPast(leafData[..], 0, 0, Header(|runs|, max, 0));
    PutBytes(leafData, 0, Header(|runs|, max, 0));
    WriteExtents(leafData, runs, |runs|, max);
    return Ok;
  }

  /** The call of allocate_blocks, and the regions as runs. */
  method TakeRegions(a: Allocator, blocks: nat) returns (ok: bool, regions: seq<Region>, runs: seq<Run>)
    requires a.Valid() && blocks > 0
    modifies a, a.groups, set i | 0 <= i < |a.groups| :: a.groups[i].bitmap
    ensures a.Valid()
    ensures ok <==> blocks <= Sum(old(a.Frees()), |a.groups|)
    ensures ok ==> regions != [] && a.live == old(a.live) + regions && FreshRuns(a, regions, runs, blocks)
    ensures ok ==> runs[0].len == regions[0].len > 0 && (regions[0].len >= Min(2, blocks) <==> Roomy(old(a.Frees())) || blocks == 1)
    ensures ok ==> |regions| <= |a.groups| && Sum(a.Frees(), |a.groups|) + blocks == Sum(old(a.Frees()), |a.groups|)
    ensures ok ==> forall s: set<nat> :: SumIn(old(a.Frees()), s, |a.groups|) >= blocks ==> |s| >= |regions|
  {
    hide FreshRuns, Sum, IsPick, Roomy;
    ghost var frees, before := a.Frees(), a.live;
    runs := [];
    ok, regions := a.AllocateBlocks(blocks);
    if ok {
      RegionGroups(a, before, regions);
      runs := ToRuns(a, regions);
      RunsFresh(a, before, regions, runs, blocks);
      FirstLarge(frees, blocks, regions);
      ghost var every := AllGroups(frees, |a.groups|);
      FreshLength(a, regions, runs, blocks);
    }
  }

  /** All the groups together: no more regions than groups are needed. */
  lemma {:induction false} AllGroups(f: seq<nat>, n: nat) returns (s: set<nat>)
    requires n <= |f|
    ensures |s| == n && (forall i :: i in s ==> i < n) && SumIn(f, s, n) == Sum(f, n)
  {
    s := {};
    if n > 0 {
      var t := AllGroups(f, n - 1);
      s := t + {n - 1};
      SumInRemove(f, s, n - 1, n - 1);
      assert s - {n - 1} == t;
    }
  }

  lemma FreshLength(a: Allocator, regions: seq<Region>, runs: seq<Run>, blocks: nat)
    requires FreshRuns(a, regions, runs, blocks)
    ensures |runs| == |regions|
    ensures forall i, j :: 0 <= i < j < |regions| ==> regions[i].group != regions[j].group
  {
  }

  /** At most three regions: the block allocated for a leaf is given back, and the extents go
      into the inode. */
  method FinishInline(a: Allocator, regions: seq<Region>, all: seq<Run>, ghost before: seq<Region>, ghost blockLen: nat)
    returns (iBlock: array<byte>, runs: seq<Run>)
    requires a.Valid() && Small(a) && a.live == before + regions && 0 < |regions| <= 3 && blockLen < 0x1_0000_0000
    requires FreshRuns(a, regions, all, blockLen + 1) && |all| == |regions| && all[0].len == regions[0].len >= Min(2, blockLen + 1)
    modifies a, a.groups, set i | 0 <= i < |a.groups| :: a.groups[i].bitmap
    ensures a.Valid() && Before(runs, |runs|) == blockLen && RunsApart(runs)
    ensures Sum(a.Frees(), |a.groups|) == Sum(old(a.Frees()), |a.groups|) + 1
    ensures iBlock.Length == 60 && |runs| <= |regions|
    ensures RunsFit(runs) && |runs| <= 3 && Holds(iBlock[..], |runs|, 3, runs, |runs|)
    ensures ClearFrom(iBlock[..], 12 * (|runs| + 1))
  {
    hide RunsFit, RunsApart, Holds, FreshRuns, Before, Sum;
    FreshLength(a, regions, all, blockLen + 1);
    var rest := GiveBack(a, regions, before);
    runs := [Run(all[0].block, rest.len)] + all[1..];
    FirstTaken(a, regions, all, runs, blockLen);
    iBlock, runs := WriteRuns(runs);
  }

  /** The call of reduce_allocation. */
  method GiveBack(a: Allocator, regions: seq<Region>, ghost before: seq<Region>) returns (rest: Region)
    requires a.Valid() && a.live == before + regions && regions != [] && regions[0].len > 0
    requires forall i, j :: 0 <= i < j < |regions| ==> regions[i].group != regions[j].group
    modifies a, a.groups, set i | 0 <= i < |a.groups| :: a.groups[i].bitmap
    ensures a.Valid() && rest == regions[0].(len := regions[0].len - 1)
    ensures Sum(a.Frees(), |a.groups|) == Sum(old(a.Frees()), |a.groups|) + 1
  {
    hide Sum;
    assert a.live[|before|] == regions[0];
    assert forall j :: |before| < j < |a.live| ==> a.live[j] == regions[j - |before|];
    ghost var f := a.Frees();
    rest := a.ReduceAllocation(regions[0], 1, |before|);
    SumUpdate(f, regions[0].group, f[regions[0].group] + 1, |a.groups|);
  }

  method WriteRuns(runs: seq<Run>) returns (iBlock: array<byte>, runs': seq<Run>)
    requires 0 < |runs| <= 3 && RunsFit(runs) && RunsApart(runs) && (runs[0].len == 0 ==> Before(runs, |runs|) == 0)
    ensures Before(runs', |runs'|) == Before(runs, |runs|) && RunsApart(runs') && |runs'| <= |runs|
    ensures RunsFit(runs') && |runs'| <= 3 && Holds(iBlock[..], |runs'|, 3, runs', |runs'|) && iBlock.Length == 60
    ensures ClearFrom(iBlock[..], 12 * (|runs'| + 1))
  {
    hide RunsFit, RunsApart, Holds, Before;
    iBlock := new byte[I_BLOCK](_ => 0);
    runs' := runs;
    if runs[0].len == 0 {
      runs' := WriteEmpty(iBlock);
      EmptyRuns(runs');
    } else {
      WriteInline(iBlock, runs);
    }
  }

  /** More than three: the first block is the leaf. */
  method FinishLeaf(a: Allocator, bs: nat, regions: seq<Region>, all: seq<Run>, ghost blockLen: nat)
    returns (status: Status, iBlock: array<byte>, leaf: nat, leafData: array<byte>, runs: seq<Run>)
    requires a.Valid() && Small(a) && regions != [] && blockLen < 0x1_0000_0000
    requires FreshRuns(a, regions, all, blockLen + 1) && |all| == |regions| && all[0].len > 0
    requires RECORD <= bs < 0x1_0000
    ensures status != NoSpace && status != Lost && 0 < leaf < 0x1_0000_0000
    ensures status == TooBig <==> bs - 1 < |regions|
    ensures status == Overflow <==> (bs - RECORD) / RECORD < |regions| <= bs - 1
    ensures status == Ok ==> Before(runs, |runs|) == blockLen && RunsApart(runs) && Maps(iBlock[..], leaf, leafData[..], runs)
    ensures leaf !in BlocksOf(runs, |runs|) && |runs| == |regions|
    ensures iBlock.Length == 60 && leafData.Length == bs
    ensures status == Ok ==> RestClear(iBlock[..], leaf, leafData[..], |runs|)
  {
    hide RunsFit, RunsApart, Holds, FreshRuns, Before, Header, IndexRecord, SlotIs, BlocksOf;
    leaf := all[0].block;
    runs := [Run(all[0].block + 1, all[0].len - 1)] + all[1..];
    FirstTaken(a, regions, all, runs, blockLen);
    LeafApart(a, regions, all, runs, blockLen + 1);
    LeafNumber(a, regions, all, blockLen + 1);
    iBlock := new byte[I_BLOCK](_ => 0);
    WriteIndex(iBlock, leaf);
    leafData := new byte[bs](_ => 0);
    status := WriteLeaf(leafData, runs);
  }

  /** The first region is a single block. Reducing it takes it off the list, and nothing is
      left before it; or, with more than three regions, all but it go to the list of blocks out
      of band. */
  method SplitFails(a: Allocator, regions: seq<Region>, bs: nat, ghost before: seq<Region>) returns (status: Status)
    requires a.Valid() && a.live == before + regions && 0 < |regions| <= |a.groups| && regions[0].len > 0 && RECORD <= bs
    requires forall i, j :: 0 <= i < j < |regions| ==> regions[i].group != regions[j].group
    modifies a, a.groups, set i | 0 <= i < |a.groups| :: a.groups[i].bitmap
    ensures a.Valid() && status == if |regions| > 3 && bs - 1 < |regions| then TooBig else Lost
    ensures Sum(a.Frees(), |a.groups|) == Sum(old(a.Frees()), |a.groups|) + if |regions| <= 3 then 1 else 0
  {
    status := Lost;
    if |regions| <= 3 {
      var _ := GiveBack(a, regions, before);
    } else if bs - 1 < |regions| {
      status := TooBig;
    }
  }

  /** The header of a node of the tree. */
  ghost predicate NodeIs(s: Bytes, entries: nat, max: nat, depth: nat) {
    |s| >= 12 && Get16(s, 0) == 0xf30a && Get16(s, 2) == entries && Get16(s, 4) == max && Get16(s, 6) == depth
  }

  /** The tree of a file, in the numbers of its fields: a node of depth 0 with an extent for
      each run, in the inode or in the one leaf that an index there leads to. */
  ghost predicate TreeIs(iBlock: Bytes, leaf: nat, leafData: Bytes, runs: seq<Run>) {
    && (leaf == 0 ==> NodeIs(iBlock, |runs|, 3, 0))
    && (leaf != 0 ==>
          && NodeIs(iBlock, 1, 3, 1) && |iBlock| >= 24 && Get32(iBlock, 12) == 0 && Get32(iBlock, 16) == leaf && Get16(iBlock, 20) == 0
          && |leafData| >= 12 && NodeIs(leafData, |runs|, (|leafData| - 12) / 12, 0))
    && var s := if leaf == 0 then iBlock else leafData;
       forall i: nat :: i < |runs| ==> ExtentIs(s, 12 * (i + 1), Before(runs, i), runs[i])
  }

  ghost predicate ExtentIs(s: Bytes, o: nat, fileBlock: nat, r: Run) {
    o + 12 <= |s| && Get32(s, o) == fileBlock && Get16(s, o + 4) == r.len && Get16(s, o + 6) == 0 && Get32(s, o + 8) == r.block
  }

  lemma TreeFields(iBlock: Bytes, leaf: nat, leafData: Bytes, runs: seq<Run>)
    requires Maps(iBlock, leaf, leafData, runs) && (leaf != 0 ==> |leafData| < 0x1_0000)
    ensures TreeIs(iBlock, leaf, leafData, runs)
  {
    hide Get16, Get32, Header, IndexRecord, RunsFit, SlotIs, Holds, Before;
    var s, max := if leaf == 0 then iBlock else leafData, if leaf == 0 then 3 else (|leafData| - RECORD) / RECORD;
    HeldHeader(s, |runs|, max, runs, |runs|);
    forall i: nat | i < |runs| ensures ExtentIs(s, 12 * (i + 1), Before(runs, i), runs[i]) {
      HeldExtent(s, |runs|, max, runs, i);
    }
    if leaf != 0 {
      SlotFits(iBlock, 0, Header(1, 3, 1));
      SlotFits(iBlock, 1, IndexRecord(leaf));
      HeaderRead(iBlock, 1, 3, 1);
      IndexRead(iBlock, leaf);
    }
  }

  lemma InlineMaps(iBlock: Bytes, leafData: Bytes, runs: seq<Run>)
    requires RunsFit(runs) && |runs| <= 3 && Holds(iBlock, |runs|, 3, runs, |runs|)
    ensures Maps(iBlock, 0, leafData, runs)
  {
    hide Holds, RunsFit;
  }

  /** do_inode_allocate_extents once it has its regions. */
  method Finish(a: Allocator, bs: nat, regions: seq<Region>, all: seq<Run>, ghost before: seq<Region>, ghost blockLen: nat)
    returns (status: Status, iBlock: array<byte>, leaf: nat, leafData: array<byte>, runs: seq<Run>)
    requires a.Valid() && Small(a) && a.live == before + regions && regions != [] && blockLen < 0x1_0000_0000
    requires FreshRuns(a, regions, all, blockLen + 1) && |all| == |regions| && all[0].len == regions[0].len >= Min(2, blockLen + 1)
    requires RECORD <= bs < 0x1_0000
    modifies a, a.groups, set i | 0 <= i < |a.groups| :: a.groups[i].bitmap
    ensures a.Valid() && status != NoSpace && status != Lost
    ensures status != Ok ==> (bs - RECORD) / RECORD < |regions|
    ensures leaf == 0 <==> |regions| <= 3
    ensures status == Ok ==>
              && Before(runs, |runs|) == blockLen && RunsApart(runs)
              && Maps(iBlock[..], leaf, leafData[..], runs) && TreeIs(iBlock[..], leaf, leafData[..], runs)
              && iBlock.Length == 60 && (leaf != 0 ==> leafData.Length == bs)
              && RestClear(iBlock[..], leaf, leafData[..], |runs|)
              && |runs| <= |regions| && (leaf != 0 ==> |runs| == |regions| && leaf !in BlocksOf(runs, |runs|))
    ensures Sum(a.Frees(), |a.groups|) == Sum(old(a.Frees()), |a.groups|) + if leaf == 0 then 1 else 0
  {
    hide RunsFit, RunsApart, Holds, Header, IndexRecord, FreshRuns, SlotIs, Sum, Before, BlocksOf, TreeIs, Maps, ClearFrom;
    if |regions| <= 3 {
      iBlock, runs := FinishInline(a, regions, all, before, blockLen);
      status, leaf, leafData := Ok, 0, new byte[0];
      InlineMaps(iBlock[..], leafData[..], runs);
    } else {
      status, iBlock, leaf, leafData, runs := FinishLeaf(a, bs, regions, all, blockLen);
      if status != Ok {
        return;
      }
    }
    TreeFields(iBlock[..], leaf, leafData[..], runs);
  }

  /** do_inode_allocate_extents, for an inode whose extent area is clear; `sectors` is what
      its i_blocks counts. What the file does not need is given back, so that the allocator
      has exactly as many blocks less as the inode counts. */
  method AllocateExtents(a: Allocator, len: nat, bs: nat)
    returns (status: Status, iBlock: array<byte>, leaf: nat, leafData: array<byte>, runs: seq<Run>, sectors: nat)
    requires a.Valid() && Small(a) && RECORD <= bs < 0x1_0000 && DivUp(len, bs) < 0x1_0000_0000
    modifies a, a.groups, set i | 0 <= i < |a.groups| :: a.groups[i].bitmap
    ensures a.Valid()
    ensures status == NoSpace <==> Sum(old(a.Frees()), |a.groups|) < DivUp(len, bs) + 1
    ensures status == TooBig || status == Overflow ==> (bs - RECORD) / RECORD < |a.groups|
    ensures status == Lost ==> !Roomy(old(a.Frees())) && DivUp(len, bs) > 0
    ensures status == Ok ==> Roomy(old(a.Frees())) || DivUp(len, bs) == 0
    ensures status == Ok ==>
              && Before(runs, |runs|) == DivUp(len, bs) && RunsApart(runs)
              && Maps(iBlock[..], leaf, leafData[..], runs) && TreeIs(iBlock[..], leaf, leafData[..], runs)
              && iBlock.Length == 60 && (leaf != 0 ==> leafData.Length == bs)
              && RestClear(iBlock[..], leaf, leafData[..], |runs|)
              && (leaf == 0 <==> |runs| <= 3)
              && (leaf != 0 ==> leaf !in BlocksOf(runs, |runs|))
    ensures status == Ok ==>
              var taken := DivUp(len, bs) + if leaf == 0 then 0 else 1;
              Sum(a.Frees(), |a.groups|) + taken == Sum(old(a.Frees()), |a.groups|) && sectors == taken * bs / 512
    ensures status == Ok ==> forall s: set<nat> :: SumIn(old(a.Frees()), s, |a.groups|) > DivUp(len, bs) ==> |s| >= |runs|
  {
    hide DivUp, RunsFit, RunsApart, Holds, Header, IndexRecord, FreshRuns, SlotIs, Before, BlocksOf;
    hide Sum, SumIn, Roomy, TreeIs, Maps, RestClear, Small, Allocator.Valid;
    var blockLen := DivUp(len, bs);
    status, leaf, runs, sectors := NoSpace, 0, [], 0;
    ghost var before := a.live;
    var ok, regions, all := TakeRegions(a, blockLen + 1);
    iBlock, leafData := new byte[I_BLOCK](_ => 0), new byte[0];
    if !ok {
      return;
    }
    FreshLength(a, regions, all, blockLen + 1);
    if regions[0].len < Min(2, blockLen + 1) {
      status := SplitFails(a, regions, bs, before);
      return;
    }
    status, iBlock, leaf, leafData, runs := Finish(a, bs, regions, all, before, blockLen);
    if leaf != 0 {
      blockLen := blockLen + 1;
    }
    sectors := blockLen * bs / 512;
  }

  // ----- the file's data -----

  /** The chunk of the file that is queued for run i. */
  function Piece(runs: seq<Run>, i: nat, len: nat, bs: nat, name: int): Block
    requires i < |runs| && Before(runs, i) * bs <= len
  {
    Block(runs[i].block, Min(runs[i].len * bs, len - Before(runs, i) * bs), File(name, Before(runs, i) * bs))
  }

  /** extent_create_backing_file: what is queued gives the j-th block of the file the bytes
      from j * bs on, and nothing else is queued. */
  method CreateBackingFile(runs: seq<Run>, len: nat, bs: nat, name: int) returns (queued: seq<Block>)
    requires bs > 0 && Before(runs, |runs|) == DivUp(len, bs)
    ensures |queued| <= |runs| && PiecesTo(queued, runs, |queued|, len, bs, name)
    ensures forall j: nat :: j < DivUp(len, bs) ==> IsQueued(queued, bs, BlocksOf(runs, |runs|)[j], j, len, name)
  {
    hide DivUp, BlocksOf;
    queued := [];
    var backingLen, offset: nat := len, 0;
    var i := 0;
    while i < |runs| && backingLen > 0
      invariant i <= |runs| && offset + backingLen == len && PiecesTo(queued, runs, i, len, bs, name)
      invariant offset <= Before(runs, i) * bs && (backingLen > 0 ==> offset == Before(runs, i) * bs)
    {
      var n := Min(runs[i].len * bs, backingLen);
      PieceAdded(queued, runs, i, len, bs, name);
      queued := queued + [Block(runs[i].block, n, File(name, offset))];
      offset := offset + n;
      backingLen := backingLen - n;
      i := i + 1;
    }
    AllQueued(queued, runs, i, len, bs, name);
  }

  /** The chunks of the first n runs have been queued. */
  ghost predicate PiecesTo(queued: seq<Block>, runs: seq<Run>, n: nat, len: nat, bs: nat, name: int)
    requires n <= |runs|
  {
    |queued| == n && forall k: nat :: k < n ==> Before(runs, k) * bs <= len && queued[k] == Piece(runs, k, len, bs, name)
  }

  lemma PieceAdded(queued: seq<Block>, runs: seq<Run>, i: nat, len: nat, bs: nat, name: int)
    requires i < |runs| && PiecesTo(queued, runs, i, len, bs, name) && Before(runs, i) * bs <= len
    ensures PiecesTo(queued + [Piece(runs, i, len, bs, name)], runs, i + 1, len, bs, name)
    ensures Before(runs, i + 1) * bs == Before(runs, i) * bs + runs[i].len * bs
  {
    hide Piece;
  }

  lemma AllQueued(queued: seq<Block>, runs: seq<Run>, i: nat, len: nat, bs: nat, name: int)
    requires bs > 0 && Before(runs, |runs|) == DivUp(len, bs) && i <= |runs| && PiecesTo(queued, runs, i, len, bs, name)
    requires i < |runs| ==> len <= Before(runs, i) * bs
    ensures forall j: nat :: j < DivUp(len, bs) ==> IsQueued(queued, bs, BlocksOf(runs, |runs|)[j], j, len, name)
  {
    hide DivUp, BlocksOf, Piece, Covers, ContentOf;
    forall j: nat | j < DivUp(len, bs) ensures IsQueued(queued, bs, BlocksOf(runs, |runs|)[j], j, len, name) {
      var k := BlocksIn(runs, |runs|, j);
      DivUpCounts(len, bs, j);
      MulLe(Before(runs, k), j, bs);
      if k >= i {
        BeforeMono(runs, i, k);
        MulLe(Before(runs, i), Before(runs, k), bs);
      }
      PieceHolds(runs, k, len, bs, name, j);
      assert queued[k] == Piece(runs, k, len, bs, name);
    }
  }

  /** Some queued chunk gives the block these bytes of the file. */
  ghost predicate IsQueued(queued: seq<Block>, bs: nat, block: nat, j: nat, len: nat, name: int) {
    exists k :: 0 <= k < |queued| && Covers(queued[k], bs, block)
      && ContentOf(queued[k], bs, block) == Content(File(name, j * bs), if bs < len - j * bs then bs else len - j * bs)
  }

  lemma PieceHolds(runs: seq<Run>, i: nat, len: nat, bs: nat, name: int, j: nat)
    requires i < |runs| && Before(runs, i) <= j < Before(runs, i + 1) && j * bs < len && Before(runs, i) * bs <= len && bs > 0
    ensures
      var p, block := Piece(runs, i, len, bs, name), runs[i].block + (j - Before(runs, i));
      Covers(p, bs, block) && ContentOf(p, bs, block) == Content(File(name, j * bs), if bs < len - j * bs then bs else len - j * bs)
  {
    var k := j - Before(runs, i);
    assert k * bs == j * bs - Before(runs, i) * bs;
    MulLe(k + 1, runs[i].len, bs);
    assert (k + 1) * bs == k * bs + bs;
  }

  /** A file's blocks are allocated, its data queued and its extents written and read back:
      the reader finds as many blocks as the file has, all different and none of them the
      leaf, and the j-th of them is given the file's j-th block of data. */
  method AllocateAndReadBack(a: Allocator, len: nat, bs: nat, name: int, rest: Disk)
    returns (status: Status, leaf: nat, queued: seq<Block>, blockList: array<nat>, sectors: nat)
    requires a.Valid() && Small(a) && RECORD <= bs < 0x1_0000 && DivUp(len, bs) < 0x1_0000_0000
    modifies a, a.groups, set i | 0 <= i < |a.groups| :: a.groups[i].bitmap
    ensures status == NoSpace <==> Sum(old(a.Frees()), |a.groups|) < DivUp(len, bs) + 1
    ensures status == TooBig || status == Overflow ==> (bs - RECORD) / RECORD < |a.groups|
    ensures status == Lost ==> !Roomy(old(a.Frees())) && DivUp(len, bs) > 0
    ensures status == Ok ==> Roomy(old(a.Frees())) || DivUp(len, bs) == 0
    ensures status == Ok ==>
              && blockList.Length == DivUp(len, bs)
              && (forall i, j :: 0 <= i < j < blockList.Length ==> blockList[i] != blockList[j])
              && (leaf != 0 ==> leaf !in blockList[..])
              && (forall j: nat :: j < blockList.Length ==> IsQueued(queued, bs, blockList[j], j, len, name))
    ensures status == Ok ==>
              var taken := blockList.Length + if leaf == 0 then 0 else 1;
              Sum(a.Frees(), |a.groups|) + taken == Sum(old(a.Frees()), |a.groups|) && sectors == taken * bs / 512
  {
    hide DivUp, RunsApart, Maps, Sum, SumIn, BlocksOf, IsQueued, Roomy, TreeIs, Small, Allocator.Valid;
    hide Filled, NodeHolds, ExtentsOf, TreeOf, RunExtents, ExtentsFit, Get16;
    var iBlock, leafData, runs;
    status, iBlock, leaf, leafData, runs, sectors := AllocateExtents(a, len, bs);
    queued, blockList := [], new nat[0];
    if status != Ok {
      return;
    }
    queued := CreateBackingFile(runs, len, bs, name);
    blockList := new nat[DivUp(len, bs)];
    var leafBytes := leafData[..];
    var disk := (n: nat) => if n == leaf then leafBytes else rest(n);
    MapsHolds(disk, iBlock[..], leaf, leafBytes, runs);
    FilledRuns(blockList[..], runs, |runs|);
    var ok := GetBlockListExtents(disk, iBlock[..], blockList, TreeOf(leaf, runs));
    assert blockList[..] == blockList[..blockList.Length] == BlocksOf(runs, |runs|);
    forall i, j | 0 <= i < j < blockList.Length ensures blockList[i] != blockList[j] {
      BlocksDistinct(runs, i, j);
    }
  }
}
