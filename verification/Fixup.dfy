/** The restartable renumbering pass of tools/ext4_utils/ext4fixup.c. A disk write is
    atomic; power may fail before any of them. */
module Fixup {
  import opened Rounding

  /** The high bit of an on-disk inode number marks an entry still to be renumbered. */
  const HIGH: int := 0x8000_0000

  const ROOT_INO: nat := 2

  // ----- inode numbers -----

  /** Where an inode lives: its block group and its index in the group's table. */
  datatype Slot = Slot(group: nat, offset: nat)

  function SlotOf(inum: nat, perGroup: nat): Slot
    requires inum > 0 && perGroup > 0
  {
    Slot((inum - 1) / perGroup, (inum - 1) % perGroup)
  }

  /** Inode numbers start at 1, and go through the groups one after the other. */
  lemma SlotIs(inum: nat, perGroup: nat, group: nat, offset: nat)
    requires inum > 0 && perGroup > 0
    ensures SlotOf(inum, perGroup) == Slot(group, offset) <==> inum == group * perGroup + offset + 1 && offset < perGroup
  {
    if inum == group * perGroup + offset + 1 && offset < perGroup {
      DivUnique(inum - 1, perGroup, group, offset);
    }
  }

  /** compute_new_inum. */
  function NewInum(inum: nat, perGroup: nat, newPerGroup: nat): (r: nat)
    requires inum > 0 && perGroup > 0
    ensures r > 0
  {
    (inum - 1) / perGroup * newPerGroup + (inum - 1) % perGroup + 1
  }

  /** The new number finds, under the new group size, the inode the old number found
      under the old one; the tables themselves do not move. */
  lemma NewInumSameSlot(inum: nat, perGroup: nat, newPerGroup: nat)
    requires inum > 0 && 0 < perGroup <= newPerGroup
    ensures SlotOf(NewInum(inum, perGroup, newPerGroup), newPerGroup) == SlotOf(inum, perGroup)
  {
    var g, o := (inum - 1) / perGroup, (inum - 1) % perGroup;
    DivUnique(g * newPerGroup + o, newPerGroup, g, o);
  }

  /** So distinct inodes keep distinct numbers, and an aligned group size changes none. */
  lemma NewInumInjective(x: nat, y: nat, perGroup: nat, newPerGroup: nat)
    requires x > 0 && y > 0 && 0 < perGroup <= newPerGroup
    requires NewInum(x, perGroup, newPerGroup) == NewInum(y, perGroup, newPerGroup)
    ensures x == y
  {
    NewInumSameSlot(x, perGroup, newPerGroup);
    NewInumSameSlot(y, perGroup, newPerGroup);
    assert x - 1 == perGroup * ((x - 1) / perGroup) + (x - 1) % perGroup;
    assert y - 1 == perGroup * ((y - 1) / perGroup) + (y - 1) % perGroup;
  }

  lemma NewInumIdentity(inum: nat, perGroup: nat)
    requires inum > 0 && perGroup > 0
    ensures NewInum(inum, perGroup, perGroup) == inum
  {
  }

  // ----- the directory tree -----

  datatype FileType = FtDir | FtUnknown | FtOther

  /** A directory entry; `dots` says that its name is "." or "..". */
  datatype Entry = Entry(inode: nat, fileType: FileType, dots: bool)

  /** The directories reachable from the root, by where their inodes live. */
  type Dirs = map<Slot, seq<Entry>>

  datatype Mode = Mark | Update

  /** Which block of its directory each entry lies in, and a rank that every directory
      entry lowers: the tree has no cycles. Neither changes. */
  datatype Shape = Shape(root: Slot, block: map<Slot, seq<nat>>, blocks: map<Slot, nat>, ghost rank: map<Slot, nat>)

  /** The walk ends at the first entry with inode 0. */
  ghost predicate Live(es: seq<Entry>, j: nat)
  {
    j < |es| && forall k :: 0 <= k <= j ==> es[k].inode != 0
  }

  /** The entry leads to another directory of the tree. */
  ghost predicate Descends(base: Dirs, perGroup: nat, s: Slot, j: nat)
    requires s in base && j < |base[s]| && perGroup > 0 && base[s][j].inode > 0
  {
    var e := base[s][j];
    !e.dots && (e.fileType == FtDir || (e.fileType == FtUnknown && SlotOf(e.inode, perGroup) in base))
  }

  function Child(base: Dirs, perGroup: nat, s: Slot, j: nat): Slot
    requires s in base && j < |base[s]| && perGroup > 0 && base[s][j].inode > 0
  {
    SlotOf(base[s][j].inode, perGroup)
  }

  ghost predicate WellFormedEntry(sh: Shape, base: Dirs, perGroup: nat, newPerGroup: nat, s: Slot, j: nat)
    requires s in base && s in sh.rank && perGroup > 0
  {
    Live(base[s], j) ==>
      && 0 < base[s][j].inode < HIGH
      && NewInum(base[s][j].inode, perGroup, newPerGroup) < HIGH
      && (Descends(base, perGroup, s, j) ==>
          var c := Child(base, perGroup, s, j);
          c in base && c in sh.rank && sh.rank[c] < sh.rank[s])
  }

  ghost predicate HasParent(sh: Shape, base: Dirs, perGroup: nat, s: Slot)
    requires s in sh.rank && perGroup > 0
  {
    exists p, j: nat :: IsParent(sh, base, perGroup, s, p, j)
  }

  ghost predicate IsParent(sh: Shape, base: Dirs, perGroup: nat, s: Slot, p: Slot, j: nat)
    requires s in sh.rank && perGroup > 0
  {
    && p in base && p in sh.rank && Live(base[p], j) && base[p][j].inode > 0
    && Descends(base, perGroup, p, j) && Child(base, perGroup, p, j) == s && sh.rank[p] > sh.rank[s]
  }

  /** The images the tool is for: inode numbers that fit in 31 bits before and after, entries
      of directory type that point to directories, and a tree under the root inode. */
  ghost predicate WellFormed(sh: Shape, base: Dirs, perGroup: nat, newPerGroup: nat)
  {
    && 2 <= perGroup <= newPerGroup
    && sh.root in base && sh.root == SlotOf(ROOT_INO, perGroup)
    && sh.rank.Keys == base.Keys == sh.block.Keys == sh.blocks.Keys
    && (forall s :: s in base ==> |sh.block[s]| == |base[s]| && forall j :: 0 <= j < |base[s]| ==> sh.block[s][j] < sh.blocks[s])
    && (forall s, j: nat :: s in base ==> WellFormedEntry(sh, base, perGroup, newPerGroup, s, j))
    && (forall s :: s in base ==> sh.rank[s] <= sh.rank[sh.root])
    && (forall s :: s in base && s != sh.root ==> HasParent(sh, base, perGroup, s))
  }

  // ----- what a pass does to an entry -----

  function MarkInode(x: nat): nat { if x >= HIGH then x else x + HIGH }

  /** Marking sets bit 31, which tells the finished entries of the one pass from those of the
      other. */
  lemma HighBit(mode: Mode, x: nat)
    requires x < 0x1_0000_0000
    ensures MarkInode(x) == 0x8000_0000 + x % 0x8000_0000
    ensures Finished(mode, x) <==> (mode == Mark <==> x / 0x8000_0000 == 1)
  {
  }

  /** The number an entry holds before and after the pass has written its block. */
  function Source(mode: Mode, x: nat): nat { if mode == Mark then x else x + HIGH }

  function Target(mode: Mode, x: nat, perGroup: nat, newPerGroup: nat): nat
    requires x > 0 && perGroup > 0
  {
    if mode == Mark then x + HIGH else NewInum(x, perGroup, newPerGroup)
  }

  /** The pass tells entries it has finished by the high bit. */
  predicate Finished(mode: Mode, inode: nat)
  {
    if mode == Mark then inode >= HIGH else inode < HIGH
  }

  /** Every entry the walk reaches in directory s is finished. */
  ghost predicate AllFinished(mode: Mode, base: Dirs, dirs: Dirs, s: Slot)
  {
    s in base && s in dirs && |dirs[s]| == |base[s]| &&
    forall j: nat :: Live(base[s], j) ==> Finished(mode, dirs[s][j].inode)
  }

  /** The entry is the original one, with its inode number in one of the two forms. */
  ghost predicate EntryForm(mode: Mode, base: Dirs, perGroup: nat, newPerGroup: nat, s: Slot, j: nat, e: Entry)
    requires s in base && j < |base[s]| && perGroup > 0
  {
    var b := base[s][j];
    if Live(base[s], j) then
      && e == b.(inode := e.inode)
      && (e.inode == Source(mode, b.inode) || e.inode == Target(mode, b.inode, perGroup, newPerGroup))
    else
      e == b
  }

  /** The key invariant: an entry is finished on disk only if the whole directory it leads
      to is finished, because children are written before any block of their parent. */
  ghost predicate EntryOk(mode: Mode, base: Dirs, perGroup: nat, newPerGroup: nat, dirs: Dirs, s: Slot, j: nat)
    requires s in base && s in dirs && j < |base[s]| && j < |dirs[s]| && perGroup > 0
  {
    && EntryForm(mode, base, perGroup, newPerGroup, s, j, dirs[s][j])
    && (Live(base[s], j) && Finished(mode, dirs[s][j].inode) && Descends(base, perGroup, s, j) ==>
        AllFinished(mode, base, dirs, Child(base, perGroup, s, j)))
  }

  ghost predicate Pass(mode: Mode, sh: Shape, base: Dirs, perGroup: nat, newPerGroup: nat, dirs: Dirs)
  {
    && WellFormed(sh, base, perGroup, newPerGroup)
    && dirs.Keys == base.Keys
    && (forall s :: s in base ==> |dirs[s]| == |base[s]|)
    && (forall s, j: nat :: s in base && j < |base[s]| ==> EntryOk(mode, base, perGroup, newPerGroup, dirs, s, j))
  }

  /** Finished entries stay as they are; so do directories of higher rank than `rank`. */
  ghost predicate Progress(mode: Mode, sh: Shape, base: Dirs, before: Dirs, after: Dirs, rank: nat)
  {
    && before.Keys == after.Keys == base.Keys == sh.rank.Keys
    && (forall s :: s in base && sh.rank[s] > rank ==> after[s] == before[s])
    && (forall s :: s in base && AllFinished(mode, base, before, s) ==> AllFinished(mode, base, after, s))
  }

  /** is_entry_dir: an entry of unknown type is looked up, unless the pass is done with it. */
  predicate IsEntryDir(e: Entry, mode: Mode, perGroup: nat, dirs: Dirs)
    requires perGroup > 0 && e.inode % HIGH > 0
  {
    match e.fileType
    case FtDir => true
    case FtUnknown => !(mode == Update && e.inode < HIGH) && SlotOf(e.inode % HIGH, perGroup) in dirs
    case FtOther => false
  }

  /** The walk's test for going down. */
  predicate GoesDown(e: Entry, mode: Mode, perGroup: nat, dirs: Dirs)
    requires perGroup > 0 && e.inode % HIGH > 0
  {
    IsEntryDir(e, mode, perGroup, dirs) && !e.dots && (mode == Mark || e.inode >= HIGH)
  }

  /** What the walk leaves in the buffer. */
  function Processed(e: Entry, mode: Mode, perGroup: nat, newPerGroup: nat): Entry
    requires perGroup > 0 && e.inode % HIGH > 0
  {
    if mode == Mark then e.(inode := MarkInode(e.inode))
    else if e.inode >= HIGH then e.(inode := NewInum(e.inode % HIGH, perGroup, newPerGroup))
    else e
  }

  /** A directory on disk after block k of the buffer has been written over it. */
  function WriteBlock(disk: seq<Entry>, buf: seq<Entry>, block: seq<nat>, k: nat): (r: seq<Entry>)
    requires |disk| == |buf| == |block|
    ensures |r| == |disk|
    ensures forall j :: 0 <= j < |r| ==> r[j] == if block[j] == k then buf[j] else disk[j]
  {
    seq(|disk|, j requires 0 <= j < |disk| => if block[j] == k then buf[j] else disk[j])
  }

  lemma ModHigh(x: nat)
    ensures x < HIGH ==> x % HIGH == x && (x + HIGH) % HIGH == x
  {
  }

  /** What the walk does with one entry that has not been processed yet. */
  lemma EntryProcessed(mode: Mode, sh: Shape, base: Dirs, perGroup: nat, newPerGroup: nat, dirs: Dirs, s: Slot, j: nat)
    requires Pass(mode, sh, base, perGroup, newPerGroup, dirs) && s in base && Live(base[s], j)
    ensures dirs[s][j].inode != 0
    ensures
      var e, b := dirs[s][j], base[s][j];
      && e.inode % HIGH > 0
      && Processed(e, mode, perGroup, newPerGroup) == b.(inode := Target(mode, b.inode, perGroup, newPerGroup))
      && (GoesDown(e, mode, perGroup, dirs) ==>
          Descends(base, perGroup, s, j) && SlotOf(e.inode % HIGH, perGroup) == Child(base, perGroup, s, j))
      && (Descends(base, perGroup, s, j) && !GoesDown(e, mode, perGroup, dirs) ==>
          AllFinished(mode, base, dirs, Child(base, perGroup, s, j)))
  {
    assert EntryOk(mode, base, perGroup, newPerGroup, dirs, s, j);
    assert WellFormedEntry(sh, base, perGroup, newPerGroup, s, j);
    ModHigh(base[s][j].inode);
    ModHigh(dirs[s][j].inode);
  }

  /** The state of the walk over the buffer of directory s: entries before j are processed,
      the others are as read, and every directory a processed entry leads to is finished. */
  ghost predicate Walked(mode: Mode, base: Dirs, perGroup: nat, newPerGroup: nat, dirs: Dirs, s: Slot, buf: seq<Entry>, j: nat)
  {
    && s in base && s in dirs && perGroup > 0
    && j <= |buf| == |base[s]| == |dirs[s]|
    && (forall i: nat :: i < j ==> Live(base[s], i))
    && (forall i: nat :: j <= i < |buf| ==> buf[i] == dirs[s][i])
    && (forall i: nat :: i < j ==>
          && base[s][i].inode > 0
          && buf[i] == base[s][i].(inode := Target(mode, base[s][i].inode, perGroup, newPerGroup))
          && (Descends(base, perGroup, s, i) ==> AllFinished(mode, base, dirs, Child(base, perGroup, s, i))))
  }

  /** The walk is over: the next entry, if any, ends it. */
  ghost predicate WalkedAll(mode: Mode, base: Dirs, perGroup: nat, newPerGroup: nat, dirs: Dirs, s: Slot, buf: seq<Entry>, j: nat)
  {
    Walked(mode, base, perGroup, newPerGroup, dirs, s, buf, j) && forall i: nat :: Live(base[s], i) ==> i < j
  }

  /** Progress elsewhere does not disturb the walk. */
  lemma WalkedProgress(mode: Mode, sh: Shape, base: Dirs, perGroup: nat, newPerGroup: nat, before: Dirs, after: Dirs, s: Slot, buf: seq<Entry>, j: nat, rank: nat)
    requires Walked(mode, base, perGroup, newPerGroup, before, s, buf, j)
    requires Progress(mode, sh, base, before, after, rank) && rank < sh.rank[s]
    ensures Walked(mode, base, perGroup, newPerGroup, after, s, buf, j)
  {
    assert after[s] == before[s];
  }

  lemma ProgressTrans(mode: Mode, sh: Shape, base: Dirs, a: Dirs, b: Dirs, c: Dirs, low: nat, high: nat)
    requires Progress(mode, sh, base, a, b, high) && Progress(mode, sh, base, b, c, low) && low <= high
    ensures Progress(mode, sh, base, a, c, high)
  {
  }

  lemma WalkStep(mode: Mode, sh: Shape, base: Dirs, perGroup: nat, newPerGroup: nat, dirs: Dirs, s: Slot, buf: seq<Entry>, j: nat)
    requires Pass(mode, sh, base, perGroup, newPerGroup, dirs)
    requires Walked(mode, base, perGroup, newPerGroup, dirs, s, buf, j) && j < |buf| && Live(base[s], j)
    requires Descends(base, perGroup, s, j) ==> AllFinished(mode, base, dirs, Child(base, perGroup, s, j))
    ensures
      && buf[j].inode % HIGH > 0
      && Walked(mode, base, perGroup, newPerGroup, dirs, s, buf[j := Processed(buf[j], mode, perGroup, newPerGroup)], j + 1)
  {
    EntryProcessed(mode, sh, base, perGroup, newPerGroup, dirs, s, j);
    hide Processed, Target, Descends, AllFinished, Pass, NewInum;
  }

  /** Writing one block of the processed buffer keeps the invariant and is progress. */
  lemma BlockWritten(mode: Mode, sh: Shape, base: Dirs, perGroup: nat, newPerGroup: nat, dirs: Dirs, disk0: seq<Entry>, s: Slot, buf: seq<Entry>, j: nat, k: nat)
    requires Pass(mode, sh, base, perGroup, newPerGroup, dirs) && s in base
    requires |disk0| == |base[s]| && Walked(mode, base, perGroup, newPerGroup, dirs[s := disk0], s, buf, j)
    requires forall i: nat :: Live(base[s], i) ==> i < j
    requires forall i: nat :: i < |base[s]| ==> dirs[s][i] == if sh.block[s][i] < k then buf[i] else disk0[i]
    ensures |dirs[s]| == |buf| == |sh.block[s]|
    ensures
      var after := dirs[s := WriteBlock(dirs[s], buf, sh.block[s], k)];
      && Pass(mode, sh, base, perGroup, newPerGroup, after)
      && Progress(mode, sh, base, dirs, after, sh.rank[s])
      && (forall i: nat :: i < |base[s]| ==> after[s][i] == if sh.block[s][i] < k + 1 then buf[i] else disk0[i])
  {
    hide NewInum, Descends, Child, SlotOf, AllFinished, EntryOk, Live, WellFormedEntry;
    var after := dirs[s := WriteBlock(dirs[s], buf, sh.block[s], k)];
    forall t | t in base && AllFinished(mode, base, dirs, t)
      ensures AllFinished(mode, base, after, t)
    {
      StaysFinished(mode, sh, base, perGroup, newPerGroup, dirs, disk0, s, buf, j, k, t);
    }
    forall t, i: nat | t in base && i < |base[t]|
      ensures EntryOk(mode, base, perGroup, newPerGroup, after, t, i)
    {
      EntryStays(mode, sh, base, perGroup, newPerGroup, dirs, disk0, s, buf, j, k, t, i);
    }
  }

  /** A finished directory stays finished. */
  lemma StaysFinished(mode: Mode, sh: Shape, base: Dirs, perGroup: nat, newPerGroup: nat, dirs: Dirs, disk0: seq<Entry>, s: Slot, buf: seq<Entry>, j: nat, k: nat, t: Slot)
    requires Pass(mode, sh, base, perGroup, newPerGroup, dirs) && s in base && t in base
    requires |disk0| == |base[s]| && Walked(mode, base, perGroup, newPerGroup, dirs[s := disk0], s, buf, j)
    requires forall i: nat :: Live(base[s], i) ==> i < j
    requires AllFinished(mode, base, dirs, t)
    ensures |dirs[s]| == |buf| == |sh.block[s]|
    ensures AllFinished(mode, base, dirs[s := WriteBlock(dirs[s], buf, sh.block[s], k)], t)
  {
    hide NewInum, Descends, Child, SlotOf, EntryOk;
    var after: Dirs := dirs[s := WriteBlock(dirs[s], buf, sh.block[s], k)];
    if t == s {
      forall i: nat | Live(base[s], i) ensures Finished(mode, after[s][i].inode) {
        TargetFinished(mode, sh, base, perGroup, newPerGroup, s, i);
      }
    }
  }

  /** The key invariant, entry by entry. */
  lemma EntryStays(mode: Mode, sh: Shape, base: Dirs, perGroup: nat, newPerGroup: nat, dirs: Dirs, disk0: seq<Entry>, s: Slot, buf: seq<Entry>, j: nat, k: nat, t: Slot, i: nat)
    requires Pass(mode, sh, base, perGroup, newPerGroup, dirs) && s in base && t in base && i < |base[t]|
    requires |disk0| == |base[s]| && Walked(mode, base, perGroup, newPerGroup, dirs[s := disk0], s, buf, j)
    requires forall i: nat :: Live(base[s], i) ==> i < j
    requires forall i: nat :: i < |base[s]| ==> dirs[s][i] == if sh.block[s][i] < k then buf[i] else disk0[i]
    ensures |dirs[s]| == |buf| == |sh.block[s]|
    ensures
      var after := dirs[s := WriteBlock(dirs[s], buf, sh.block[s], k)];
      t in after && i < |after[t]| && perGroup > 0 && EntryOk(mode, base, perGroup, newPerGroup, after, t, i)
  {
    hide NewInum, Descends, Child, SlotOf, AllFinished;
    var after := dirs[s := WriteBlock(dirs[s], buf, sh.block[s], k)];
    assert EntryOk(mode, base, perGroup, newPerGroup, dirs, t, i);
    if Live(base[t], i) {
      TargetFinished(mode, sh, base, perGroup, newPerGroup, t, i);
      if Descends(base, perGroup, t, i) {
        ChildLower(sh, base, perGroup, newPerGroup, t, i);
        var c := Child(base, perGroup, t, i);
        if t == s && sh.block[s][i] == k {
          assert AllFinished(mode, base, dirs[s := disk0], c);
          OnlyOther(mode, base, dirs, s, disk0, c);
        }
        if AllFinished(mode, base, dirs, c) {
          StaysFinished(mode, sh, base, perGroup, newPerGroup, dirs, disk0, s, buf, j, k, c);
        }
      }
    }
  }

  lemma OnlyOther(mode: Mode, base: Dirs, dirs: Dirs, s: Slot, disk: seq<Entry>, c: Slot)
    requires c != s
    ensures AllFinished(mode, base, dirs[s := disk], c) == AllFinished(mode, base, dirs, c)
  {
  }

  lemma TargetFinished(mode: Mode, sh: Shape, base: Dirs, perGroup: nat, newPerGroup: nat, s: Slot, i: nat)
    requires WellFormed(sh, base, perGroup, newPerGroup) && s in base && Live(base[s], i)
    ensures base[s][i].inode > 0 && Finished(mode, Target(mode, base[s][i].inode, perGroup, newPerGroup))
    ensures !Finished(mode, Source(mode, base[s][i].inode))
  {
    assert WellFormedEntry(sh, base, perGroup, newPerGroup, s, i);
  }

  lemma ChildLower(sh: Shape, base: Dirs, perGroup: nat, newPerGroup: nat, s: Slot, i: nat)
    requires WellFormed(sh, base, perGroup, newPerGroup) && s in base && Live(base[s], i) && base[s][i].inode > 0
    requires Descends(base, perGroup, s, i)
    ensures Child(base, perGroup, s, i) in base && sh.rank[Child(base, perGroup, s, i)] < sh.rank[s]
  {
    assert WellFormedEntry(sh, base, perGroup, newPerGroup, s, i);
  }

  lemma WalkStart(mode: Mode, sh: Shape, base: Dirs, perGroup: nat, newPerGroup: nat, dirs: Dirs, s: Slot)
    requires Pass(mode, sh, base, perGroup, newPerGroup, dirs) && s in base
    ensures Walked(mode, base, perGroup, newPerGroup, dirs, s, dirs[s], 0)
    ensures Progress(mode, sh, base, dirs, dirs, sh.rank[s])
  {
  }

  lemma WalkStops(mode: Mode, sh: Shape, base: Dirs, perGroup: nat, newPerGroup: nat, dirs: Dirs, s: Slot, buf: seq<Entry>, j: nat)
    requires Pass(mode, sh, base, perGroup, newPerGroup, dirs)
    requires Walked(mode, base, perGroup, newPerGroup, dirs, s, buf, j)
    ensures j < |buf| ==> (buf[j].inode == 0 <==> !Live(base[s], j))
    ensures j == |buf| || !Live(base[s], j) ==> WalkedAll(mode, base, perGroup, newPerGroup, dirs, s, buf, j)
  {
    if j < |buf| {
      assert EntryOk(mode, base, perGroup, newPerGroup, dirs, s, j);
      if Live(base[s], j) {
        EntryProcessed(mode, sh, base, perGroup, newPerGroup, dirs, s, j);
      } else {
        assert forall i: nat :: i < j ==> Live(base[s], i);
        assert forall i: nat :: i < j ==> base[s][i].inode != 0;
      }
    }
  }

  lemma DirectoryFinished(mode: Mode, sh: Shape, base: Dirs, perGroup: nat, newPerGroup: nat, dirs: Dirs, disk0: seq<Entry>, s: Slot, buf: seq<Entry>, j: nat)
    requires Pass(mode, sh, base, perGroup, newPerGroup, dirs) && s in base && |disk0| == |base[s]|
    requires WalkedAll(mode, base, perGroup, newPerGroup, dirs[s := disk0], s, buf, j)
    requires forall i: nat :: i < |base[s]| ==> dirs[s][i] == buf[i]
    ensures AllFinished(mode, base, dirs, s)
  {
    forall i: nat | Live(base[s], i) ensures Finished(mode, dirs[s][i].inode) {
      TargetFinished(mode, sh, base, perGroup, newPerGroup, s, i);
    }
  }

  lemma PassFacts(mode: Mode, sh: Shape, base: Dirs, perGroup: nat, newPerGroup: nat, dirs: Dirs, s: Slot)
    requires Pass(mode, sh, base, perGroup, newPerGroup, dirs) && s in base
    ensures perGroup > 0 && s in dirs && |dirs[s]| == |base[s]|
    ensures s in sh.rank && s in sh.block && s in sh.blocks && |sh.block[s]| == |base[s]|
  {
  }

  lemma WalkEntry(mode: Mode, sh: Shape, base: Dirs, perGroup: nat, newPerGroup: nat, dirs: Dirs, s: Slot, buf: seq<Entry>, j: nat)
    requires Pass(mode, sh, base, perGroup, newPerGroup, dirs) && s in base
    requires Walked(mode, base, perGroup, newPerGroup, dirs, s, buf, j) && j < |buf| && Live(base[s], j)
    ensures perGroup > 0 && buf[j].inode % HIGH > 0 && base[s][j].inode > 0
    ensures GoesDown(buf[j], mode, perGroup, dirs) ==>
              var c := SlotOf(buf[j].inode % HIGH, perGroup);
              c == Child(base, perGroup, s, j) && c in base && c in sh.rank && s in sh.rank && sh.rank[c] < sh.rank[s]
    ensures !GoesDown(buf[j], mode, perGroup, dirs) && Descends(base, perGroup, s, j) ==>
              AllFinished(mode, base, dirs, Child(base, perGroup, s, j))
  {
    EntryProcessed(mode, sh, base, perGroup, newPerGroup, dirs, s, j);
    assert WellFormedEntry(sh, base, perGroup, newPerGroup, s, j);
  }

  lemma ProgressFacts(mode: Mode, sh: Shape, base: Dirs, before: Dirs, after: Dirs, rank: nat, s: Slot)
    requires Progress(mode, sh, base, before, after, rank) && s in base && rank < sh.rank[s]
    ensures s in before && s in after && after[s] == before[s]
  {
  }

  lemma WritesStart(mode: Mode, sh: Shape, base: Dirs, perGroup: nat, newPerGroup: nat, dirs: Dirs, s: Slot)
    requires Pass(mode, sh, base, perGroup, newPerGroup, dirs) && s in base
    ensures s in dirs && dirs[s := dirs[s]] == dirs
    ensures forall i: nat :: i < |base[s]| ==> 0 <= sh.block[s][i] < sh.blocks[s]
  {
  }

  lemma WalkedLength(mode: Mode, base: Dirs, perGroup: nat, newPerGroup: nat, dirs: Dirs, s: Slot, buf: seq<Entry>, j: nat)
    requires WalkedAll(mode, base, perGroup, newPerGroup, dirs, s, buf, j)
    ensures s in base && |buf| == |base[s]| && (forall i: nat :: Live(base[s], i) ==> i < j)
    ensures Walked(mode, base, perGroup, newPerGroup, dirs, s, buf, j)
  {
  }

  // ----- whole passes -----

  /** The directory with every entry the walk reaches sent to its target. */
  ghost function TargetDir(mode: Mode, es: seq<Entry>, perGroup: nat, newPerGroup: nat): (r: seq<Entry>)
    requires perGroup > 0
    ensures |r| == |es|
    ensures forall j: nat :: j < |r| ==>
              r[j] == (if Live(es, j) && es[j].inode > 0 then es[j].(inode := Target(mode, es[j].inode, perGroup, newPerGroup)) else es[j])
  {
    seq(|es|, j requires 0 <= j < |es| =>
      if Live(es, j) && es[j].inode > 0 then es[j].(inode := Target(mode, es[j].inode, perGroup, newPerGroup)) else es[j])
  }

  ghost function TargetDirs(mode: Mode, base: Dirs, perGroup: nat, newPerGroup: nat): Dirs
    requires perGroup > 0
  {
    map s | s in base :: TargetDir(mode, base[s], perGroup, newPerGroup)
  }

  /** What a completed run must leave: every entry of the original image renumbered once. */
  ghost function Renumbered(base: Dirs, perGroup: nat, newPerGroup: nat): Dirs
    requires perGroup > 0
  {
    TargetDirs(Update, base, perGroup, newPerGroup)
  }

  /** A pass that has finished the root has finished every directory. */
  lemma {:induction false} FinishedBelow(mode: Mode, sh: Shape, base: Dirs, perGroup: nat, newPerGroup: nat, dirs: Dirs, s: Slot)
    requires Pass(mode, sh, base, perGroup, newPerGroup, dirs)
    requires AllFinished(mode, base, dirs, sh.root) && s in base
    ensures AllFinished(mode, base, dirs, s)
    decreases sh.rank[sh.root] - sh.rank[s]
  {
    hide AllFinished, WellFormedEntry, Descends, EntryForm, Live, SlotOf;
    if s != sh.root {
      assert HasParent(sh, base, perGroup, s);
      var p, j: nat :| IsParent(sh, base, perGroup, s, p, j);
      FinishedBelow(mode, sh, base, perGroup, newPerGroup, dirs, p);
      assert Finished(mode, dirs[p][j].inode) by { FinishedEntry(mode, base, dirs, p, j); }
      assert j < |base[p]| by { FinishedEntry(mode, base, dirs, p, j); }
      assert EntryOk(mode, base, perGroup, newPerGroup, dirs, p, j);
    }
  }

  lemma FinishedEntry(mode: Mode, base: Dirs, dirs: Dirs, p: Slot, j: nat)
    requires AllFinished(mode, base, dirs, p) && Live(base[p], j)
    ensures j < |base[p]| && j < |dirs[p]| && Finished(mode, dirs[p][j].inode)
  {
  }

  /** A pass that has finished the root has sent every entry to its target, once. */
  lemma PassFinished(mode: Mode, sh: Shape, base: Dirs, perGroup: nat, newPerGroup: nat, dirs: Dirs)
    requires Pass(mode, sh, base, perGroup, newPerGroup, dirs)
    requires AllFinished(mode, base, dirs, sh.root)
    ensures dirs == TargetDirs(mode, base, perGroup, newPerGroup)
  {
    var want := TargetDirs(mode, base, perGroup, newPerGroup);
    forall s | s in base ensures dirs[s] == want[s] {
      FinishedBelow(mode, sh, base, perGroup, newPerGroup, dirs, s);
      forall j: nat | j < |base[s]| ensures dirs[s][j] == want[s][j] {
        EntryFinished(mode, sh, base, perGroup, newPerGroup, dirs, s, j);
      }
      assert dirs[s] == want[s];
    }
  }

  lemma EntryFinished(mode: Mode, sh: Shape, base: Dirs, perGroup: nat, newPerGroup: nat, dirs: Dirs, s: Slot, j: nat)
    requires Pass(mode, sh, base, perGroup, newPerGroup, dirs)
    requires s in base && AllFinished(mode, base, dirs, s) && j < |base[s]|
    ensures s in dirs && j < |dirs[s]| && dirs[s][j] == TargetDir(mode, base[s], perGroup, newPerGroup)[j]
  {
    assert EntryOk(mode, base, perGroup, newPerGroup, dirs, s, j);
    if Live(base[s], j) {
      TargetFinished(mode, sh, base, perGroup, newPerGroup, s, j);
    }
  }

  /** The original image starts the marking pass. */
  lemma MarkStarts(sh: Shape, base: Dirs, perGroup: nat, newPerGroup: nat)
    requires WellFormed(sh, base, perGroup, newPerGroup)
    ensures Pass(Mark, sh, base, perGroup, newPerGroup, base)
  {
    forall s, j: nat | s in base && j < |base[s]| ensures EntryOk(Mark, base, perGroup, newPerGroup, base, s, j) {
      if Live(base[s], j) {
        TargetFinished(Mark, sh, base, perGroup, newPerGroup, s, j);
      }
    }
  }

  /** The fully marked image starts the updating pass. */
  lemma UpdateStarts(sh: Shape, base: Dirs, perGroup: nat, newPerGroup: nat)
    requires WellFormed(sh, base, perGroup, newPerGroup)
    ensures Pass(Update, sh, base, perGroup, newPerGroup, TargetDirs(Mark, base, perGroup, newPerGroup))
  {
    var marked := TargetDirs(Mark, base, perGroup, newPerGroup);
    forall s, j: nat | s in base && j < |base[s]|
      ensures |marked[s]| == |base[s]| && EntryOk(Update, base, perGroup, newPerGroup, marked, s, j)
    {
      if Live(base[s], j) {
        TargetFinished(Update, sh, base, perGroup, newPerGroup, s, j);
      }
    }
  }

  /** A renumbered image is one the tool is for, under the new group size. */
  lemma RenumberedWellFormed(sh: Shape, base: Dirs, perGroup: nat, newPerGroup: nat)
    requires WellFormed(sh, base, perGroup, newPerGroup)
    ensures WellFormed(sh, Renumbered(base, perGroup, newPerGroup), newPerGroup, newPerGroup)
  {
    hide NewInum, SlotOf, Descends, WellFormedEntry, Live, HasParent;
    var after := Renumbered(base, perGroup, newPerGroup);
    assert sh.root == SlotOf(ROOT_INO, newPerGroup) by { RootStays(perGroup, newPerGroup); }
    forall s, j: nat | s in after
      ensures WellFormedEntry(sh, after, newPerGroup, newPerGroup, s, j)
    {
      EntryWellFormed(sh, base, perGroup, newPerGroup, s, j);
    }
    forall s | s in after && s != sh.root
      ensures HasParent(sh, after, newPerGroup, s)
    {
      ParentStays(sh, base, perGroup, newPerGroup, s);
    }
  }

  lemma RootStays(perGroup: nat, newPerGroup: nat)
    requires 2 <= perGroup <= newPerGroup
    ensures SlotOf(ROOT_INO, perGroup) == SlotOf(ROOT_INO, newPerGroup)
  {
    DivUnique(ROOT_INO - 1, perGroup, 0, 1);
    DivUnique(ROOT_INO - 1, newPerGroup, 0, 1);
  }

  lemma RenumberedEntry(sh: Shape, base: Dirs, perGroup: nat, newPerGroup: nat, s: Slot, j: nat)
    requires WellFormed(sh, base, perGroup, newPerGroup) && s in base
    ensures
      var after := Renumbered(base, perGroup, newPerGroup);
      && s in after && |after[s]| == |base[s]|
      && (Live(after[s], j) <==> Live(base[s], j))
      && (Live(base[s], j) ==>
          && base[s][j].inode > 0
          && after[s][j] == base[s][j].(inode := NewInum(base[s][j].inode, perGroup, newPerGroup)))
  {
    hide NewInum;
    var after: Dirs := Renumbered(base, perGroup, newPerGroup);
    forall k: nat | k < |base[s]| && Live(base[s], k) ensures base[s][k].inode > 0 && after[s][k].inode != 0 {
      assert WellFormedEntry(sh, base, perGroup, newPerGroup, s, k);
    }
    if Live(base[s], j) {
      forall k | 0 <= k <= j ensures after[s][k].inode != 0 {
        assert Live(base[s], k);
      }
    }
    if Live(after[s], j) {
      forall k | 0 <= k <= j ensures base[s][k].inode != 0 {
      }
    }
  }

  lemma EntryDescends(sh: Shape, base: Dirs, perGroup: nat, newPerGroup: nat, s: Slot, j: nat)
    requires WellFormed(sh, base, perGroup, newPerGroup) && s in base && Live(base[s], j)
    ensures base[s][j].inode > 0
    ensures
      var after := Renumbered(base, perGroup, newPerGroup);
      && s in after && j < |after[s]| && after[s][j].inode > 0
      && (Descends(after, newPerGroup, s, j) <==> Descends(base, perGroup, s, j))
      && Child(after, newPerGroup, s, j) == Child(base, perGroup, s, j)
  {
    hide NewInum, SlotOf, WellFormed;
    RenumberedEntry(sh, base, perGroup, newPerGroup, s, j);
    assert 2 <= perGroup <= newPerGroup by { GroupSizes(sh, base, perGroup, newPerGroup); }
    NewInumSameSlot(base[s][j].inode, perGroup, newPerGroup);
  }

  lemma GroupSizes(sh: Shape, base: Dirs, perGroup: nat, newPerGroup: nat)
    requires WellFormed(sh, base, perGroup, newPerGroup)
    ensures 2 <= perGroup <= newPerGroup
  {
  }

  lemma EntryWellFormed(sh: Shape, base: Dirs, perGroup: nat, newPerGroup: nat, s: Slot, j: nat)
    requires WellFormed(sh, base, perGroup, newPerGroup) && s in base && s in sh.rank
    ensures WellFormedEntry(sh, Renumbered(base, perGroup, newPerGroup), newPerGroup, newPerGroup, s, j)
  {
    hide Descends, Live, Child, NewInum, TargetDir;
    RenumberedEntry(sh, base, perGroup, newPerGroup, s, j);
    if Live(base[s], j) {
      EntryDescends(sh, base, perGroup, newPerGroup, s, j);
      assert WellFormedEntry(sh, base, perGroup, newPerGroup, s, j);
      assert Renumbered(base, perGroup, newPerGroup)[s][j].inode == NewInum(base[s][j].inode, perGroup, newPerGroup);
      NewInumIdentity(NewInum(base[s][j].inode, perGroup, newPerGroup), newPerGroup);
    }
  }

  lemma ParentStays(sh: Shape, base: Dirs, perGroup: nat, newPerGroup: nat, s: Slot)
    requires WellFormed(sh, base, perGroup, newPerGroup) && s in base && s != sh.root
    ensures s in sh.rank && HasParent(sh, Renumbered(base, perGroup, newPerGroup), newPerGroup, s)
  {
    hide Descends, Live, Child, NewInum, TargetDirs, TargetDir;
    assert HasParent(sh, base, perGroup, s);
    var p, j: nat :| IsParent(sh, base, perGroup, s, p, j);
    RenumberedEntry(sh, base, perGroup, newPerGroup, p, j);
    EntryDescends(sh, base, perGroup, newPerGroup, p, j);
    assert IsParent(sh, Renumbered(base, perGroup, newPerGroup), newPerGroup, s, p, j);
  }

  /** Renumbering under an aligned group size changes nothing. */
  lemma RenumberedAligned(sh: Shape, base: Dirs, perGroup: nat)
    requires WellFormed(sh, base, perGroup, perGroup)
    ensures Renumbered(base, perGroup, perGroup) == base
  {
    var after := Renumbered(base, perGroup, perGroup);
    forall s | s in base ensures after[s] == base[s] {
      forall j: nat | j < |base[s]| ensures after[s][j] == base[s][j] {
        if Live(base[s], j) {
          RenumberedEntry(sh, base, perGroup, perGroup, s, j);
          NewInumIdentity(base[s][j].inode, perGroup);
        }
      }
      assert after[s] == base[s];
    }
  }

  /** Renumbering keeps every entry on the inode it named, and is one-to-one on them. */
  lemma RenumberedMeaning(sh: Shape, base: Dirs, perGroup: nat, newPerGroup: nat, s: Slot, j: nat)
    requires WellFormed(sh, base, perGroup, newPerGroup) && s in base && Live(base[s], j)
    ensures
      var after := Renumbered(base, perGroup, newPerGroup);
      && s in after && j < |after[s]| && after[s][j].inode > 0 && base[s][j].inode > 0
      && SlotOf(after[s][j].inode, newPerGroup) == SlotOf(base[s][j].inode, perGroup)
      && after[s][j].fileType == base[s][j].fileType && after[s][j].dots == base[s][j].dots
  {
    hide NewInum, SlotOf;
    RenumberedEntry(sh, base, perGroup, newPerGroup, s, j);
    NewInumSameSlot(base[s][j].inode, perGroup, newPerGroup);
  }

  // ----- changes of state -----

  datatype State = Unset | Marking | Updating | UpdatingSb

  /** A change of state that was begun: its state word was written; `done` says that the
      superblock after it was written too. */
  datatype Change = Change(next: State, done: bool)

  function Follows(state: State): State {
    match state
    case Unset => Marking
    case Marking => Updating
    case Updating => UpdatingSb
    case UpdatingSb => Unset
  }

  function StateAfter(changes: seq<Change>): State {
    if changes == [] then Unset else changes[|changes| - 1].next
  }

  /** Only a completed change touches the bit that prevents mounting. */
  function MountableAfter(changes: seq<Change>): bool {
    if changes == [] then true
    else
      var last := changes[|changes| - 1];
      if last.done then last.next == Unset else MountableAfter(changes[..|changes| - 1])
  }

  ghost predicate Legal(changes: seq<Change>) {
    forall k :: 0 <= k < |changes| ==> changes[k].next == Follows(StateAfter(changes[..k]))
  }

  /** Change i is the first one of a run on a mountable image, it was cut between its writes,
      and no change has been completed since. */
  ghost predicate FirstCut(changes: seq<Change>, i: nat) {
    && i < |changes| && changes[i].next == Marking && (i == 0 || changes[i - 1] == Change(Unset, true))
    && forall k :: i <= k < |changes| ==> !changes[k].done
  }

  /** When a file system that is being changed can be mounted all the same. */
  lemma MountableWhileChanged(changes: seq<Change>)
    requires Legal(changes) && StateAfter(changes) != Unset
    ensures MountableAfter(changes) <==> exists i: nat :: FirstCut(changes, i)
  {
    MountableIff(changes);
    if exists i: nat :: FirstCut(changes, i) {
      var i: nat :| FirstCut(changes, i);
    }
  }

  lemma {:induction false} MountableIff(changes: seq<Change>)
    requires Legal(changes)
    ensures MountableAfter(changes) <==>
            changes == [] || changes[|changes| - 1] == Change(Unset, true) || exists i: nat :: FirstCut(changes, i)
  {
    hide FirstCut, Legal;
    if changes != [] {
      var n := |changes| - 1;
      var before := changes[..n];
      LegalBefore(changes);
      MountableIff(before);
      forall i: nat ensures FirstCut(changes, i) <==>
          !changes[n].done && (FirstCut(before, i) || (i == n && (before == [] || before[n - 1] == Change(Unset, true))))
      {
        FirstCutStep(changes, i);
      }
      if MountableAfter(before) && !changes[n].done {
        if before == [] || before[n - 1] == Change(Unset, true) {
          assert FirstCut(changes, n);
        } else {
          var i: nat :| FirstCut(before, i);
          assert FirstCut(changes, i);
        }
      }
    }
  }

  lemma LegalBefore(changes: seq<Change>)
    requires Legal(changes) && changes != []
    ensures Legal(changes[..|changes| - 1])
  {
    var before := changes[..|changes| - 1];
    forall k | 0 <= k < |before| ensures before[k].next == Follows(StateAfter(before[..k])) {
      assert before[..k] == changes[..k];
    }
  }

  lemma FirstCutStep(changes: seq<Change>, i: nat)
    requires Legal(changes) && changes != []
    ensures
      var n := |changes| - 1;
      var before := changes[..n];
      FirstCut(changes, i) <==>
      !changes[n].done && (FirstCut(before, i) || (i == n && (before == [] || before[n - 1] == Change(Unset, true))))
  {
    var n := |changes| - 1;
    assert changes[n].next == Follows(StateAfter(changes[..n]));
  }

  lemma OneMoreChange(changes: seq<Change>, c: Change)
    requires Legal(changes) && c.next == Follows(StateAfter(changes))
    ensures Legal(changes + [c]) && StateAfter(changes + [c]) == c.next
    ensures MountableAfter(changes + [c]) == if c.done then c.next == Unset else MountableAfter(changes)
  {
    var t := changes + [c];
    assert t[..|changes|] == changes;
    forall k | 0 <= k < |t| ensures t[k].next == Follows(StateAfter(t[..k])) {
      if k < |changes| {
        assert t[..k] == changes[..k];
      }
    }
  }

  // ----- the tool -----

  lemma RootFacts(sh: Shape, base: Dirs, perGroup: nat, newPerGroup: nat)
    requires WellFormed(sh, base, perGroup, newPerGroup)
    ensures sh.root in base && sh.root in sh.rank && perGroup > 0 && sh.root == SlotOf(ROOT_INO, perGroup)
  {
  }

  lemma RenumberedIs(base: Dirs, perGroup: nat, newPerGroup: nat)
    requires perGroup > 0
    ensures Renumbered(base, perGroup, newPerGroup) == TargetDirs(Update, base, perGroup, newPerGroup)
  {
  }

  // ----- the inode counts -----

  /** The inode counts of the primary superblock, and the free ones of each group in the
      descriptors beside it. */
  datatype Counts = Counts(inodes: nat, free: nat, descs: seq<nat>)

  /** A backup superblock, with its descriptors. */
  datatype Backup = Backup(perGroup: nat, counts: Counts)

  /** The counts when each of the groups has `more` inodes more. */
  function Grown(c: Counts, groups: nat, more: nat): Counts {
    Counts(c.inodes + groups * more, c.free + groups * more, seq(|c.descs|, i requires 0 <= i < |c.descs| => c.descs[i] + more))
  }

  lemma GrownDescs(c: Counts, groups: nat, more: nat)
    ensures Grown(c, groups, 0) == c
    ensures more > 0 && c.descs != [] ==> Grown(c, groups, more).descs != c.descs
  {
    assert Grown(c, groups, 0).descs == c.descs;
    if more > 0 && c.descs != [] {
      assert Grown(c, groups, more).descs[0] != c.descs[0];
    }
  }

  /** What enlarging the groups leaves: the superblock has its new counts, and the descriptors
      have theirs exactly if they were written after the superblock that enlarged the groups. */
  ghost predicate Outcome(perGroup0: nat, newPerGroup: nat, groups: nat, counts0: Counts, counts: Counts, enlarged: seq<bool>) {
    perGroup0 <= newPerGroup &&
    var grown := Grown(counts0, groups, newPerGroup - perGroup0);
    && counts.inodes == grown.inodes && counts.free == grown.free
    && if perGroup0 < newPerGroup then
         |enlarged| == 1 && counts.descs == if enlarged[0] then grown.descs else counts0.descs
       else
         counts.descs == counts0.descs
  }

  /** A backup when so many writes are left for it. */
  function HalfWritten(b: Backup, perGroup: nat, counts: Counts, writes: int): Backup {
    if writes >= 2 then Backup(perGroup, counts)
    else if writes == 1 then Backup(perGroup, counts.(descs := b.counts.descs))
    else b
  }

  /** How many of the first n bitmaps are to be cleared. */
  function Stale(stale: seq<bool>, n: nat): nat
    requires n <= |stale|
  {
    if n == 0 then 0 else Stale(stale, n - 1) + if stale[n - 1] then 1 else 0
  }

  ghost function Sum(writes: seq<nat>): nat {
    if writes == [] then 0 else Sum(writes[..|writes| - 1]) + writes[|writes| - 1]
  }

  /** The file system being fixed: its directories, the state word and the superblock
      fields the tool rewrites. `budget` is the number of writes before power fails. */
  class Image {
    const shape: Shape
    /** Inodes in a block of the inode table. */
    const perBlock: nat
    /** Block groups. */
    const groups: nat
    var dirs: Dirs
    var state: State
    var mountable: bool
    /** s_inodes_per_group in the primary superblock, and the counts. */
    var perGroup: nat
    var counts: Counts
    var backups: seq<Backup>
    /** Whether a group's inode bitmap has bits set for inodes it is about to get. */
    var stale: seq<bool>
    var budget: nat
    /** The changes of state so far. */
    ghost var changes: seq<Change>
    /** For the write of the primary superblock that enlarged the groups, if there was one:
        whether its descriptors were written after it. */
    ghost var enlarged: seq<bool>
    /** The writes so far. */
    ghost var written: nat

    constructor (shape: Shape, perBlock: nat, dirs: Dirs, perGroup: nat, counts: Counts, backups: seq<Backup>, stale: seq<bool>)
      requires perBlock > 0 && WellFormed(shape, dirs, perGroup, Align(perGroup, perBlock))
      requires |counts.descs| == |stale| && counts.inodes == |stale| * perGroup
      requires perGroup == Align(perGroup, perBlock) ==> forall i :: 0 <= i < |stale| ==> !stale[i]
      ensures Valid(dirs, perGroup, counts) && this.perGroup == perGroup && this.dirs == dirs && this.perBlock == perBlock
      ensures state == Unset && mountable && changes == [] && written == 0
    {
      this.shape, this.perBlock, this.dirs, groups := shape, perBlock, dirs, |stale|;
      state, mountable, changes, enlarged := Unset, true, [], [];
      this.perGroup, this.counts, this.backups, this.stale := perGroup, counts, backups, stale;
      budget, written := 0, 0;
    }

    /** The state word and the superblock are what the changes of state have left. */
    ghost predicate Recorded()
      reads `state, `mountable, `changes
    {
      Legal(changes) && state == StateAfter(changes) && mountable == MountableAfter(changes)
    }

    ghost predicate NoneStale()
      reads `stale
    {
      forall i :: 0 <= i < |stale| ==> !stale[i]
    }

    /** The groups have not been enlarged. */
    ghost predicate Small(perGroup0: nat, counts0: Counts)
      reads `perGroup, `counts, `stale, `enlarged
      requires perBlock > 0
    {
      && perGroup == perGroup0 && counts == counts0
      && (if perGroup0 < Align(perGroup0, perBlock) then enlarged == [] else NoneStale())
    }

    /** They have. */
    ghost predicate Large(perGroup0: nat, counts0: Counts)
      reads `perGroup, `counts, `stale, `enlarged
      requires perBlock > 0
    {
      var newPerGroup := Align(perGroup0, perBlock);
      perGroup == newPerGroup && NoneStale() && Outcome(perGroup0, newPerGroup, groups, counts0, counts, enlarged)
    }

    ghost predicate Sized(perGroup0: nat, counts0: Counts)
      reads `stale
    {
      |stale| == |counts0.descs| == groups && counts0.inodes == groups * perGroup0
    }

    /** A run on the image `base`, with group size `perGroup0` and these counts, is over or has
        not started. */
    ghost predicate Valid(base: Dirs, perGroup0: nat, counts0: Counts)
      reads this
    {
      && perBlock > 0
      && var newPerGroup := Align(perGroup0, perBlock);
      && WellFormed(shape, base, perGroup0, newPerGroup)
      && Recorded() && Sized(perGroup0, counts0)
      && match state
         case Unset => dirs == base && Small(perGroup0, counts0)
         case Marking => Pass(Mark, shape, base, perGroup0, newPerGroup, dirs) && Small(perGroup0, counts0)
         case Updating => Pass(Update, shape, base, perGroup0, newPerGroup, dirs) && Small(perGroup0, counts0)
         case UpdatingSb => dirs == Renumbered(base, perGroup0, newPerGroup) && (Small(perGroup0, counts0) || Large(perGroup0, counts0))
    }

    /** Every entry has been renumbered and every superblock holds the new group size and
        counts. */
    ghost predicate Completed(base: Dirs, perGroup0: nat, counts0: Counts)
      reads this
    {
      && perBlock > 0 && perGroup0 > 0
      && var newPerGroup := Align(perGroup0, perBlock);
      && state == Unset
      && dirs == Renumbered(base, perGroup0, newPerGroup)
      && Sized(perGroup0, counts0) && Large(perGroup0, counts0)
      && (forall i :: 0 <= i < |backups| ==> backups[i] == Backup(newPerGroup, counts))
      && Recorded()
    }

    /** set_fs_fixup_state: one write for the magic number, one for the superblock. */
    method SetState(next: State) returns (ok: bool)
      requires Recorded() && next == Follows(state)
      modifies `state, `mountable, `changes, `budget, `written
      ensures Recorded()
      ensures ok <==> old(budget) >= 2
      ensures changes == old(changes) + if old(budget) == 0 then [] else [Change(next, ok)]
      ensures state == if old(budget) == 0 then old(state) else next
      ensures mountable == if ok then next == Unset else old(mountable)
      ensures budget == if ok then old(budget) - 2 else 0
      ensures written + budget == old(written + budget)
    {
      hide Legal, StateAfter, MountableAfter;
      if budget == 0 {
        return false;
      }
      Spend();
      OneMoreChange(changes, Change(next, budget > 0));
      changes := changes + [Change(next, budget > 0)];
      state := next;
      if budget == 0 {
        return false;
      }
      Spend();
      mountable := next == Unset;
      return true;
    }

    /** A write of the disk. */
    method Spend()
      requires budget > 0
      modifies `budget, `written
      ensures budget == old(budget) - 1 && written == old(written) + 1
    {
      budget := budget - 1;
      written := written + 1;
    }

    /** check_inode_bitmap, for every group: the bits of the new inodes are cleared. */
    method ClearBitmaps(newPerGroup: nat) returns (ok: bool)
      requires |stale| == groups
      modifies `stale, `budget, `written
      ensures |stale| == groups
      ensures ok && perGroup < newPerGroup ==> NoneStale() && written == old(written) + Stale(old(stale), groups)
      ensures perGroup >= newPerGroup || old(NoneStale()) ==> ok && stale == old(stale) && budget == old(budget)
      ensures !ok ==> budget == 0
      ensures written + budget == old(written + budget)
    {
      for i := 0 to groups
        invariant |stale| == groups && written + budget == old(written + budget)
        invariant perGroup < newPerGroup ==>
                    && written == old(written) + Stale(old(stale), i)
                    && forall k :: 0 <= k < groups ==> stale[k] == (k >= i && old(stale[k]))
        invariant perGroup >= newPerGroup || old(NoneStale()) ==> stale == old(stale) && budget == old(budget)
      {
        if perGroup < newPerGroup && stale[i] {
          if budget == 0 {
            return false;
          }
          Spend();
          stale := stale[i := false];
        }
      }
      return true;
    }

    /** update_superblocks_and_bg_desc: the bitmaps, then the primary superblock and its
        descriptors, then the backups. The group size that is added to is that on disk: once
        the primary superblock is written, no run adds to the descriptors any more. */
    method UpdateSuperblocks(newPerGroup: nat, ghost perGroup0: nat, ghost counts0: Counts) returns (ok: bool)
      requires perBlock > 0 && newPerGroup == Align(perGroup0, perBlock) >= perGroup0 && Sized(perGroup0, counts0)
      requires Small(perGroup0, counts0) || Large(perGroup0, counts0)
      modifies `perGroup, `counts, `backups, `stale, `budget, `enlarged, `written
      ensures Sized(perGroup0, counts0) && (Small(perGroup0, counts0) || Large(perGroup0, counts0))
      ensures |backups| == |old(backups)|
      ensures ok ==> Large(perGroup0, counts0) && forall i :: 0 <= i < |backups| ==> backups[i] == Backup(newPerGroup, counts)
      ensures !ok ==> budget == 0
      ensures written + budget == old(written + budget)
      ensures old(NoneStale() && perGroup < newPerGroup && budget == 1) ==>
                !ok && perGroup == newPerGroup && enlarged == [false] && NoneStale()
      ensures old(NoneStale() && budget >= 2 + 2 * |backups|) ==> ok && budget == old(budget) - (2 + 2 * |backups|)
      ensures old(perGroup) == newPerGroup ==> enlarged == old(enlarged)
    {
      hide Align, Grown;
      ok := ClearBitmaps(newPerGroup);
      if !ok {
        return false;
      }
      var more := newPerGroup - perGroup;
      GrownDescs(counts0, groups, more);
      var grown := Grown(counts, groups, more);
      GrownParts(counts, groups, more);
      GrownParts(counts0, groups, newPerGroup - perGroup0);
      if budget == 0 {
        return false;
      }
      Spend();
      if more > 0 {
        enlarged := enlarged + [budget > 0];
      }
      perGroup, counts := newPerGroup, grown.(descs := counts.descs);
      if budget == 0 {
        return false;
      }
      Spend();
      counts := grown;
      ok := WriteBackups(newPerGroup, grown);
    }

    method WriteBackups(newPerGroup: nat, grown: Counts) returns (ok: bool)
      modifies `backups, `budget, `written
      ensures |backups| == |old(backups)|
      ensures forall i :: 0 <= i < |backups| ==> backups[i] == HalfWritten(old(backups[i]), newPerGroup, grown, old(budget) - 2 * i)
      ensures ok <==> old(budget) >= 2 * |backups|
      ensures budget == if ok then old(budget) - 2 * |backups| else 0
      ensures written + budget == old(written + budget)
    {
      for i := 0 to |backups|
        invariant |backups| == |old(backups)|
        invariant forall k :: 0 <= k < |backups| ==>
                    backups[k] == if k < i then Backup(newPerGroup, grown) else old(backups[k])
        invariant written + budget == old(written + budget) && budget == old(budget) - 2 * i
      {
        if budget == 0 {
          return false;
        }
        Spend();
        backups := backups[i := Backup(newPerGroup, grown.(descs := backups[i].counts.descs))];
        if budget == 0 {
          return false;
        }
        Spend();
        backups := backups[i := Backup(newPerGroup, grown)];
      }
      return true;
    }

    lemma GrownParts(c: Counts, groups: nat, more: nat)
      ensures Grown(c, groups, more).inodes == c.inodes + groups * more && Grown(c, groups, more).free == c.free + groups * more
      ensures more == 0 ==> Grown(c, groups, more) == c
    {
      GrownDescs(c, groups, more);
    }

    /** ext4fixup_internal, on power for `writes` more block writes: false only when they have
        all been made. */
    method Run(writes: nat, ghost base: Dirs, ghost perGroup0: nat, ghost counts0: Counts) returns (ok: bool)
      requires Valid(base, perGroup0, counts0)
      modifies `dirs, `state, `mountable, `changes, `perGroup, `counts, `backups, `stale, `budget, `enlarged, `written
      ensures Valid(base, perGroup0, counts0) || Completed(base, perGroup0, counts0)
      ensures ok ==> Completed(base, perGroup0, counts0) && mountable
      ensures !ok ==> written == old(written) + writes
      ensures |backups| == |old(backups)|
      ensures old(state) == Unset && writes == 1 ==> state == Marking && mountable == old(mountable) && dirs == old(dirs)
      ensures old(state == UpdatingSb && NoneStale() && perGroup < Align(perGroup0, perBlock)) && writes == 1 ==>
                state == UpdatingSb && perGroup == Align(perGroup0, perBlock) && enlarged == [false] && NoneStale()
      ensures old(state == UpdatingSb && NoneStale()) && writes == 4 + 2 * |backups| ==> ok
      ensures old(state == UpdatingSb && perGroup == Align(perGroup0, perBlock)) || perGroup0 == Align(perGroup0, perBlock) ==>
                enlarged == old(enlarged)
    {
      hide WellFormed, Pass, Renumbered, TargetDirs, Align, Legal, StateAfter, MountableAfter;
      budget := writes;
      var newPerGroup := Align(perGroup, perBlock);
      AlignFacts(perGroup0, perBlock);
      GroupSizes(shape, base, perGroup0, Align(perGroup0, perBlock));
      ok := Passes(newPerGroup, base, perGroup0, counts0);
      if !ok {
        return false;
      }
      ok := UpdateSuperblocks(newPerGroup, perGroup0, counts0);
      if !ok {
        return false;
      }
      ok := SetState(Unset);
    }

    /** The states up to the superblocks. */
    method Passes(newPerGroup: nat, ghost base: Dirs, ghost perGroup0: nat, ghost counts0: Counts) returns (ok: bool)
      requires Valid(base, perGroup0, counts0) && newPerGroup == Align(perGroup0, perBlock)
      modifies `dirs, `state, `mountable, `changes, `budget, `written
      ensures Valid(base, perGroup0, counts0) && (ok ==> state == UpdatingSb)
      ensures !ok ==> budget == 0
      ensures written + budget == old(written + budget)
      ensures old(state) == UpdatingSb ==> ok && budget == old(budget)
      ensures old(state) == Unset && old(budget) == 1 ==>
                !ok && state == Marking && mountable == old(mountable) && dirs == old(dirs)
    {
      hide WellFormed, Pass, Renumbered, TargetDirs, Align, SlotOf, Large, Sized, Recorded, Outcome;
      if state == Unset {
        MarkStarts(shape, base, perGroup0, newPerGroup);
        ok := SetState(Marking);
        if !ok {
          return false;
        }
      }
      if state == Marking {
        ok := MarkPhase(newPerGroup, base);
        if !ok {
          return false;
        }
      }
      if state == Updating {
        GroupSizes(shape, base, perGroup0, newPerGroup);
        ok := UpdatePhase(newPerGroup, base);
        if !ok {
          return false;
        }
      }
      return true;
    }

    /** The marking pass and the change of state after it. */
    method MarkPhase(newPerGroup: nat, ghost base: Dirs) returns (ok: bool)
      requires Pass(Mark, shape, base, perGroup, newPerGroup, dirs) && WellFormed(shape, base, perGroup, newPerGroup)
      requires state == Marking && Recorded()
      modifies `dirs, `state, `mountable, `changes, `budget, `written
      ensures Recorded()
      ensures !ok && state == Marking ==> Pass(Mark, shape, base, perGroup, newPerGroup, dirs)
      ensures ok || state != Marking ==> state == Updating && Pass(Update, shape, base, perGroup, newPerGroup, dirs)
      ensures !ok ==> budget == 0
      ensures written + budget == old(written + budget)
    {
      hide WellFormed, Pass, Progress, TargetDirs, AllFinished;
      RootFacts(shape, base, perGroup, newPerGroup);
      ok := RecurseDir(SlotOf(ROOT_INO, perGroup), Mark, perGroup, newPerGroup, base);
      if ok {
        PassFinished(Mark, shape, base, perGroup, newPerGroup, dirs);
        UpdateStarts(shape, base, perGroup, newPerGroup);
        ok := SetState(Updating);
      }
    }

    /** The updating pass and the change of state after it. */
    method UpdatePhase(newPerGroup: nat, ghost base: Dirs) returns (ok: bool)
      requires Pass(Update, shape, base, perGroup, newPerGroup, dirs) && WellFormed(shape, base, perGroup, newPerGroup)
      requires state == Updating && Recorded() && perGroup > 0
      modifies `dirs, `state, `mountable, `changes, `budget, `written
      ensures Recorded()
      ensures !ok && state == Updating ==> Pass(Update, shape, base, perGroup, newPerGroup, dirs)
      ensures ok || state != Updating ==> state == UpdatingSb && dirs == Renumbered(base, perGroup, newPerGroup)
      ensures !ok ==> budget == 0
      ensures written + budget == old(written + budget)
    {
      hide WellFormed, Pass, Progress, Renumbered, TargetDirs, AllFinished;
      RootFacts(shape, base, perGroup, newPerGroup);
      ok := RecurseDir(SlotOf(ROOT_INO, perGroup), Update, perGroup, newPerGroup, base);
      if ok {
        PassFinished(Update, shape, base, perGroup, newPerGroup, dirs);
        RenumberedIs(base, perGroup, newPerGroup);
        ok := SetState(UpdatingSb);
      }
    }

    /** A file system that is being changed can be mounted exactly if the first change of
        state was cut between its two writes and no change has been completed since. */
    lemma MountableExactly(base: Dirs, perGroup0: nat, counts0: Counts)
      requires Valid(base, perGroup0, counts0)
      ensures state != Unset ==> (mountable <==> exists i: nat :: FirstCut(changes, i))
    {
      hide WellFormed, Pass, Renumbered, Legal, StateAfter, MountableAfter, FirstCut, Align;
      if state != Unset {
        MountableWhileChanged(changes);
      }
    }

    /** Any number of restarts, each failing after any number of writes: a run that does not
        complete has made all its writes, and once one completes, every entry has been
        renumbered exactly once. */
    method RunRepeatedly(writes: seq<nat>, ghost base: Dirs, ghost perGroup0: nat, ghost counts0: Counts)
      returns (ok: bool, ghost after: Counts)
      requires Valid(base, perGroup0, counts0)
      modifies `dirs, `state, `mountable, `changes, `perGroup, `counts, `backups, `stale, `budget, `enlarged, `written
      ensures
        var newPerGroup := Align(perGroup0, perBlock);
        || Valid(base, perGroup0, counts0)
        || (Valid(Renumbered(base, perGroup0, newPerGroup), newPerGroup, after)
            && Outcome(perGroup0, newPerGroup, groups, counts0, after, enlarged))
      ensures ok ==> Completed(base, perGroup0, counts0) && mountable
      ensures !ok ==> written == old(written) + Sum(writes)
    {
      hide WellFormed, Pass, Renumbered, Align, Legal, StateAfter, MountableAfter, Grown, Completed, Valid, Outcome;
      ValidSizes(base, perGroup0, counts0);
      ghost var newPerGroup := Align(perGroup0, perBlock);
      AlignFacts(perGroup0, perBlock);
      ghost var done := Renumbered(base, perGroup0, newPerGroup);
      ghost var over, current, size := false, base, perGroup0;
      after := counts0;
      for i := 0 to |writes|
        invariant Valid(current, size, after)
        invariant if over then current == done && size == newPerGroup && Outcome(perGroup0, newPerGroup, groups, counts0, after, enlarged)
                  else current == base && size == perGroup0 && after == counts0
        invariant written == old(written) + Sum(writes[..i])
      {
        ok := Run(writes[i], current, size, after);
        if Completed(current, size, after) {
          if over {
            CompletedAgain(base, perGroup0, counts0, after);
          } else {
            CompletedStarts(base, perGroup0, counts0);
            over, current, size, after := true, done, newPerGroup, counts;
          }
        }
        if ok {
          return;
        }
        assert writes[..i + 1][..i] == writes[..i];
      }
      assert writes[..|writes|] == writes;
      return false, after;
    }

    lemma ValidSizes(base: Dirs, perGroup0: nat, counts0: Counts)
      requires Valid(base, perGroup0, counts0)
      ensures perBlock > 0 && perGroup0 > 0 && WellFormed(shape, base, perGroup0, Align(perGroup0, perBlock)) && Sized(perGroup0, counts0)
    {
      hide WellFormed, Pass, Renumbered, Legal, StateAfter, MountableAfter, Align;
      GroupSizes(shape, base, perGroup0, Align(perGroup0, perBlock));
    }

    /** A completed image is one the tool is for. */
    lemma CompletedStarts(base: Dirs, perGroup0: nat, counts0: Counts)
      requires Completed(base, perGroup0, counts0) && WellFormed(shape, base, perGroup0, Align(perGroup0, perBlock))
      ensures
        var newPerGroup := Align(perGroup0, perBlock);
        && Valid(Renumbered(base, perGroup0, newPerGroup), newPerGroup, counts)
        && Outcome(perGroup0, newPerGroup, groups, counts0, counts, enlarged)
    {
      hide WellFormed, Pass, Legal, StateAfter, MountableAfter, Align, Renumbered;
      AlignFacts(perGroup0, perBlock);
      RenumberedWellFormed(shape, base, perGroup0, Align(perGroup0, perBlock));
      SizedAgain(perGroup0, counts0);
    }

    lemma SizedAgain(perGroup0: nat, counts0: Counts)
      requires perBlock > 0 && Sized(perGroup0, counts0) && Large(perGroup0, counts0)
      ensures Sized(Align(perGroup0, perBlock), counts)
    {
      hide Align;
      var more := Align(perGroup0, perBlock) - perGroup0;
      assert groups * perGroup0 + groups * more == groups * (perGroup0 + more);
    }

    /** A run on a completed image completes the same. */
    lemma CompletedAgain(base: Dirs, perGroup0: nat, counts0: Counts, after: Counts)
      requires perBlock > 0 && perGroup0 > 0 && WellFormed(shape, base, perGroup0, Align(perGroup0, perBlock))
      requires |counts0.descs| == groups && counts0.inodes == groups * perGroup0
      requires
        var newPerGroup := Align(perGroup0, perBlock);
        && Completed(Renumbered(base, perGroup0, newPerGroup), newPerGroup, after)
        && Outcome(perGroup0, newPerGroup, groups, counts0, after, enlarged)
      ensures Completed(base, perGroup0, counts0)
      ensures Valid(Renumbered(base, perGroup0, Align(perGroup0, perBlock)), Align(perGroup0, perBlock), after)
    {
      hide WellFormed, Pass, Legal, StateAfter, MountableAfter, Align, Renumbered;
      var newPerGroup := Align(perGroup0, perBlock);
      AlignFacts(perGroup0, perBlock);
      RenumberedWellFormed(shape, base, perGroup0, newPerGroup);
      RenumberedAligned(shape, Renumbered(base, perGroup0, newPerGroup), newPerGroup);
      GrownDescs(after, groups, 0);
    }

    /** recurse_dir: returns false only when power failed. */
    method RecurseDir(s: Slot, mode: Mode, perGroup: nat, newPerGroup: nat, ghost base: Dirs) returns (ok: bool)
      requires Pass(mode, shape, base, perGroup, newPerGroup, dirs) && s in base
      modifies `dirs, `budget, `written
      ensures Pass(mode, shape, base, perGroup, newPerGroup, dirs)
      ensures Progress(mode, shape, base, old(dirs), dirs, shape.rank[s])
      ensures ok ==> AllFinished(mode, base, dirs, s)
      ensures !ok ==> budget == 0
      ensures written + budget == old(written + budget)
      decreases shape.rank[s]
    {
      hide Pass, Walked, WalkedAll, Progress, Processed, GoesDown, Live, AllFinished, EntryOk, WellFormed, WellFormedEntry;
      PassFacts(mode, shape, base, perGroup, newPerGroup, dirs, s);
      WalkStart(mode, shape, base, perGroup, newPerGroup, dirs, s);
      var buf := dirs[s];
      ghost var disk0 := dirs[s];
      var j := 0;
      while j < |buf|
        invariant j <= |buf| == |base[s]|
        invariant Pass(mode, shape, base, perGroup, newPerGroup, dirs)
        invariant s in dirs && dirs[s] == disk0
        invariant Walked(mode, base, perGroup, newPerGroup, dirs, s, buf, j)
        invariant Progress(mode, shape, base, old(dirs), dirs, shape.rank[s])
        invariant written + budget == old(written + budget)
      {
        WalkStops(mode, shape, base, perGroup, newPerGroup, dirs, s, buf, j);
        if buf[j].inode == 0 {
          break;
        }
        WalkEntry(mode, shape, base, perGroup, newPerGroup, dirs, s, buf, j);
        if GoesDown(buf[j], mode, perGroup, dirs) {
          var child := SlotOf(buf[j].inode % HIGH, perGroup);
          ghost var before := dirs;
          ok := RecurseDir(child, mode, perGroup, newPerGroup, base);
          ProgressTrans(mode, shape, base, old(dirs), before, dirs, shape.rank[child], shape.rank[s]);
          if !ok {
            return false;
          }
          WalkedProgress(mode, shape, base, perGroup, newPerGroup, before, dirs, s, buf, j, shape.rank[child]);
          ProgressFacts(mode, shape, base, before, dirs, shape.rank[child], s);
        }
        WalkStep(mode, shape, base, perGroup, newPerGroup, dirs, s, buf, j);
        buf := buf[j := Processed(buf[j], mode, perGroup, newPerGroup)];
        j := j + 1;
      }
      WalkStops(mode, shape, base, perGroup, newPerGroup, dirs, s, buf, j);
      ghost var before := dirs;
      ok := WriteDirectory(s, buf, mode, perGroup, newPerGroup, base, j);
      ProgressTrans(mode, shape, base, old(dirs), before, dirs, shape.rank[s], shape.rank[s]);
    }

    method WriteDirectory(s: Slot, buf: seq<Entry>, mode: Mode, perGroup: nat, newPerGroup: nat, ghost base: Dirs, ghost j: nat) returns (ok: bool)
      requires Pass(mode, shape, base, perGroup, newPerGroup, dirs) && s in base
      requires WalkedAll(mode, base, perGroup, newPerGroup, dirs, s, buf, j)
      modifies `dirs, `budget, `written
      ensures Pass(mode, shape, base, perGroup, newPerGroup, dirs)
      ensures Progress(mode, shape, base, old(dirs), dirs, shape.rank[s])
      ensures ok ==> AllFinished(mode, base, dirs, s)
      ensures s in shape.blocks && (ok ==> written == old(written) + shape.blocks[s])
      ensures !ok ==> budget == 0
      ensures written + budget == old(written + budget)
    {
      hide Pass, Progress, WalkedAll;
      PassFacts(mode, shape, base, perGroup, newPerGroup, dirs, s);
      WritesStart(mode, shape, base, perGroup, newPerGroup, dirs, s);
      WalkStart(mode, shape, base, perGroup, newPerGroup, dirs, s);
      ghost var disk0, start := dirs[s], dirs;
      WalkedLength(mode, base, perGroup, newPerGroup, dirs, s, buf, j);
      for k := 0 to shape.blocks[s]
        invariant Pass(mode, shape, base, perGroup, newPerGroup, dirs)
        invariant Progress(mode, shape, base, start, dirs, shape.rank[s])
        invariant s in dirs && |dirs[s]| == |base[s]| && dirs[s := disk0] == start
        invariant written + budget == old(written + budget) && written == old(written) + k
        invariant forall i: nat :: i < |base[s]| ==> dirs[s][i] == if shape.block[s][i] < k then buf[i] else disk0[i]
      {
        if budget == 0 {
          return false;
        }
        Spend();
        ghost var before := dirs;
        BlockWritten(mode, shape, base, perGroup, newPerGroup, dirs, disk0, s, buf, j, k);
        dirs := dirs[s := WriteBlock(dirs[s], buf, shape.block[s], k)];
        ProgressTrans(mode, shape, base, start, before, dirs, shape.rank[s], shape.rank[s]);
        assert dirs[s := disk0] == before[s := disk0];
      }
      DirectoryFinished(mode, shape, base, perGroup, newPerGroup, dirs, disk0, s, buf, j);
      return true;
    }
  }

  /** Power for one write: the image is marked as being changed, and can be mounted. */
  method CutAtFirstChange(shape: Shape, perBlock: nat, dirs: Dirs, perGroup: nat, counts: Counts, backups: seq<Backup>, stale: seq<bool>)
    returns (image: Image)
    requires perBlock > 0 && WellFormed(shape, dirs, perGroup, Align(perGroup, perBlock))
    requires |counts.descs| == |stale| && counts.inodes == |stale| * perGroup
    requires perGroup == Align(perGroup, perBlock) ==> forall i :: 0 <= i < |stale| ==> !stale[i]
    ensures image.Valid(dirs, perGroup, counts) && image.state == Marking && image.mountable
  {
    hide WellFormed, Pass, Renumbered, Legal, Align;
    image := new Image(shape, perBlock, dirs, perGroup, counts, backups, stale);
    var ok := image.Run(1, dirs, perGroup, counts);
  }

  /** The promise that the tool can be stopped anywhere and started again fails between two
      writes: after power for one write, the primary superblock's, and a restart that
      completes, the superblocks count the new inodes as free and the descriptors do not. */
  method FreeCountsLost(image: Image, ghost base: Dirs, ghost perGroup0: nat, ghost counts0: Counts) returns (ok: bool)
    requires image.Valid(base, perGroup0, counts0) && image.state == UpdatingSb && image.NoneStale()
    requires image.perGroup == perGroup0 < Align(perGroup0, image.perBlock) && image.groups > 0
    modifies image
    ensures ok && image.Completed(base, perGroup0, counts0)
    ensures image.counts.free > counts0.free && image.counts.descs == counts0.descs
    ensures image.counts.descs != Grown(counts0, image.groups, image.perGroup - perGroup0).descs
  {
    hide WellFormed, Pass, Renumbered, Legal, StateAfter, MountableAfter, Align;
    ok := image.Run(1, base, perGroup0, counts0);
    ok := image.Run(4 + 2 * |image.backups|, base, perGroup0, counts0);
    GrownDescs(counts0, image.groups, image.perGroup - perGroup0);
  }
}
