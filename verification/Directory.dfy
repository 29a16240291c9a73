/** Directories: written by make_directory of tools/ext4_utils/contents.c, walked by
    recurse_dir of tools/ext4_utils/ext4fixup.c. */
module Directory {
  import opened Rounding
  import opened LittleEndian

  const FT_DIR: nat := 2

  /** A directory entry. */
  datatype Entry = Entry(inode: nat, fileType: nat, name: Bytes)

  /** Entries that the fields of a record can hold; names are not empty. */
  predicate Fits(e: Entry) {
    e.inode < 0x1_0000_0000 && e.fileType < 256 && 0 < |e.name| < 256
  }

  /** Block sizes whose records' lengths fit in 16 bits and that hold any one record. */
  predicate BlockSizeOk(bs: nat) {
    264 <= bs < 0x1_0000
  }

  // ----- where the records go -----

  function RecLen(e: Entry): (r: nat) {
    8 + Align(|e.name|, 4)
  }

  /** A record has its eight bytes of fields and its name, and as few more as make it end on a
      multiple of four. */
  lemma RecLenBounds(e: Entry)
    requires Fits(e)
    ensures 8 + |e.name| <= RecLen(e) <= 264 && 12 <= RecLen(e)
    ensures RecLen(e) % 4 == 0 && RecLen(e) < 12 + |e.name|
  {
  }

  /** Where a record goes that follows one ending at `off`: at the next block, if it would
      cross into it. */
  function Place(off: nat, len: nat, bs: nat): nat
    requires bs > 0 && len > 0
  {
    if off / bs == (off + len - 1) / bs then off else (off + len - 1) / bs * bs
  }

  /** The end of the first n records. */
  function EndOf(es: seq<Entry>, n: nat, bs: nat): nat
    requires bs > 0 && n <= |es|
    decreases n, 0
  {
    if n == 0 then 0 else StartOf(es, n - 1, bs) + RecLen(es[n - 1])
  }

  function StartOf(es: seq<Entry>, i: nat, bs: nat): nat
    requires bs > 0 && i < |es|
    decreases i, 1
  {
    Place(EndOf(es, i, bs), RecLen(es[i]), bs)
  }

  lemma PlaceFacts(off: nat, len: nat, bs: nat)
    requires 0 < len <= bs
    ensures
      var r := Place(off, len, bs);
      && r == (if off % bs + len > bs then off + (bs - off % bs) else off)
      && r / bs == (r + len - 1) / bs
      && (r > off ==> off / bs + 1 == r / bs && r == r / bs * bs)
  {
    var q, m := off / bs, off % bs;
    assert off == bs * q + m;
    if m + len > bs {
      DivUnique(off + len - 1, bs, q + 1, m + len - 1 - bs);
      DivUnique((q + 1) * bs, bs, q + 1, 0);
      DivUnique((q + 1) * bs + len - 1, bs, q + 1, len - 1);
      assert (q + 1) * bs == bs * q + bs;
    } else {
      DivUnique(off + len - 1, bs, q, m + len - 1);
    }
  }

  lemma Increasing(es: seq<Entry>, i: nat, bs: nat)
    requires bs > 0 && i < |es| && (forall e :: e in es ==> Fits(e)) && BlockSizeOk(bs)
    ensures EndOf(es, i, bs) <= StartOf(es, i, bs) < EndOf(es, i + 1, bs)
    ensures StartOf(es, i, bs) / bs == (EndOf(es, i + 1, bs) - 1) / bs
  {
    hide Place, Align;
    assert es[i] in es;
    RecLenBounds(es[i]);
    PlaceFacts(EndOf(es, i, bs), RecLen(es[i]), bs);
  }

  /** dentry_size: the space that the records take. */
  method DentrySize(dentries: seq<Entry>, bs: nat) returns (len: nat)
    requires BlockSizeOk(bs) && forall e :: e in dentries ==> Fits(e)
    ensures len == EndOf(WithDots(0, 0) + dentries, |dentries| + 2, bs)
  {
    hide Place, Align, EndOf;
    ghost var es := WithDots(0, 0) + dentries;
    len := 24;
    DotsEnd(es, 0, 0, bs);
    for i := 0 to |dentries|
      invariant len == EndOf(es, i + 2, bs)
    {
      assert es[i + 2] == dentries[i] && dentries[i] in dentries;
      var dentryLen := 8 + Align(|dentries[i].name|, 4);
      RecLenBounds(dentries[i]);
      PlaceFacts(len, dentryLen, bs);
      if len % bs + dentryLen > bs {
        len := len + (bs - len % bs);
      }
      len := len + dentryLen;
      EndStep(es, i + 2, bs);
    }
  }

  /** The entries "." and "..". */
  function WithDots(self: nat, parent: nat): seq<Entry> {
    [Entry(self, FT_DIR, [46]), Entry(parent, FT_DIR, [46, 46])]
  }

  /** A directory starts with itself and its parent, by their inode numbers. */
  ghost predicate DotsAt(s: Bytes, self: nat, parent: nat) {
    && |s| >= 24 && Get32(s, 0) == self && s[6..9] == [1, 2, 46] && Get16(s, 4) == 12
    && Get32(s, 12) == parent && s[18..22] == [2, 2, 46, 46]
  }

  lemma EndStep(es: seq<Entry>, n: nat, bs: nat)
    requires bs > 0 && n < |es|
    ensures EndOf(es, n + 1, bs) == Place(EndOf(es, n, bs), RecLen(es[n]), bs) + RecLen(es[n])
  {
  }

  lemma DotsEnd(es: seq<Entry>, self: nat, parent: nat, bs: nat)
    requires BlockSizeOk(bs) && |es| >= 2 && es[..2] == WithDots(self, parent)
    ensures EndOf(es, 1, bs) == 12 && EndOf(es, 2, bs) == 24
  {
    hide Place;
    assert es[0] == es[..2][0] && es[1] == es[..2][1];
    assert RecLen(es[0]) == 12 && RecLen(es[1]) == 12;
    PlaceFacts(0, 12, bs);
    PlaceFacts(12, 12, bs);
    EndStep(es, 0, bs);
    EndStep(es, 1, bs);
    DivUnique(12, bs, 0, 12);
  }

  // ----- records in a buffer -----

  function Encode(e: Entry, recLen: nat): (r: Bytes)
    requires Fits(e)
    ensures |r| == 8 + |e.name|
  {
    U32(e.inode) + U16(recLen) + [|e.name|, e.fileType] + e.name
  }

  ghost predicate RecordAt(s: Bytes, o: nat, e: Entry, recLen: nat)
    requires Fits(e)
  {
    o + 8 + |e.name| <= |s| && s[o..o + 8 + |e.name|] == Encode(e, recLen)
  }

  lemma PutElsewhere(s: Bytes, at: nat, b: Bytes, o: nat, e: Entry, recLen: nat)
    requires Fits(e) && RecordAt(s, o, e, recLen) && at + |b| <= |s| && (at + |b| <= o || o + 8 + |e.name| <= at)
    ensures RecordAt(Put(s, at, b), o, e, recLen)
  {
    hide Encode;
    var t := Put(s, at, b);
    assert t[o..o + 8 + |e.name|] == s[o..o + 8 + |e.name|];
  }

  lemma PutRecord(s: Bytes, o: nat, e: Entry, recLen: nat)
    requires Fits(e) && o + 8 + |e.name| <= |s|
    ensures RecordAt(Put(s, o, Encode(e, recLen)), o, e, recLen)
  {
    hide Encode;
  }

  lemma PatchRecLen(s: Bytes, o: nat, e: Entry, recLen: nat, recLen': nat)
    requires Fits(e) && RecordAt(s, o, e, recLen)
    ensures RecordAt(Put(s, o + 4, U16(recLen')), o, e, recLen')
  {
    hide U16, U32;
    var t := Put(s, o + 4, U16(recLen'));
    var n := 8 + |e.name|;
    assert t[o..o + n] == s[o..o + n][..4] + U16(recLen') + s[o..o + n][6..];
    assert Encode(e, recLen)[..4] == U32(e.inode) && Encode(e, recLen)[6..] == [|e.name|, e.fileType] + e.name;
    assert Encode(e, recLen') == U32(e.inode) + U16(recLen') + ([|e.name|, e.fileType] + e.name);
  }

  lemma PatchInode(s: Bytes, o: nat, e: Entry, recLen: nat, inode: nat)
    requires Fits(e) && RecordAt(s, o, e, recLen) && inode < 0x1_0000_0000
    ensures RecordAt(Put(s, o, U32(inode)), o, e.(inode := inode), recLen)
  {
    hide U16, U32;
    var t := Put(s, o, U32(inode));
    var n := 8 + |e.name|;
    assert t[o..o + n] == U32(inode) + s[o..o + n][4..];
    assert Encode(e, recLen)[4..] == U16(recLen) + [|e.name|, e.fileType] + e.name;
    assert Encode(e.(inode := inode), recLen) == U32(inode) + (U16(recLen) + [|e.name|, e.fileType] + e.name);
  }

  /** What the reader finds in a record. */
  lemma RecordFields(s: Bytes, o: nat, e: Entry, recLen: nat)
    requires Fits(e) && RecordAt(s, o, e, recLen) && recLen < 0x1_0000
    ensures Get32(s, o) == e.inode && Get16(s, o + 4) == recLen && s[o + 6] == |e.name| && s[o + 7] == e.fileType
    ensures s[o + 8..o + 8 + |e.name|] == e.name
  {
    hide U16, U32, Get16, Get32;
    var i, l, t, n := U32(e.inode), U16(recLen), [|e.name|, e.fileType], e.name;
    assert i + l + t + n == [] + i + (l + t + n) == i + l + (t + n) == (i + l) + t + n == (i + l + t) + n + [];
    FieldAt(s, o, [], i, l + t + n);
    FieldAt(s, o, i, l, t + n);
    FieldAt(s, o, i + l, t, n);
    FieldAt(s, o, i + l + t, n, []);
    assert s[o + 6] == s[o + 6..o + 8][0] && s[o + 7] == s[o + 6..o + 8][1];
    Field32(s, o, e.inode);
    Field16(s, o + 4, recLen);
  }

  // ----- writing a directory -----

  /** The length in the record of entry k when n entries have been written: it reaches to the
      next record, and that of the last entry is `last`. */
  function LenOf(es: seq<Entry>, k: nat, n: nat, bs: nat, last: nat): int
    requires bs > 0 && k < n <= |es|
  {
    if k + 1 < n then StartOf(es, k + 1, bs) - StartOf(es, k, bs) else last
  }

  ghost predicate Written(s: Bytes, es: seq<Entry>, n: nat, bs: nat, last: nat)
    requires bs > 0 && n <= |es|
  {
    (forall e :: e in es ==> Fits(e)) && forall k: nat :: k < n ==> WrittenAt(s, es, k, n, bs, last)
  }

  ghost predicate WrittenAt(s: Bytes, es: seq<Entry>, k: nat, n: nat, bs: nat, last: nat)
    requires bs > 0 && k < n <= |es| && (forall e :: e in es ==> Fits(e))
  {
    assert es[k] in es;
    LenOf(es, k, n, bs, last) >= 0 && RecordAt(s, StartOf(es, k, bs), es[k], LenOf(es, k, n, bs, last))
  }

  lemma {:induction false} EndsMono(es: seq<Entry>, i: nat, j: nat, bs: nat)
    requires BlockSizeOk(bs) && (forall e :: e in es ==> Fits(e)) && i <= j <= |es|
    ensures EndOf(es, i, bs) <= EndOf(es, j, bs)
    decreases j
  {
    hide StartOf, EndOf;
    if i < j {
      Increasing(es, j - 1, bs);
      EndsMono(es, i, j - 1, bs);
    }
  }

  /** From the n-th record's predecessor to where the n-th goes. */
  function Gap(es: seq<Entry>, n: nat, bs: nat): int
    requires bs > 0 && n < |es|
  {
    if n > 0 then StartOf(es, n, bs) - StartOf(es, n - 1, bs) else 0
  }

  /** Changing the length in the last record. */
  lemma LastPatched(s: Bytes, es: seq<Entry>, n: nat, bs: nat, last: nat, last': nat)
    requires BlockSizeOk(bs) && 0 < n <= |es| && Written(s, es, n, bs, last) && last' < 0x1_0000
    ensures StartOf(es, n - 1, bs) + 6 <= |s|
    ensures Written(Put(s, StartOf(es, n - 1, bs) + 4, U16(last')), es, n, bs, last')
  {
    hide StartOf, EndOf, RecordAt, Put, U16;
    var o := StartOf(es, n - 1, bs);
    assert es[n - 1] in es;
    assert WrittenAt(s, es, n - 1, n, bs, last);
    RecordInside(s, o, es[n - 1], last);
    var t := Put(s, o + 4, U16(last'));
    forall k: nat | k < n ensures WrittenAt(t, es, k, n, bs, last') {
      assert es[k] in es;
      assert WrittenAt(s, es, k, n, bs, last);
      if k == n - 1 {
        PatchRecLen(s, o, es[k], last, last');
      } else {
        Apart(es, k, n - 1, bs);
        PutElsewhere(s, o + 4, U16(last'), StartOf(es, k, bs), es[k], LenOf(es, k, n, bs, last));
      }
    }
  }

  lemma RecordInside(s: Bytes, o: nat, e: Entry, recLen: nat)
    requires Fits(e) && RecordAt(s, o, e, recLen)
    ensures o + 8 + |e.name| <= |s|
  {
  }

  /** Records of different entries do not overlap. */
  lemma Apart(es: seq<Entry>, k: nat, n: nat, bs: nat)
    requires BlockSizeOk(bs) && (forall e :: e in es ==> Fits(e)) && k < n < |es|
    ensures StartOf(es, k, bs) + 8 + |es[k].name| <= EndOf(es, k + 1, bs) <= EndOf(es, n, bs) <= StartOf(es, n, bs)
  {
    hide StartOf, Align, Place;
    assert es[k] in es;
    RecLenBounds(es[k]);
    EndsMono(es, k + 1, n, bs);
    Increasing(es, n, bs);
  }

  /** Adding a record after those written, which reach to where it goes. */
  lemma RecordAdded(s: Bytes, es: seq<Entry>, n: nat, bs: nat)
    requires BlockSizeOk(bs) && n < |es| && Gap(es, n, bs) >= 0 && Written(s, es, n, bs, Gap(es, n, bs)) && Fits(es[n])
    requires StartOf(es, n, bs) + RecLen(es[n]) <= |s|
    ensures StartOf(es, n, bs) + 8 + |es[n].name| <= |s|
    ensures Written(Put(s, StartOf(es, n, bs), Encode(es[n], RecLen(es[n]))), es, n + 1, bs, RecLen(es[n]))
  {
    hide StartOf, EndOf, RecordAt, Put, RecLen, Encode;
    var o := StartOf(es, n, bs);
    RecLenBounds(es[n]);
    var t := Put(s, o, Encode(es[n], RecLen(es[n])));
    var m := n + 1;
    forall k: nat | k < m ensures WrittenAt(t, es, k, m, bs, RecLen(es[n])) {
      assert es[k] in es;
      if k == n {
        PutRecord(s, o, es[n], RecLen(es[n]));
      } else {
        assert WrittenAt(s, es, k, n, bs, Gap(es, n, bs));
        Apart(es, k, n, bs);
        PutElsewhere(s, o, Encode(es[n], RecLen(es[n])), StartOf(es, k, bs), es[k], LenOf(es, k, n, bs, Gap(es, n, bs)));
      }
    }
  }

  lemma WrittenFits(s: Bytes, es: seq<Entry>, n: nat, bs: nat, last: nat)
    requires bs > 0 && n <= |es| && Written(s, es, n, bs, last)
    ensures forall e :: e in es ==> Fits(e)
  {
  }

  lemma NoneWritten(s: Bytes, es: seq<Entry>, bs: nat, last: nat, last': nat)
    requires bs > 0 && Written(s, es, 0, bs, last)
    ensures Written(s, es, 0, bs, last')
  {
  }

  /** The facts about the n-th record that add_dentry computes. */
  lemma NextRecord(es: seq<Entry>, n: nat, bs: nat)
    requires BlockSizeOk(bs) && n < |es| && forall e :: e in es ==> Fits(e)
    ensures
      var off, len := EndOf(es, n, bs), RecLen(es[n]);
      && 12 <= len <= 264 && 8 + |es[n].name| <= len
      && StartOf(es, n, bs) == (if off / bs == (off + len - 1) / bs then off else (off + len - 1) / bs * bs)
      && off <= StartOf(es, n, bs) && StartOf(es, n, bs) + len == EndOf(es, n + 1, bs)
      && (n == 0 ==> StartOf(es, n, bs) == off == 0)
      && (n > 0 ==> StartOf(es, n - 1, bs) + RecLen(es[n - 1]) == off && 0 <= Gap(es, n, bs) <= bs)
  {
    hide Align;
    assert es[n] in es;
    RecLenBounds(es[n]);
    Increasing(es, n, bs);
    if n > 0 {
      GapBound(es, n, bs);
    } else {
      DivUnique(0, bs, 0, 0);
      DivUnique(RecLen(es[n]) - 1, bs, 0, RecLen(es[n]) - 1);
    }
  }

  /** A padded record stays within its block. */
  lemma GapBound(es: seq<Entry>, n: nat, bs: nat)
    requires BlockSizeOk(bs) && 0 < n < |es| && forall e :: e in es ==> Fits(e)
    ensures 0 <= Gap(es, n, bs) <= bs
  {
    hide Align, Place, StartOf, EndOf, RecLen;
    Increasing(es, n - 1, bs);
    Increasing(es, n, bs);
    assert es[n - 1] in es && es[n] in es;
    RecLenBounds(es[n - 1]);
    RecLenBounds(es[n]);
    var a, e, b := StartOf(es, n - 1, bs), EndOf(es, n, bs), StartOf(es, n, bs);
    EndIs(es, n, bs);
    PlaceFacts(e, RecLen(es[n]), bs);
    SameBlock(a, e, b, bs, RecLen(es[n]));
  }

  lemma EndIs(es: seq<Entry>, n: nat, bs: nat)
    requires bs > 0 && 0 < n < |es|
    ensures EndOf(es, n, bs) == StartOf(es, n - 1, bs) + RecLen(es[n - 1])
    ensures StartOf(es, n, bs) == Place(EndOf(es, n, bs), RecLen(es[n]), bs)
  {
  }

  lemma SameBlock(a: nat, e: nat, b: nat, bs: nat, len: nat)
    requires bs > 0 && a < e && a / bs == (e - 1) / bs
    requires b == if e % bs + len > bs then e + (bs - e % bs) else e
    requires 0 < len <= bs
    ensures e <= b && b - a <= bs
  {
    var q := a / bs;
    assert a == bs * q + a % bs && e - 1 == bs * q + (e - 1) % bs;
    assert e == bs * q + (e - 1) % bs + 1;
    if (e - 1) % bs + 1 == bs {
      DivUnique(e, bs, q + 1, 0);
    } else {
      DivUnique(e, bs, q, (e - 1) % bs + 1);
    }
  }

  /** Where the bytes end that entry j - 1 needs. */
  ghost function NeededTo(es: seq<Entry>, j: nat, bs: nat): nat
    requires bs > 0 && j <= |es|
  {
    if j == 0 then 0 else StartOf(es, j - 1, bs) + 8 + |es[j - 1].name|
  }

  /** Zeros before entry j, and after the last of the n entries. */
  ghost predicate ZerosBefore(s: Bytes, es: seq<Entry>, n: nat, bs: nat, j: nat)
    requires bs > 0 && j <= n <= |es|
  {
    forall p: nat :: NeededTo(es, j, bs) <= p < |s| && (j < n ==> p < StartOf(es, j, bs)) ==> s[p] == 0
  }

  /** Besides the fields and the names of the first n entries there are only zeros. */
  ghost predicate RestZero(s: Bytes, es: seq<Entry>, n: nat, bs: nat)
    requires bs > 0 && n <= |es|
  {
    forall j: nat :: j <= n ==> ZerosBefore(s, es, n, bs, j)
  }

  lemma ZerosElsewhere(s: Bytes, at: nat, b: Bytes, es: seq<Entry>, n: nat, m: nat, bs: nat, j: nat)
    requires bs > 0 && j <= n <= m <= |es| && at + |b| <= |s| && ZerosBefore(s, es, n, bs, j)
    requires at + |b| <= NeededTo(es, j, bs) || (j < m && StartOf(es, j, bs) <= at)
    ensures ZerosBefore(Put(s, at, b), es, m, bs, j)
  {
    hide StartOf, NeededTo;
    var t := Put(s, at, b);
    forall p: nat | NeededTo(es, j, bs) <= p < |t| && (j < m ==> p < StartOf(es, j, bs)) ensures t[p] == 0 {
      assert p < at || at + |b| <= p;
      assert t[p] == s[p];
    }
  }

  /** The length of the last record can be changed. */
  lemma RestPatched(s: Bytes, es: seq<Entry>, n: nat, bs: nat, b: Bytes)
    requires BlockSizeOk(bs) && 0 < n <= |es| && |b| == 2 && RestZero(s, es, n, bs) && (forall e :: e in es ==> Fits(e))
    requires StartOf(es, n - 1, bs) + 6 <= |s|
    ensures RestZero(Put(s, StartOf(es, n - 1, bs) + 4, b), es, n, bs)
  {
    hide StartOf, EndOf, Put, ZerosBefore;
    var t := Put(s, StartOf(es, n - 1, bs) + 4, b);
    forall j: nat | j <= n ensures ZerosBefore(t, es, n, bs, j) {
      if j < n - 1 {
        Apart(es, j, n - 1, bs);
      }
      ZerosElsewhere(s, StartOf(es, n - 1, bs) + 4, b, es, n, n, bs, j);
    }
  }

  /** Entry n is written. */
  lemma RestAdded(s: Bytes, es: seq<Entry>, n: nat, bs: nat, b: Bytes)
    requires BlockSizeOk(bs) && n < |es| && RestZero(s, es, n, bs) && (forall e :: e in es ==> Fits(e))
    requires |b| == 8 + |es[n].name| && StartOf(es, n, bs) + |b| <= |s|
    ensures RestZero(Put(s, StartOf(es, n, bs), b), es, n + 1, bs)
  {
    hide StartOf, EndOf, Put, ZerosBefore;
    var at := StartOf(es, n, bs);
    var t, m := Put(s, at, b), n + 1;
    forall j: nat | j <= m ensures ZerosBefore(t, es, m, bs, j) {
      if j <= n {
        if j < n {
          Apart(es, j, n, bs);
        }
        ZerosElsewhere(s, at, b, es, n, n + 1, bs, j);
      } else {
        if n > 0 {
          Apart(es, n - 1, n, bs);
        }
        ZerosAfter(s, es, n, bs, b);
      }
    }
  }

  lemma ZerosAfter(s: Bytes, es: seq<Entry>, n: nat, bs: nat, b: Bytes)
    requires bs > 0 && n < |es| && ZerosBefore(s, es, n, bs, n) && NeededTo(es, n, bs) <= StartOf(es, n, bs)
    requires |b| == 8 + |es[n].name| && StartOf(es, n, bs) + |b| <= |s|
    ensures ZerosBefore(Put(s, StartOf(es, n, bs), b), es, n + 1, bs, n + 1)
  {
    hide StartOf;
    assert NeededTo(es, n + 1, bs) == StartOf(es, n, bs) + |b|;
  }

  lemma LastLen(s: Bytes, es: seq<Entry>, n: nat, bs: nat, last: nat)
    requires bs > 0 && 0 < n <= |es| && Written(s, es, n, bs, last) && last < 0x1_0000
    ensures StartOf(es, n - 1, bs) + 6 <= |s| && Get16(s, StartOf(es, n - 1, bs) + 4) == last
  {
    hide StartOf, EndOf, RecordAt, Get16;
    assert es[n - 1] in es;
    assert WrittenAt(s, es, n - 1, n, bs, last);
    RecordInside(s, StartOf(es, n - 1, bs), es[n - 1], last);
    RecordFields(s, StartOf(es, n - 1, bs), es[n - 1], last);
  }

  /** prev->rec_len += pad. */
  method PadPrev(data: array<byte>, prev: nat, pad: nat)
    requires prev + 6 <= data.Length && Get16(data[..], prev + 4) + pad < 0x1_0000
    modifies data
    ensures data[..] == Put(old(data[..]), prev + 4, U16(Get16(old(data[..]), prev + 4) + pad))
  {
    hide Put;
    var recLen: nat := data[prev + 4] as int + 256 * data[prev + 5] as int;
    PutBytes(data, prev + 4, U16(recLen + pad));
  }

  /** add_dentry: pads the previous record out to its block if the new one would cross it. */
  method AddDentry(data: array<byte>, offset: nat, prev: int, e: Entry, bs: nat, ghost es: seq<Entry>, ghost n: nat)
    returns (offset': nat, dentry: nat)
    requires BlockSizeOk(bs) && n < |es| && es[n] == e && Written(data[..], es, n, bs, if n > 0 then RecLen(es[n - 1]) else 0)
    requires offset == EndOf(es, n, bs) && EndOf(es, n + 1, bs) <= data.Length
    requires prev == if n > 0 then StartOf(es, n - 1, bs) else -1
    requires RestZero(data[..], es, n, bs)
    modifies data
    ensures Written(data[..], es, n + 1, bs, RecLen(e)) && RestZero(data[..], es, n + 1, bs)
    ensures offset' == EndOf(es, n + 1, bs) && dentry == StartOf(es, n, bs)
  {
    hide StartOf, EndOf, Align, Written, RecordAt, Encode, RestZero, Put;
    ghost var last := if n > 0 then RecLen(es[n - 1]) else 0;
    WrittenFits(data[..], es, n, bs, last);
    NextRecord(es, n, bs);
    assert es[n] in es;
    var recLen := 8 + Align(|e.name|, 4);
    var startBlock := offset / bs;
    var endBlock := (offset + recLen - 1) / bs;
    offset' := offset;
    if startBlock != endBlock {
      // There is a previous record: the first one does not cross a block boundary.
      assert prev != -1;
      LastPatched(data[..], es, n, bs, last, Gap(es, n, bs));
      LastLen(data[..], es, n, bs, last);
      RestPatched(data[..], es, n, bs, U16(Gap(es, n, bs)));
      PadPrev(data, prev, endBlock * bs - offset);
      offset' := endBlock * bs;
    } else if n == 0 {
      NoneWritten(data[..], es, bs, last, Gap(es, n, bs));
    }
    RecordAdded(data[..], es, n, bs);
    RestAdded(data[..], es, n, bs, Encode(e, recLen));
    PutBytes(data, offset', Encode(e, recLen));
    dentry := offset';
    offset' := offset' + recLen;
  }

  // ----- make_directory -----

  ghost predicate SameNames(es: seq<Entry>, fs: seq<Entry>) {
    |es| == |fs| && forall i :: 0 <= i < |es| ==> es[i].name == fs[i].name
  }

  /** The layout depends on the names only. */
  lemma {:induction false} LayoutOfNames(es: seq<Entry>, fs: seq<Entry>, n: nat, bs: nat)
    requires bs > 0 && SameNames(es, fs) && n <= |es|
    ensures EndOf(es, n, bs) == EndOf(fs, n, bs)
    ensures n < |es| ==> StartOf(es, n, bs) == StartOf(fs, n, bs)
    decreases n
  {
    hide StartOf, EndOf, RecLen;
    if n > 0 {
      LayoutOfNames(es, fs, n - 1, bs);
      EndsAt(es, n - 1, bs);
      EndsAt(fs, n - 1, bs);
      SameRecLen(es[n - 1], fs[n - 1]);
    } else {
      NothingEnds(es, bs);
      NothingEnds(fs, bs);
    }
    if n < |es| {
      SameRecLen(es[n], fs[n]);
      SameStart(es, fs, n, bs);
    }
  }

  lemma SameRecLen(e: Entry, f: Entry)
    requires e.name == f.name
    ensures RecLen(e) == RecLen(f)
  {
  }

  lemma NothingEnds(es: seq<Entry>, bs: nat)
    requires bs > 0
    ensures EndOf(es, 0, bs) == 0
  {
  }

  lemma SameStart(es: seq<Entry>, fs: seq<Entry>, n: nat, bs: nat)
    requires bs > 0 && n < |es| && n < |fs| && EndOf(es, n, bs) == EndOf(fs, n, bs) && RecLen(es[n]) == RecLen(fs[n])
    ensures StartOf(es, n, bs) == StartOf(fs, n, bs)
  {
    hide EndOf, RecLen, Place;
  }

  /** The entries without their inode numbers, as they are first written. */
  function Blank(dentries: seq<Entry>): (r: seq<Entry>)
    ensures |r| == |dentries| && forall i :: 0 <= i < |r| ==> r[i] == dentries[i].(inode := 0)
  {
    seq(|dentries|, i requires 0 <= i < |dentries| => dentries[i].(inode := 0))
  }

  /** The records of the directory fill its blocks: their lengths add up to its size. */
  ghost predicate IsDirectory(s: Bytes, es: seq<Entry>, bs: nat)
    requires bs > 0
  {
    && es != [] && |s| == Align(EndOf(es, |es|, bs), bs)
    && StartOf(es, |es| - 1, bs) <= |s| && Written(s, es, |es|, bs, |s| - StartOf(es, |es| - 1, bs))
  }

  lemma LastBlock(es: seq<Entry>, bs: nat)
    requires BlockSizeOk(bs) && es != [] && forall e :: e in es ==> Fits(e)
    ensures
      var len, start, end := Align(EndOf(es, |es|, bs), bs), StartOf(es, |es| - 1, bs), EndOf(es, |es|, bs);
      start + RecLen(es[|es| - 1]) == end <= len && len - start <= bs
  {
    hide Align, Place, StartOf, EndOf, RecLen, DivUp;
    var n := |es| - 1;
    Increasing(es, n, bs);
    var a, e := StartOf(es, n, bs), EndOf(es, n + 1, bs);
    EndsAt(es, n, bs);
    BlockEnd(a, e, bs);
  }

  lemma BlockEnd(a: nat, e: nat, bs: nat)
    requires bs > 0 && a < e && a / bs == (e - 1) / bs
    ensures e <= Align(e, bs) <= a + bs
  {
    hide Align, DivUp;
    var q := a / bs;
    assert a == bs * q + a % bs && e - 1 == bs * q + (e - 1) % bs;
    AlignFacts(e, bs);
    DivUpCounts(e, bs, q + 1);
    assert (q + 1) * bs == q * bs + bs;
    assert DivUp(e, bs) <= q + 1;
    MulLe(DivUp(e, bs), q + 1, bs);
  }

  lemma EndsAt(es: seq<Entry>, n: nat, bs: nat)
    requires bs > 0 && n < |es|
    ensures EndOf(es, n + 1, bs) == StartOf(es, n, bs) + RecLen(es[n])
  {
  }

  lemma WithDotsFits(self: nat, parent: nat, dentries: seq<Entry>)
    requires self < 0x1_0000_0000 && parent < 0x1_0000_0000 && forall e :: e in dentries ==> Fits(e)
    ensures forall e :: e in WithDots(self, parent) + Blank(dentries) ==> Fits(e)
    ensures forall e :: e in WithDots(self, parent) + dentries ==> Fits(e)
  {
    var es := WithDots(self, parent) + Blank(dentries);
    forall e | e in es ensures Fits(e) {
      var i: nat :| i < |es| && es[i] == e;
      if i >= 2 {
        assert dentries[i - 2] in dentries;
      }
    }
  }

  /** The loop of make_directory. The check for an internal error never fires. */
  method AddDentries(data: array<byte>, offset0: nat, dentry0: nat, dentries: seq<Entry>, bs: nat, ghost es: seq<Entry>)
    returns (offset: nat, dentry: nat, inodeAt: seq<nat>)
    requires BlockSizeOk(bs) && |es| == |dentries| + 2 && es[2..] == Blank(dentries)
    requires Written(data[..], es, 2, bs, RecLen(es[1])) && offset0 == EndOf(es, 2, bs) && dentry0 == StartOf(es, 1, bs)
    requires EndOf(es, |es|, bs) <= data.Length && RestZero(data[..], es, 2, bs)
    modifies data
    ensures Written(data[..], es, |es|, bs, RecLen(es[|es| - 1])) && RestZero(data[..], es, |es|, bs)
    ensures offset == EndOf(es, |es|, bs) && dentry == StartOf(es, |es| - 1, bs)
    ensures |inodeAt| == |dentries| && forall k: nat :: k < |dentries| ==> inodeAt[k] == StartOf(es, k + 2, bs)
  {
    hide StartOf, EndOf, Written, RestZero, RecLen, Place, Align;
    offset, dentry, inodeAt := offset0, dentry0, [];
    WrittenFits(data[..], es, 2, bs, RecLen(es[1]));
    for i := 0 to |dentries|
      invariant Written(data[..], es, i + 2, bs, RecLen(es[i + 1])) && RestZero(data[..], es, i + 2, bs)
      invariant offset == EndOf(es, i + 2, bs) && dentry == StartOf(es, i + 1, bs)
      invariant |inodeAt| == i && forall k: nat :: k < i ==> inodeAt[k] == StartOf(es, k + 2, bs)
    {
      assert es[i + 2] == es[2..][i] == Entry(0, dentries[i].fileType, dentries[i].name);
      EndsMono(es, i + 3, |es|, bs);
      offset, dentry := AddDentry(data, offset, dentry, Entry(0, dentries[i].fileType, dentries[i].name), bs, es, i + 2);
      EndsStrict(es, i + 3, bs);
      assert !(offset > data.Length || (offset == data.Length && i != |dentries| - 1));
      inodeAt := inodeAt + [dentry];
    }
  }

  /** make_directory: the buffer with the directory, and where each entry's inode number is
      to be filled in. */
  method MakeDirectory(self: nat, parent: nat, dentries: seq<Entry>, bs: nat) returns (data: array<byte>, inodeAt: seq<nat>)
    requires BlockSizeOk(bs) && self < 0x1_0000_0000 && parent < 0x1_0000_0000
    requires forall e :: e in dentries ==> Fits(e)
    ensures fresh(data) && IsDirectory(data[..], WithDots(self, parent) + Blank(dentries), bs) && DotsAt(data[..], self, parent)
    ensures data.Length % bs == 0
    ensures RestZero(data[..], WithDots(self, parent) + Blank(dentries), |dentries| + 2, bs)
    ensures |inodeAt| == |dentries|
    ensures forall i: nat :: i < |dentries| ==> inodeAt[i] == StartOf(WithDots(self, parent) + Blank(dentries), i + 2, bs)
  {
    hide StartOf, EndOf, Align, Written, RestZero, Place, RecLen;
    ghost var es := WithDots(self, parent) + Blank(dentries);
    WithDotsFits(self, parent, dentries);
    var size := DentrySize(dentries, bs);
    LayoutOfNames(WithDots(0, 0) + dentries, es, |es|, bs);
    assert es[..2] == WithDots(self, parent);
    assert es[0] == es[..2][0] && es[1] == es[..2][1];
    AlignFacts(size, bs);
    var len := Align(size, bs);
    data := new byte[len](_ => 0);
    EndsMono(es, 1, |es|, bs);
    EndsMono(es, 2, |es|, bs);
    EmptyDirectory(data[..], es, bs);
    var offset, dentry := AddDentry(data, 0, -1, Entry(self, FT_DIR, [46]), bs, es, 0);
    offset, dentry := AddDentry(data, offset, dentry, Entry(parent, FT_DIR, [46, 46]), bs, es, 1);
    assert offset == EndOf(es, 2, bs);
    offset, dentry, inodeAt := AddDentries(data, offset, dentry, dentries, bs, es);
    FinishDirectory(data, offset, dentry, bs, es);
    DotsFirst(data[..], self, parent, Blank(dentries), bs);
    AlignMultiple(size, bs);
  }

  lemma AlignMultiple(x: nat, bs: nat)
    requires bs > 0
    ensures Align(x, bs) % bs == 0
  {
    DivUnique(Align(x, bs), bs, (x + bs - 1) / bs, 0);
  }

  /** The end of make_directory: the last record is padded to the end of the directory. */
  method FinishDirectory(data: array<byte>, offset: nat, dentry: nat, bs: nat, ghost es: seq<Entry>)
    requires BlockSizeOk(bs) && es != [] && Written(data[..], es, |es|, bs, RecLen(es[|es| - 1]))
    requires data.Length == Align(EndOf(es, |es|, bs), bs) && offset == EndOf(es, |es|, bs) && dentry == StartOf(es, |es| - 1, bs)
    requires RestZero(data[..], es, |es|, bs)
    modifies data
    ensures IsDirectory(data[..], es, bs) && RestZero(data[..], es, |es|, bs)
  {
    hide StartOf, EndOf, Align, Written, RestZero, Place, RecLen, Put;
    ghost var last := RecLen(es[|es| - 1]);
    WrittenFits(data[..], es, |es|, bs, last);
    LastBlock(es, bs);
    LastLen(data[..], es, |es|, bs, last);
    LastPatched(data[..], es, |es|, bs, last, data.Length - dentry);
    RestPatched(data[..], es, |es|, bs, U16(data.Length - dentry));
    PadPrev(data, dentry, data.Length - offset);
  }

  lemma EmptyDirectory(s: Bytes, es: seq<Entry>, bs: nat)
    requires bs > 0 && forall e :: e in es ==> Fits(e)
    ensures Written(s, es, 0, bs, 0) && EndOf(es, 0, bs) == 0
    ensures (forall p :: 0 <= p < |s| ==> s[p] == 0) ==> RestZero(s, es, 0, bs)
  {
  }

  /** Only the last record ends where the directory does. */
  lemma EndsStrict(es: seq<Entry>, n: nat, bs: nat)
    requires BlockSizeOk(bs) && n <= |es| && forall e :: e in es ==> Fits(e)
    ensures n < |es| ==> EndOf(es, n, bs) < EndOf(es, |es|, bs)
  {
    hide StartOf, EndOf;
    if n < |es| {
      Increasing(es, n, bs);
      EndsMono(es, n + 1, |es|, bs);
    }
  }

  // ----- the walk -----

  /** One turn of the walk: the entry at dirp, and the place of the next. */
  method WalkStep(data: array<byte>, dirp: nat, hasPrev: bool, bs: nat, ghost es: seq<Entry>, ghost k: nat)
    returns (stop: bool, e: Entry, next: nat)
    requires BlockSizeOk(bs) && IsDirectory(data[..], es, bs) && k < |es| && dirp == StartOf(es, k, bs)
    ensures stop <==> es[k].inode == 0
    ensures !stop ==> e == es[k] && next == if k + 1 < |es| then StartOf(es, k + 1, bs) else data.Length
  {
    hide StartOf, EndOf, IsDirectory, RecLen, Get16, Get32;
    RecordToWalk(data[..], es, k, bs);
    e, next := Entry(0, 0, []), dirp;
    var leftover := data.Length - dirp;
    if leftover <= 8 && hasPrev {
      return true, e, next;
    }
    var inode := Get32(data[..], dirp);
    if inode == 0 {
      return true, e, next;
    }
    var nameLen: nat := data[dirp + 6];
    e := Entry(inode, data[dirp + 7], data[dirp + 8..dirp + 8 + nameLen]);
    assert data[dirp + 8..dirp + 8 + nameLen] == data[..][dirp + 8..dirp + 8 + nameLen];
    return false, e, dirp + Get16(data[..], dirp + 4);
  }

  lemma StartInside(s: Bytes, es: seq<Entry>, k: nat, bs: nat)
    requires BlockSizeOk(bs) && IsDirectory(s, es, bs) && k <= |es|
    ensures k < |es| ==> StartOf(es, k, bs) < |s|
  {
    hide StartOf, EndOf, IsDirectory, RecLen, Get16, Get32;
    if k < |es| {
      RecordToWalk(s, es, k, bs);
    }
  }

  /** The walk of recurse_dir: from record to record, up to one without an inode. */
  method WalkDirectory(data: array<byte>, bs: nat, ghost es: seq<Entry>) returns (entries: seq<Entry>)
    requires BlockSizeOk(bs) && IsDirectory(data[..], es, bs)
    ensures entries <= es
    ensures forall i :: 0 <= i < |entries| ==> es[i].inode != 0
    ensures |entries| < |es| ==> es[|entries|].inode == 0
  {
    hide StartOf, EndOf, IsDirectory;
    entries := [];
    var dirp: nat := 0;
    DirectoryStart(data[..], es, bs);
    StartInside(data[..], es, 0, bs);
    while dirp < data.Length
      invariant |entries| <= |es| && entries == es[..|entries|] && forall i :: 0 <= i < |entries| ==> es[i].inode != 0
      invariant dirp == if |entries| < |es| then StartOf(es, |entries|, bs) else data.Length
      invariant |entries| < |es| ==> dirp < data.Length
      decreases |es| - |entries|
    {
      var stop, e, next := WalkStep(data, dirp, entries != [], bs, es, |entries|);
      if stop {
        break;
      }
      entries := entries + [e];
      dirp := next;
      StartInside(data[..], es, |entries|, bs);
    }
  }

  lemma DirectoryStart(s: Bytes, es: seq<Entry>, bs: nat)
    requires BlockSizeOk(bs) && IsDirectory(s, es, bs)
    ensures es != [] && StartOf(es, 0, bs) == 0
  {
    hide StartOf, EndOf, Align, Written;
    WrittenFits(s, es, |es|, bs, |s| - StartOf(es, |es| - 1, bs));
    FirstStart(es, bs);
  }

  lemma FirstStart(es: seq<Entry>, bs: nat)
    requires BlockSizeOk(bs) && es != [] && forall e :: e in es ==> Fits(e)
    ensures StartOf(es, 0, bs) == 0
  {
    hide StartOf, EndOf;
    NextRecord(es, 0, bs);
  }

  /** The k-th record, as the walk finds it, and where it leads. */
  lemma RecordToWalk(s: Bytes, es: seq<Entry>, k: nat, bs: nat)
    requires BlockSizeOk(bs) && IsDirectory(s, es, bs) && k < |es|
    ensures
      var o := StartOf(es, k, bs);
      && o + 8 + |es[k].name| <= |s| && 12 <= RecLen(es[k]) && o + RecLen(es[k]) <= |s|
      && Get32(s, o) == es[k].inode && s[o + 6] == |es[k].name| && s[o + 7] == es[k].fileType
      && s[o + 8..o + 8 + |es[k].name|] == es[k].name
      && o + Get16(s, o + 4) == if k + 1 < |es| then StartOf(es, k + 1, bs) else |s|
  {
    hide StartOf, EndOf, Align, Place, RecordAt, Get16, Get32;
    var last := |s| - StartOf(es, |es| - 1, bs);
    WrittenFits(s, es, |es|, bs, last);
    assert es[k] in es;
    RecLenBounds(es[k]);
    assert WrittenAt(s, es, k, |es|, bs, last);
    LastBlock(es, bs);
    EndsAt(es, k, bs);
    EndsMono(es, k + 1, |es|, bs);
    if k + 1 < |es| {
      GapBound(es, k + 1, bs);
    }
    var len := LenOf(es, k, |es|, bs, last);
    RecordInside(s, StartOf(es, k, bs), es[k], len);
    RecordFields(s, StartOf(es, k, bs), es[k], len);
  }

  lemma DotsFirst(s: Bytes, self: nat, parent: nat, rest: seq<Entry>, bs: nat)
    requires BlockSizeOk(bs) && IsDirectory(s, WithDots(self, parent) + rest, bs)
    ensures DotsAt(s, self, parent)
  {
    hide EndOf, IsDirectory, Place, Get16, Get32;
    var es := WithDots(self, parent) + rest;
    assert es[..2] == WithDots(self, parent);
    DotsEnd(es, self, parent, bs);
    RecordToWalk(s, es, 0, bs);
    RecordToWalk(s, es, 1, bs);
    DirectoryStart(s, es, bs);
    PlaceFacts(12, 12, bs);
    DivUnique(12, bs, 0, 12);
    assert s[6..9] == [s[6], s[7]] + s[8..9];
    assert s[18..22] == [s[18], s[19]] + s[20..22];
  }

  // ----- filling in the inode numbers -----

  /** Storing an entry's inode number changes that entry only. */
  lemma InodeStored(s: Bytes, es: seq<Entry>, k: nat, inode: nat, bs: nat)
    requires BlockSizeOk(bs) && IsDirectory(s, es, bs) && k < |es| && inode < 0x1_0000_0000
    ensures StartOf(es, k, bs) + 4 <= |s|
    ensures IsDirectory(Put(s, StartOf(es, k, bs), U32(inode)), es[k := es[k].(inode := inode)], bs)
    ensures forall i: nat :: i < |es| ==> StartOf(es[k := es[k].(inode := inode)], i, bs) == StartOf(es, i, bs)
  {
    hide StartOf, EndOf, Align, Place, RecordAt, Put, U32;
    var last := |s| - StartOf(es, |es| - 1, bs);
    WrittenFits(s, es, |es|, bs, last);
    var fs := es[k := es[k].(inode := inode)];
    RecordToWalk(s, es, k, bs);
    var o := StartOf(es, k, bs);
    var t := Put(s, o, U32(inode));
    LayoutOfNames(es, fs, |es|, bs);
    forall i: nat | i < |es| ensures StartOf(fs, i, bs) == StartOf(es, i, bs) {
      LayoutOfNames(es, fs, i, bs);
    }
    FitsUpdate(es, k, inode);
    var n := |es|;
    forall i: nat | i < n ensures WrittenAt(t, fs, i, n, bs, last) {
      assert es[i] in es;
      assert WrittenAt(s, es, i, n, bs, last);
      var len := LenOf(es, i, n, bs, last);
      assert LenOf(fs, i, n, bs, last) == len;
      if i == k {
        PatchInode(s, o, es[k], len, inode);
      } else {
        if i < k {
          Apart(es, i, k, bs);
        } else {
          Apart(es, k, i, bs);
        }
        PutElsewhere(s, o, U32(inode), StartOf(es, i, bs), es[i], len);
      }
    }
  }

  lemma FitsUpdate(es: seq<Entry>, k: nat, inode: nat)
    requires k < |es| && inode < 0x1_0000_0000 && forall e :: e in es ==> Fits(e)
    ensures forall e :: e in es[k := es[k].(inode := inode)] ==> Fits(e)
  {
    assert es[k] in es;
  }

  /** A directory that is made, has its entries' inode numbers filled in, and is walked,
      yields ".", ".." and the entries in order. */
  method MakeFillWalk(self: nat, parent: nat, dentries: seq<Entry>, bs: nat) returns (entries: seq<Entry>)
    requires BlockSizeOk(bs) && 0 < self < 0x1_0000_0000 && 0 < parent < 0x1_0000_0000
    requires forall e :: e in dentries ==> Fits(e) && e.inode != 0
    ensures entries == [Entry(self, 2, [46]), Entry(parent, 2, [46, 46])] + dentries
  {
    hide StartOf, EndOf, IsDirectory, DotsAt;
    ghost var es := WithDots(self, parent) + Blank(dentries);
    var data, inodeAt := MakeDirectory(self, parent, dentries, bs);
    for i := 0 to |dentries|
      invariant |es| == |dentries| + 2 && IsDirectory(data[..], es, bs)
      invariant es == WithDots(self, parent) + dentries[..i] + Blank(dentries)[i..]
      invariant forall k: nat :: k < |dentries| ==> inodeAt[k] == StartOf(es, k + 2, bs)
    {
      assert dentries[i] in dentries;
      assert es[i + 2] == dentries[i].(inode := 0);
      InodeStored(data[..], es, i + 2, dentries[i].inode, bs);
      PutBytes(data, inodeAt[i], U32(dentries[i].inode));
      es := es[i + 2 := es[i + 2].(inode := dentries[i].inode)];
      assert es == WithDots(self, parent) + dentries[..i + 1] + Blank(dentries)[i + 1..];
    }
    assert es == WithDots(self, parent) + dentries;
    assert forall i: nat :: i < |dentries| ==> dentries[i] in dentries;
    entries := WalkDirectory(data, bs, es);
  }
}
