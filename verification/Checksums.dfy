/** The checksum of a sparse file: sparse_crc32 of tools/libsparse/sparse_crc32.c, and which
    bytes the writer sums. */
module Checksums {
  import opened Rounding
  import opened BackedBlocks
  import opened LittleEndian
  import opened Resparse
  import opened SparseFormat

  /** crc32_tab. */
  type Table = bv8 -> bv32

  // ----- sparse_crc32 -----

  function LowByte(crc: bv32): bv8 {
    (crc & 0xFF) as bv8
  }

  function CrcStep(table: Table, crc: bv32, p: byte): bv32 {
    table(LowByte(crc ^ (p as bv32))) ^ (crc >> 8)
  }

  function CrcFold(table: Table, crc: bv32, buf: Bytes): bv32 {
    if buf == [] then crc else CrcStep(table, CrcFold(table, crc, buf[..|buf| - 1]), buf[|buf| - 1])
  }

  function Flip(crc: bv32): bv32 {
    crc ^ 0xFFFF_FFFF
  }

  function Crc32(table: Table, crcIn: bv32, buf: Bytes): bv32 {
    Flip(CrcFold(table, Flip(crcIn), buf))
  }

  method SparseCrc32(table: Table, crcIn: bv32, buf: Bytes) returns (r: bv32)
    ensures r == Crc32(table, crcIn, buf)
  {
    hide CrcStep;
    var crc := crcIn ^ 0xFFFF_FFFF;
    for i := 0 to |buf|
      invariant crc == CrcFold(table, Flip(crcIn), buf[..i])
    {
      assert buf[..i + 1][..i] == buf[..i];
      crc := CrcStep(table, crc, buf[i]);
    }
    assert buf[..|buf|] == buf;
    return crc ^ 0xFFFF_FFFF;
  }

  lemma {:induction false} FoldAppend(table: Table, crc: bv32, x: Bytes, y: Bytes)
    ensures CrcFold(table, crc, x + y) == CrcFold(table, CrcFold(table, crc, x), y)
    decreases |y|
  {
    hide CrcStep;
    if y == [] {
      assert x + y == x;
    } else {
      assert (x + y)[..|x + y| - 1] == x + y[..|y| - 1];
      FoldAppend(table, crc, x, y[..|y| - 1]);
    }
  }

  lemma FlipTwice(crc: bv32)
    ensures Flip(Flip(crc)) == crc
  {
  }

  /** The checksum of bytes that come in two parts goes on from that of the first. */
  lemma GoesOn(table: Table, sum: bv32, x: Bytes, y: Bytes)
    ensures Crc32(table, Crc32(table, sum, x), y) == Crc32(table, sum, x + y)
    ensures Crc32(table, sum, []) == sum
  {
    hide CrcFold, Flip;
    FlipTwice(CrcFold(table, Flip(sum), x));
    FlipTwice(sum);
    FoldAppend(table, Flip(sum), x, y);
    FoldNone(table, Flip(sum));
  }

  /** The checksum of a single byte, from the start. */
  lemma OneByte(table: Table, p: byte)
    ensures Crc32(table, 0, [p]) == table(LowByte(0xFFFF_FFFF ^ (p as bv32))) ^ 0xFF00_0000
  {
    hide CrcStep, LowByte;
    assert [p][..0] == [];
    FoldNone(table, Flip(0));
    assert CrcFold(table, Flip(0), [p]) == CrcStep(table, Flip(0), p);
    FlipNone();
    FirstStep(table, p);
    XorParts(table(LowByte(0xFFFF_FFFF ^ (p as bv32))));
  }

  lemma FlipNone()
    ensures Flip(0) == 0xFFFF_FFFF
  {
  }

  lemma FirstStep(table: Table, p: byte)
    ensures CrcStep(table, 0xFFFF_FFFF, p) == table(LowByte(0xFFFF_FFFF ^ (p as bv32))) ^ 0x00FF_FFFF
  {
    hide LowByte;
  }

  lemma XorParts(t: bv32)
    ensures Flip(t ^ 0x00FF_FFFF) == t ^ 0xFF00_0000
  {
  }

  lemma FoldNone(table: Table, crc: bv32)
    ensures CrcFold(table, crc, []) == crc
  {
  }

  // ----- what the writer sums -----

  /** The chunk is written to its end. */
  predicate Succeeds(b: Block) {
    b.backing.Fill? || (Mapped(b) && b.len < HALF)
  }

  /** The bytes that count of a block: those it stores and their padding, or one block of its
      fill value. */
  function Counted(env: Env, b: Block, bs: nat): Bytes
    requires bs > 0
  {
    match b.backing
    case Fill(v) => Repeated(v, bs / 4)
    case _ => Stored(env, b.backing, b.len) + Zeros(Padding(b.len, bs))
  }

  function Repeated(v: nat, n: nat): (r: Bytes)
    ensures |r| == 4 * n
  {
    if n == 0 then [] else Repeated(v, n - 1) + U32(v)
  }

  function Padding(len: nat, bs: nat): nat
    requires bs > 0
  {
    AlignFacts(len, bs);
    Align(len, bs) - len
  }

  /** Of a list, the bytes of the blocks whose chunks are written to their ends. */
  function CountedAll(env: Env, s: seq<Block>, bs: nat): Bytes
    requires bs > 0
  {
    if s == [] then [] else (if Succeeds(s[0]) then Counted(env, s[0], bs) else []) + CountedAll(env, s[1..], bs)
  }

  lemma CountedFront(env: Env, s: seq<Block>, i: nat, bs: nat)
    requires bs > 0 && i < |s|
    ensures CountedAll(env, s[i..], bs) == (if Succeeds(s[i]) then Counted(env, s[i], bs) else []) + CountedAll(env, s[i + 1..], bs)
  {
    hide Counted, Succeeds;
    assert s[i..][0] == s[i] && s[i..][1..] == s[i + 1..];
  }

  /** Of a stored block that is everything in its chunk but the header; of a fill it is what
      its value makes of a block. */
  lemma CountedPayload(env: Env, b: Block, bs: nat)
    requires bs > 0
    ensures !b.backing.Fill? ==> Counted(env, b, bs) == ChunkOf(env, b, bs)[12..]
    ensures b.backing.Fill? ==> |Counted(env, b, bs)| == bs / 4 * 4
    ensures b.backing.Fill? ==> forall j :: 0 <= j < bs / 4 * 4 ==> Counted(env, b, bs)[j] == U32(b.backing.val)[j % 4]
  {
    hide Align, ChunkHeader, U32, Stored, Zeros;
    if b.backing.Fill? {
      RepeatedAt(b.backing.val, bs / 4);
    } else {
      ChunkLen(env, b, bs);
      AlignFacts(b.len, bs);
      var h := ChunkHeader(CHUNK_TYPE_RAW, Quotient(Align(b.len, bs), bs), CHUNK_HEADER_LEN + Align(b.len, bs));
      assert ChunkOf(env, b, bs) == h + Counted(env, b, bs);
    }
  }

  lemma {:induction false} RepeatedAt(v: nat, n: nat)
    ensures forall j :: 0 <= j < 4 * n ==> Repeated(v, n)[j] == U32(v)[j % 4]
  {
    hide U32;
    if n > 0 {
      RepeatedAt(v, n - 1);
      forall j | 0 <= j < 4 * n ensures Repeated(v, n)[j] == U32(v)[j % 4] {
        if j >= 4 * (n - 1) {
          assert j % 4 == j - 4 * (n - 1);
        }
      }
    }
  }

  // ----- what the format asks to be summed -----

  /** Byte j of block k of the image; what the list does not say is zero. */
  function ImageByte(env: Env, s: seq<Block>, bs: nat, k: int, j: nat): byte {
    match At(s, bs, k)
    case None => 0
    case Some(c) => ByteAt(env, c, j)
  }

  /** The n blocks of the image from block `from` on. */
  function ImageBytes(env: Env, s: seq<Block>, bs: nat, from: nat, n: nat): (r: Bytes)
    requires bs > 0
    ensures |r| == n * bs
    decreases n
  {
    if n == 0 then []
    else
      assert n * bs == (n - 1) * bs + bs;
      ImageBytes(env, s, bs, from, n - 1) + seq(bs, j requires 0 <= j => ImageByte(env, s, bs, from + n - 1, j))
  }

  lemma {:induction false} ImageAppend(env: Env, s: seq<Block>, bs: nat, from: nat, n: nat, m: nat)
    requires bs > 0
    ensures ImageBytes(env, s, bs, from, n + m) == ImageBytes(env, s, bs, from, n) + ImageBytes(env, s, bs, from + n, m)
    decreases m
  {
    hide ImageByte;
    if m > 0 {
      ImageAppend(env, s, bs, from, n, m - 1);
    }
  }

  /** The image does not depend on blocks that lie elsewhere. */
  lemma {:induction false} ImageSame(env: Env, s: seq<Block>, t: seq<Block>, bs: nat, from: nat, n: nat)
    requires bs > 0 && forall k :: from <= k < from + n ==> At(s, bs, k) == At(t, bs, k)
    ensures ImageBytes(env, s, bs, from, n) == ImageBytes(env, t, bs, from, n)
    decreases n
  {
    hide At, ByteAt;
    if n > 0 {
      ImageSame(env, s, t, bs, from, n - 1);
    }
  }

  lemma {:induction false} ImageAt(env: Env, s: seq<Block>, bs: nat, from: nat, n: nat, k: nat, j: nat)
    requires bs > 0 && k < n && j < bs
    ensures k * bs + j < n * bs && ImageBytes(env, s, bs, from, n)[k * bs + j] == ImageByte(env, s, bs, from + k, j)
    decreases n
  {
    hide ImageByte;
    assert n * bs == (n - 1) * bs + bs;
    if k < n - 1 {
      ImageAt(env, s, bs, from, n - 1, k, j);
    }
  }

  /** The image has zeros where no block of the list is. */
  lemma Skipped(env: Env, s: seq<Block>, bs: nat, n: nat, k: nat, j: nat)
    requires bs > 0 && k < n && j < bs && forall i :: 0 <= i < |s| ==> !Covers(s[i], bs, k)
    ensures k * bs + j < n * bs && ImageBytes(env, s, bs, 0, n)[k * bs + j] == 0
  {
    ImageAt(env, s, bs, 0, n, k, j);
    AtNone(s, bs, k);
  }

  /** What is counted of a block is its part of the image, unless it is a fill of more than
      one block. */
  lemma CountedBlock(env: Env, b: Block, bs: nat, s: seq<Block>)
    requires bs > 0 && bs % 4 == 0 && b.len > 0 && s != [] && s[0] == b && (b.backing.Fill? ==> b.len <= bs)
    ensures Counted(env, b, bs) == ImageBytes(env, s, bs, b.block, DivUp(b.len, bs))
  {
    hide Align, DivUp, At, Counted, ImageBytes, ImageByte;
    var d, n := Counted(env, b, bs), DivUp(b.len, bs);
    var r := ImageBytes(env, s, bs, b.block, n);
    CountedLen(env, b, bs);
    if b.backing.Fill? {
      assert n == 1;
    }
    forall i | 0 <= i < n * bs ensures d[i] == r[i] {
      var k, j := PlaceOf(i, n, bs);
      ImageAt(env, s, bs, b.block, n, k, j);
      CountedByte(env, b, bs, s, k, j);
    }
  }

  lemma PlaceOf(i: nat, n: nat, bs: nat) returns (k: nat, j: nat)
    requires bs > 0 && i < n * bs
    ensures k < n && j < bs && i == k * bs + j
  {
    k, j := i / bs, i % bs;
    if k >= n {
      MulLe(n, k, bs);
    }
  }

  lemma CountedLen(env: Env, b: Block, bs: nat)
    requires bs > 0 && bs % 4 == 0 && b.len > 0
    ensures |Counted(env, b, bs)| == (if b.backing.Fill? then 1 else DivUp(b.len, bs)) * bs
    ensures DivUp(b.len, bs) >= 1 && (DivUp(b.len, bs) == 1 <==> b.len <= bs)
  {
    hide Align, DivUp;
    AlignFacts(b.len, bs);
    DivUpPositive(b.len, bs);
    DivUpCounts(b.len, bs, 1);
  }

  lemma CountedByte(env: Env, b: Block, bs: nat, s: seq<Block>, k: nat, j: nat)
    requires bs > 0 && bs % 4 == 0 && b.len > 0 && s != [] && s[0] == b && (b.backing.Fill? ==> b.len <= bs)
    requires k < DivUp(b.len, bs) && j < bs && k * bs + j < |Counted(env, b, bs)|
    ensures Counted(env, b, bs)[k * bs + j] == ImageByte(env, s, bs, b.block + k, j)
  {
    hide Align, DivUp, U32;
    CoversEnd(b, bs, b.block + k);
    CountedLen(env, b, bs);
    if b.backing.Fill? {
      RepeatedAt(b.backing.val, bs / 4);
    } else {
      AlignFacts(b.len, bs);
      ByteOf(env, b, bs, k, j);
    }
  }

  /** Nothing is skipped, and no fill is longer than a block. */
  ghost predicate Compact(s: seq<Block>, bs: nat, last: nat, blocks: nat)
    requires bs > 0
  {
    Skips(s, bs, last, blocks) == 0 && forall i :: 0 <= i < |s| ==> s[i].backing.Fill? ==> s[i].len <= bs
  }

  lemma CompactFront(s: seq<Block>, bs: nat, last: nat, blocks: nat)
    requires bs > 0 && s != [] && last <= s[0].block
    ensures Compact(s, bs, last, blocks) <==>
            s[0].block == last && (s[0].backing.Fill? ==> s[0].len <= bs) && Compact(s[1..], bs, End(s[0], bs), blocks)
  {
    hide End;
    assert forall i :: 1 <= i < |s| ==> s[i] == s[1..][i - 1];
  }

  /** The checksum is to be of the original data, with zeros for what is skipped. The writer
      sums those bytes exactly if nothing is skipped and no fill is longer than a block;
      otherwise it sums fewer. */
  lemma {:induction false} CountedIsImage(env: Env, s: seq<Block>, bs: nat, last: nat, blocks: nat)
    requires bs > 0 && bs % 4 == 0 && Ordered(s, bs) && Positive(s) && (forall i :: 0 <= i < |s| ==> Succeeds(s[i]))
    requires last <= (if s == [] then blocks else s[0].block) && (s != [] ==> End(s[|s| - 1], bs) <= blocks)
    ensures |CountedAll(env, s, bs)| <= (blocks - last) * bs
    ensures CountedAll(env, s, bs) == ImageBytes(env, s, bs, last, blocks - last) <==> Compact(s, bs, last, blocks)
    ensures |CountedAll(env, s, bs)| == (blocks - last) * bs <==> Compact(s, bs, last, blocks)
  {
    hide Counted, Succeeds, DivUp, ImageBytes, Compact, At;
    if s == [] {
      NoneCompact(bs, last, blocks);
      MulLe(0, blocks - last, bs);
      if last < blocks { MulLe(1, blocks - last, bs); }
    } else {
      var b, e := s[0], End(s[0], bs);
      RestOrdered(s, bs);
      CountedIsImage(env, s[1..], bs, e, blocks);
      CompactFront(s, bs, last, blocks);
      CountedLen(env, b, bs);
      CountedLens(b, bs, last, blocks);
      if Compact(s, bs, last, blocks) {
        CountedBlock(env, b, bs, s);
        ImageAppend(env, s, bs, last, e - last, blocks - e);
        forall k | e <= k < blocks ensures At(s, bs, k) == At(s[1..], bs, k) {
          CoversEnd(b, bs, k);
          AtRest(s, bs, k);
        }
        ImageSame(env, s, s[1..], bs, e, blocks - e);
      }
    }
  }

  lemma NoneCompact(bs: nat, last: nat, blocks: nat)
    requires bs > 0
    ensures Compact([], bs, last, blocks) <==> last >= blocks
  {
  }

  lemma AtRest(s: seq<Block>, bs: nat, k: int)
    requires s != [] && !Covers(s[0], bs, k)
    ensures At(s, bs, k) == At(s[1..], bs, k)
  {
  }

  lemma RestOrdered(s: seq<Block>, bs: nat)
    requires bs > 0 && s != [] && Ordered(s, bs) && Positive(s)
    ensures Ordered(s[1..], bs) && Positive(s[1..])
    ensures |s| > 1 ==> End(s[0], bs) <= s[1..][0].block && s[1..][|s| - 2] == s[|s| - 1]
    ensures End(s[0], bs) <= End(s[|s| - 1], bs)
  {
    hide DivUp;
    EndAfter(s[|s| - 1], bs);
  }

  lemma CountedLens(b: Block, bs: nat, last: nat, blocks: nat)
    requires bs > 0 && b.len > 0 && last <= b.block && End(b, bs) <= blocks
    ensures
      var n := if b.backing.Fill? then 1 else DivUp(b.len, bs);
      && n * bs + (blocks - End(b, bs)) * bs <= (blocks - last) * bs
      && (n * bs + (blocks - End(b, bs)) * bs == (blocks - last) * bs <==> last == b.block && n == DivUp(b.len, bs))
  {
    hide DivUp;
    DivUpPositive(b.len, bs);
    var n := if b.backing.Fill? then 1 else DivUp(b.len, bs);
    var d := (b.block - last) + (DivUp(b.len, bs) - n);
    assert (blocks - last) * bs == n * bs + (blocks - End(b, bs)) * bs + d * bs;
    if d > 0 { MulLe(1, d, bs); }
  }
}
