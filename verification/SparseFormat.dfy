/** The sparse image format: the printer of tools/libsparse/output_file.c and the parser of
    tools/libsparse/sparse_read.c; the parser without CRC. */
module SparseFormat {
  import opened Rounding
  import opened BackedBlocks
  import opened LittleEndian
  import opened Resparse

  const SPARSE_HEADER_MAGIC: nat := 0xed26ff3a
  const CHUNK_TYPE_RAW: nat := 0xCAC1
  const CHUNK_TYPE_FILL: nat := 0xCAC2
  const CHUNK_TYPE_DONT_CARE: nat := 0xCAC3
  const CHUNK_TYPE_CRC32: nat := 0xCAC4

  // ----- contents -----

  /** The bytes behind every backing. */
  type Env = Backing -> byte

  /** Byte j of a block: fills repeat their value, stored bytes are padded with zeros. */
  function ByteAt(env: Env, c: Content, j: nat): byte {
    match c.source
    case Fill(v) => U32(v)[j % 4]
    case _ => if j < c.valid then env(Advance(c.source, j)) else 0
  }

  /** Two lists give every block the same bytes, or say nothing about the same blocks. */
  ghost predicate SameImage(s: seq<Block>, env: Env, t: seq<Block>, env': Env, bs: nat) {
    forall n :: SameBlock(At(s, bs, n), env, At(t, bs, n), env', bs)
  }

  ghost predicate SameBlock(a: Option<Content>, env: Env, b: Option<Content>, env': Env, bs: nat) {
    if a.Some? && b.Some? then forall j :: 0 <= j < bs ==> ByteAt(env, a.value, j) == ByteAt(env', b.value, j)
    else a == b
  }

  // ----- the writer -----

  function ChunkHeader(kind: nat, blocks: nat, size: nat): (r: Bytes)
    ensures |r| == CHUNK_HEADER_LEN
  {
    U16(kind) + U16(0) + U32(blocks % WORD) + U32(size % WORD)
  }

  /** The header: the magic number, version 1.0, header sizes 28 and 12, and the counts. */
  function FileHeader(bs: nat, blocks: nat, chunks: nat): (r: Bytes)
    ensures |r| == SPARSE_HEADER_LEN
  {
    [0x3a, 0xff, 0x26, 0xed, 1, 0, 0, 0, 28, 0, 12, 0]
    + U32(bs % WORD) + U32(blocks % WORD) + U32(chunks % WORD) + U32(0)
  }

  function Zeros(n: nat): (r: Bytes)
    ensures |r| == n
  {
    seq(n, _ => 0)
  }

  function Stored(env: Env, b: Backing, n: nat): (r: Bytes)
    ensures |r| == n
  {
    seq<byte>(n, i => env(Advance(b, i)))
  }

  /** Memory is read from its address on, and a file from the offset on. */
  lemma StoredFrom(env: Env, at: int, file: int, n: nat, i: nat)
    requires i < n
    ensures Stored(env, Data(at), n)[i] == env(Data(at + i))
    ensures Stored(env, File(file, at), n)[i] == env(File(file, at + i))
    ensures Stored(env, Fd(file, at), n)[i] == env(Fd(file, at + i))
  {
    assert Stored(env, Data(at), n)[i] == env(Advance(Data(at), i));
    assert Stored(env, File(file, at), n)[i] == env(Advance(File(file, at), i));
    assert Stored(env, Fd(file, at), n)[i] == env(Advance(Fd(file, at), i));
  }

  function SkipChunk(blocks: nat): Bytes {
    ChunkHeader(CHUNK_TYPE_DONT_CARE, blocks, CHUNK_HEADER_LEN)
  }

  /** The chunk of one block of the list, as the format has it. */
  function ChunkOf(env: Env, b: Block, bs: nat): Bytes
    requires bs > 0
  {
    var up := Align(b.len, bs);
    match b.backing
    case Fill(v) => ChunkHeader(CHUNK_TYPE_FILL, Quotient(up, bs), CHUNK_HEADER_LEN + 4) + U32(v)
    case _ => ChunkHeader(CHUNK_TYPE_RAW, Quotient(up, bs), CHUNK_HEADER_LEN + up) + Stored(env, b.backing, b.len) + Zeros(up - b.len)
  }

  /** Everything write_all_blocks should emit from block `last` on. */
  function Chunks(env: Env, s: seq<Block>, bs: nat, last: nat, blocks: nat): Bytes
    requires bs > 0
  {
    if s == [] then (if last < blocks then SkipChunk(blocks - last) else [])
    else (if s[0].block > last then SkipChunk(s[0].block - last) else [])
         + ChunkOf(env, s[0], bs) + Chunks(env, s[1..], bs, End(s[0], bs), blocks)
  }

  /** sparse_count_chunks. */
  function CountChunks(s: seq<Block>, bs: nat, last: nat, blocks: nat): nat
    requires bs > 0
  {
    |s| + Skips(s, bs, last, blocks)
  }

  function FileBytes(env: Env, s: seq<Block>, bs: nat, blocks: nat): Bytes
    requires bs > 0
  {
    FileHeader(bs, blocks, CountChunks(s, bs, 0, blocks)) + Chunks(env, s, bs, 0, blocks)
  }

  /** The chunk at the end of a file with a checksum. */
  function CrcChunk(sum: nat): Bytes {
    ChunkHeader(CHUNK_TYPE_CRC32, 0, CHUNK_HEADER_LEN + 4) + U32(sum)
  }

  function ChecksumFile(env: Env, s: seq<Block>, bs: nat, blocks: nat, sum: nat): Bytes
    requires bs > 0
  {
    FileHeader(bs, blocks, CountChunks(s, bs, 0, blocks) + 1) + Chunks(env, s, bs, 0, blocks) + CrcChunk(sum)
  }

  // ----- what the writer does emit -----

  /** The block's chunk is written as the format has it: the lengths do not exceed an int, and
      rounding up does not exceed an unsigned int. */
  predicate Whole(b: Block, bs: nat) {
    IntSized(b, bs) && (b.backing.Fill? ==> b.len + bs <= WORD)
  }

  ghost predicate AllWhole(s: seq<Block>, bs: nat) {
    forall i :: 0 <= i < |s| ==> Whole(s[i], bs)
  }

  /** What the writer emits for a block. A write of a negative length fails, after the header
      has been written; nothing is written of what cannot be mapped. */
  function Emitted(env: Env, b: Block, bs: nat): Bytes
    requires bs > 0
  {
    var up := Up32(b.len, bs);
    match b.backing
    case Fill(v) => ChunkHeader(CHUNK_TYPE_FILL, Quotient(up, bs), CHUNK_HEADER_LEN + 4) + U32(v)
    case _ =>
      if !Mapped(b) then []
      else
        ChunkHeader(CHUNK_TYPE_RAW, Quotient(up, bs), CHUNK_HEADER_LEN + up)
        + if AsInt(b.len) < 0 then []
          else Stored(env, b.backing, b.len % WORD) + if AsInt(up - b.len) > 0 then Zeros(AsInt(up - b.len)) else []
  }

  /** Everything write_all_blocks emits from block `last` on; it goes on after an error. */
  function Written(env: Env, s: seq<Block>, bs: nat, last: nat, blocks: nat): Bytes
    requires bs > 0
  {
    if s == [] then (if last < blocks then SkipChunk(blocks - last) else [])
    else (if s[0].block > last then SkipChunk(s[0].block - last) else [])
         + Emitted(env, s[0], bs) + Written(env, s[1..], bs, End(s[0], bs), blocks)
  }

  function FileWritten(env: Env, s: seq<Block>, bs: nat, blocks: nat): Bytes
    requires bs > 0
  {
    FileHeader(bs, blocks, CountChunks(s, bs, 0, blocks)) + Written(env, s, bs, 0, blocks)
  }

  function ChecksumWritten(env: Env, s: seq<Block>, bs: nat, blocks: nat, sum: nat): Bytes
    requires bs > 0
  {
    FileHeader(bs, blocks, CountChunks(s, bs, 0, blocks) + 1) + Written(env, s, bs, 0, blocks) + CrcChunk(sum)
  }

  // ----- the reader -----

  datatype Parsed = Ok(list: seq<Block>, pos: nat, cur: nat) | Err

  /** queue_bb, whose assertion aborts when the block number is taken. */
  function QueueOrAbort(list: seq<Block>, bs: nat, b: Block, pos: nat, cur: nat): Parsed
    requires bs > 0
  {
    if exists i :: 0 <= i < |list| && list[i].block == b.block then Err else Ok(Queued(list, bs, b), pos, cur)
  }

  /** process_chunk, and the advance of cur_block. The block count is returned as an int, so
      counts with the high bit set read as errors; an unknown chunk counts as no blocks, and
      the data after its header is not skipped. */
  function ReadChunk(b: Bytes, fd: int, hdr: nat, bs: nat, list: seq<Block>, pos: nat, cur: nat): Parsed
    requires bs > 0
  {
    if pos + CHUNK_HEADER_LEN > |b| then Err
    else
      var kind, blocks := Get16(b, pos), Get32(b, pos + 4);
      var size := (Get32(b, pos + 8) + WORD - hdr % WORD) % WORD;
      var at := pos + if hdr > CHUNK_HEADER_LEN then hdr else CHUNK_HEADER_LEN;
      var next := (cur + blocks) % WORD;
      if kind == CHUNK_TYPE_RAW then
        var len := blocks * bs % WORD;
        if size % bs != 0 || size / bs != blocks || blocks >= HALF then Err
        else QueueOrAbort(list, bs, Block(cur, len, Fd(fd, at)), at + len, next)
      else if kind == CHUNK_TYPE_FILL then
        if size != 4 || at + 4 > |b| || blocks >= HALF then Err
        else QueueOrAbort(list, bs, Block(cur, blocks * bs % WORD, Fill(Get32(b, at))), at + 4, next)
      else if kind == CHUNK_TYPE_DONT_CARE then
        if size != 0 || blocks >= HALF then Err else Ok(list, at, next)
      else if kind == CHUNK_TYPE_CRC32 then Err
      else Ok(list, at, cur)
  }

  function ReadChunks(b: Bytes, fd: int, hdr: nat, bs: nat, list: seq<Block>, pos: nat, cur: nat, n: nat): Parsed
    requires bs > 0
    decreases n
  {
    hide ReadChunk;
    if n == 0 then Ok(list, pos, cur)
    else
      var r := ReadChunk(b, fd, hdr, bs, list, pos, cur);
      if r.Err? then Err else ReadChunks(b, fd, hdr, bs, r.list, r.pos, r.cur, n - 1)
  }

  datatype Image = Image(blockSize: nat, blocks: nat, list: seq<Block>)

  /** sparse_file_import, with CRC checking off. */
  function Import(b: Bytes, fd: int): Option<Image> {
    if |b| < SPARSE_HEADER_LEN || Get32(b, 0) != SPARSE_HEADER_MAGIC || Get16(b, 4) != 1 then None
    else
      var hdrFile, hdrChunk := Get16(b, 8), Get16(b, 10);
      var bs, blocks, n := Get32(b, 12), Get32(b, 16), Get32(b, 20);
      if hdrFile < SPARSE_HEADER_LEN || hdrChunk < CHUNK_HEADER_LEN || bs == 0 then None
      else
        var r := ReadChunks(b, fd, hdrChunk, bs, [], hdrFile, 0, n);
        if r.Err? || r.cur != blocks then None else Some(Image(bs, blocks, r.list))
  }

  // ----- what the fields of the format can hold -----

  /** The bytes of the run of equal fills that ends with block i. */
  function RunLen(s: seq<Block>, bs: nat, i: nat): nat
    requires bs > 0 && i < |s|
  {
    Align(s[i].len, bs) +
    if i > 0 && s[i].backing.Fill? && s[i - 1].backing == s[i].backing && End(s[i - 1], bs) == s[i].block
    then RunLen(s, bs, i - 1) else 0
  }

  /** The last block before the i-th one of the list. */
  function Before(s: seq<Block>, bs: nat, i: nat): nat
    requires bs > 0 && i <= |s|
  {
    if i == 0 then 0 else End(s[i - 1], bs)
  }

  /** Counts and lengths fit in the fields of the format and in the reader's variables, also
      after the reader has merged fills. */
  ghost predicate FieldsHold(s: seq<Block>, bs: nat, blocks: nat)
    requires bs > 0
  {
    && bs < HALF && blocks < WORD && CountChunks(s, bs, 0, blocks) < WORD
    && Before(s, bs, |s|) <= blocks
    && forall i :: 0 <= i < |s| ==> BlockFits(s, bs, i)
  }

  ghost predicate BlockFits(s: seq<Block>, bs: nat, i: nat)
    requires bs > 0 && i < |s|
  {
    && s[i].len + bs <= WORD && Align(s[i].len, bs) / bs < HALF
    && (s[i].backing.Fill? ==> s[i].backing.val < WORD)
    && RunLen(s, bs, i) < WORD
  }

  /** The blocks that are skipped before block i of the list, or after the last one. */
  function Gap(s: seq<Block>, bs: nat, blocks: nat, i: nat): int
    requires bs > 0 && i <= |s|
  {
    (if i < |s| then s[i].block else blocks) - Before(s, bs, i)
  }

  /** No gap from block i on is longer than an int can count. */
  ghost predicate GapsFit(s: seq<Block>, bs: nat, blocks: nat, i: nat)
    requires bs > 0 && i <= |s|
  {
    forall j :: i <= j <= |s| ==> Gap(s, bs, blocks, j) < HALF
  }

  // ----- reading back what was written -----

  lemma HeaderFields(b: Bytes, pos: nat, kind: nat, blocks: nat, size: nat)
    requires pos + CHUNK_HEADER_LEN <= |b| && b[pos..pos + CHUNK_HEADER_LEN] == ChunkHeader(kind, blocks, size)
    requires kind < 0x1_0000 && blocks < WORD
    ensures Get16(b, pos) == kind && Get32(b, pos + 4) == blocks && Get32(b, pos + 8) == size % WORD
  {
    hide U16, U32, Get16, Get32;
    var k, z, n, t := U16(kind), U16(0), U32(blocks), U32(size % WORD);
    assert k + z + n + t == [] + k + (z + n + t) == (k + z) + n + t == (k + z + n) + t + [];
    FieldAt(b, pos, [], k, z + n + t);
    FieldAt(b, pos, k + z, n, t);
    FieldAt(b, pos, k + z + n, t, []);
    Field16(b, pos, kind);
    Field32(b, pos + 4, blocks);
    Field32(b, pos + 8, size % WORD);
  }

  /** The chunks of the format, in bytes: the type, two zeros, how many blocks of the image the
      chunk stands for, and its own length; then its data. */
  lemma ChunkFields(env: Env, x: Block, bs: nat, blocks: nat, sum: nat)
    requires bs > 0 && Align(x.len, bs) + 12 < WORD && blocks < WORD && sum < WORD
    ensures
      var c := ChunkOf(env, x, bs);
      && |c| == 12 + (if x.backing.Fill? then 4 else DivUp(x.len, bs) * bs)
      && c[..4] == [if x.backing.Fill? then 0xC2 else 0xC1, 0xCA, 0, 0] && Get32(c, 4) == DivUp(x.len, bs) && Get32(c, 8) == |c|
      && (x.backing.Fill? && x.backing.val < WORD ==> Get32(c, 12) == x.backing.val)
      && (!x.backing.Fill? ==>
            forall j :: 0 <= j < DivUp(x.len, bs) * bs ==> c[12 + j] == if j < x.len then env(Advance(x.backing, j)) else 0)
    ensures
      var c := SkipChunk(blocks);
      |c| == 12 && c[..4] == [0xC3, 0xCA, 0, 0] && Get32(c, 4) == blocks && Get32(c, 8) == 12
    ensures
      var c := CrcChunk(sum);
      |c| == 16 && c[..4] == [0xC4, 0xCA, 0, 0] && Get32(c, 4) == 0 && Get32(c, 8) == 16 && Get32(c, 12) == sum
  {
    hide Get16, Get32, U32, Align, DivUp, ChunkHeader, SkipChunk, CrcChunk;
    AlignBlocks(x.len, bs);
    AlignFacts(x.len, bs);
    ChunkLen(env, x, bs);
    var c, up := ChunkOf(env, x, bs), Align(x.len, bs);
    var kind := if x.backing.Fill? then CHUNK_TYPE_FILL else CHUNK_TYPE_RAW;
    var h := ChunkHeader(kind, Quotient(up, bs), |c|);
    assert c[0..12] == h;
    TypeBytes(kind, Quotient(up, bs), |c|);
    assert c[..4] == h[..4];
    HeaderFields(c, 0, kind, Quotient(up, bs), |c|);
    if x.backing.Fill? {
      assert c[12..16] == U32(x.backing.val);
      if x.backing.val < WORD { Field32(c, 12, x.backing.val); }
    }
    SkipFields(blocks);
    CrcFields(sum);
  }

  lemma SkipFields(blocks: nat)
    requires blocks < WORD
    ensures
      var c := SkipChunk(blocks);
      |c| == 12 && c[..4] == [0xC3, 0xCA, 0, 0] && Get32(c, 4) == blocks && Get32(c, 8) == 12
  {
    hide Get16, Get32, U32, ChunkHeader;
    var k := SkipChunk(blocks);
    assert k[0..12] == k;
    TypeBytes(CHUNK_TYPE_DONT_CARE, blocks, 12);
    HeaderFields(k, 0, CHUNK_TYPE_DONT_CARE, blocks, 12);
  }

  lemma CrcFields(sum: nat)
    requires sum < WORD
    ensures
      var c := CrcChunk(sum);
      |c| == 16 && c[..4] == [0xC4, 0xCA, 0, 0] && Get32(c, 4) == 0 && Get32(c, 8) == 16 && Get32(c, 12) == sum
  {
    hide Get16, Get32, U32, ChunkHeader;
    var r := CrcChunk(sum);
    assert r[0..12] == ChunkHeader(CHUNK_TYPE_CRC32, 0, 16) && r[12..16] == U32(sum);
    TypeBytes(CHUNK_TYPE_CRC32, 0, 16);
    assert r[..4] == r[0..12][..4];
    HeaderFields(r, 0, CHUNK_TYPE_CRC32, 0, 16);
    Field32(r, 12, sum);
  }

  lemma TypeBytes(kind: nat, blocks: nat, size: nat)
    ensures ChunkHeader(kind, blocks, size)[..4] == [kind % 256, kind / 256 % 256, 0, 0]
  {
    hide U32;
  }

  // ----- what is accepted -----

  /** What a chunk must be to be accepted: of a known type its lengths agree, in 32 bits; no
      block is given twice; a checksum is never accepted, and an unknown type always is. */
  lemma ChunkAccepted(b: Bytes, fd: int, hdr: nat, bs: nat, list: seq<Block>, pos: nat, cur: nat)
    requires bs > 0 && 12 <= hdr < 0x1_0000 && cur < WORD
    ensures ReadChunk(b, fd, hdr, bs, list, pos, cur).Ok? <==>
            pos + 12 <= |b| &&
            var kind, blocks, total := Get16(b, pos), Get32(b, pos + 4), Get32(b, pos + 8);
            && (kind == 0xCAC1 || kind == 0xCAC2 ==> forall i :: 0 <= i < |list| ==> list[i].block != cur)
            && (kind == 0xCAC1 || kind == 0xCAC2 || kind == 0xCAC3 ==> blocks < HALF)
            && (kind == 0xCAC1 ==> blocks * bs < WORD && total == (hdr + blocks * bs) % WORD)
            && (kind == 0xCAC2 ==> total == hdr + 4 && pos + hdr + 4 <= |b|)
            && (kind == 0xCAC3 ==> total == hdr)
            && kind != 0xCAC4
    ensures
      var r := ReadChunk(b, fd, hdr, bs, list, pos, cur);
      r.Ok? ==>
        && r.pos == pos + hdr + ChunkData(b, bs, pos) && r.cur == (cur + ChunkBlocks(b, pos)) % WORD
        && (Get16(b, pos) != 0xCAC1 && Get16(b, pos) != 0xCAC2 ==> r.list == list)
  {
    hide Get16, Get32, ReadChunk;
    if pos + 12 > |b| {
      ShortRejected(b, fd, hdr, bs, list, pos, cur);
    } else if Get16(b, pos) == 0xCAC1 {
      RawAccepted(b, fd, hdr, bs, list, pos, cur);
    } else if Get16(b, pos) == 0xCAC2 {
      FillAccepted(b, fd, hdr, bs, list, pos, cur);
    } else {
      OtherAccepted(b, fd, hdr, bs, list, pos, cur);
    }
  }

  lemma ShortRejected(b: Bytes, fd: int, hdr: nat, bs: nat, list: seq<Block>, pos: nat, cur: nat)
    requires bs > 0 && pos + 12 > |b|
    ensures ReadChunk(b, fd, hdr, bs, list, pos, cur).Err?
  {
  }

  lemma OtherAccepted(b: Bytes, fd: int, hdr: nat, bs: nat, list: seq<Block>, pos: nat, cur: nat)
    requires bs > 0 && 12 <= hdr < 0x1_0000 && pos + 12 <= |b| && Get16(b, pos) != 0xCAC1 && Get16(b, pos) != 0xCAC2
    ensures
      var r := ReadChunk(b, fd, hdr, bs, list, pos, cur);
      var skip, blocks := Get16(b, pos) == 0xCAC3, Get32(b, pos + 4);
      && (r.Ok? <==> (skip ==> blocks < HALF && Get32(b, pos + 8) == hdr) && Get16(b, pos) != 0xCAC4)
      && (r.Ok? ==> r.list == list && r.pos == pos + hdr && r.cur == if skip then (cur + blocks) % WORD else cur)
  {
    hide Get16, Get32, QueueOrAbort;
    SizeIs(Get32(b, pos + 8), hdr, 0);
    SmallWord(hdr);
  }

  lemma RawAccepted(b: Bytes, fd: int, hdr: nat, bs: nat, list: seq<Block>, pos: nat, cur: nat)
    requires bs > 0 && 12 <= hdr < 0x1_0000 && pos + 12 <= |b| && Get16(b, pos) == 0xCAC1
    ensures
      var r := ReadChunk(b, fd, hdr, bs, list, pos, cur);
      var blocks, total := Get32(b, pos + 4), Get32(b, pos + 8);
      && (r.Ok? <==> (forall i :: 0 <= i < |list| ==> list[i].block != cur) && blocks < HALF
                     && blocks * bs < WORD && total == (hdr + blocks * bs) % WORD)
      && (r.Ok? ==> r.pos == pos + hdr + blocks * bs && r.cur == (cur + blocks) % WORD)
  {
    hide Get16, Get32, Queued, QueueOrAbort;
    var blocks, total := Get32(b, pos + 4), Get32(b, pos + 8);
    var size := (total + WORD - hdr % WORD) % WORD;
    SizeIs(total, hdr, blocks * bs);
    RawSize(size, bs, blocks);
    Queueing(list, bs, Block(cur, blocks * bs % WORD, Fd(fd, pos + hdr)), pos + hdr + blocks * bs % WORD, (cur + blocks) % WORD);
  }

  lemma FillAccepted(b: Bytes, fd: int, hdr: nat, bs: nat, list: seq<Block>, pos: nat, cur: nat)
    requires bs > 0 && 12 <= hdr < 0x1_0000 && pos + 12 <= |b| && Get16(b, pos) == 0xCAC2
    ensures
      var r := ReadChunk(b, fd, hdr, bs, list, pos, cur);
      var blocks := Get32(b, pos + 4);
      && (r.Ok? <==> (forall i :: 0 <= i < |list| ==> list[i].block != cur) && blocks < HALF
                     && Get32(b, pos + 8) == hdr + 4 && pos + hdr + 4 <= |b|)
      && (r.Ok? ==> r.pos == pos + hdr + 4 && r.cur == (cur + blocks) % WORD)
  {
    hide Get16, Get32, Queued, QueueOrAbort;
    var blocks := Get32(b, pos + 4);
    SizeIs(Get32(b, pos + 8), hdr, 4);
    SmallWord(hdr + 4);
    if pos + hdr + 4 <= |b| {
      Queueing(list, bs, Block(cur, blocks * bs % WORD, Fill(Get32(b, pos + hdr))), pos + hdr + 4, (cur + blocks) % WORD);
    }
  }

  lemma Queueing(list: seq<Block>, bs: nat, x: Block, pos: nat, cur: nat)
    requires bs > 0
    ensures
      var r := QueueOrAbort(list, bs, x, pos, cur);
      (r.Ok? <==> forall i :: 0 <= i < |list| ==> list[i].block != x.block) && (r.Ok? ==> r.pos == pos && r.cur == cur)
  {
    hide Queued;
  }

  /** The data of an accepted chunk, and the blocks it stands for, as its header has them. */
  function ChunkData(b: Bytes, bs: nat, pos: nat): nat
    requires pos + 12 <= |b|
  {
    if Get16(b, pos) == 0xCAC1 then Get32(b, pos + 4) * bs else if Get16(b, pos) == 0xCAC2 then 4 else 0
  }

  function ChunkBlocks(b: Bytes, pos: nat): nat
    requires pos + 12 <= |b|
  {
    if 0xCAC1 <= Get16(b, pos) <= 0xCAC3 then Get32(b, pos + 4) else 0
  }

  /** The length of a chunk without its header, in 32 bits. */
  lemma SizeIs(total: nat, hdr: nat, x: nat)
    requires total < WORD && hdr < 0x1_0000
    ensures
      var size := (total + WORD - hdr % WORD) % WORD;
      size < WORD && (size == x <==> x < WORD && total == (hdr + x) % WORD)
  {
  }

  lemma RawSize(size: nat, bs: nat, blocks: nat)
    requires bs > 0 && size < WORD
    ensures size % bs == 0 && size / bs == blocks <==> size == blocks * bs
    ensures size == blocks * bs ==> blocks * bs % WORD == size
  {
    if size == blocks * bs {
      DivUnique(size, bs, blocks, 0);
    }
  }

  /** The blocks that n chunks stand for, by their headers alone. */
  function BlocksAnnounced(b: Bytes, hdr: nat, bs: nat, pos: nat, n: nat): nat
    decreases n
  {
    if n == 0 || pos + 12 > |b| then 0
    else ChunkBlocks(b, pos) + BlocksAnnounced(b, hdr, bs, pos + hdr + ChunkData(b, bs, pos), n - 1)
  }

  lemma {:induction false} ChunksAnnounced(b: Bytes, fd: int, hdr: nat, bs: nat, list: seq<Block>, pos: nat, cur: nat, n: nat)
    requires bs > 0 && 12 <= hdr < 0x1_0000 && cur < WORD
    ensures
      var r := ReadChunks(b, fd, hdr, bs, list, pos, cur, n);
      r.Ok? ==> r.cur == (cur + BlocksAnnounced(b, hdr, bs, pos, n)) % WORD
    decreases n
  {
    hide ReadChunk, ChunkBlocks, ChunkData;
    if n > 0 {
      ChunkAccepted(b, fd, hdr, bs, list, pos, cur);
      var r := ReadChunk(b, fd, hdr, bs, list, pos, cur);
      if r.Ok? {
        ChunksAnnounced(b, fd, hdr, bs, r.list, r.pos, r.cur, n - 1);
        WordAdd(cur + ChunkBlocks(b, pos), BlocksAnnounced(b, hdr, bs, r.pos, n - 1));
      }
    } else {
      SmallWord(cur);
    }
  }

  lemma WordAdd(x: nat, y: nat)
    ensures (x % WORD + y) % WORD == (x + y) % WORD && x % WORD < WORD
  {
  }

  /** A file that is accepted has the magic number, version 1 and headers that are long enough,
      and its chunks stand for as many blocks as the header says, in 32 bits. */
  lemma ImportAccepts(b: Bytes, fd: int)
    requires Import(b, fd).Some?
    ensures |b| >= 28 && Get32(b, 0) == 0xed26ff3a && Get16(b, 4) == 1 && Get16(b, 8) >= 28 && Get16(b, 10) >= 12
    ensures
      var r := Import(b, fd).value;
      && r.blockSize == Get32(b, 12) > 0 && r.blocks == Get32(b, 16)
      && r.blocks == BlocksAnnounced(b, Get16(b, 10), r.blockSize, Get16(b, 8), Get32(b, 20)) % WORD
  {
    hide Get16, Get32, ReadChunks, BlocksAnnounced;
    ChunksAnnounced(b, fd, Get16(b, 10), Get32(b, 12), [], Get16(b, 8), 0, Get32(b, 20));
  }

  /** Queueing after the end of the list. */
  lemma QueuedAtEnd(t: seq<Block>, bs: nat, b: Block)
    requires bs > 0 && forall i :: 0 <= i < |t| ==> t[i].block < b.block
    ensures Queued(t, bs, b) ==
            if t != [] && CanMerge(t[|t| - 1], b, bs) then t[..|t| - 1] + [Merged(t[|t| - 1], b)] else t + [b]
    ensures MergesFit(t, bs, b) <==> t != [] && CanMerge(t[|t| - 1], b, bs) ==> t[|t| - 1].len + b.len < WORD
  {
    hide CanMerge, Merged;
    if t != [] {
      var p := Place(t, b);
      assert forall i :: 0 <= i < |t[1..]| ==> t[1..][i].block < b.block;
      assert p == |t|;
      assert t[|t|..] == [] && t[..|t|] == t;
    }
  }

  lemma SkipRead(b: Bytes, fd: int, bs: nat, t: seq<Block>, pos: nat, cur: nat, blocks: nat)
    requires bs > 0 && blocks < HALF && cur + blocks < WORD
    requires pos + CHUNK_HEADER_LEN <= |b| && b[pos..pos + CHUNK_HEADER_LEN] == SkipChunk(blocks)
    ensures ReadChunk(b, fd, CHUNK_HEADER_LEN, bs, t, pos, cur) == Ok(t, pos + CHUNK_HEADER_LEN, cur + blocks)
  {
    hide Get16, Get32, U16, U32, ChunkHeader;
    HeaderFields(b, pos, CHUNK_TYPE_DONT_CARE, blocks, CHUNK_HEADER_LEN);
  }

  /** A gap of 2^31 blocks or more is written but does not read back: the count is taken
      for an error code. */
  lemma LongSkipUnread(b: Bytes, fd: int, bs: nat, t: seq<Block>, pos: nat, cur: nat, blocks: nat)
    requires bs > 0 && HALF <= blocks < WORD
    requires pos + CHUNK_HEADER_LEN <= |b| && b[pos..pos + CHUNK_HEADER_LEN] == SkipChunk(blocks)
    ensures ReadChunk(b, fd, CHUNK_HEADER_LEN, bs, t, pos, cur) == Err
  {
    hide Get16, Get32, U16, U32, ChunkHeader;
    HeaderFields(b, pos, CHUNK_TYPE_DONT_CARE, blocks, CHUNK_HEADER_LEN);
  }

  /** What the reader makes of the chunk of a block at `at`. */
  function ReadBlock(b: Block, bs: nat, fd: int, at: nat): Block
    requires bs > 0
  {
    Block(b.block, Align(b.len, bs), if b.backing.Fill? then b.backing else Fd(fd, at))
  }

  lemma AlignBlocks(x: nat, bs: nat)
    requires bs > 0
    ensures Align(x, bs) / bs == DivUp(x, bs) && Align(x, bs) % bs == 0
    ensures DivUp(Align(x, bs), bs) == DivUp(x, bs) && x <= Align(x, bs)
  {
    hide Align, DivUp;
    AlignFacts(x, bs);
    DivUnique(Align(x, bs), bs, DivUp(x, bs), 0);
    DivUpAdd(0, DivUp(x, bs), bs);
    DivUpZero(bs);
  }

  lemma ChunkLen(env: Env, x: Block, bs: nat)
    requires bs > 0
    ensures |ChunkOf(env, x, bs)| == CHUNK_HEADER_LEN + if x.backing.Fill? then 4 else Align(x.len, bs)
  {
    hide Align;
    AlignFacts(x.len, bs);
  }

  lemma NotTaken(t: seq<Block>, bs: nat, y: Block, pos: nat, cur: nat)
    requires bs > 0 && forall i :: 0 <= i < |t| ==> t[i].block < y.block
    ensures QueueOrAbort(t, bs, y, pos, cur) == Ok(Queued(t, bs, y), pos, cur)
  {
    hide Queued;
  }

  ghost predicate ChunkAt(b: Bytes, pos: nat, c: Bytes) {
    pos + |c| <= |b| && b[pos..pos + |c|] == c
  }

  /** The header of a block's chunk, as the reader sees it. */
  lemma BlockHeader(b: Bytes, env: Env, bs: nat, pos: nat, x: Block)
    requires bs > 0 && x.len + bs <= WORD && ChunkAt(b, pos, ChunkOf(env, x, bs))
    ensures |ChunkOf(env, x, bs)| == CHUNK_HEADER_LEN + if x.backing.Fill? then 4 else Align(x.len, bs)
    ensures Get16(b, pos) == (if x.backing.Fill? then CHUNK_TYPE_FILL else CHUNK_TYPE_RAW)
    ensures Get32(b, pos + 4) == Align(x.len, bs) / bs == DivUp(x.len, bs)
    ensures Get32(b, pos + 8) == |ChunkOf(env, x, bs)| % WORD
  {
    hide Get16, Get32, U16, U32, ChunkHeader, Align, DivUp, Stored, Zeros;
    var c := ChunkOf(env, x, bs);
    AlignBlocks(x.len, bs);
    AlignFacts(x.len, bs);
    ChunkLen(env, x, bs);
    var kind := if x.backing.Fill? then CHUNK_TYPE_FILL else CHUNK_TYPE_RAW;
    assert b[pos..pos + CHUNK_HEADER_LEN] == c[..CHUNK_HEADER_LEN] == ChunkHeader(kind, Align(x.len, bs) / bs, |c|);
    HeaderFields(b, pos, kind, Align(x.len, bs) / bs, |c|);
  }

  lemma FillValue(b: Bytes, env: Env, bs: nat, pos: nat, x: Block)
    requires bs > 0 && ChunkAt(b, pos, ChunkOf(env, x, bs)) && x.backing.Fill? && x.backing.val < WORD
    ensures pos + 16 <= |b| && Get32(b, pos + 12) == x.backing.val
  {
    hide Get32, U32, ChunkHeader, Align;
    var c := ChunkOf(env, x, bs);
    assert b[pos + 12..pos + 16] == c[12..16] == U32(x.backing.val);
    Field32(b, pos + 12, x.backing.val);
  }

  /** The reader takes the header's length off the total, in 32 bits. */
  lemma SizeBack(n: nat)
    requires n < WORD
    ensures ((CHUNK_HEADER_LEN + n) % WORD + WORD - CHUNK_HEADER_LEN % WORD) % WORD == n
  {
  }

  lemma RawRead(b: Bytes, fd: int, bs: nat, t: seq<Block>, pos: nat, cur: nat, len: nat)
    requires bs > 0 && pos + CHUNK_HEADER_LEN <= |b| && Get16(b, pos) == CHUNK_TYPE_RAW
    requires len < WORD && len % bs == 0 && len / bs < HALF && cur + len / bs < WORD
    requires Get32(b, pos + 4) == len / bs && Get32(b, pos + 8) == (CHUNK_HEADER_LEN + len) % WORD
    ensures ReadChunk(b, fd, CHUNK_HEADER_LEN, bs, t, pos, cur) ==
            QueueOrAbort(t, bs, Block(cur, len, Fd(fd, pos + CHUNK_HEADER_LEN)), pos + CHUNK_HEADER_LEN + len, cur + len / bs)
  {
    hide Get16, Get32, QueueOrAbort;
    var blocks, size := Get32(b, pos + 4), (Get32(b, pos + 8) + WORD - CHUNK_HEADER_LEN % WORD) % WORD;
    assert size == len by { SizeBack(len); }
    WordProduct(blocks, bs, len);
    SmallWord(cur + blocks);
  }

  lemma WordProduct(blocks: nat, bs: nat, len: nat)
    requires bs > 0 && blocks == len / bs && len % bs == 0 && len < WORD
    ensures blocks * bs % WORD == len
  {
    assert blocks * bs == len;
    SmallWord(len);
  }

  lemma SmallWord(x: nat)
    ensures x < WORD ==> x % WORD == x
  {
  }

  lemma FillRead(b: Bytes, fd: int, bs: nat, t: seq<Block>, pos: nat, cur: nat, len: nat)
    requires bs > 0 && pos + CHUNK_HEADER_LEN + 4 <= |b| && Get16(b, pos) == CHUNK_TYPE_FILL
    requires len < WORD && len % bs == 0 && len / bs < HALF && cur + len / bs < WORD
    requires Get32(b, pos + 4) == len / bs && Get32(b, pos + 8) == CHUNK_HEADER_LEN + 4
    ensures ReadChunk(b, fd, CHUNK_HEADER_LEN, bs, t, pos, cur) ==
            QueueOrAbort(t, bs, Block(cur, len, Fill(Get32(b, pos + CHUNK_HEADER_LEN))), pos + CHUNK_HEADER_LEN + 4, cur + len / bs)
  {
    hide Get16, Get32, QueueOrAbort;
    WordProduct(Get32(b, pos + 4), bs, len);
    SmallWord(cur + len / bs);
  }

  lemma BlockRead(b: Bytes, fd: int, env: Env, bs: nat, t: seq<Block>, pos: nat, x: Block)
    requires bs > 0 && x.len + bs <= WORD && Align(x.len, bs) / bs < HALF
    requires x.backing.Fill? ==> x.backing.val < WORD
    requires End(x, bs) < WORD && forall i :: 0 <= i < |t| ==> t[i].block < x.block
    requires ChunkAt(b, pos, ChunkOf(env, x, bs))
    ensures ReadChunk(b, fd, CHUNK_HEADER_LEN, bs, t, pos, x.block) ==
            Ok(Queued(t, bs, ReadBlock(x, bs, fd, pos + CHUNK_HEADER_LEN)), pos + |ChunkOf(env, x, bs)|, End(x, bs))
  {
    hide Get16, Get32, Queued, Align, DivUp, ChunkOf, QueueOrAbort, ReadChunk;
    var c := ChunkOf(env, x, bs);
    BlockHeader(b, env, bs, pos, x);
    AlignBlocks(x.len, bs);
    AlignFacts(x.len, bs);
    NotTaken(t, bs, ReadBlock(x, bs, fd, pos + CHUNK_HEADER_LEN), pos + |c|, End(x, bs));
    if x.backing.Fill? {
      FillValue(b, env, bs, pos, x);
      FillRead(b, fd, bs, t, pos, x.block, Align(x.len, bs));
    } else {
      RawRead(b, fd, bs, t, pos, x.block, Align(x.len, bs));
    }
  }

  /** The file that has been written, seen through its descriptor. */
  function FileEnv(env: Env, b: Bytes, fd: int): Env {
    (x: Backing) => match x
      case Fd(f, o) => if f == fd && 0 <= o < |b| then b[o] else env(x)
      case _ => env(x)
  }

  /** The reader gives each block of a chunk the bytes the writer was given. */
  lemma SameContents(b: Bytes, fd: int, env: Env, bs: nat, pos: nat, x: Block, n: int)
    requires bs > 0 && pos + |ChunkOf(env, x, bs)| <= |b| && b[pos..pos + |ChunkOf(env, x, bs)|] == ChunkOf(env, x, bs)
    ensures
      var y := ReadBlock(x, bs, fd, pos + CHUNK_HEADER_LEN);
      && (Covers(y, bs, n) <==> Covers(x, bs, n))
      && (Covers(x, bs, n) ==> SameBlock(Some(ContentOf(x, bs, n)), env, Some(ContentOf(y, bs, n)), FileEnv(env, b, fd), bs))
  {
    hide Align, DivUp, Covers, ChunkHeader, U32;
    var at := pos + CHUNK_HEADER_LEN;
    var y := ReadBlock(x, bs, fd, at);
    AlignBlocks(x.len, bs);
    CoversEnd(x, bs, n);
    CoversEnd(y, bs, n);
    if Covers(x, bs, n) && !x.backing.Fill? {
      forall j | 0 <= j < bs
        ensures ByteAt(env, ContentOf(x, bs, n), j) == ByteAt(FileEnv(env, b, fd), ContentOf(y, bs, n), j)
      {
        StoredByte(b, fd, env, bs, pos, x, n - x.block, j);
      }
    }
  }

  /** The o-th byte of the data of a raw chunk. */
  lemma WrittenByte(b: Bytes, env: Env, bs: nat, pos: nat, x: Block, o: nat)
    requires bs > 0 && pos + |ChunkOf(env, x, bs)| <= |b| && b[pos..pos + |ChunkOf(env, x, bs)|] == ChunkOf(env, x, bs)
    requires !x.backing.Fill? && o < Align(x.len, bs)
    ensures pos + CHUNK_HEADER_LEN + o < |b|
    ensures b[pos + CHUNK_HEADER_LEN + o] == if o < x.len then env(Advance(x.backing, o)) else 0
  {
    hide Align, ChunkHeader, U32;
    AlignFacts(x.len, bs);
    var up := Align(x.len, bs);
    var c := ChunkOf(env, x, bs);
    var data := Stored(env, x.backing, x.len) + Zeros(up - x.len);
    assert c == ChunkHeader(CHUNK_TYPE_RAW, Quotient(up, bs), CHUNK_HEADER_LEN + up) + data;
    assert c[CHUNK_HEADER_LEN + o] == data[o];
    assert b[pos + (CHUNK_HEADER_LEN + o)] == b[pos..pos + |c|][CHUNK_HEADER_LEN + o];
  }

  /** Byte j of the k-th block of stored data. */
  lemma ByteOf(env: Env, x: Block, bs: nat, k: int, j: nat)
    requires j < bs && !x.backing.Fill?
    ensures ByteAt(env, ContentOf(x, bs, x.block + k), j) == if k * bs + j < x.len then env(Advance(x.backing, k * bs + j)) else 0
  {
    assert (x.block + k - x.block) * bs == k * bs;
  }

  lemma StoredByte(b: Bytes, fd: int, env: Env, bs: nat, pos: nat, x: Block, k: int, j: nat)
    requires bs > 0 && pos + |ChunkOf(env, x, bs)| <= |b| && b[pos..pos + |ChunkOf(env, x, bs)|] == ChunkOf(env, x, bs)
    requires !x.backing.Fill? && 0 <= k < DivUp(x.len, bs) && j < bs
    ensures
      var y := ReadBlock(x, bs, fd, pos + CHUNK_HEADER_LEN);
      ByteAt(env, ContentOf(x, bs, x.block + k), j) == ByteAt(FileEnv(env, b, fd), ContentOf(y, bs, x.block + k), j)
  {
    hide Align, DivUp, ChunkOf, ByteAt, ContentOf;
    AlignFacts(x.len, bs);
    MulLe(k + 1, DivUp(x.len, bs), bs);
    MulLe(0, k, bs);
    var o := k * bs + j;
    assert (k + 1) * bs == k * bs + bs;
    WrittenByte(b, env, bs, pos, x, o);
    ByteOf(env, x, bs, k, j);
    ByteOf(FileEnv(env, b, fd), ReadBlock(x, bs, fd, pos + CHUNK_HEADER_LEN), bs, k, j);
  }

  lemma SameUpdate(s: seq<Block>, s': seq<Block>, env: Env, t: seq<Block>, t': seq<Block>, env': Env, bs: nat, x: Block, y: Block)
    requires bs > 0 && SameImage(s, env, t, env', bs) && Updates(s', s, bs, x) && Updates(t', t, bs, y)
    requires forall n :: Covers(y, bs, n) <==> Covers(x, bs, n)
    requires forall n :: Covers(x, bs, n) ==> SameBlock(Some(ContentOf(x, bs, n)), env, Some(ContentOf(y, bs, n)), env', bs)
    ensures SameImage(s', env, t', env', bs)
  {
    hide Covers, ContentOf, At, SameBlock;
    forall n ensures SameBlock(At(s', bs, n), env, At(t', bs, n), env', bs) {
      assert SameBlock(At(s, bs, n), env, At(t, bs, n), env', bs);
    }
  }

  /** What has been read after the chunks of the first i blocks. */
  ghost predicate ReadSoFar(b: Bytes, fd: int, env: Env, s: seq<Block>, i: nat, t: seq<Block>, bs: nat, pos: nat)
    requires bs > 0 && i <= |s|
  {
    && Ordered(t, bs) && Positive(t)
    && (forall k :: 0 <= k < |t| ==> End(t[k], bs) <= Before(s, bs, i))
    && SameImage(s[..i], env, t, FileEnv(env, b, fd), bs)
    && if i == 0 then t == [] else t != [] && LastRead(fd, s, i - 1, t[|t| - 1], bs, pos)
  }

  /** The last block read stands for the run that ends with block i. */
  ghost predicate LastRead(fd: int, s: seq<Block>, i: nat, last: Block, bs: nat, pos: nat)
    requires bs > 0 && i < |s|
  {
    if s[i].backing.Fill? then
      && last.backing == s[i].backing && last.len == RunLen(s, bs, i)
      && last.block + last.len / bs == End(last, bs) == End(s[i], bs)
    else
      last.backing.Fd? && last.backing.offset + last.len <= pos
  }

  /** Queueing the block read from the chunk of block i: only equal adjacent fills merge. */
  lemma QueueRead(fd: int, s: seq<Block>, i: nat, t: seq<Block>, bs: nat, pos: nat)
    requires 0 < i < |s| && bs > 0 && t != [] && LastRead(fd, s, i - 1, t[|t| - 1], bs, pos)
    requires End(t[|t| - 1], bs) <= s[i].block && BlockFits(s, bs, i) && s[i].len > 0
    ensures
      var y := ReadBlock(s[i], bs, fd, pos + CHUNK_HEADER_LEN);
      var last := t[|t| - 1];
      if CanMerge(last, y, bs) then
        y.backing.Fill? && last.len + y.len < WORD && LastRead(fd, s, i, Merged(last, y), bs, pos + CHUNK_HEADER_LEN + 4)
      else
        LastRead(fd, s, i, y, bs, pos + CHUNK_HEADER_LEN + if y.backing.Fill? then 4 else y.len)
  {
    hide Align, DivUp;
    AlignBlocks(s[i].len, bs);
    var y := ReadBlock(s[i], bs, fd, pos + CHUNK_HEADER_LEN);
    var last := t[|t| - 1];
    if y.backing.Fill? {
      FloorEnd(last, bs);
      if CanMerge(last, y, bs) {
        DivAdd(last.len, y.len, bs);
        MergeOrder(last, y, bs);
      }
    }
  }

  lemma FloorEnd(b: Block, bs: nat)
    requires bs > 0
    ensures b.block + b.len / bs <= End(b, bs)
  {
    AlignDownFacts(b.len, bs);
    CutIs(b.len, bs);
    AlignFacts(b.len, bs);
    DivUpCounts(b.len, bs, b.len / bs - 1);
  }

  lemma DivAdd(x: nat, y: nat, bs: nat)
    requires bs > 0 && y % bs == 0
    ensures (x + y) / bs == x / bs + y / bs
  {
    var q, r, p := x / bs, x % bs, y / bs;
    assert y == bs * p;
    assert x + y == bs * (q + p) + r;
    DivUnique(x + y, bs, q + p, r);
  }

  /** The chunk of block i, read into the list of the blocks before it. */
  lemma QueuedReads(b: Bytes, fd: int, env: Env, s: seq<Block>, i: nat, t: seq<Block>, bs: nat, pos: nat)
    requires bs > 0 && i < |s| && Ordered(s, bs) && Positive(s) && BlockFits(s, bs, i)
    requires ReadSoFar(b, fd, env, s, i, t, bs, pos)
    ensures
      var y := ReadBlock(s[i], bs, fd, pos + CHUNK_HEADER_LEN);
      && y.len > 0 && End(y, bs) == End(s[i], bs) && Fresh(t, bs, y) && MergesFit(t, bs, y)
      && (forall k :: 0 <= k < |t| ==> t[k].block < s[i].block)
      && var t' := Queued(t, bs, y);
         (forall k :: 0 <= k < |t'| ==> End(t'[k], bs) <= End(s[i], bs))
         && t' != []
         && LastRead(fd, s, i, t'[|t'| - 1], bs, pos + CHUNK_HEADER_LEN + if y.backing.Fill? then 4 else y.len)
  {
    hide Align, DivUp, SameImage, CanMerge, Merged, Queued, RunLen, Place, WithNext, MergesFit;
    var y := ReadBlock(s[i], bs, fd, pos + CHUNK_HEADER_LEN);
    AlignBlocks(s[i].len, bs);
    EndAfter(s[i], bs);
    assert Before(s, bs, i) <= s[i].block;
    forall k | 0 <= k < |t| ensures t[k].block < s[i].block {
      EndAfter(t[k], bs);
    }
    QueuedAtEnd(t, bs, y);
    if t == [] {
      FirstRead(fd, s, bs, pos);
    } else {
      var last := t[|t| - 1];
      QueueRead(fd, s, i, t, bs, pos);
      if CanMerge(last, y, bs) {
        MergeOrder(last, y, bs);
        MergedBacking(last, y);
      }
    }
  }

  lemma MergedBacking(a: Block, b: Block)
    ensures Merged(a, b).backing == a.backing
  {
  }

  lemma FirstRead(fd: int, s: seq<Block>, bs: nat, pos: nat)
    requires bs > 0 && s != []
    ensures
      var y := ReadBlock(s[0], bs, fd, pos + CHUNK_HEADER_LEN);
      LastRead(fd, s, 0, y, bs, pos + CHUNK_HEADER_LEN + if y.backing.Fill? then 4 else y.len)
  {
    AlignBlocks(s[0].len, bs);
  }

  lemma StepRead(b: Bytes, fd: int, env: Env, s: seq<Block>, i: nat, t: seq<Block>, bs: nat, pos: nat) returns (t': seq<Block>)
    requires bs > 0 && i < |s| && Ordered(s, bs) && Positive(s) && BlockFits(s, bs, i) && End(s[i], bs) < WORD
    requires ReadSoFar(b, fd, env, s, i, t, bs, pos) && ChunkAt(b, pos, ChunkOf(env, s[i], bs))
    ensures
      var pos' := pos + |ChunkOf(env, s[i], bs)|;
      && ReadChunk(b, fd, CHUNK_HEADER_LEN, bs, t, pos, s[i].block) == Ok(t', pos', End(s[i], bs))
      && ReadSoFar(b, fd, env, s, i + 1, t', bs, pos')
  {
    hide Align, DivUp, SameImage, Queued, RunLen, ReadChunk, ChunkOf, MergesFit, LastRead;
    var y := ReadBlock(s[i], bs, fd, pos + CHUNK_HEADER_LEN);
    t' := Queued(t, bs, y);
    ChunkLen(env, s[i], bs);
    QueuedReads(b, fd, env, s, i, t, bs, pos);
    BlockRead(b, fd, env, bs, t, pos, s[i]);
    QueuedMap(t, bs, y);
    SliceUpdates(s, bs, i);
    forall n ensures
        && (Covers(y, bs, n) <==> Covers(s[i], bs, n))
        && (Covers(s[i], bs, n) ==> SameBlock(Some(ContentOf(s[i], bs, n)), env, Some(ContentOf(y, bs, n)), FileEnv(env, b, fd), bs))
    {
      SameContents(b, fd, env, bs, pos, s[i], n);
    }
    SameUpdate(s[..i], s[..i + 1], env, t, t', FileEnv(env, b, fd), bs, s[i], y);
  }

  lemma SliceUpdates(s: seq<Block>, bs: nat, i: nat)
    requires bs > 0 && i < |s| && Ordered(s, bs) && Positive(s)
    ensures Updates(s[..i + 1], s[..i], bs, s[i])
  {
    hide End, Updates;
    InsertInList(s[..i], bs, s[i], i);
    assert s[..i][..i] + [s[i]] + s[..i][i..] == s[..i + 1];
  }

  lemma Front(b: Bytes, pos: nat, a: Bytes, c: Bytes)
    requires pos <= |b| && b[pos..] == a + c
    ensures ChunkAt(b, pos, a) && b[pos + |a|..] == c
  {
    assert b[pos..pos + |a|] == b[pos..][..|a|];
    assert b[pos + |a|..] == b[pos..][|a|..];
  }

  lemma OneMore(b: Bytes, fd: int, bs: nat, t: seq<Block>, pos: nat, cur: nat, n: nat, r: Parsed)
    requires bs > 0 && r.Ok? && ReadChunk(b, fd, CHUNK_HEADER_LEN, bs, t, pos, cur) == r
    ensures ReadChunks(b, fd, CHUNK_HEADER_LEN, bs, t, pos, cur, n + 1) == ReadChunks(b, fd, CHUNK_HEADER_LEN, bs, r.list, r.pos, r.cur, n)
  {
    hide ReadChunk;
  }

  lemma ReadFurther(b: Bytes, fd: int, env: Env, s: seq<Block>, i: nat, t: seq<Block>, bs: nat, pos: nat, pos': nat)
    requires bs > 0 && i <= |s| && ReadSoFar(b, fd, env, s, i, t, bs, pos) && pos <= pos'
    ensures ReadSoFar(b, fd, env, s, i, t, bs, pos')
  {
    hide SameImage, Ordered, Positive;
  }

  lemma ChunksFront(env: Env, s: seq<Block>, i: nat, bs: nat, last: nat, blocks: nat)
    requires bs > 0 && i < |s|
    ensures Chunks(env, s[i..], bs, last, blocks) ==
            (if s[i].block > last then SkipChunk(s[i].block - last) else [])
            + (ChunkOf(env, s[i], bs) + Chunks(env, s[i + 1..], bs, End(s[i], bs), blocks))
    ensures CountChunks(s[i..], bs, last, blocks) ==
            (if s[i].block > last then 2 else 1) + CountChunks(s[i + 1..], bs, End(s[i], bs), blocks)
  {
    assert s[i..][0] == s[i] && s[i..][1..] == s[i + 1..];
  }

  lemma ChunksEnd(env: Env, s: seq<Block>, bs: nat, last: nat, blocks: nat)
    requires bs > 0
    ensures Chunks(env, s[|s|..], bs, last, blocks) == if last < blocks then SkipChunk(blocks - last) else []
    ensures CountChunks(s[|s|..], bs, last, blocks) == if last < blocks then 1 else 0
  {
  }

  /** The skip chunk before block i, if any. */
  lemma ReadGap(b: Bytes, fd: int, bs: nat, t: seq<Block>, pos: nat, last: nat, next: nat, n: nat, rest: Bytes) returns (pos': nat)
    requires bs > 0 && last <= next < WORD && next - last < HALF && pos <= |b|
    requires b[pos..] == (if next > last then SkipChunk(next - last) else []) + rest
    ensures pos <= pos' <= |b| && b[pos'..] == rest
    ensures ReadChunks(b, fd, CHUNK_HEADER_LEN, bs, t, pos, last, (if next > last then 1 else 0) + n)
         == ReadChunks(b, fd, CHUNK_HEADER_LEN, bs, t, pos', next, n)
  {
    hide ReadChunks, SkipChunk, ReadChunk;
    var skip := if next > last then SkipChunk(next - last) else [];
    Front(b, pos, skip, rest);
    pos' := pos + |skip|;
    if next > last {
      SkipLen(next - last);
      SkipRead(b, fd, bs, t, pos, last, next - last);
      OneMore(b, fd, bs, t, pos, last, n, Ok(t, pos', next));
    }
  }

  /** A skip chunk that is too long stops the reader. */
  lemma LongGap(b: Bytes, fd: int, bs: nat, t: seq<Block>, pos: nat, last: nat, next: nat, n: nat, rest: Bytes)
    requires bs > 0 && last + HALF <= next < WORD && pos <= |b| && b[pos..] == SkipChunk(next - last) + rest
    ensures ReadChunks(b, fd, CHUNK_HEADER_LEN, bs, t, pos, last, 1 + n) == Err
  {
    hide SkipChunk, ReadChunk;
    Front(b, pos, SkipChunk(next - last), rest);
    SkipLen(next - last);
    LongSkipUnread(b, fd, bs, t, pos, last, next - last);
  }

  lemma SkipLen(blocks: nat)
    ensures |SkipChunk(blocks)| == CHUNK_HEADER_LEN
  {
  }

  lemma BlockBounds(s: seq<Block>, i: nat, bs: nat, blocks: nat)
    requires bs > 0 && i < |s| && Ordered(s, bs) && Positive(s) && FieldsHold(s, bs, blocks)
    ensures Before(s, bs, i) <= s[i].block < End(s[i], bs) <= blocks < WORD
    ensures BlockFits(s, bs, i)
  {
    hide DivUp;
    EndAfter(s[i], bs);
    EndAfter(s[|s| - 1], bs);
  }

  /** Reading the rest of what was written, up to the last bytes of the file: it is accepted
      exactly if no gap is too long. */
  lemma {:induction false} ReadRest(b: Bytes, fd: int, env: Env, s: seq<Block>, i: nat, t: seq<Block>, bs: nat, pos: nat,
                                    blocks: nat, tail: Bytes)
    returns (t': seq<Block>)
    requires bs > 0 && i <= |s| && Ordered(s, bs) && Positive(s) && FieldsHold(s, bs, blocks)
    requires ReadSoFar(b, fd, env, s, i, t, bs, pos) && pos <= |b|
    requires b[pos..] == Chunks(env, s[i..], bs, Before(s, bs, i), blocks) + tail
    ensures |tail| <= |b|
    ensures
      ReadChunks(b, fd, CHUNK_HEADER_LEN, bs, t, pos, Before(s, bs, i), CountChunks(s[i..], bs, Before(s, bs, i), blocks))
      == if GapsFit(s, bs, blocks, i) then Ok(t', |b| - |tail|, blocks) else Err
    ensures GapsFit(s, bs, blocks, i) ==> ReadSoFar(b, fd, env, s, |s|, t', bs, |b|)
    decreases |s| - i
  {
    hide ReadChunk, ChunkOf, SkipChunk, Chunks, CountChunks, End, ReadSoFar, FieldsHold, Ordered, Positive, ReadChunks, Before, BlockFits, GapsFit;
    var last := Before(s, bs, i);
    t' := t;
    GapsNext(s, bs, blocks, i);
    if i == |s| {
      ChunksEnd(env, s, bs, last, blocks);
      FitsEnd(s, bs, blocks);
      if Gap(s, bs, blocks, i) >= HALF {
        LongGap(b, fd, bs, t, pos, last, blocks, 0, tail);
        return;
      }
      var pos' := ReadGap(b, fd, bs, t, pos, last, blocks, 0, tail);
      NoMore(b, fd, bs, t, pos', blocks, tail);
      ReadFurther(b, fd, env, s, i, t, bs, pos, |b|);
    } else {
      BlockBounds(s, i, bs, blocks);
      ChunksFront(env, s, i, bs, last, blocks);
      var c := ChunkOf(env, s[i], bs);
      var rest := Chunks(env, s[i + 1..], bs, End(s[i], bs), blocks) + tail;
      ChunksJoin(env, s, i, bs, last, blocks, tail);
      var n := CountChunks(s[i + 1..], bs, End(s[i], bs), blocks);
      if Gap(s, bs, blocks, i) >= HALF {
        LongGap(b, fd, bs, t, pos, last, s[i].block, 1 + n, c + rest);
        return;
      }
      var pos1 := ReadGap(b, fd, bs, t, pos, last, s[i].block, 1 + n, c + rest);
      ReadFurther(b, fd, env, s, i, t, bs, pos, pos1);
      Front(b, pos1, c, rest);
      var t1 := StepRead(b, fd, env, s, i, t, bs, pos1);
      OneMore(b, fd, bs, t, pos1, s[i].block, n, Ok(t1, pos1 + |c|, End(s[i], bs)));
      BeforeNext(s, bs, i);
      t' := ReadRest(b, fd, env, s, i + 1, t1, bs, pos1 + |c|, blocks, tail);
    }
  }

  lemma GapsNext(s: seq<Block>, bs: nat, blocks: nat, i: nat)
    requires bs > 0 && i <= |s|
    ensures i == |s| ==> (GapsFit(s, bs, blocks, i) <==> Gap(s, bs, blocks, i) < HALF)
    ensures i < |s| ==> (GapsFit(s, bs, blocks, i) <==> Gap(s, bs, blocks, i) < HALF && GapsFit(s, bs, blocks, i + 1))
  {
    hide Gap;
  }

  lemma FitsEnd(s: seq<Block>, bs: nat, blocks: nat)
    requires bs > 0 && FieldsHold(s, bs, blocks)
    ensures Before(s, bs, |s|) <= blocks < WORD
  {
  }

  lemma BeforeNext(s: seq<Block>, bs: nat, i: nat)
    requires bs > 0 && i < |s|
    ensures Before(s, bs, i + 1) == End(s[i], bs)
  {
  }

  lemma ChunksJoin(env: Env, s: seq<Block>, i: nat, bs: nat, last: nat, blocks: nat, tail: Bytes)
    requires bs > 0 && i < |s|
    ensures
      var skip := if s[i].block > last then SkipChunk(s[i].block - last) else [];
      Chunks(env, s[i..], bs, last, blocks) + tail ==
      skip + (ChunkOf(env, s[i], bs) + (Chunks(env, s[i + 1..], bs, End(s[i], bs), blocks) + tail))
  {
    hide Chunks, ChunkOf, SkipChunk, End;
    ChunksFront(env, s, i, bs, last, blocks);
  }

  lemma NoMore(b: Bytes, fd: int, bs: nat, t: seq<Block>, pos: nat, cur: nat, tail: Bytes)
    requires bs > 0 && pos <= |b| && b[pos..] == tail
    ensures |tail| <= |b| && ReadChunks(b, fd, CHUNK_HEADER_LEN, bs, t, pos, cur, 0) == Ok(t, |b| - |tail|, cur)
  {
  }

  lemma FileHeaderFields(b: Bytes, bs: nat, blocks: nat, chunks: nat)
    requires |b| >= SPARSE_HEADER_LEN && b[..SPARSE_HEADER_LEN] == FileHeader(bs, blocks, chunks)
    requires bs < WORD && blocks < WORD && chunks < WORD
    ensures Get32(b, 0) == SPARSE_HEADER_MAGIC == 0xed26ff3a && Get16(b, 4) == 1 && Get16(b, 6) == 0
    ensures Get16(b, 8) == SPARSE_HEADER_LEN == 28 && Get16(b, 10) == CHUNK_HEADER_LEN == 12
    ensures Get32(b, 12) == bs && Get32(b, 16) == blocks && Get32(b, 20) == chunks && Get32(b, 24) == 0
  {
    hide U32;
    var h := b[..SPARSE_HEADER_LEN];
    forall k | 0 <= k < SPARSE_HEADER_LEN ensures b[k] == h[k] {
    }
    CountFields(b, bs, blocks, chunks);
  }

  lemma CountFields(b: Bytes, bs: nat, blocks: nat, chunks: nat)
    requires |b| >= SPARSE_HEADER_LEN && b[..SPARSE_HEADER_LEN] == FileHeader(bs, blocks, chunks)
    requires bs < WORD && blocks < WORD && chunks < WORD
    ensures Get32(b, 12) == bs && Get32(b, 16) == blocks && Get32(b, 20) == chunks && Get32(b, 24) == 0
  {
    hide U16, U32, Get16, Get32;
    var a: Bytes := [0x3a, 0xff, 0x26, 0xed, 1, 0, 0, 0, 28, 0, 12, 0];
    var x, n, c, z := U32(bs), U32(blocks), U32(chunks), U32(0);
    assert a + x + n + c + z == a + x + (n + c + z) == (a + x) + n + (c + z) == (a + x + n) + c + z == (a + x + n + c) + z + [];
    assert b[0..SPARSE_HEADER_LEN] == b[..SPARSE_HEADER_LEN];
    FieldAt(b, 0, a, x, n + c + z);
    FieldAt(b, 0, a + x, n, c + z);
    FieldAt(b, 0, a + x + n, c, z);
    FieldAt(b, 0, a + x + n + c, z, []);
    Field32(b, 24, 0);
    Field32(b, 12, bs);
    Field32(b, 16, blocks);
    Field32(b, 20, chunks);
  }

  /** Parsing what was printed succeeds, so that the header's counts are those of the chunks,
      exactly if no gap is too long, and gives every block of the image the bytes it had. */
  lemma ImportBack(env: Env, s: seq<Block>, bs: nat, blocks: nat, fd: int)
    requires bs > 0 && Ordered(s, bs) && Positive(s) && FieldsHold(s, bs, blocks)
    ensures
      var b := FileBytes(env, s, bs, blocks);
      var r := Import(b, fd);
      && (r.Some? <==> GapsFit(s, bs, blocks, 0))
      && (r.Some? ==>
            && r.value.blockSize == bs && r.value.blocks == blocks
            && Ordered(r.value.list, bs) && Positive(r.value.list)
            && SameImage(s, env, r.value.list, FileEnv(env, b, fd), bs))
  {
    hide Get16, Get32, FileHeader, ReadChunks, Chunks, CountChunks, SameImage, End, Ordered, GapsFit;
    var n := CountChunks(s, bs, 0, blocks);
    var header, c := FileHeader(bs, blocks, n), Chunks(env, s, bs, 0, blocks);
    var b := header + c;
    assert b[..SPARSE_HEADER_LEN] == header && b[SPARSE_HEADER_LEN..] == c;
    FileHeaderFields(b, bs, blocks, n);
    assert s[0..] == s && s[..|s|] == s;
    NothingRead(b, fd, env, s, bs);
    assert c + [] == c;
    var t := ReadRest(b, fd, env, s, 0, [], bs, SPARSE_HEADER_LEN, blocks, []);
    if GapsFit(s, bs, blocks, 0) {
      SoFarAll(b, fd, env, s, t, bs);
    }
  }

  /** A file with a checksum announces one chunk more: all but the last read as the image, and
      the last, the file's last 16 bytes, is the checksum. */
  lemma ChecksumBack(env: Env, s: seq<Block>, bs: nat, blocks: nat, sum: nat, fd: int) returns (t: seq<Block>)
    requires bs > 0 && Ordered(s, bs) && Positive(s) && FieldsHold(s, bs, blocks) && GapsFit(s, bs, blocks, 0)
    requires CountChunks(s, bs, 0, blocks) + 1 < WORD
    ensures
      var b := ChecksumFile(env, s, bs, blocks, sum);
      && |b| >= 44 && Get32(b, 20) > 0 && b[|b| - 16..] == CrcChunk(sum)
      && ReadChunks(b, fd, 12, bs, [], 28, 0, Get32(b, 20) - 1) == Ok(t, |b| - 16, blocks)
      && SameImage(s, env, t, FileEnv(env, b, fd), bs)
  {
    hide Get16, Get32, FileHeader, ReadChunks, Chunks, CountChunks, SameImage, End, Ordered, GapsFit, CrcChunk;
    var n := CountChunks(s, bs, 0, blocks);
    var header, c, tail := FileHeader(bs, blocks, n + 1), Chunks(env, s, bs, 0, blocks), CrcChunk(sum);
    var b := header + c + tail;
    CrcLen(sum);
    assert b[..SPARSE_HEADER_LEN] == header && b[SPARSE_HEADER_LEN..] == c + tail;
    FileHeaderFields(b, bs, blocks, n + 1);
    assert s[0..] == s && s[..|s|] == s;
    NothingRead(b, fd, env, s, bs);
    t := ReadRest(b, fd, env, s, 0, [], bs, SPARSE_HEADER_LEN, blocks, tail);
    SoFarAll(b, fd, env, s, t, bs);
  }

  lemma CrcLen(sum: nat)
    ensures |CrcChunk(sum)| == 16
  {
  }

  /** An image with a gap of 2^31 blocks or more is written to a file that is not accepted. */
  lemma LongGapUnread(env: Env, s: seq<Block>, bs: nat, blocks: nat, fd: int, i: nat)
    requires bs > 0 && Ordered(s, bs) && Positive(s) && FieldsHold(s, bs, blocks)
    requires i <= |s| && Gap(s, bs, blocks, i) >= HALF
    ensures Import(FileBytes(env, s, bs, blocks), fd) == None
  {
    hide Import, FileBytes, Gap;
    ImportBack(env, s, bs, blocks, fd);
  }

  lemma NothingRead(b: Bytes, fd: int, env: Env, s: seq<Block>, bs: nat)
    requires bs > 0
    ensures ReadSoFar(b, fd, env, s, 0, [], bs, SPARSE_HEADER_LEN)
  {
    assert s[..0] == [];
  }

  lemma SoFarAll(b: Bytes, fd: int, env: Env, s: seq<Block>, t: seq<Block>, bs: nat)
    requires bs > 0 && ReadSoFar(b, fd, env, s, |s|, t, bs, |b|)
    ensures Ordered(t, bs) && Positive(t) && SameImage(s, env, t, FileEnv(env, b, fd), bs)
  {
    assert s[..|s|] == s;
  }

  // ----- what is written of what should be -----

  /** A block's chunk is written whole exactly if its lengths fit. */
  lemma EmittedWhole(env: Env, b: Block, bs: nat)
    requires 0 < bs < HALF && 0 < b.len < WORD
    ensures |Emitted(env, b, bs)| <= |ChunkOf(env, b, bs)|
    ensures Emitted(env, b, bs) == ChunkOf(env, b, bs) <==> Whole(b, bs)
  {
    hide Align, Up32, AsInt, ChunkHeader, U32, Stored, Zeros;
    ChunkLen(env, b, bs);
    AlignFacts(b.len, bs);
    if b.backing.Fill? {
      if b.len + bs <= WORD {
        Up32Is(b.len, bs);
      } else {
        FillDiffers(env, b, bs);
      }
    } else if IntSized(b, bs) {
      Up32Is(b.len, bs);
      AsIntIs(b.len);
      AsIntIs(b.len + Skew(b.backing));
      AsIntIs(Align(b.len, bs) - b.len);
      assert Zeros(0) == [];
    } else {
      NotInt(b, bs);
    }
  }

  lemma NotInt(b: Block, bs: nat)
    requires 0 < bs < HALF && b.len < WORD && !b.backing.Fill? && !IntSized(b, bs)
    ensures !Mapped(b) || AsInt(b.len) < 0
  {
  }

  /** Rounding up goes past 2^32, and the header gets a block count that is too small. */
  lemma FillDiffers(env: Env, b: Block, bs: nat)
    requires 0 < bs < HALF && b.len < WORD && b.backing.Fill? && b.len + bs > WORD
    ensures |Emitted(env, b, bs)| == CHUNK_HEADER_LEN + 4
    ensures Emitted(env, b, bs) != ChunkOf(env, b, bs)
  {
    hide Align, Up32, ChunkHeader, U32, Get32, Get16, DivUp;
    var m, n := Quotient(Up32(b.len, bs), bs), Quotient(Align(b.len, bs), bs);
    RoundedPast(b.len, bs);
    AlignBlocks(b.len, bs);
    HeadersDiffer(m, n, U32(b.backing.val));
  }

  lemma HeadersDiffer(m: nat, n: nat, rest: Bytes)
    requires m < n < WORD
    ensures ChunkHeader(CHUNK_TYPE_FILL, m, CHUNK_HEADER_LEN + 4) + rest != ChunkHeader(CHUNK_TYPE_FILL, n, CHUNK_HEADER_LEN + 4) + rest
  {
    hide ChunkHeader, Get32, Get16, U32;
    var e := ChunkHeader(CHUNK_TYPE_FILL, m, CHUNK_HEADER_LEN + 4) + rest;
    var c := ChunkHeader(CHUNK_TYPE_FILL, n, CHUNK_HEADER_LEN + 4) + rest;
    assert e[0..CHUNK_HEADER_LEN] == ChunkHeader(CHUNK_TYPE_FILL, m, CHUNK_HEADER_LEN + 4);
    assert c[0..CHUNK_HEADER_LEN] == ChunkHeader(CHUNK_TYPE_FILL, n, CHUNK_HEADER_LEN + 4);
    HeaderFields(e, 0, CHUNK_TYPE_FILL, m, CHUNK_HEADER_LEN + 4);
    HeaderFields(c, 0, CHUNK_TYPE_FILL, n, CHUNK_HEADER_LEN + 4);
  }

  lemma RoundedPast(x: nat, bs: nat)
    requires 0 < bs < HALF && x < WORD && x + bs > WORD
    ensures Quotient(Up32(x, bs), bs) < DivUp(x, bs) < WORD
  {
    var v := (x + bs - 1) % WORD;
    assert v == x + bs - 1 - WORD < bs;
    DivUnique(v, bs, 0, v);
    assert Up32(x, bs) == 0;
    DivUpPositive(x, bs);
    DivUpCounts(x, bs, HALF);
    assert HALF * bs >= WORD by { MulLe(2, bs, HALF); }
  }

  lemma {:induction false} WrittenWhole(env: Env, s: seq<Block>, bs: nat, last: nat, blocks: nat)
    requires 0 < bs < HALF && forall i :: 0 <= i < |s| ==> 0 < s[i].len < WORD
    ensures |Written(env, s, bs, last, blocks)| <= |Chunks(env, s, bs, last, blocks)|
    ensures Written(env, s, bs, last, blocks) == Chunks(env, s, bs, last, blocks) <==> AllWhole(s, bs)
  {
    hide Emitted, ChunkOf, SkipChunk, Whole, End;
    if s != [] {
      EmittedWhole(env, s[0], bs);
      WrittenWhole(env, s[1..], bs, End(s[0], bs), blocks);
      var skip := if s[0].block > last then SkipChunk(s[0].block - last) else [];
      SameParts(skip, Emitted(env, s[0], bs), Written(env, s[1..], bs, End(s[0], bs), blocks),
                ChunkOf(env, s[0], bs), Chunks(env, s[1..], bs, End(s[0], bs), blocks));
      assert AllWhole(s, bs) <==> Whole(s[0], bs) && AllWhole(s[1..], bs) by {
        assert forall i :: 1 <= i < |s| ==> s[i] == s[1..][i - 1];
      }
    }
  }

  lemma SameParts(a: Bytes, e: Bytes, w: Bytes, c: Bytes, d: Bytes)
    requires |e| <= |c| && |w| <= |d|
    ensures |a + e + w| <= |a + c + d|
    ensures a + e + w == a + c + d <==> e == c && w == d
  {
    if a + e + w == a + c + d {
      assert |e| == |c| && |w| == |d|;
      assert (a + e + w)[|a|..|a| + |e|] == e && (a + c + d)[|a|..|a| + |c|] == c;
      assert (a + e + w)[|a| + |e|..] == w && (a + c + d)[|a| + |c|..] == d;
    }
  }

  /** The file is the one the format asks for exactly if every chunk is written whole. */
  lemma FileWhole(env: Env, s: seq<Block>, bs: nat, blocks: nat)
    requires 0 < bs < HALF && forall i :: 0 <= i < |s| ==> 0 < s[i].len < WORD
    ensures FileWritten(env, s, bs, blocks) == FileBytes(env, s, bs, blocks) <==> AllWhole(s, bs)
  {
    hide Written, Chunks, CountChunks, FileHeader, AllWhole;
    WrittenWhole(env, s, bs, 0, blocks);
    var h := FileHeader(bs, blocks, CountChunks(s, bs, 0, blocks));
    SameParts(h, [], Written(env, s, bs, 0, blocks), [], Chunks(env, s, bs, 0, blocks));
    assert h + [] == h;
  }

  /** Likewise with a checksum. */
  lemma ChecksumWhole(env: Env, s: seq<Block>, bs: nat, blocks: nat, sum: nat)
    requires 0 < bs < HALF && forall i :: 0 <= i < |s| ==> 0 < s[i].len < WORD
    ensures ChecksumWritten(env, s, bs, blocks, sum) == ChecksumFile(env, s, bs, blocks, sum) <==> AllWhole(s, bs)
  {
    hide Written, Chunks, CountChunks, FileHeader, AllWhole, CrcChunk;
    WrittenWhole(env, s, bs, 0, blocks);
    var h := FileHeader(bs, blocks, CountChunks(s, bs, 0, blocks) + 1);
    var w, c, t := Written(env, s, bs, 0, blocks), Chunks(env, s, bs, 0, blocks), CrcChunk(sum);
    SameParts(h, w, t, c, t);
  }

  /** The promise that what is written reads back as the same image fails for a block of 2^31
      bytes: only its chunk's header is written, and the file is accepted all the same, with
      the block's bytes where the file has ended. */
  lemma LongChunkLost(env: Env, fd: int)
    requires env(Data(0)) != env(Fd(fd, 40))
    ensures
      var s := [Block(0, 0x8000_0000, Data(0))];
      var b := FileWritten(env, s, 4096, 0x8_0000);
      var t := [Block(0, 0x8000_0000, Fd(fd, 40))];
      && Ordered(s, 4096) && Positive(s) && FieldsHold(s, 4096, 0x8_0000) && GapsFit(s, 4096, 0x8_0000, 0)
      && |b| == 40 && Import(b, fd) == Some(Image(4096, 0x8_0000, t))
      && !SameImage(s, env, t, FileEnv(env, b, fd), 4096)
  {
    hide U16, U32, Get16, Get32, ChunkHeader, FileHeader;
    var x := Block(0, 0x8000_0000, Data(0));
    var s, b, y := [x], FileWritten(env, [x], 4096, 0x8_0000), Block(0, 0x8000_0000, Fd(fd, 40));
    DivUnique(0x8000_0000 + 4095, 4096, 0x8_0000, 4095);
    assert End(x, 4096) == 0x8_0000 && Align(x.len, 4096) == Up32(x.len, 4096) == 0x8000_0000;
    assert s[1..] == [];
    assert Emitted(env, x, 4096) == ChunkHeader(CHUNK_TYPE_RAW, 0x8_0000, CHUNK_HEADER_LEN + 0x8000_0000) + [];
    assert Skips(s, 4096, 0, 0x8_0000) == 0 by { assert Skips([], 4096, 0x8_0000, 0x8_0000) == 0; }
    assert Written(env, s, 4096, 0, 0x8_0000) == Emitted(env, x, 4096) by { assert Written(env, [], 4096, 0x8_0000, 0x8_0000) == []; }
    var h, c := FileHeader(4096, 0x8_0000, 1), ChunkHeader(CHUNK_TYPE_RAW, 0x8_0000, CHUNK_HEADER_LEN + 0x8000_0000);
    assert b == h + c;
    assert b[..28] == h && b[28..40] == c;
    FileHeaderFields(b, 4096, 0x8_0000, 1);
    HeaderFields(b, 28, CHUNK_TYPE_RAW, 0x8_0000, CHUNK_HEADER_LEN + 0x8000_0000);
    assert ReadChunk(b, fd, CHUNK_HEADER_LEN, 4096, [], 28, 0) == Ok([y], 40 + 0x8000_0000, 0x8_0000);
    OneMore(b, fd, 4096, [], 28, 0, 0, Ok([y], 40 + 0x8000_0000, 0x8_0000));
    LostByte(env, fd, b);
  }

  lemma LostByte(env: Env, fd: int, b: Bytes)
    requires |b| == 40 && env(Data(0)) != env(Fd(fd, 40))
    ensures !SameImage([Block(0, 0x8000_0000, Data(0))], env, [Block(0, 0x8000_0000, Fd(fd, 40))], FileEnv(env, b, fd), 4096)
  {
    var s, t := [Block(0, 0x8000_0000, Data(0))], [Block(0, 0x8000_0000, Fd(fd, 40))];
    var e := FileEnv(env, b, fd);
    assert At(s, 4096, 0) == Some(Content(Data(0), 4096)) && At(t, 4096, 0) == Some(Content(Fd(fd, 40), 4096));
    assert ByteAt(env, Content(Data(0), 4096), 0) == env(Data(0));
    assert ByteAt(e, Content(Fd(fd, 40), 4096), 0) == env(Fd(fd, 40));
    assert !SameBlock(At(s, 4096, 0), env, At(t, 4096, 0), e, 4096);
  }

  // ----- lengths of files -----

  lemma {:induction false} TotalFront(s: seq<Block>, bs: nat)
    requires bs > 0 && s != []
    ensures Total(s, bs) == Cost(s[0], bs) + Total(s[1..], bs)
  {
    hide Cost;
    var n := |s| - 1;
    if n > 0 {
      TotalFront(s[..n], bs);
      assert s[..n][1..] == s[1..][..n - 1] && s[1..][n - 1] == s[n];
    } else {
      assert s[..0] == [] == s[1..];
    }
  }

  /** What is counted for a list, and a header for every skip, is what its chunks take. */
  lemma {:induction false} ChunksSize(env: Env, s: seq<Block>, bs: nat, last: nat, blocks: nat)
    requires bs > 0 && Positive(s) && AllIntSized(s, bs)
    ensures |Chunks(env, s, bs, last, blocks)| == Total(s, bs) + CHUNK_HEADER_LEN * Skips(s, bs, last, blocks)
  {
    hide Cost, ChunkOf, SkipChunk, Total, End;
    if s == [] {
      TotalEmpty(bs);
      SkipLen(if last < blocks then blocks - last else 0);
    } else {
      ChunksSize(env, s[1..], bs, End(s[0], bs), blocks);
      TotalFront(s, bs);
      CostIs(s[0], bs);
      ChunkLen(env, s[0], bs);
      SkipLen(if s[0].block > last then s[0].block - last else 0);
    }
  }

  /** SparseLen is the length of the file. */
  lemma FileSize(env: Env, s: seq<Block>, bs: nat, blocks: nat, sum: nat)
    requires bs > 0 && Positive(s) && AllIntSized(s, bs)
    ensures |FileBytes(env, s, bs, blocks)| == SparseLen(s, bs, blocks, false)
    ensures |ChecksumFile(env, s, bs, blocks, sum)| == SparseLen(s, bs, blocks, true)
  {
    hide Chunks, Total, Skips, FileHeader, ChunkHeader, U32;
    ChunksSize(env, s, bs, 0, blocks);
  }

  lemma PiecesWhole(b: Block, bs: nat, room: nat)
    requires bs > 0 && Whole(b, bs)
    ensures AllWhole(Pieces(b, bs, room), bs)
  {
    hide AlignDown, IntSized;
    PiecesIntSized(b, bs, room);
  }

  /** What is cut is still written whole. */
  lemma {:induction false} OutputsWhole(s: seq<Block>, bs: nat, len: nat, i: nat)
    requires 0 < bs && 8 * bs <= len < WORD && Positive(s) && AllWhole(s, bs) && i < |Outputs(s, bs, len)|
    ensures AllIntSized(s, bs) && Positive(Outputs(s, bs, len)[i]) && AllWhole(Outputs(s, bs, len)[i], bs)
    decreases i
  {
    hide Outputs, Step, Pieces, Flatten, Whole;
    WholeIntSized(s, bs);
    FlattenOutputs(s, bs, len);
    MovedPositive(s, bs, len);
    var m := Step(s, bs, len);
    assert Outputs(s, bs, len)[0] == m.moved;
    var k, room := StepShape(s, bs, len);
    if k < |s| {
      PiecesWhole(s[k], bs, room);
      PieceBacking(s[k], bs, room);
    }
    if i > 0 {
      assert Outputs(s, bs, len)[i] == Outputs(m.rest, bs, len)[i - 1];
      OutputsWhole(m.rest, bs, len, i - 1);
    }
  }

  lemma WholeIntSized(s: seq<Block>, bs: nat)
    requires AllWhole(s, bs)
    ensures AllIntSized(s, bs)
  {
  }

  /** The file that is written for an output of the cutting, with a checksum, is at most as
      long as was asked for, and 12 bytes for every gap inside it. */
  lemma OutputsBytes(env: Env, s: seq<Block>, bs: nat, maxLen: nat, blocks: nat, sum: nat, i: nat)
    requires 4 <= bs && OVERHEAD + 8 * bs <= maxLen < WORD && Positive(s) && AllWhole(s, bs)
    requires forall k :: 0 <= k < |s| ==> s[k].len < WORD
    requires i < |Outputs(s, bs, maxLen - OVERHEAD)|
    ensures
      var o := Outputs(s, bs, maxLen - OVERHEAD);
      && |ChecksumWritten(env, o[i], bs, blocks, sum)| <= maxLen + CHUNK_HEADER_LEN * Gaps(o[i], bs)
      && |FileWritten(env, o[i], bs, blocks)| <= maxLen + CHUNK_HEADER_LEN * Gaps(o[i], bs)
      && (i + 1 < |o| ==> 8 * |FileWritten(env, o[i], bs, blocks)| >= 7 * (maxLen - OVERHEAD))
  {
    hide Outputs, Chunks, Written, Total, Skips, Gaps, FileHeader, ChunkHeader, Whole, U32;
    var len := maxLen - OVERHEAD;
    var o := Outputs(s, bs, len);
    OutputsWhole(s, bs, len, i);
    OutputsSize(s, bs, maxLen, blocks, i);
    WholeIntSized(o[i], bs);
    WholeLens(o[i], bs);
    FileSize(env, o[i], bs, blocks, sum);
    WrittenWhole(env, o[i], bs, 0, blocks);
  }

  lemma WholeLens(s: seq<Block>, bs: nat)
    requires bs > 0 && AllWhole(s, bs)
    ensures forall i :: 0 <= i < |s| ==> s[i].len < WORD
    ensures s != [] ==> bs < HALF
  {
    assert s != [] ==> Whole(s[0], bs);
  }
}
