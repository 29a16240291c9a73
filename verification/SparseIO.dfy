/** Writing a sparse file from a list of backed blocks and importing one into a list:
    tools/libsparse/sparse.c, output_file.c and sparse_read.c. */
module SparseIO {
  import opened Rounding
  import opened BackedBlocks
  import opened LittleEndian
  import opened BlockLists
  import opened Resparse
  import opened SparseFiles
  import opened SparseFormat
  import opened Checksums

  /** struct output_file, with the bytes that went through its write operation. */
  class OutputFile {
    const blockSize: nat
    const useCrc: bool
    const crcTable: Table
    var data: Bytes
    var curOutPtr: int
    var chunkCnt: nat
    var crc32: bv32

    /** output_file_init. */
    constructor (blockSize: nat, len: nat, chunks: nat, useCrc: bool, crcTable: Table)
      requires 0 < blockSize < HALF
      ensures this.blockSize == blockSize && this.useCrc == useCrc && this.crcTable == crcTable
      ensures data == FileHeader(blockSize, len / blockSize, chunks + if useCrc then 1 else 0)
      ensures curOutPtr == 0 && chunkCnt == 0 && crc32 == 0
    {
      this.blockSize, this.useCrc, this.crcTable := blockSize, useCrc, crcTable;
      data := FileHeader(blockSize, len / blockSize, chunks + if useCrc then 1 else 0);
      curOutPtr, chunkCnt, crc32 := 0, 0, 0;
    }

    /** The write operation, which is given the length as an int: write(2) refuses one that is
        negative. */
    method Write(bytes: Bytes) returns (ok: bool)
      modifies `data
      ensures ok <==> AsInt(|bytes|) >= 0
      ensures data == old(data) + if ok then bytes else []
    {
      if AsInt(|bytes|) < 0 {
        return false;
      }
      data := data + bytes;
      return true;
    }

    /** write_sparse_skip_chunk: only whole blocks can be skipped. */
    method WriteSkipChunk(skipLen: nat) returns (ok: bool)
      requires blockSize > 0
      modifies `data, `curOutPtr, `chunkCnt
      ensures ok <==> skipLen % blockSize == 0
      ensures data == old(data) + if ok then SkipChunk(skipLen / blockSize) else []
      ensures curOutPtr == old(curOutPtr) + if ok then skipLen else 0
      ensures chunkCnt == old(chunkCnt) + if ok then 1 else 0
    {
      if skipLen % blockSize != 0 {
        return false;
      }
      var _ := Write(ChunkHeader(CHUNK_TYPE_DONT_CARE, skipLen / blockSize, CHUNK_HEADER_LEN));
      curOutPtr := curOutPtr + skipLen;
      chunkCnt := chunkCnt + 1;
      return true;
    }

    /** sparse_file_write_block: write_sparse_fill_chunk or write_sparse_data_chunk, after the
        file of the block, if it is in one, has been mapped. The position is moved by the
        rounded length as an int. */
    method WriteBlock(env: Env, b: Block) returns (ok: bool)
      requires 0 < blockSize < HALF && b.len < WORD
      modifies this
      ensures data == old(data) + Emitted(env, b, blockSize)
      ensures ok <==> Succeeds(b)
      ensures curOutPtr == old(curOutPtr) + if ok then AsInt(Up32(b.len, blockSize)) else 0
      ensures chunkCnt == old(chunkCnt) + if ok then 1 else 0
      ensures crc32 == if ok && useCrc then Crc32(crcTable, old(crc32), Counted(env, b, blockSize)) else old(crc32)
    {
      hide ChunkHeader, Up32, U32;
      if b.backing.Fill? {
        WriteFill(b);
        ok := true;
      } else {
        if (b.backing.File? || b.backing.Fd?) && AsInt(b.len + Skew(b.backing)) <= 0 {
          return false;
        }
        ok := WriteData(env, b);
      }
      if ok {
        curOutPtr := curOutPtr + AsInt(Up32(b.len, blockSize));
        chunkCnt := chunkCnt + 1;
      }
    }

    method WriteFill(b: Block)
      requires blockSize > 0 && b.backing.Fill?
      modifies `data, `crc32
      ensures data == old(data) + ChunkHeader(CHUNK_TYPE_FILL, Quotient(Up32(b.len, blockSize), blockSize), CHUNK_HEADER_LEN + 4) + U32(b.backing.val)
      ensures crc32 == if useCrc then Crc32(crcTable, old(crc32), Repeated(b.backing.val, blockSize / 4)) else old(crc32)
    {
      hide ChunkHeader, Up32, U32, Crc32;
      var rndUpLen := Up32(b.len, blockSize);
      var _ := Write(ChunkHeader(CHUNK_TYPE_FILL, Quotient(rndUpLen, blockSize), CHUNK_HEADER_LEN + 4));
      var _ := Write(U32(b.backing.val));
      if useCrc {
        var count: nat := blockSize / 4;
        GoesOn(crcTable, crc32, [], []);
        while count > 0
          invariant count <= blockSize / 4
          invariant data == old(data) + ChunkHeader(CHUNK_TYPE_FILL, Quotient(rndUpLen, blockSize), CHUNK_HEADER_LEN + 4) + U32(b.backing.val)
          invariant crc32 == Crc32(crcTable, old(crc32), Repeated(b.backing.val, blockSize / 4 - count))
        {
          GoesOn(crcTable, old(crc32), Repeated(b.backing.val, blockSize / 4 - count), U32(b.backing.val));
          crc32 := SparseCrc32(crcTable, crc32, U32(b.backing.val));
          count := count - 1;
        }
      }
    }

    method WriteData(env: Env, b: Block) returns (ok: bool)
      requires 0 < blockSize < HALF && b.len < WORD && !b.backing.Fill? && Mapped(b)
      modifies `data, `crc32
      ensures data == old(data) + Emitted(env, b, blockSize)
      ensures ok <==> b.len < HALF
      ensures crc32 == if ok && useCrc then Crc32(crcTable, old(crc32), Counted(env, b, blockSize)) else old(crc32)
    {
      hide ChunkHeader, Up32, Stored, Zeros, Align, Crc32, Counted, AsInt, Emitted;
      var rndUpLen := Up32(b.len, blockSize);
      var zeroLen := AsInt(rndUpLen - b.len);
      ghost var h := ChunkHeader(CHUNK_TYPE_RAW, Quotient(rndUpLen, blockSize), CHUNK_HEADER_LEN + rndUpLen);
      EmittedParts(env, b, blockSize, h, zeroLen);
      AsIntIs(CHUNK_HEADER_LEN);
      Negative(b.len);
      ok := Write(ChunkHeader(CHUNK_TYPE_RAW, Quotient(rndUpLen, blockSize), CHUNK_HEADER_LEN + rndUpLen));
      ok := Write(Stored(env, b.backing, b.len));
      if !ok {
        return;
      }
      PadLen(b.len, blockSize);
      if zeroLen != 0 {
        ok := Write(Zeros(zeroLen));
      }
      if useCrc {
        SumData(env, b, zeroLen);
      }
    }

    /** The checksum goes on over the data and its padding. */
    method SumData(env: Env, b: Block, zeroLen: nat)
      requires 0 < blockSize < HALF && b.len < HALF && !b.backing.Fill? && zeroLen == AsInt(Up32(b.len, blockSize) - b.len)
      modifies `crc32
      ensures crc32 == Crc32(crcTable, old(crc32), Counted(env, b, blockSize))
    {
      hide Up32, Stored, Zeros, Align, AsInt, Crc32, Counted;
      CountedStored(env, b, blockSize);
      GoesOn(crcTable, crc32, Stored(env, b.backing, b.len), Zeros(zeroLen));
      crc32 := SparseCrc32(crcTable, crc32, Stored(env, b.backing, b.len));
      if zeroLen != 0 {
        crc32 := SparseCrc32(crcTable, crc32, Zeros(zeroLen));
      }
      GoesOn(crcTable, crc32, [], []);
    }

    /** write_sparse_end_chunk. */
    method WriteEndChunk()
      modifies `data, `chunkCnt
      ensures data == old(data) + if useCrc then CrcChunk(crc32 as nat) else []
      ensures chunkCnt == old(chunkCnt) + if useCrc then 1 else 0
    {
      hide ChunkHeader, U32;
      if useCrc {
        var _ := Write(ChunkHeader(CHUNK_TYPE_CRC32, 0, CHUNK_HEADER_LEN + 4));
        var _ := Write(U32(crc32 as nat));
        chunkCnt := chunkCnt + 1;
      }
    }
  }

  /** What is emitted of a block that can be mapped. */
  lemma EmittedParts(env: Env, b: Block, bs: nat, h: Bytes, zero: int)
    requires 0 < bs < HALF && b.len < WORD && !b.backing.Fill? && Mapped(b)
    requires h == ChunkHeader(CHUNK_TYPE_RAW, Quotient(Up32(b.len, bs), bs), CHUNK_HEADER_LEN + Up32(b.len, bs))
    requires zero == AsInt(Up32(b.len, bs) - b.len)
    ensures Emitted(env, b, bs) ==
            h + if AsInt(b.len) < 0 then [] else Stored(env, b.backing, b.len) + if zero > 0 then Zeros(zero) else []
  {
    hide ChunkHeader, Up32, Stored, Zeros, AsInt, Mapped;
    Small(b.len);
  }

  lemma Negative(x: nat)
    requires x < WORD
    ensures AsInt(x) < 0 <==> x >= HALF
  {
  }

  lemma Small(x: nat)
    requires x < WORD
    ensures x % WORD == x
  {
  }

  lemma PadLen(len: nat, bs: nat)
    requires 0 < bs < HALF && len < HALF
    ensures 0 <= AsInt(Up32(len, bs) - len) && AsInt(AsInt(Up32(len, bs) - len)) >= 0
  {
    hide AsInt, Up32, Align;
    Up32Is(len, bs);
    AlignFacts(len, bs);
    AsIntIs(Align(len, bs) - len);
  }

  lemma CountedStored(env: Env, b: Block, bs: nat)
    requires 0 < bs < HALF && b.len < HALF && !b.backing.Fill?
    ensures
      var zero := AsInt(Up32(b.len, bs) - b.len);
      zero >= 0 && Counted(env, b, bs) == Stored(env, b.backing, b.len) + Zeros(zero) && (zero == 0 ==> Zeros(zero) == [])
  {
    hide AsInt, Align, Up32;
    Up32Is(b.len, bs);
    AlignFacts(b.len, bs);
    AsIntIs(Align(b.len, bs) - b.len);
  }

  /** The list lies inside the image. */
  ghost predicate Inside(s: seq<Block>, bs: nat, blocks: nat)
    requires bs > 0
  {
    forall i :: 0 <= i < |s| ==> End(s[i], bs) <= blocks
  }

  /** sparse_count_chunks. */
  method CountAllChunks(list: BlockList, len: nat) returns (chunks: nat)
    requires list.Valid() && Ordered(list.Blocks(), list.blockSize) && Inside(list.Blocks(), list.blockSize, DivUp(len, list.blockSize))
    ensures chunks == CountChunks(list.Blocks(), list.blockSize, 0, DivUp(len, list.blockSize))
  {
    hide Chain, Values, End, DivUp;
    ghost var s, bs, blocks := list.Blocks(), list.blockSize, DivUp(len, list.blockSize);
    ghost var i: nat := 0;
    var bb := list.head;
    var lastBlock: nat := 0;
    chunks := 0;
    FirstOf(list.nodes);
    assert s[0..] == s;
    while bb != null
      invariant i <= |s| && bb == if i < |s| then list.nodes[i] else null
      invariant chunks + CountChunks(s[i..], bs, lastBlock, blocks) == CountChunks(s, bs, 0, blocks)
      decreases |s| - i
    {
      ChainNext(list.nodes, i);
      assert s[i] == bb.Value();
      CountFront(s, i, bs, lastBlock, blocks);
      if bb.block > lastBlock {
        chunks := chunks + 1;
      }
      chunks := chunks + 1;
      lastBlock := End(Block(bb.block, bb.len, bb.backing), list.blockSize);
      bb := bb.next;
      i := i + 1;
    }
    CountEnd(s, bs, lastBlock, blocks);
    if lastBlock < DivUp(len, list.blockSize) {
      chunks := chunks + 1;
    }
  }

  lemma CountFront(s: seq<Block>, i: nat, bs: nat, last: nat, blocks: nat)
    requires bs > 0 && i < |s|
    ensures CountChunks(s[i..], bs, last, blocks) ==
            (if s[i].block > last then 2 else 1) + CountChunks(s[i + 1..], bs, End(s[i], bs), blocks)
  {
    hide End;
    assert s[i..][0] == s[i] && s[i..][1..] == s[i + 1..];
  }

  lemma CountEnd(s: seq<Block>, bs: nat, last: nat, blocks: nat)
    requires bs > 0
    ensures CountChunks(s[|s|..], bs, last, blocks) == if last < blocks then 1 else 0
  {
  }

  /** Lengths are unsigned int. */
  ghost predicate Lens(s: seq<Block>) {
    forall i :: 0 <= i < |s| ==> s[i].len < WORD
  }

  /** Every chunk is written whole, and its rounded length is not negative as an int. */
  ghost predicate AllShort(s: seq<Block>, bs: nat)
    requires bs > 0
  {
    forall i :: 0 <= i < |s| ==> Succeeds(s[i]) && 0 <= AsInt(Up32(s[i].len, bs)) == Align(s[i].len, bs)
  }

  /** write_all_blocks, for an image of whole blocks. Errors of single blocks are ignored. */
  method WriteAllBlocks(list: BlockList, len: nat, env: Env, out: OutputFile)
    requires list.Valid() && 0 < list.blockSize == out.blockSize < HALF && len % out.blockSize == 0 && Lens(list.Blocks())
    requires Ordered(list.Blocks(), list.blockSize) && Inside(list.Blocks(), list.blockSize, len / list.blockSize)
    modifies out
    ensures out.data == old(out.data) + Written(env, list.Blocks(), list.blockSize, 0, len / list.blockSize)
    ensures out.crc32 == if out.useCrc then Crc32(out.crcTable, old(out.crc32), CountedAll(env, list.Blocks(), list.blockSize))
                         else old(out.crc32)
    ensures (forall i :: 0 <= i < |list.Blocks()| ==> Succeeds(list.Blocks()[i])) ==>
              out.chunkCnt == old(out.chunkCnt) + CountChunks(list.Blocks(), list.blockSize, 0, len / list.blockSize)
    ensures AllShort(list.Blocks(), list.blockSize) ==> out.curOutPtr == old(out.curOutPtr) + len
  {
    hide Chain, Values, End, Written, CountChunks, Emitted, SkipChunk, Align, Up32, AsInt;
    hide Counted, CountedAll, Crc32, Succeeds, Going, Before, Inside, AllShort;
    ghost var s, bs, blocks := list.Blocks(), list.blockSize, len / list.blockSize;
    ghost var i: nat := 0;
    ghost var started := Out(out.data, out.crc32, out.chunkCnt, out.curOutPtr);
    var bb := list.head;
    var lastBlock: nat := 0;
    FirstOf(list.nodes);
    GoingStart(started, env, s, bs, blocks, out.useCrc, out.crcTable);
    while bb != null
      invariant i <= |s| && lastBlock == Before(s, bs, i) && bb == if i < |s| then list.nodes[i] else null
      invariant Going(Out(out.data, out.crc32, out.chunkCnt, out.curOutPtr), started, env, s, i, bs, blocks, out.useCrc, out.crcTable)
      decreases |s| - i
    {
      ghost var o := Out(out.data, out.crc32, out.chunkCnt, out.curOutPtr);
      ChainNext(list.nodes, i);
      assert s[i] == bb.Value();
      GapBefore(s, bs, i);
      if bb.block > lastBlock {
        var skip := bb.block - lastBlock;
        WholeBlocks(skip, bs);
        var _ := out.WriteSkipChunk(skip * out.blockSize);
      }
      var _ := out.WriteBlock(env, Block(bb.block, bb.len, bb.backing));
      GoingStep(o, started, env, s, i, bs, blocks, out.useCrc, out.crcTable,
                Out(out.data, out.crc32, out.chunkCnt, out.curOutPtr));
      lastBlock := End(Block(bb.block, bb.len, bb.backing), list.blockSize);
      BeforeNext(s, bs, i);
      bb := bb.next;
      i := i + 1;
    }
    PadIs(s, bs, len);
    ghost var o := Out(out.data, out.crc32, out.chunkCnt, out.curOutPtr);
    GoingEnd(o, started, env, s, bs, blocks, out.useCrc, out.crcTable);
    var pad := len - lastBlock * out.blockSize;
    if pad > 0 {
      WholeBlocks(blocks - lastBlock, bs);
      var _ := out.WriteSkipChunk(pad);
    }
  }

  /** What an output file has come to. */
  datatype Out = Out(data: Bytes, sum: bv32, chunks: nat, ptr: int)

  /** What is still to be emitted from block i on completes what should be emitted in all. */
  ghost predicate Going(o: Out, started: Out, env: Env, s: seq<Block>, i: nat, bs: nat, blocks: nat, useCrc: bool, table: Table)
    requires bs > 0
  {
    && i <= |s|
    && var last := Before(s, bs, i);
    && o.data + Written(env, s[i..], bs, last, blocks) == started.data + Written(env, s, bs, 0, blocks)
    && (if useCrc then Crc32(table, o.sum, CountedAll(env, s[i..], bs)) == Crc32(table, started.sum, CountedAll(env, s, bs))
        else o.sum == started.sum)
    && ((forall k :: 0 <= k < i ==> Succeeds(s[k])) ==>
          o.chunks + CountChunks(s[i..], bs, last, blocks) == started.chunks + CountChunks(s, bs, 0, blocks))
    && (AllShort(s, bs) ==> o.ptr == started.ptr + last * bs)
  }

  lemma GoingStart(o: Out, env: Env, s: seq<Block>, bs: nat, blocks: nat, useCrc: bool, table: Table)
    requires bs > 0
    ensures Going(o, o, env, s, 0, bs, blocks, useCrc, table)
    ensures Before(s, bs, 0) == 0
  {
    hide Written, CountedAll, Crc32, CountChunks, Succeeds, AllShort;
    assert s[0..] == s;
  }

  lemma GoingStep(o: Out, started: Out, env: Env, s: seq<Block>, i: nat, bs: nat, blocks: nat, useCrc: bool, table: Table, p: Out)
    requires bs > 0 && i < |s| && Ordered(s, bs) && Going(o, started, env, s, i, bs, blocks, useCrc, table)
    requires
      var skip := s[i].block - Before(s, bs, i);
      && p.data == o.data + (if skip > 0 then SkipChunk(skip) else []) + Emitted(env, s[i], bs)
      && p.sum == (if Succeeds(s[i]) && useCrc then Crc32(table, o.sum, Counted(env, s[i], bs)) else o.sum)
      && p.chunks == o.chunks + (if skip > 0 then 1 else 0) + (if Succeeds(s[i]) then 1 else 0)
      && p.ptr == o.ptr + (if skip > 0 then skip * bs else 0) + (if Succeeds(s[i]) then AsInt(Up32(s[i].len, bs)) else 0)
    ensures Going(p, started, env, s, i + 1, bs, blocks, useCrc, table)
  {
    hide Written, CountedAll, Crc32, CountChunks, Succeeds, AllShort, Emitted, Counted, SkipChunk, End, Ordered, Before, AsInt, Up32, Align;
    var last := Before(s, bs, i);
    WrittenFront(env, s, i, bs, last, blocks);
    CountedFront(env, s, i, bs);
    GoesOn(table, o.sum, if Succeeds(s[i]) then Counted(env, s[i], bs) else [], CountedAll(env, s[i + 1..], bs));
    GoesOn(table, o.sum, [], []);
    CountFront(s, i, bs, last, blocks);
    BeforeNext(s, bs, i);
    GapBefore(s, bs, i);
    EndBytes(s[i], bs);
    ShortAt(s, bs, i);
  }

  lemma ShortAt(s: seq<Block>, bs: nat, i: nat)
    requires bs > 0 && i < |s|
    ensures AllShort(s, bs) ==> Succeeds(s[i]) && AsInt(Up32(s[i].len, bs)) == Align(s[i].len, bs)
  {
    hide Succeeds, AsInt, Up32, Align;
  }

  lemma GoingEnd(o: Out, started: Out, env: Env, s: seq<Block>, bs: nat, blocks: nat, useCrc: bool, table: Table)
    requires bs > 0 && Going(o, started, env, s, |s|, bs, blocks, useCrc, table)
    ensures
      var last := Before(s, bs, |s|);
      && o.data + (if last < blocks then SkipChunk(blocks - last) else []) == started.data + Written(env, s, bs, 0, blocks)
      && o.sum == (if useCrc then Crc32(table, started.sum, CountedAll(env, s, bs)) else started.sum)
      && ((forall i :: 0 <= i < |s| ==> Succeeds(s[i])) ==>
            o.chunks + (if last < blocks then 1 else 0) == started.chunks + CountChunks(s, bs, 0, blocks))
      && (AllShort(s, bs) ==> o.ptr == started.ptr + last * bs)
  {
    hide Succeeds, AllShort, SkipChunk, Before;
    var last := Before(s, bs, |s|);
    WrittenEnd(env, s, bs, last, blocks);
    CountEnd(s, bs, last, blocks);
    GoesOn(table, o.sum, [], []);
  }

  lemma WrittenFront(env: Env, s: seq<Block>, i: nat, bs: nat, last: nat, blocks: nat)
    requires bs > 0 && i < |s|
    ensures Written(env, s[i..], bs, last, blocks) ==
            (if s[i].block > last then SkipChunk(s[i].block - last) else [])
            + (Emitted(env, s[i], bs) + Written(env, s[i + 1..], bs, End(s[i], bs), blocks))
  {
    hide Emitted, End, SkipChunk;
    assert s[i..][0] == s[i] && s[i..][1..] == s[i + 1..];
  }

  lemma WrittenEnd(env: Env, s: seq<Block>, bs: nat, last: nat, blocks: nat)
    requires bs > 0
    ensures Written(env, s[|s|..], bs, last, blocks) == if last < blocks then SkipChunk(blocks - last) else []
  {
  }

  /** The padding is never negative, as the source asserts. */
  lemma PadIs(s: seq<Block>, bs: nat, len: nat)
    requires bs > 0 && len % bs == 0 && Inside(s, bs, len / bs)
    ensures
      var last := Before(s, bs, |s|);
      && last <= len / bs && len - last * bs == (len / bs - last) * bs >= 0
      && (last < len / bs <==> len - last * bs > 0)
  {
    var last := Before(s, bs, |s|);
    assert len == bs * (len / bs);
    MulLe(0, len / bs - last, bs);
    if last < len / bs {
      MulLe(1, len / bs - last, bs);
    }
  }

  lemma GapBefore(s: seq<Block>, bs: nat, i: nat)
    requires bs > 0 && i < |s| && Ordered(s, bs)
    ensures Before(s, bs, i) <= s[i].block
    ensures (s[i].block - Before(s, bs, i)) * bs + Before(s, bs, i) * bs == s[i].block * bs
  {
  }

  lemma WholeBlocks(n: nat, bs: nat)
    requires bs > 0
    ensures n * bs % bs == 0 && n * bs / bs == n
  {
    DivUnique(n * bs, bs, n, 0);
  }

  lemma EndBytes(b: Block, bs: nat)
    requires bs > 0
    ensures b.block * bs + Align(b.len, bs) == End(b, bs) * bs
  {
    AlignFacts(b.len, bs);
  }

  /** sparse_file_write, without gzip; it fails if buffers of the block size, an int, cannot be
      allocated. */
  method WriteSparse(list: BlockList, len: nat, env: Env, useCrc: bool, crcTable: Table) returns (ok: bool, data: Bytes)
    requires list.Valid() && len % list.blockSize == 0 && Lens(list.Blocks())
    requires Ordered(list.Blocks(), list.blockSize) && Inside(list.Blocks(), list.blockSize, len / list.blockSize)
    ensures ok <==> list.blockSize < HALF
    ensures ok && !useCrc ==> data == FileWritten(env, list.Blocks(), list.blockSize, len / list.blockSize)
    ensures ok && useCrc ==>
              data == ChecksumWritten(env, list.Blocks(), list.blockSize, len / list.blockSize,
                                      Crc32(crcTable, 0, CountedAll(env, list.Blocks(), list.blockSize)) as nat)
  {
    hide Chain, Values, Written, CountChunks, FileHeader, DivUp, Ordered, Inside, CrcChunk, Crc32, CountedAll;
    WholeLen(len, list.blockSize);
    var chunks := CountAllChunks(list, len);
    if list.blockSize >= HALF {
      return false, [];
    }
    var out := new OutputFile(list.blockSize, len, chunks, useCrc, crcTable);
    WriteAllBlocks(list, len, env, out);
    // The header announced the chunks that were emitted, if they all were.
    assert (forall i :: 0 <= i < |list.Blocks()| ==> Succeeds(list.Blocks()[i])) ==> out.chunkCnt == chunks;
    out.WriteEndChunk();
    return true, out.data;
  }

  /** sparse_file_len: the same, on a file that only counts. */
  method SparseFileLen(list: BlockList, len: nat, crc: bool) returns (count: int)
    requires list.Valid() && list.blockSize < HALF && len % list.blockSize == 0
    requires Ordered(list.Blocks(), list.blockSize) && Inside(list.Blocks(), list.blockSize, len / list.blockSize)
    ensures count == SparseLen(list.Blocks(), list.blockSize, len / list.blockSize, crc)
  {
    hide Chain, Values, End, Cost, Total, Skips;
    ghost var s, bs, blocks := list.Blocks(), list.blockSize, len / list.blockSize;
    ghost var i: nat := 0;
    var bb := list.head;
    var lastBlock: nat := 0;
    FirstOf(list.nodes);
    TotalEmpty(bs);
    assert s[0..] == s && s[..0] == [];
    count := SPARSE_HEADER_LEN;
    while bb != null
      invariant i <= |s| && lastBlock == Before(s, bs, i) && bb == if i < |s| then list.nodes[i] else null
      invariant count + CHUNK_HEADER_LEN * Skips(s[i..], bs, lastBlock, blocks)
             == SPARSE_HEADER_LEN + Total(s[..i], bs) + CHUNK_HEADER_LEN * Skips(s, bs, 0, blocks)
      decreases |s| - i
    {
      ChainNext(list.nodes, i);
      assert s[i] == bb.Value();
      SkipsFront(s, i, bs, lastBlock, blocks);
      assert s[..i + 1] == s[..i] + [s[i]];
      TotalSnoc(s[..i], s[i], bs);
      if bb.block > lastBlock {
        count := count + CHUNK_HEADER_LEN;
      }
      var chunk := CountBlock(Block(bb.block, bb.len, bb.backing), list.blockSize);
      count := count + chunk;
      lastBlock := End(Block(bb.block, bb.len, bb.backing), list.blockSize);
      bb := bb.next;
      i := i + 1;
    }
    assert s[..i] == s;
    SkipsEnd(s, bs, lastBlock, blocks);
    PadIs(s, bs, len);
    if len - lastBlock * list.blockSize > 0 {
      count := count + CHUNK_HEADER_LEN;
    }
    if crc {
      count := count + CHUNK_HEADER_LEN + 4;
    }
  }

  lemma SkipsFront(s: seq<Block>, i: nat, bs: nat, last: nat, blocks: nat)
    requires bs > 0 && i < |s|
    ensures Skips(s[i..], bs, last, blocks) == (if s[i].block > last then 1 else 0) + Skips(s[i + 1..], bs, End(s[i], bs), blocks)
  {
    hide End;
    assert s[i..][0] == s[i] && s[i..][1..] == s[i + 1..];
  }

  lemma SkipsEnd(s: seq<Block>, bs: nat, last: nat, blocks: nat)
    requires bs > 0
    ensures Skips(s[|s|..], bs, last, blocks) == if last < blocks then 1 else 0
  {
  }

  lemma WholeLen(len: nat, bs: nat)
    requires bs > 0 && len % bs == 0
    ensures DivUp(len, bs) == len / bs
  {
    hide DivUp;
    DivUpAdd(0, len / bs, bs);
    DivUpZero(bs);
    assert len == len / bs * bs;
  }

  // ----- reading -----

  /** Whether a node with this block number is in the list; queue_bb would abort on it. */
  method Taken(list: BlockList, block: nat) returns (taken: bool)
    requires list.Valid()
    ensures taken <==> exists i :: 0 <= i < |list.Blocks()| && list.Blocks()[i].block == block
  {
    hide Chain, Values;
    ghost var s := list.Blocks();
    ghost var i: nat := 0;
    var bb := list.head;
    FirstOf(list.nodes);
    while bb != null
      invariant i <= |s| && bb == if i < |s| then list.nodes[i] else null
      invariant forall k :: 0 <= k < i ==> s[k].block != block
      decreases |s| - i
    {
      ChainNext(list.nodes, i);
      assert s[i] == bb.Value();
      if bb.block == block {
        assert list.Blocks()[i].block == block;
        return true;
      }
      bb := bb.next;
      i := i + 1;
    }
    return false;
  }

  lemma AscendingInsert(s: seq<Block>, b: Block, p: nat)
    requires p <= |s| && Ascending(s)
    requires forall i :: 0 <= i < |s| ==> if i < p then s[i].block < b.block else s[i].block > b.block
    ensures Ascending(s[..p] + [b] + s[p..])
  {
  }

  lemma AscendingMerge(x: seq<Block>, a: Block, c: Block, y: seq<Block>, m: Block)
    requires Ascending(x + [a, c] + y) && m.block == a.block
    ensures Ascending(x + [m] + y)
  {
    var u, v := x + [a, c] + y, x + [m] + y;
    assert u[|x|] == a;
    forall i | 0 <= i < |v| ensures v[i].block == u[if i <= |x| then i else i + 1].block {
    }
    forall i, j | 0 <= i < j < |v| ensures v[i].block < v[j].block {
      assert u[if i <= |x| then i else i + 1].block < u[if j <= |x| then j else j + 1].block;
    }
  }

  lemma PlaceAscending(s: seq<Block>, b: Block)
    requires s != [] && s[0].block < b.block && Ascending(s) && forall i :: 0 <= i < |s| ==> s[i].block != b.block
    ensures forall i :: 0 <= i < |s| ==> if i < Place(s, b) then s[i].block < b.block else s[i].block > b.block
  {
    var p := Place(s, b);
    forall i | 0 <= i < |s| ensures if i < p then s[i].block < b.block else s[i].block > b.block {
      if 0 < i < p {
        assert s[i] == s[1..][i - 1];
      } else if p < |s| {
        assert s[p] == s[1..][p - 1];
      }
    }
  }

  /** Queueing keeps the block numbers ascending, whatever the lengths. */
  lemma QueuedAscending(s: seq<Block>, bs: nat, b: Block)
    requires bs > 0 && Ascending(s) && forall i :: 0 <= i < |s| ==> s[i].block != b.block
    ensures Ascending(Queued(s, bs, b))
  {
    hide CanMerge, Place, Ascending;
    if s == [] || s[0].block > b.block {
      FirstAscending(s, b);
    } else {
      var p := Place(s, b);
      PlaceAscending(s, b);
      AscendingInsert(s, b, p);
      var t := WithNext(s, bs, b, p);
      if p < |s| && CanMerge(b, s[p], bs) {
        assert s[..p] + [b] + s[p..] == s[..p] + [b, s[p]] + s[p + 1..];
        AscendingMerge(s[..p], b, s[p], s[p + 1..], Merged(b, s[p]));
        assert s[..p] + [Merged(b, s[p])] + s[p + 1..] == s[..p] + t;
      } else {
        assert s[..p] + [b] + s[p..] == s[..p] + t;
      }
      if CanMerge(s[p - 1], t[0], bs) {
        assert s[..p] + t == s[..p - 1] + [s[p - 1], t[0]] + t[1..];
        AscendingMerge(s[..p - 1], s[p - 1], t[0], t[1..], Merged(s[p - 1], t[0]));
      }
    }
  }

  lemma FirstAscending(s: seq<Block>, b: Block)
    requires Ascending(s) && (s != [] ==> s[0].block > b.block)
    ensures Ascending([b] + s) && Ascending([b])
  {
  }

  /** process_chunk, for a file whose bytes are b. A hint to a node that a merge has freed is
      forgotten, where the source would read the freed node. */
  method ProcessChunk(b: Bytes, fd: int, hdr: nat, list: BlockList, pos: nat, cur: nat) returns (ok: bool, pos': nat, cur': nat)
    requires list.Valid() && list.HintOk() && Ascending(list.Blocks())
    modifies list, list.nodes
    ensures list.Valid() && list.HintOk() && Ascending(list.Blocks())
    ensures
      var r := ReadChunk(b, fd, hdr, list.blockSize, old(list.Blocks()), pos, cur);
      if ok then r == Ok(list.Blocks(), pos', cur') else r == Err
    ensures forall n :: n in list.nodes ==> n in old(list.nodes) || fresh(n)
  {
    hide Chain, Values, Queued, Get16, Get32, Ascending;
    ok, pos', cur' := false, pos, cur;
    if pos + CHUNK_HEADER_LEN > |b| {
      return;
    }
    var kind, blocks := Get16(b, pos), Get32(b, pos + 4);
    var size := (Get32(b, pos + 8) + WORD - hdr % WORD) % WORD;
    var at := pos + if hdr > CHUNK_HEADER_LEN then hdr else CHUNK_HEADER_LEN;
    if kind == CHUNK_TYPE_RAW {
      var len := blocks * list.blockSize % WORD;
      if size % list.blockSize != 0 || size / list.blockSize != blocks || blocks >= HALF {
        return;
      }
      ok := AddBlock(list, Block(cur, len, Fd(fd, at)));
      pos', cur' := at + len, (cur + blocks) % WORD;
    } else if kind == CHUNK_TYPE_FILL {
      if size != 4 || at + 4 > |b| || blocks >= HALF {
        return;
      }
      ok := AddBlock(list, Block(cur, blocks * list.blockSize % WORD, Fill(Get32(b, at))));
      pos', cur' := at + 4, (cur + blocks) % WORD;
    } else if kind == CHUNK_TYPE_DONT_CARE {
      if size != 0 || blocks >= HALF {
        return;
      }
      ok, pos', cur' := true, at, (cur + blocks) % WORD;
    } else if kind != CHUNK_TYPE_CRC32 {
      ok, pos' := true, at;
    }
  }

  method AddBlock(list: BlockList, v: Block) returns (ok: bool)
    requires list.Valid() && list.HintOk() && Ascending(list.Blocks())
    modifies list, list.nodes
    ensures list.Valid() && list.HintOk() && Ascending(list.Blocks())
    ensures ok <==> forall i :: 0 <= i < |old(list.Blocks())| ==> old(list.Blocks())[i].block != v.block
    ensures ok ==> list.Blocks() == Queued(old(list.Blocks()), list.blockSize, v)
    ensures forall n :: n in list.nodes ==> n in old(list.nodes) || fresh(n)
  {
    hide Chain, Values, Queued, Ascending, MergesLeft;
    var taken := Taken(list, v.block);
    if taken {
      return false;
    }
    ghost var s := list.Blocks();
    QueuedAscending(s, list.blockSize, v);
    assert forall n :: n in list.nodes ==> n.block != v.block by {
      forall n | n in list.nodes ensures n.block != v.block {
        var i :| 0 <= i < |list.nodes| && list.nodes[i] == n;
        assert s[i] == n.Value();
      }
    }
    var node := new Node(v);
    var freed := list.Queue(node);
    if freed {
      list.lastUsed := null;
    }
    return true;
  }

  /** sparse_file_import, with CRC checking off. */
  method ImportSparse(b: Bytes, fd: int) returns (ok: bool, list: BlockList, blocks: nat)
    ensures ok <==> Import(b, fd).Some?
    ensures ok ==> list.Valid() && Import(b, fd) == Some(Image(list.blockSize, blocks, list.Blocks()))
  {
    hide Chain, Values, Get16, Get32, ReadChunks, ReadChunk, Ascending;
    ok, blocks := false, 0;
    list := new BlockList(1);
    if |b| < SPARSE_HEADER_LEN || Get32(b, 0) != SPARSE_HEADER_MAGIC || Get16(b, 4) != 1 {
      return;
    }
    var hdrFile, hdrChunk := Get16(b, 8), Get16(b, 10);
    var bs, n := Get32(b, 12), Get32(b, 20);
    blocks := Get32(b, 16);
    if hdrFile < SPARSE_HEADER_LEN || hdrChunk < CHUNK_HEADER_LEN || bs == 0 {
      return;
    }
    list := new BlockList(bs);
    var pos: nat, cur: nat := hdrFile, 0;
    NoneAscending();
    for i := 0 to n
      invariant list.Valid() && list.HintOk() && Ascending(list.Blocks()) && list.blockSize == bs && fresh(list)
      invariant forall k :: 0 <= k < |list.nodes| ==> fresh(list.nodes[k])
      invariant ReadChunks(b, fd, hdrChunk, bs, [], hdrFile, 0, n) == ReadChunks(b, fd, hdrChunk, bs, list.Blocks(), pos, cur, n - i)
    {
      ChunksStep(b, fd, hdrChunk, bs, list.Blocks(), pos, cur, n - i);
      ghost var before := list.nodes;
      var good;
      good, pos, cur := ProcessChunk(b, fd, hdrChunk, list, pos, cur);
      forall k | 0 <= k < |list.nodes| ensures fresh(list.nodes[k]) {
        if list.nodes[k] in before {
          var m :| 0 <= m < |before| && before[m] == list.nodes[k];
        }
      }
      if !good {
        return;
      }
    }
    ChunksDone(b, fd, hdrChunk, bs, list.Blocks(), pos, cur);
    ok := cur == blocks;
  }

  lemma NoneAscending()
    ensures Ascending([])
  {
  }

  lemma ChunksStep(b: Bytes, fd: int, hdr: nat, bs: nat, t: seq<Block>, pos: nat, cur: nat, n: nat)
    requires bs > 0 && n > 0
    ensures
      var r := ReadChunk(b, fd, hdr, bs, t, pos, cur);
      ReadChunks(b, fd, hdr, bs, t, pos, cur, n) == if r.Err? then Err else ReadChunks(b, fd, hdr, bs, r.list, r.pos, r.cur, n - 1)
  {
    hide ReadChunk;
  }

  lemma ChunksDone(b: Bytes, fd: int, hdr: nat, bs: nat, t: seq<Block>, pos: nat, cur: nat)
    requires bs > 0
    ensures ReadChunks(b, fd, hdr, bs, t, pos, cur, 0) == Ok(t, pos, cur)
  {
  }

  /** Writing a list and importing what was written gives the same image if no length exceeds
      an int and no gap is too long; the file is what the format asks for exactly if no length
      exceeds an int. */
  method WriteThenImport(list: BlockList, len: nat, env: Env, fd: int, crcTable: Table)
    returns (data: Bytes, ok: bool, list': BlockList)
    requires list.Valid() && len % list.blockSize == 0
    requires Ordered(list.Blocks(), list.blockSize) && Positive(list.Blocks())
    requires FieldsHold(list.Blocks(), list.blockSize, len / list.blockSize)
    ensures data == FileBytes(env, list.Blocks(), list.blockSize, len / list.blockSize) <==> AllIntSized(list.Blocks(), list.blockSize)
    ensures AllIntSized(list.Blocks(), list.blockSize) ==>
              && (ok <==> GapsFit(list.Blocks(), list.blockSize, len / list.blockSize, 0))
              && (ok ==>
                    && list'.Valid() && list'.blockSize == list.blockSize
                    && SameImage(list.Blocks(), env, list'.Blocks(), FileEnv(env, data, fd), list.blockSize))
  {
    hide Chain, Values, Import, FileBytes, FileWritten, SameImage, Ordered, Positive, GapsFit, AllWhole, AllIntSized, Lens;
    ghost var s, bs, blocks := list.Blocks(), list.blockSize, len / list.blockSize;
    FitsInside(s, bs, blocks);
    FitsLens(s, bs, blocks);
    ok, data := WriteSparse(list, len, env, false, crcTable);
    FileWhole(env, s, bs, blocks);
    ImportBack(env, s, bs, blocks, fd);
    var n;
    ok, list', n := ImportSparse(data, fd);
  }

  lemma FitsLens(s: seq<Block>, bs: nat, blocks: nat)
    requires bs > 0 && Positive(s) && FieldsHold(s, bs, blocks)
    ensures Lens(s) && (forall i :: 0 <= i < |s| ==> 0 < s[i].len < WORD)
    ensures AllWhole(s, bs) <==> AllIntSized(s, bs)
  {
    hide Align, RunLen, IntSized;
    assert forall i :: 0 <= i < |s| ==> BlockFits(s, bs, i);
    forall i | 0 <= i < |s| ensures 0 < s[i].len < WORD && (Whole(s[i], bs) <==> IntSized(s[i], bs)) {
      assert BlockFits(s, bs, i);
    }
    assert AllWhole(s, bs) ==> forall i :: 0 <= i < |s| ==> Whole(s[i], bs);
    assert AllIntSized(s, bs) ==> forall i :: 0 <= i < |s| ==> IntSized(s[i], bs);
  }

  lemma FitsInside(s: seq<Block>, bs: nat, blocks: nat)
    requires bs > 0 && Ordered(s, bs) && Positive(s) && FieldsHold(s, bs, blocks)
    ensures Inside(s, bs, blocks)
  {
    hide FieldsHold, Ordered, Positive;
    forall i | 0 <= i < |s| ensures End(s[i], bs) <= blocks {
      BlockBounds(s, i, bs, blocks);
    }
  }
}
