/** move_chunks_up_to_len and sparse_file_resparse of tools/libsparse/sparse.c, on the
    linked lists. A sparse file is its list of backed blocks. */
module SparseFiles {
  import opened Rounding
  import opened BackedBlocks
  import opened BlockLists
  import opened Resparse

  /** The room for chunks: the subtraction is done in 32 bits. */
  function Limit(maxLen: nat): (r: nat)
    ensures r < WORD
  {
    (maxLen + WORD - OVERHEAD) % WORD
  }

  /** A limit below the overhead becomes one of almost 2^32. */
  lemma LimitIs(maxLen: nat)
    requires maxLen < WORD
    ensures Limit(maxLen) == maxLen - 80 + if maxLen < 80 then WORD else 0
  {
  }

  /** sparse_file_write_block on the counting file: every length reaches out_counter_write as
      an int, and a file that cannot be mapped is not counted at all. */
  method CountBlock(b: Block, bs: nat) returns (count: int)
    requires 0 < bs < HALF
    ensures count == Cost(b, bs)
  {
    count := 0;
    match b.backing {
      case Fill(_) =>
        count := count + CHUNK_HEADER_LEN;
        count := count + 4;
      case _ =>
        if (b.backing.File? || b.backing.Fd?) && AsInt(b.len + Skew(b.backing)) <= 0 {
          return;
        }
        var zeroLen := AsInt(Up32(b.len, bs) - b.len);
        count := count + CHUNK_HEADER_LEN;
        count := count + AsInt(b.len);
        if zeroLen != 0 {
          count := count + zeroLen;
        }
    }
  }

  /** The chunks that fit, the last one split if that is worthwhile, go to a new file. The
      result is null when nothing was left behind. */
  method MoveChunksUpToLen(from: BlockList, into: BlockList, maxLen: nat) returns (bb: Node?)
    requires from != into && from.Valid() && into.Valid() && into.nodes == [] && Apart(from.nodes, into.nodes)
    requires 0 < from.blockSize <= Limit(maxLen) && from.blockSize < HALF && Positive(from.Blocks())
    modifies from, into, from.nodes
    ensures from.Valid() && into.Valid()
    ensures
      var m := Step(old(from.Blocks()), from.blockSize, Limit(maxLen));
      into.Blocks() == m.moved && from.Blocks() == m.rest && (bb != null <==> m.more)
    ensures Apart(from.nodes, into.nodes)
    ensures forall n :: n in from.nodes || n in into.nodes ==> n in old(from.nodes) || fresh(n)
  {
    hide Chain, Values, First, Total, Cost, Pieces, Distinct, Step, MovedInto;
    var len := Limit(maxLen);
    ghost var s, bs := from.Blocks(), from.blockSize;
    var start := from.head;
    bb := start;
    var lastBb: Node? := null;
    var fileLen: int := 0;
    ghost var i := 0;
    TotalEmpty(bs);
    assert s[..0] == [];
    assert from.nodes[0..] == from.nodes;
    FirstOf(from.nodes);
    while bb != null
      invariant from.Valid() && from.Blocks() == s && from.nodes == old(from.nodes) && into.Valid() && into.nodes == []
      invariant i <= |s| == |from.nodes|
      invariant bb == (if i < |s| then from.nodes[i] else null)
      invariant lastBb == (if i > 0 then from.nodes[i - 1] else null)
      invariant fileLen == Total(s[..i], bs) && forall j :: 0 <= j <= i ==> Total(s[..j], bs) <= len
      decreases |s| - i
    {
      ChainNext(from.nodes, i);
      var count := CountBlock(Block(bb.block, bb.len, bb.backing), from.blockSize);
      assert s[i] == bb.Value();
      assert s[..i + 1] == s[..i] + [s[i]];
      TotalSnoc(s[..i], s[i], bs);
      if fileLen + count > len {
        CutHere(from, into, start, bb, lastBb, len, fileLen, i);
        return;
      }
      fileLen := fileLen + count;
      lastBb := bb;
      bb := bb.next;
      i := i + 1;
    }
    assert s[..i] == s;
    StepWhole(s, bs, len);
    assert s[..|s|] == s && s[|s|..] == [];
    MoveFirst(from, into, start, lastBb, |s|);
  }

  /** The end of move_chunks_up_to_len, when the i-th chunk does not fit. */
  method CutHere(from: BlockList, into: BlockList, start: Node?, bb: Node, lastBb: Node?, len: nat, fileLen: int, ghost i: nat)
    requires from != into && from.Valid() && into.Valid() && into.nodes == [] && Apart(from.nodes, into.nodes)
    requires i < |from.nodes| && from.nodes[i] == bb && from.nodes[0] == start
    requires lastBb == if i > 0 then from.nodes[i - 1] else null
    requires fileLen == Total(from.Blocks()[..i], from.blockSize) && len < fileLen + Cost(from.Blocks()[i], from.blockSize)
    requires forall j :: 0 <= j <= i ==> Total(from.Blocks()[..j], from.blockSize) <= len
    modifies from, into, from.nodes
    ensures from.Valid() && into.Valid()
    ensures
      var m := Step(old(from.Blocks()), from.blockSize, len);
      into.Blocks() == m.moved && from.Blocks() == m.rest && m.more
    ensures Apart(from.nodes, into.nodes)
    ensures forall n :: n in from.nodes || n in into.nodes ==> n in old(from.nodes) || fresh(n)
  {
    hide Chain, Values, Total, Cost, Distinct, Step, Apart;
    ghost var k;
    var last;
    last, k := ChooseCut(from, bb, lastBb, len, fileLen, i);
    MoveFirst(from, into, start, last, k);
  }

  /** The first k chunks go to a new file. */
  method MoveFirst(from: BlockList, into: BlockList, start: Node?, last: Node?, ghost k: nat)
    requires from != into && from.Valid() && into.Valid() && into.nodes == []
    requires k <= |from.nodes| && start == First(from.nodes) && last == if k == 0 then null else from.nodes[k - 1]
    requires k == 0 ==> from.nodes == []
    modifies from, into, from.nodes
    ensures from.Valid() && into.Valid()
    ensures into.Blocks() == old(from.Blocks())[..k] && from.Blocks() == old(from.Blocks())[k..]
    ensures Apart(from.nodes, into.nodes)
    ensures forall n :: n in from.nodes || n in into.nodes ==> n in old(from.nodes)
  {
    hide Chain, Values, MovedInto, Apart;
    ghost var t, nodes := from.Blocks(), from.nodes;
    MovedIntoIs([], t[0..k], 0);
    assert t[..0] + t[k..] == t[k..] && t[0..k] == t[..k];
    ApartNone(nodes, into.nodes);
    Move(from, into, start, last, 0, k);
    assert from.nodes == nodes[k..];
  }

  lemma ApartNone(nodes: seq<Node>, none: seq<Node>)
    requires none == []
    ensures Apart(nodes, none)
  {
  }

  /** The chunk is split if there is nothing before it or if more than an eighth of the
      room is left. */
  method ChooseCut(from: BlockList, bb: Node, lastBb: Node?, len: nat, fileLen: int, ghost i: nat) returns (last: Node, ghost k: nat)
    requires from.Valid()
    requires i < |from.nodes| && from.nodes[i] == bb
    requires lastBb == if i > 0 then from.nodes[i - 1] else null
    requires fileLen == Total(from.Blocks()[..i], from.blockSize) && len < fileLen + Cost(from.Blocks()[i], from.blockSize)
    requires forall j :: 0 <= j <= i ==> Total(from.Blocks()[..j], from.blockSize) <= len
    modifies from`nodes, bb
    ensures from.Valid()
    ensures 0 < k <= |from.nodes| && from.nodes[k - 1] == last && from.nodes[0] == old(from.nodes)[0]
    ensures
      var m := Step(old(from.Blocks()), from.blockSize, len);
      from.Blocks()[..k] == m.moved && from.Blocks()[k..] == m.rest && m.more
    ensures forall j :: 0 <= j < |from.nodes| ==> from.nodes[j] in old(from.nodes) || fresh(from.nodes[j])
  {
    hide Chain, Values, First, Total, Cost, Pieces, Distinct, Step;
    ghost var s, bs := from.Blocks(), from.blockSize;
    StepFirst(s, bs, len, i, len - fileLen);
    var room := (len - fileLen) % WORD;
    PieceBacking(s[i], bs, room);
    if lastBb == null || len - fileLen > len / 8 {
      from.Split(bb, room, i);
      last, k := bb, i + 1;
      CutPieces(s, bs, room, i, k, from.Blocks());
      assert from.nodes[0] == from.nodes[..i + 1][0];
    } else {
      last, k := lastBb, i;
      CutPieces(s, bs, room, i, k, from.Blocks());
    }
  }

  lemma CutPieces(s: seq<Block>, bs: nat, left: nat, i: nat, k: nat, t: seq<Block>)
    requires bs > 0 && i < |s| && Pieces(s[i], bs, left) != []
    requires if k == i then t == s else k == i + 1 && t == s[..i] + Pieces(s[i], bs, left) + s[i + 1..]
    ensures k <= |t|
    ensures k == i ==> t[..k] == s[..i] && t[k..] == s[i..]
    ensures k == i + 1 ==> t[..k] == s[..i] + [Pieces(s[i], bs, left)[0]] && t[k..] == Pieces(s[i], bs, left)[1..] + s[i + 1..]
  {
    hide Pieces;
  }

  lemma StepWhole(s: seq<Block>, bs: nat, len: nat)
    requires bs > 0 && forall j :: 0 <= j <= |s| ==> Total(s[..j], bs) <= len
    ensures Step(s, bs, len) == Cut(s, [], false)
  {
    assert s[..|s|] == s;
    FitUnique(s, bs, len, |s|);
  }

  // ----- sparse_file_resparse -----

  lemma {:induction false} FlattenSplit(o: seq<seq<Block>>, k: nat)
    requires k <= |o|
    ensures Flatten(o) == Flatten(o[..k]) + Flatten(o[k..])
  {
    if k > 0 {
      FlattenSplit(o[1..], k - 1);
      assert o[..k][1..] == o[1..][..k - 1] && o[k..] == o[1..][k - 1..];
    } else {
      assert o[..0] == [] && o[0..] == o;
    }
  }

  lemma FlattenSnoc(o: seq<seq<Block>>, k: nat, c: nat)
    requires k <= c < |o|
    ensures Flatten(o[k..c + 1]) == Flatten(o[k..c]) + o[c]
  {
    FlattenSplit(o[k..c + 1], c - k);
    assert o[k..c + 1][..c - k] == o[k..c] && o[k..c + 1][c - k..] == [o[c]];
    assert [o[c]][1..] == [];
  }

  /** Blocks that start after those in the list are appended. */
  lemma MovedIntoEnd(t: seq<Block>, m: seq<Block>)
    requires t != [] && m != [] ==> forall i :: 0 <= i < |t| ==> t[i].block <= m[0].block
    ensures MovedInto(t, m) == t + m
  {
    if t != [] && m != [] {
      UpToUnique(t[1..], m[0].block, |t| - 1);
      assert t[..|t|] == t && t[|t|..] == [];
    }
  }

  lemma FlattenParts(o: seq<seq<Block>>, k: nat, c: nat) returns (pre: seq<Block>, post: seq<Block>)
    requires k <= c < |o|
    ensures Flatten(o) == pre + Flatten(o[k..c]) + o[c] + post
  {
    FlattenSplit(o, c + 1);
    FlattenSplit(o[..c + 1], k);
    FlattenSnoc(o, k, c);
    assert o[..c + 1][k..] == o[k..c + 1];
    pre, post := Flatten(o[..c + 1][..k]), Flatten(o[c + 1..]);
  }

  /** Each output goes to the end of what earlier ones left in the temporary file. */
  lemma AppendsToTmp(o: seq<seq<Block>>, bs: nat, k: nat, c: nat)
    requires bs > 0 && k <= c < |o| && Ordered(Flatten(o), bs)
    ensures MovedInto(Flatten(o[k..c]), o[c]) == Flatten(o[k..c + 1])
  {
    hide MovedInto, Flatten, End;
    FlattenSnoc(o, k, c);
    var pre, post := FlattenParts(o, k, c);
    if o[c] != [] {
      OrderedParts(pre, Flatten(o[k..c]), o[c], post, bs);
    }
    MovedIntoEnd(Flatten(o[k..c]), o[c]);
  }

  lemma OrderedParts(pre: seq<Block>, t: seq<Block>, m: seq<Block>, post: seq<Block>, bs: nat)
    requires bs > 0 && Ordered(pre + t + m + post, bs) && m != []
    ensures forall i :: 0 <= i < |t| ==> t[i].block <= m[0].block
  {
    hide End;
    var f := pre + t + m + post;
    forall i | 0 <= i < |t| ensures t[i].block <= m[0].block {
      assert f[|pre| + i] == t[i] && f[|pre| + |t|] == m[0];
      EndAfter(t[i], bs);
    }
  }

  ghost predicate Holds(f: BlockList, v: seq<Block>)
    reads f, f.nodes
  {
    f.Valid() && f.Blocks() == v
  }

  lemma SubApart(before: seq<Node>, after: seq<Node>, other: seq<Node>)
    requires Apart(before, other) && forall n :: n in after ==> n in before || n !in other
    ensures Apart(after, other)
  {
    forall i, j | 0 <= i < |after| && 0 <= j < |other| ensures after[i] != other[j] {
      if after[i] in before {
        var k :| 0 <= k < |before| && before[k] == after[i];
      }
    }
  }

  lemma ApartSym(m: seq<Node>, n: seq<Node>)
    requires Apart(m, n)
    ensures Apart(n, m)
  {
  }

  /** One round of the loop: the next output, out of the file. */
  method NextOutput(file: BlockList, tmp: BlockList, maxLen: nat, ghost outs: seq<BlockList>, ghost v: seq<seq<Block>>)
    returns (s: BlockList, more: bool)
    requires file != tmp && file.Valid() && tmp.Valid() && Apart(file.nodes, tmp.nodes)
    requires 0 < file.blockSize <= Limit(maxLen) && file.blockSize < HALF && Positive(file.Blocks())
    requires |v| >= |outs|
    requires forall i :: 0 <= i < |outs| ==> outs[i] != file && Apart(file.nodes, outs[i].nodes) && Holds(outs[i], v[i])
    modifies file, file.nodes
    ensures fresh(s) && s.Valid() && file.Valid() && s.blockSize == file.blockSize
    ensures
      var m := Step(old(file.Blocks()), file.blockSize, Limit(maxLen));
      s.Blocks() == m.moved && file.Blocks() == m.rest && more == m.more
    ensures Apart(file.nodes, s.nodes) && Apart(file.nodes, tmp.nodes) && Apart(s.nodes, tmp.nodes)
    ensures Holds(tmp, old(tmp.Blocks())) && tmp.nodes == old(tmp.nodes)
    ensures forall n :: n in file.nodes || n in s.nodes ==> n in old(file.nodes) || fresh(n)
    ensures forall i :: 0 <= i < |outs| ==> outs[i].nodes == old(outs[i].nodes)
    ensures forall i :: 0 <= i < |outs| ==> Apart(file.nodes, outs[i].nodes) && Apart(s.nodes, outs[i].nodes) && Holds(outs[i], v[i])
  {
    hide Chain, Values, First, Step, Limit;
    s := new BlockList(file.blockSize);
    ApartNone(file.nodes, s.nodes);
    var bb := MoveChunksUpToLen(file, s, maxLen);
    more := bb != null;
    hide Apart;
    SubApart(old(file.nodes), file.nodes, tmp.nodes);
    SubApart(old(file.nodes), s.nodes, tmp.nodes);
    forall i | 0 <= i < |outs| ensures Apart(file.nodes, outs[i].nodes) && Apart(s.nodes, outs[i].nodes) {
      SubApart(old(file.nodes), file.nodes, outs[i].nodes);
      SubApart(old(file.nodes), s.nodes, outs[i].nodes);
    }
  }

  /** What is still to come, after `outs` and the temporary file. */
  ghost predicate Loop(o: seq<seq<Block>>, bs: nat, len: nat, file: seq<Block>, more: bool, count: nat)
    requires 0 < bs <= len < WORD
  {
    && count <= |o|
    && if more then Positive(file) && o[count..] == Outputs(file, bs, len) else count == |o| && file == []
  }

  lemma LoopStep(o: seq<seq<Block>>, bs: nat, len: nat, file: seq<Block>, count: nat)
    requires 0 < bs <= len < WORD && Loop(o, bs, len, file, true, count)
    ensures Positive(file)
    ensures
      var m := Step(file, bs, len);
      && count < |o| && o[count] == m.moved && Loop(o, bs, len, m.rest, m.more, count + 1)
      && (m.more ==> Weight(m.rest) < Weight(file))
  {
    hide Step;
    StepShrinks(file, bs, len);
    var m := Step(file, bs, len);
    assert o[count] == o[count..][0];
    assert o[count + 1..] == o[count..][1..];
    if !m.more {
      StepMap(file, bs, len);
    }
  }

  lemma LoopStart(s: seq<Block>, bs: nat, len: nat)
    requires 0 < bs <= len < WORD && Positive(s)
    ensures Loop(Outputs(s, bs, len), bs, len, s, true, 0)
    ensures Flatten(Outputs(s, bs, len)[0..0]) == []
  {
    assert Outputs(s, bs, len)[0..] == Outputs(s, bs, len);
  }

  lemma LoopEnd(o: seq<seq<Block>>, bs: nat, len: nat, file: seq<Block>, count: nat, k: nat)
    requires 0 < bs <= len < WORD && Loop(o, bs, len, file, false, count) && k <= count
    ensures count == |o| && file == [] && o[k..count] == o[k..]
  {
  }

  lemma EmptySlice(o: seq<seq<Block>>, k: nat)
    requires k <= |o|
    ensures Flatten(o[k..k]) == []
  {
  }

  /** An output that is not handed out goes to the temporary file. */
  method SetAside(s: BlockList, tmp: BlockList, file: BlockList, ghost outs: seq<BlockList>, ghost v: seq<seq<Block>>)
    requires s != tmp && s != file && tmp != file && s.Valid() && tmp.Valid() && file.Valid() && |v| >= |outs|
    requires Apart(s.nodes, tmp.nodes) && Apart(file.nodes, s.nodes) && Apart(file.nodes, tmp.nodes)
    requires forall i :: 0 <= i < |outs| ==> outs[i] != s && outs[i] != tmp && Holds(outs[i], v[i])
    requires forall i :: 0 <= i < |outs| ==> Apart(s.nodes, outs[i].nodes) && Apart(tmp.nodes, outs[i].nodes)
    modifies s, tmp, s.nodes, tmp.nodes
    ensures tmp.Valid() && Holds(file, old(file.Blocks())) && file.nodes == old(file.nodes)
    ensures tmp.Blocks() == MovedInto(old(tmp.Blocks()), old(s.Blocks()))
    ensures Apart(file.nodes, tmp.nodes)
    ensures forall n :: n in tmp.nodes ==> n in old(tmp.nodes) || n in old(s.nodes)
    ensures forall i :: 0 <= i < |outs| ==> Apart(tmp.nodes, outs[i].nodes) && Holds(outs[i], v[i]) && outs[i].nodes == old(outs[i].nodes)
  {
    hide Chain, Values, First, MovedInto;
    assert s.Blocks()[0..|s.nodes|] == s.Blocks() && s.nodes[0..|s.nodes|] == s.nodes;
    ApartSym(file.nodes, s.nodes);
    ApartSym(file.nodes, tmp.nodes);
    Move(s, tmp, null, null, 0, |s.nodes|);
    hide Apart;
    EitherApart(old(tmp.nodes), old(s.nodes), tmp.nodes, file.nodes);
    ApartSym(tmp.nodes, file.nodes);
    forall i | 0 <= i < |outs| ensures Apart(tmp.nodes, outs[i].nodes) {
      EitherApart(old(tmp.nodes), old(s.nodes), tmp.nodes, outs[i].nodes);
    }
  }

  lemma EitherApart(a: seq<Node>, b: seq<Node>, after: seq<Node>, other: seq<Node>)
    requires Apart(a, other) && Apart(b, other) && forall n :: n in after ==> n in a || n in b
    ensures Apart(after, other)
  {
    forall i, j | 0 <= i < |after| && 0 <= j < |other| ensures after[i] != other[j] {
      if after[i] in a {
        var k :| 0 <= k < |a| && a[k] == after[i];
      } else {
        var k :| 0 <= k < |b| && b[k] == after[i];
      }
    }
  }

  /** The temporary file becomes the file. */
  method PutBack(tmp: BlockList, file: BlockList, ghost outs: seq<BlockList>, ghost v: seq<seq<Block>>)
    requires tmp != file && tmp.Valid() && file.Valid() && Apart(file.nodes, tmp.nodes) && |v| >= |outs|
    requires file.Blocks() == []
    requires forall i :: 0 <= i < |outs| ==> outs[i] != tmp && outs[i] != file && Holds(outs[i], v[i])
    requires forall i :: 0 <= i < |outs| ==> Apart(file.nodes, outs[i].nodes) && Apart(tmp.nodes, outs[i].nodes)
    modifies tmp, file, tmp.nodes, file.nodes
    ensures file.Valid() && file.Blocks() == old(tmp.Blocks())
    ensures forall i :: 0 <= i < |outs| ==> Holds(outs[i], v[i])
    ensures forall n :: n in file.nodes ==> n in old(file.nodes) || n in old(tmp.nodes)
  {
    hide Chain, Values, First, MovedInto;
    ApartSym(file.nodes, tmp.nodes);
    MovedIntoIs([], tmp.Blocks(), 0);
    assert tmp.Blocks()[0..|tmp.nodes|] == tmp.Blocks();
    Move(tmp, file, null, null, 0, |tmp.nodes|);
  }

  /** The outputs handed out so far hold what they should, the temporary file holds the
      others, and no two lists that can still change share a node. */
  ghost predicate Handed(file: BlockList, tmp: BlockList, outs: seq<BlockList>, count: nat, outCount: nat, o: seq<seq<Block>>)
    reads *
  {
    && file != tmp && file.Valid() && tmp.Valid() && Apart(file.nodes, tmp.nodes)
    && count <= |o| && |outs| == (if count < outCount then count else outCount)
    && tmp.Blocks() == Flatten(o[|outs|..count])
    && (forall i :: 0 <= i < |outs| ==> outs[i] != file && outs[i] != tmp && Holds(outs[i], o[i]))
    && (forall i :: 0 <= i < |outs| ==> Apart(file.nodes, outs[i].nodes) && Apart(tmp.nodes, outs[i].nodes))
  }

  /** One round of the loop of sparse_file_resparse. */
  method Round(file: BlockList, tmp: BlockList, maxLen: nat, outs: seq<BlockList>, count: nat, outCount: nat, ghost o: seq<seq<Block>>)
    returns (outs': seq<BlockList>, more: bool)
    requires Handed(file, tmp, outs, count, outCount, o)
    requires 0 < file.blockSize <= Limit(maxLen) && file.blockSize < HALF && Positive(file.Blocks())
    requires count < |o| && o[count] == Step(file.Blocks(), file.blockSize, Limit(maxLen)).moved && Ordered(Flatten(o), file.blockSize)
    modifies file, tmp, file.nodes, tmp.nodes
    ensures Handed(file, tmp, outs', count + 1, outCount, o)
    ensures
      var m := Step(old(file.Blocks()), file.blockSize, Limit(maxLen));
      file.Blocks() == m.rest && more == m.more
    ensures forall n :: n in file.nodes || n in tmp.nodes ==> n in old(file.nodes) || n in old(tmp.nodes) || fresh(n)
  {
    hide Chain, Values, First, Step, Limit, Flatten, MovedInto, Ordered, Positive, Apart;
    var s;
    outs' := outs;
    s, more := NextOutput(file, tmp, maxLen, outs, o);
    if count < outCount {
      outs' := outs + [s];
      EmptySlice(o, count);
      EmptySlice(o, count + 1);
      ApartSym(s.nodes, tmp.nodes);
    } else {
      AppendsToTmp(o, file.blockSize, |outs|, count);
      assert forall j :: 0 <= j < |s.nodes| ==> s.nodes[j] in old(file.nodes) || fresh(s.nodes[j]);
      SetAside(s, tmp, file, outs, o);
    }
  }

  /** The end of sparse_file_resparse: the temporary file becomes the file. */
  method Finish(file: BlockList, tmp: BlockList, outs: seq<BlockList>, count: nat, outCount: nat, ghost o: seq<seq<Block>>)
    requires Handed(file, tmp, outs, count, outCount, o) && file.Blocks() == [] && count == |o|
    modifies file, tmp, file.nodes, tmp.nodes
    ensures file.Valid() && file.Blocks() == Flatten(o[|outs|..])
    ensures |outs| == (if outCount < |o| then outCount else |o|)
    ensures forall i :: 0 <= i < |outs| ==> outs[i].Valid() && outs[i].Blocks() == o[i]
    ensures forall n :: n in file.nodes ==> n in old(file.nodes) || n in old(tmp.nodes)
  {
    hide Chain, Values, First, Flatten, Apart;
    PutBack(tmp, file, outs, o);
    assert o[|outs|..count] == o[|outs|..];
  }

  /** sparse_file_resparse: at most outCount outputs are handed out, the others go back to
      the file. */
  method ResparseFile(file: BlockList, maxLen: nat, outCount: nat) returns (count: nat, outs: seq<BlockList>)
    requires file.Valid() && 0 < file.blockSize <= Limit(maxLen) && file.blockSize < HALF
    requires Positive(file.Blocks()) && Ordered(file.Blocks(), file.blockSize)
    modifies file, file.nodes
    ensures file.Valid()
    ensures
      var o := Outputs(old(file.Blocks()), file.blockSize, Limit(maxLen));
      && count == |o|
      && |outs| == (if outCount < |o| then outCount else |o|)
      && (forall i :: 0 <= i < |outs| ==> outs[i].Valid() && outs[i].Blocks() == o[i])
      && file.Blocks() == Flatten(o[|outs|..])
    ensures forall n :: n in file.nodes ==> n in old(file.nodes) || fresh(n)
  {
    hide Chain, Values, First, Step, Limit, Outputs, Flatten, Loop, Ordered, Positive, Apart, Handed;
    ghost var bs, len, s0 := file.blockSize, Limit(maxLen), file.Blocks();
    ghost var o := Outputs(s0, bs, len);
    OutputsConserve(s0, bs, len);
    LoopStart(s0, bs, len);
    var tmp := new BlockList(file.blockSize);
    count, outs := 0, [];
    HandedStart(file, tmp, outCount, o);
    var more := true;
    while more
      invariant fresh(tmp) && Handed(file, tmp, outs, count, outCount, o)
      invariant Loop(o, bs, len, file.Blocks(), more, count)
      invariant forall n :: n in file.nodes || n in tmp.nodes ==> n in old(file.nodes) || fresh(n)
      decreases more, Weight(file.Blocks())
    {
      LoopStep(o, bs, len, file.Blocks(), count);
      assert forall j :: 0 <= j < |file.nodes| ==> file.nodes[j] in old(file.nodes) || fresh(file.nodes[j]);
      assert forall j :: 0 <= j < |tmp.nodes| ==> tmp.nodes[j] in old(file.nodes) || fresh(tmp.nodes[j]);
      outs, more := Round(file, tmp, maxLen, outs, count, outCount, o);
      count := count + 1;
    }
    LoopEnd(o, bs, len, file.Blocks(), count, 0);
    assert forall j :: 0 <= j < |tmp.nodes| ==> tmp.nodes[j] in old(file.nodes) || fresh(tmp.nodes[j]);
    Finish(file, tmp, outs, count, outCount, o);
  }

  lemma HandedStart(file: BlockList, tmp: BlockList, outCount: nat, o: seq<seq<Block>>)
    requires file != tmp && file.Valid() && tmp.Valid() && tmp.nodes == []
    ensures Handed(file, tmp, [], 0, outCount, o)
  {
    ApartNone(file.nodes, tmp.nodes);
    EmptySlice(o, 0);
  }

  /** What simg2simg does: a dry run tells how many files there will be, and a second run,
      on the list the first has left split, fills exactly that many with exactly the outputs
      of the first. */
  method DryRunThenReal(file: BlockList, maxLen: nat) returns (files: nat, outs: seq<BlockList>)
    requires file.Valid() && 2 <= file.blockSize && OVERHEAD + 8 * file.blockSize <= maxLen < WORD
    requires Positive(file.Blocks()) && Ordered(file.Blocks(), file.blockSize) && AllIntSized(file.Blocks(), file.blockSize)
    requires file.blockSize < HALF
    modifies file, file.nodes
    ensures
      var o := Outputs(old(file.Blocks()), file.blockSize, maxLen - OVERHEAD);
      && files == |o| == |outs|
      && (forall i :: 0 <= i < |outs| ==> outs[i].Valid() && outs[i].Blocks() == o[i])
    ensures file.Valid() && file.Blocks() == []
  {
    hide Chain, Values, Step, Outputs, Flatten, Limit, Ordered, Positive;
    ghost var s, bs, len := file.Blocks(), file.blockSize, maxLen - OVERHEAD;
    LimitIs(maxLen);
    OutputsConserve(s, bs, len);
    DryRunPredicts(s, bs, len);
    files, outs := ResparseFile(file, maxLen, 0);
    ghost var o := Outputs(s, bs, len);
    assert outs == [] && o[0..] == o;
    assert forall j :: 0 <= j < |file.nodes| ==> file.nodes[j] in old(file.nodes) || fresh(file.nodes[j]);
    files, outs := ResparseFile(file, maxLen, files);
    EmptySlice(o, |o|);
    assert o[|o|..] == o[|o|..|o|];
  }
}
