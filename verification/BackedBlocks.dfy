/** The lists of tools/libsparse/backed_block.c as values: what a list of backed blocks
    says about each block of the image, and what queueing, merging and splitting do to it. */
module BackedBlocks {
  import opened Rounding

  /** Lengths are unsigned int. */
  const WORD: nat := 0x1_0000_0000

  datatype Option<T> = None | Some(value: T)

  /** Where the bytes come from. Memory is an address; a file is known by the pointer to its
      name, which two calls never share. */
  datatype Backing = Data(address: int) | File(name: int, offset: int) | Fd(fd: int, offset: int) | Fill(val: nat)

  datatype Block = Block(block: nat, len: nat, backing: Backing)

  function Advance(b: Backing, n: int): Backing {
    match b
    case Data(a) => Data(a + n)
    case File(f, o) => File(f, o + n)
    case Fd(f, o) => Fd(f, o + n)
    case Fill(v) => Fill(v)
  }

  /** What one block of the image holds: `valid` bytes from `source`, then zeros. A fill
      always fills whole blocks. */
  datatype Content = Content(source: Backing, valid: int)

  function End(b: Block, bs: nat): nat
    requires bs > 0
  {
    b.block + DivUp(b.len, bs)
  }

  predicate Covers(b: Block, bs: nat, n: int) {
    b.block <= n && (n - b.block) * bs < b.len
  }

  function ContentOf(b: Block, bs: nat, n: int): Content {
    var skip := (n - b.block) * bs;
    Content(Advance(b.backing, skip), if b.backing.Fill? || b.len - skip > bs then bs else b.len - skip)
  }

  /** The block map a list denotes: what the list says about block n. */
  function At(s: seq<Block>, bs: nat, n: int): Option<Content> {
    if s == [] then None
    else if Covers(s[0], bs, n) then Some(ContentOf(s[0], bs, n))
    else At(s[1..], bs, n)
  }

  /** Sorted and non-overlapping. */
  ghost predicate Ordered(s: seq<Block>, bs: nat)
    requires bs > 0
  {
    forall i, j :: 0 <= i < j < |s| ==> End(s[i], bs) <= s[j].block
  }

  ghost predicate Positive(s: seq<Block>) {
    forall i :: 0 <= i < |s| ==> s[i].len > 0
  }

  lemma CoversEnd(b: Block, bs: nat, n: int)
    requires bs > 0
    ensures Covers(b, bs, n) <==> b.block <= n < End(b, bs)
  {
    DivUpCounts(b.len, bs, n - b.block);
  }

  lemma {:induction false} AtAppend(s: seq<Block>, t: seq<Block>, bs: nat, n: int)
    ensures At(s + t, bs, n) == if At(s, bs, n).Some? then At(s, bs, n) else At(t, bs, n)
  {
    if s == [] {
      assert s + t == t;
    } else {
      assert (s + t)[1..] == s[1..] + t;
      AtAppend(s[1..], t, bs, n);
    }
  }

  lemma {:induction false} AtNone(s: seq<Block>, bs: nat, n: int)
    ensures At(s, bs, n).None? <==> forall i :: 0 <= i < |s| ==> !Covers(s[i], bs, n)
  {
    if s != [] {
      AtNone(s[1..], bs, n);
      if At(s, bs, n).None? {
        forall i | 0 <= i < |s| ensures !Covers(s[i], bs, n) {
          if i > 0 {
            assert s[i] == s[1..][i - 1];
          }
        }
      }
    }
  }

  lemma AtSingle(b: Block, bs: nat, n: int)
    ensures At([b], bs, n) == if Covers(b, bs, n) then Some(ContentOf(b, bs, n)) else None
  {
    assert [b][1..] == [];
  }

  // ----- backed_block_split -----

  /** The block cut at `maxLen` rounded down to whole blocks, or left alone if it fits. */
  function Pieces(b: Block, bs: nat, maxLen: nat): seq<Block>
    requires bs > 0
  {
    var q := maxLen / bs;
    var cut := AlignDown(maxLen, bs);
    if b.len <= cut then [b]
    else [b.(len := cut), Block(b.block + q, b.len - cut, Advance(b.backing, cut))]
  }

  lemma SplitKeepsMap(b: Block, bs: nat, maxLen: nat, n: int)
    requires bs > 0
    ensures At(Pieces(b, bs, maxLen), bs, n) == At([b], bs, n)
  {
    var q := maxLen / bs;
    var cut := AlignDown(maxLen, bs);
    assert cut == q * bs;
    if b.len > cut {
      var k := n - b.block;
      var p, r := b.(len := cut), Block(b.block + q, b.len - cut, Advance(b.backing, cut));
      assert Pieces(b, bs, maxLen) == [p, r];
      assert [p, r] == [p] + [r];
      AtAppend([p], [r], bs, n);
      AtSingle(b, bs, n);
      AtSingle(p, bs, n);
      AtSingle(r, bs, n);
      assert (k - q) * bs == k * bs - q * bs;
      if k < q {
        MulLe(k + 1, q, bs);
        assert (k + 1) * bs == k * bs + bs;
        assert k * bs + bs <= cut;
        assert Covers(p, bs, n) == Covers(b, bs, n) && !Covers(r, bs, n);
        assert Covers(b, bs, n) ==> ContentOf(p, bs, n) == ContentOf(b, bs, n);
      } else {
        MulLe(q, k, bs);
        assert !Covers(p, bs, n) && Covers(r, bs, n) == Covers(b, bs, n);
        assert ContentOf(r, bs, n) == ContentOf(b, bs, n);
      }
    }
  }

  lemma SplitOrder(b: Block, bs: nat, maxLen: nat)
    requires bs > 0
    ensures
      var s := Pieces(b, bs, maxLen);
      && Ordered(s, bs) && End(s[|s| - 1], bs) == End(b, bs) && s[0].block == b.block
      && (b.len > 0 && maxLen >= bs ==> Positive(s))
      && (forall i :: 0 <= i < |s| ==> End(s[i], bs) <= End(b, bs) && b.block <= s[i].block)
  {
    hide Align, DivUp, AlignDown;
    var q := maxLen / bs;
    var cut := AlignDown(maxLen, bs);
    AlignDownFacts(maxLen, bs);
    CutIs(maxLen, bs);
    if b.len > cut {
      DivUpAdd(0, q, bs);
      DivUpAdd(b.len - cut, q, bs);
      DivUpZero(bs);
    }
  }

  lemma CutIs(x: nat, y: nat)
    requires y > 0
    ensures AlignDown(x, y) == (x / y) * y
  {
  }

  lemma DivUpZero(y: nat)
    requires y > 0
    ensures DivUp(0, y) == 0
  {
    DivUpPositive(0, y);
  }

  // ----- merge_bb -----

  predicate CanMerge(a: Block, b: Block, bs: nat)
    requires bs > 0
  {
    && a.block + a.len / bs == b.block
    && match (a.backing, b.backing) {
         case (Fill(v), Fill(w)) => v == w
         case (File(f, o), File(g, p)) => f == g && o + a.len == p
         case (Fd(f, o), Fd(g, p)) => f == g && o + a.len == p
         case (_, _) => false
       }
  }

  function Merged(a: Block, b: Block): Block {
    a.(len := (a.len + b.len) % WORD)
  }

  /** A merge of blocks that do not overlap needs a left block of whole blocks: rounding the
      length down in the adjacency test does no harm. It undoes a split, if the sum of the
      lengths fits a word. */
  lemma MergeUndoesSplit(a: Block, b: Block, bs: nat)
    requires bs > 0 && CanMerge(a, b, bs) && End(a, bs) <= b.block && b.len > 0
    ensures AlignDown(a.len, bs) == a.len
    ensures a.len + b.len < WORD ==> Pieces(Merged(a, b), bs, a.len) == [a, b]
  {
    DivUpExact(a.len, bs);
  }

  /** And it undoes every split but that of data: two blocks, the left one of whole blocks,
      merge exactly if they are the pieces of one block that is not in memory. */
  lemma MergesPieces(a: Block, b: Block, bs: nat)
    requires bs > 0 && AlignDown(a.len, bs) == a.len && b.len > 0
    ensures CanMerge(a, b, bs) <==> !a.backing.Data? && Pieces(a.(len := a.len + b.len), bs, a.len) == [a, b]
  {
  }

  /** A split block is whole again once its pieces are merged. */
  lemma SplitMerges(b: Block, bs: nat, maxLen: nat)
    requires bs > 0 && b.len < WORD && |Pieces(b, bs, maxLen)| == 2
    ensures
      var s := Pieces(b, bs, maxLen);
      (CanMerge(s[0], s[1], bs) <==> !b.backing.Data?) && Merged(s[0], s[1]) == b
  {
    AlignDownFacts(maxLen, bs);
    AlignDownFacts(AlignDown(maxLen, bs), bs);
  }

  lemma MergeKeepsMap(a: Block, b: Block, bs: nat, n: int)
    requires bs > 0 && CanMerge(a, b, bs) && End(a, bs) <= b.block && b.len > 0
    requires a.len + b.len < WORD
    ensures At([Merged(a, b)], bs, n) == At([a, b], bs, n)
  {
    MergeUndoesSplit(a, b, bs);
    SplitKeepsMap(Merged(a, b), bs, a.len, n);
  }

  lemma MergeOrder(a: Block, b: Block, bs: nat)
    requires bs > 0 && CanMerge(a, b, bs) && End(a, bs) <= b.block && b.len > 0
    requires a.len + b.len < WORD
    ensures Merged(a, b).block == a.block && End(Merged(a, b), bs) == End(b, bs) && Merged(a, b).len > 0
  {
    MergeUndoesSplit(a, b, bs);
    SplitOrder(Merged(a, b), bs, a.len);
  }

  /** The merged length is computed in 32 bits; the merge keeps the map exactly when the
      sum fits. */
  lemma MergeExact(a: Block, b: Block, bs: nat)
    requires 0 < bs <= WORD && CanMerge(a, b, bs) && End(a, bs) <= b.block
    requires a.len < WORD && 0 < b.len < WORD
    ensures (forall n :: At([Merged(a, b)], bs, n) == At([a, b], bs, n)) <==> a.len + b.len < WORD
  {
    if a.len + b.len < WORD {
      forall n ensures At([Merged(a, b)], bs, n) == At([a, b], bs, n) {
        MergeKeepsMap(a, b, bs, n);
      }
    } else {
      var n := End(b, bs) - 1;
      LastBlockLost(a, b, bs, n);
      assert At([Merged(a, b)], bs, n) != At([a, b], bs, n);
    }
  }

  lemma LastBlockLost(a: Block, b: Block, bs: nat, n: int)
    requires 0 < bs <= WORD && CanMerge(a, b, bs) && End(a, bs) <= b.block
    requires a.len < WORD && 0 < b.len < WORD && a.len + b.len >= WORD && n == End(b, bs) - 1
    ensures At([Merged(a, b)], bs, n).None? && At([a, b], bs, n).Some?
  {
    hide DivUp, ContentOf;
    DivUpPositive(b.len, bs);
    CoversEnd(b, bs, n);
    AtAppend([a], [b], bs, n);
    assert [a] + [b] == [a, b];
    DivUpExact(a.len, bs);
    var k := n - a.block;
    assert k == a.len / bs + DivUp(b.len, bs) - 1;
    DivUpCounts(b.len, bs, DivUp(b.len, bs));
    assert k * bs == (a.len / bs) * bs + DivUp(b.len, bs) * bs - bs;
    assert !Covers(Merged(a, b), bs, n);
  }

  // ----- queue_bb -----

  /** The place of a new block: after every block with a lower number. */
  function Position(s: seq<Block>, block: nat): (p: nat)
    ensures p <= |s|
    ensures forall i :: 0 <= i < p ==> s[i].block < block
    ensures p < |s| ==> s[p].block >= block
  {
    if s == [] || s[0].block >= block then 0 else 1 + Position(s[1..], block)
  }

  /** The list from the new block on, merged with its successor if possible. */
  function WithNext(s: seq<Block>, bs: nat, b: Block, p: nat): (r: seq<Block>)
    requires bs > 0 && p <= |s|
    ensures r != []
  {
    if p < |s| && CanMerge(b, s[p], bs) then [Merged(b, s[p])] + s[p + 1..] else [b] + s[p..]
  }

  /** Where the search puts a new block that does not go before the first. */
  function Place(s: seq<Block>, b: Block): (p: nat)
    requires s != []
    ensures 0 < p <= |s|
  {
    1 + Position(s[1..], b.block)
  }

  /** The second merge, which frees the new block, fires. */
  predicate MergesLeft(s: seq<Block>, bs: nat, b: Block)
    requires bs > 0
  {
    s != [] && s[0].block <= b.block && CanMerge(s[Place(s, b) - 1], WithNext(s, bs, b, Place(s, b))[0], bs)
  }

  function Queued(s: seq<Block>, bs: nat, b: Block): seq<Block>
    requires bs > 0
  {
    if s == [] then [b]
    else if s[0].block > b.block then [b] + s
    else
      var p := Place(s, b);
      var t := WithNext(s, bs, b, p);
      if CanMerge(s[p - 1], t[0], bs) then s[..p - 1] + [Merged(s[p - 1], t[0])] + t[1..] else s[..p] + t
  }

  /** The new block overlaps nothing in the list. */
  ghost predicate Fresh(s: seq<Block>, bs: nat, b: Block)
    requires bs > 0
  {
    forall i :: 0 <= i < |s| ==> End(s[i], bs) <= b.block || End(b, bs) <= s[i].block
  }

  /** No merge that queueing b sets off wraps the 32-bit length. */
  ghost predicate MergesFit(s: seq<Block>, bs: nat, b: Block)
    requires bs > 0
  {
    s != [] && s[0].block <= b.block ==>
      var p := Place(s, b);
      var t := WithNext(s, bs, b, p);
      && (p < |s| && CanMerge(b, s[p], bs) ==> b.len + s[p].len < WORD)
      && (CanMerge(s[p - 1], t[0], bs) ==> s[p - 1].len + t[0].len < WORD)
  }

  lemma PlaceSplits(s: seq<Block>, bs: nat, b: Block)
    requires bs > 0 && Ordered(s, bs) && Positive(s) && b.len > 0 && Fresh(s, bs, b)
    requires s != [] && s[0].block <= b.block
    ensures
      var p := Place(s, b);
      && (forall i :: 0 <= i < p ==> End(s[i], bs) <= b.block)
      && (forall i :: p <= i < |s| ==> End(b, bs) <= s[i].block)
  {
    hide DivUp;
    var p := Place(s, b);
    EndAfter(b, bs);
    forall i | 0 <= i < |s| ensures if i < p then End(s[i], bs) <= b.block else End(b, bs) <= s[i].block {
      EndAfter(s[i], bs);
      if 0 < i < p {
        assert s[i] == s[1..][i - 1];
      } else if p < |s| {
        assert s[p] == s[1..][p - 1];
        EndAfter(s[p], bs);
      }
    }
  }

  lemma EndAfter(b: Block, bs: nat)
    requires bs > 0
    ensures b.block <= End(b, bs)
    ensures b.len > 0 <==> b.block < End(b, bs)
  {
    DivUpPositive(b.len, bs);
  }

  /** Replacing two neighbours by their merge changes neither the map nor the order. */
  lemma MergeInList(s: seq<Block>, a: Block, b: Block, t: seq<Block>, bs: nat)
    requires bs > 0 && Ordered(s + [a, b] + t, bs) && Positive(s + [a, b] + t)
    requires CanMerge(a, b, bs) && a.len + b.len < WORD
    ensures Ordered(s + [Merged(a, b)] + t, bs) && Positive(s + [Merged(a, b)] + t)
    ensures forall n :: At(s + [Merged(a, b)] + t, bs, n) == At(s + [a, b] + t, bs, n)
  {
    hide CanMerge, Merged, End;
    var u, v := s + [a, b] + t, s + [Merged(a, b)] + t;
    assert u[|s|] == a && u[|s| + 1] == b;
    MergeOrder(a, b, bs);
    forall i | 0 <= i < |v|
      ensures
        var i' := if i < |s| then i else i + 1;
        End(v[i], bs) == End(u[i'], bs) && v[i].len > 0
    {
    }
    forall i, j | 0 <= i < j < |v| ensures End(v[i], bs) <= v[j].block {
      var i' := if i < |s| then i else i + 1;
      var j' := if j <= |s| then j else j + 1;
      assert v[j].block == u[j'].block;
      assert End(u[i'], bs) <= u[j'].block;
    }
    forall n ensures At(v, bs, n) == At(u, bs, n) {
      MergeKeepsMap(a, b, bs, n);
      AtAppend(s + [a, b], t, bs, n);
      AtAppend(s, [a, b], bs, n);
      AtAppend(s + [Merged(a, b)], t, bs, n);
      AtAppend(s, [Merged(a, b)], bs, n);
    }
  }

  /** Putting the new block at its place keeps the order. */
  lemma InsertOrder(s: seq<Block>, bs: nat, b: Block, p: nat)
    requires bs > 0 && Ordered(s, bs) && Positive(s) && b.len > 0 && p <= |s|
    requires forall i :: 0 <= i < p ==> End(s[i], bs) <= b.block
    requires forall i :: p <= i < |s| ==> End(b, bs) <= s[i].block
    ensures Ordered(s[..p] + [b] + s[p..], bs) && Positive(s[..p] + [b] + s[p..])
  {
    hide End;
    var r := s[..p] + [b] + s[p..];
    forall i | 0 <= i < |r| ensures r[i] == if i < p then s[i] else if i == p then b else s[i - 1] {
    }
    hide Ordered;
    assert forall i, j :: 0 <= i < j < |s| ==> End(s[i], bs) <= s[j].block by { OrderedMeans(s, bs); }
    forall i, j | 0 <= i < j < |r| ensures End(r[i], bs) <= r[j].block {
      if i != p && j != p {
        assert End(s[if i < p then i else i - 1], bs) <= s[if j < p then j else j - 1].block;
      }
    }
    OrderedIs(r, bs);
  }

  lemma OrderedMeans(s: seq<Block>, bs: nat)
    requires bs > 0 && Ordered(s, bs)
    ensures forall i, j :: 0 <= i < j < |s| ==> End(s[i], bs) <= s[j].block
  {
  }

  lemma OrderedIs(s: seq<Block>, bs: nat)
    requires bs > 0 && forall i, j :: 0 <= i < j < |s| ==> End(s[i], bs) <= s[j].block
    ensures Ordered(s, bs)
  {
  }

  /** And it updates the map exactly on the block's range. */
  lemma InsertMap(s: seq<Block>, bs: nat, b: Block, p: nat, n: int)
    requires bs > 0 && p <= |s|
    requires forall i :: 0 <= i < p ==> End(s[i], bs) <= b.block
    ensures At(s[..p] + [b] + s[p..], bs, n) == if Covers(b, bs, n) then Some(ContentOf(b, bs, n)) else At(s, bs, n)
  {
    hide End, Covers, ContentOf, At;
    assert s == s[..p] + s[p..];
    AtAppend(s[..p], s[p..], bs, n);
    AtAppend(s[..p] + [b], s[p..], bs, n);
    AtAppend(s[..p], [b], bs, n);
    AtSingle(b, bs, n);
    if Covers(b, bs, n) {
      CoversEnd(b, bs, n);
      forall i | 0 <= i < p ensures !Covers(s[..p][i], bs, n) {
        CoversEnd(s[i], bs, n);
      }
      AtNone(s[..p], bs, n);
    }
  }

  lemma InsertInList(s: seq<Block>, bs: nat, b: Block, p: nat)
    requires bs > 0 && Ordered(s, bs) && Positive(s) && b.len > 0 && p <= |s|
    requires forall i :: 0 <= i < p ==> End(s[i], bs) <= b.block
    requires forall i :: p <= i < |s| ==> End(b, bs) <= s[i].block
    ensures Updates(s[..p] + [b] + s[p..], s, bs, b)
  {
    hide End, Covers, ContentOf, At, Ordered, Positive;
    InsertOrder(s, bs, b, p);
    forall n ensures At(s[..p] + [b] + s[p..], bs, n) == if Covers(b, bs, n) then Some(ContentOf(b, bs, n)) else At(s, bs, n) {
      InsertMap(s, bs, b, p, n);
    }
  }

  /** The list is r with the new block written over the map of s. */
  ghost predicate Updates(r: seq<Block>, s: seq<Block>, bs: nat, b: Block)
    requires bs > 0
  {
    && Ordered(r, bs) && Positive(r)
    && forall n :: At(r, bs, n) == if Covers(b, bs, n) then Some(ContentOf(b, bs, n)) else At(s, bs, n)
  }

  lemma MergeUpdates(s: seq<Block>, a: Block, c: Block, t: seq<Block>, bs: nat, s0: seq<Block>, b: Block)
    requires bs > 0 && Updates(s + [a, c] + t, s0, bs, b)
    requires CanMerge(a, c, bs) && a.len + c.len < WORD
    ensures Updates(s + [Merged(a, c)] + t, s0, bs, b)
  {
    hide End, Covers, ContentOf, CanMerge, Merged, At, Ordered, Positive;
    MergeInList(s, a, c, t, bs);
    var u, v := s + [a, c] + t, s + [Merged(a, c)] + t;
    forall n ensures At(v, bs, n) == if Covers(b, bs, n) then Some(ContentOf(b, bs, n)) else At(s0, bs, n) {
      assert At(v, bs, n) == At(u, bs, n);
    }
  }

  lemma WithNextUpdates(s: seq<Block>, bs: nat, b: Block)
    requires bs > 0 && Ordered(s, bs) && Positive(s) && b.len > 0 && Fresh(s, bs, b) && MergesFit(s, bs, b)
    requires s != [] && s[0].block <= b.block
    ensures Updates(s[..Place(s, b)] + WithNext(s, bs, b, Place(s, b)), s, bs, b)
  {
    hide End, CanMerge, Merged, At, Updates, Ordered, Positive;
    var p := Place(s, b);
    PlaceSplits(s, bs, b);
    InsertInList(s, bs, b, p);
    var t := WithNext(s, bs, b, p);
    if p < |s| && CanMerge(b, s[p], bs) {
      assert s[..p] + [b] + s[p..] == s[..p] + [b, s[p]] + s[p + 1..];
      MergeUpdates(s[..p], b, s[p], s[p + 1..], bs, s, b);
      assert s[..p] + [Merged(b, s[p])] + s[p + 1..] == s[..p] + t;
    } else {
      assert s[..p] + [b] + s[p..] == s[..p] + t;
    }
  }

  /** Adding a block that overlaps nothing keeps the list sorted and non-overlapping and
      updates the block map exactly on the new range, provided no merged length wraps. */
  lemma QueuedMap(s: seq<Block>, bs: nat, b: Block)
    requires bs > 0 && Ordered(s, bs) && Positive(s) && b.len > 0 && Fresh(s, bs, b) && MergesFit(s, bs, b)
    ensures Updates(Queued(s, bs, b), s, bs, b)
  {
    hide Updates, Ordered, Positive, Fresh, CanMerge, Merged;
    if s == [] || s[0].block > b.block {
      FirstUpdates(s, bs, b);
    } else {
      var p := Place(s, b);
      WithNextUpdates(s, bs, b);
      var t := WithNext(s, bs, b, p);
      if CanMerge(s[p - 1], t[0], bs) {
        assert s[..p] + t == s[..p - 1] + [s[p - 1], t[0]] + t[1..];
        MergeUpdates(s[..p - 1], s[p - 1], t[0], t[1..], bs, s, b);
      }
    }
  }

  lemma FirstUpdates(s: seq<Block>, bs: nat, b: Block)
    requires bs > 0 && Ordered(s, bs) && Positive(s) && b.len > 0 && Fresh(s, bs, b)
    requires s == [] || s[0].block > b.block
    ensures Updates(Queued(s, bs, b), s, bs, b)
  {
    hide DivUp, Covers, ContentOf, At;
    forall i | 0 <= i < |s| ensures End(b, bs) <= s[i].block {
      EndAfter(s[0], bs);
      EndAfter(s[i], bs);
      EndAfter(b, bs);
    }
    InsertInList(s, bs, b, 0);
    assert s[..0] + [b] + s[0..] == [b] + s == Queued(s, bs, b);
  }

  // ----- what is left to merge -----

  /** No two neighbours can be merged. */
  ghost predicate Settled(s: seq<Block>, bs: nat)
    requires bs > 0
  {
    forall i :: 0 <= i < |s| - 1 ==> !CanMerge(s[i], s[i + 1], bs)
  }

  lemma SettledAppend(s: seq<Block>, t: seq<Block>, bs: nat)
    requires bs > 0
    ensures Settled(s + t, bs) <==> Settled(s, bs) && Settled(t, bs) && (s != [] && t != [] ==> !CanMerge(s[|s| - 1], t[0], bs))
  {
    hide CanMerge;
    var u := s + t;
    if Settled(u, bs) {
      forall i | 0 <= i < |s| - 1 ensures !CanMerge(s[i], s[i + 1], bs) {
        assert u[i] == s[i] && u[i + 1] == s[i + 1];
      }
      forall i | 0 <= i < |t| - 1 ensures !CanMerge(t[i], t[i + 1], bs) {
        assert u[|s| + i] == t[i] && u[|s| + i + 1] == t[i + 1];
      }
      assert s != [] && t != [] ==> u[|s| - 1] == s[|s| - 1] && u[|s| - 1 + 1] == t[0];
    }
  }

  /** A block put before a settled list. */
  lemma SettledBefore(b: Block, t: seq<Block>, bs: nat)
    requires bs > 0 && Settled(t, bs)
    ensures Settled([b] + t, bs) <==> !(t != [] && CanMerge(b, t[0], bs))
  {
    hide CanMerge;
    SettledAppend([b], t, bs);
  }

  lemma SettledRest(s: seq<Block>, bs: nat, p: nat)
    requires bs > 0 && Settled(s, bs) && p <= |s|
    ensures Settled(s[..p], bs) && Settled(s[p..], bs) && (0 < p < |s| ==> !CanMerge(s[p - 1], s[p], bs))
  {
    hide CanMerge, Settled;
    assert s == s[..p] + s[p..];
    SettledAppend(s[..p], s[p..], bs);
  }

  /** A merged block can be merged with what its two parts could. */
  lemma MergedMerges(a: Block, b: Block, bs: nat, c: Block)
    requires bs > 0 && CanMerge(a, b, bs) && End(a, bs) <= b.block && b.len > 0 && a.len + b.len < WORD
    ensures CanMerge(Merged(a, b), c, bs) <==> CanMerge(b, c, bs)
    ensures CanMerge(c, Merged(a, b), bs) <==> CanMerge(c, a, bs)
  {
    DivUpExact(a.len, bs);
    var q, r := b.len / bs, b.len % bs;
    assert a.len + b.len == bs * (a.len / bs + q) + r;
    DivUnique(a.len + b.len, bs, a.len / bs + q, r);
  }

  lemma NextSettled(s: seq<Block>, bs: nat, b: Block, p: nat)
    requires bs > 0 && Settled(s, bs) && p <= |s| && b.len > 0 && Positive(s)
    requires p < |s| ==> End(b, bs) <= s[p].block && (CanMerge(b, s[p], bs) ==> b.len + s[p].len < WORD)
    ensures
      var t := WithNext(s, bs, b, p);
      Settled(t, bs) && forall c :: CanMerge(c, t[0], bs) <==> CanMerge(c, b, bs)
  {
    hide CanMerge, Merged, End, Settled;
    if p < |s| && CanMerge(b, s[p], bs) {
      var m := Merged(b, s[p]);
      SettledRest(s, bs, p + 1);
      SettledBefore(m, s[p + 1..], bs);
      if p + 1 < |s| {
        MergedMerges(b, s[p], bs, s[p + 1]);
      }
      forall c ensures CanMerge(c, m, bs) <==> CanMerge(c, b, bs) {
        MergedMerges(b, s[p], bs, c);
      }
    } else {
      SettledRest(s, bs, p);
      SettledBefore(b, s[p..], bs);
    }
  }

  /** Queueing leaves nothing to merge, whatever it merges on the way, but for a block that
      goes before all others: that one is not merged with its successor. */
  lemma QueuedSettled(s: seq<Block>, bs: nat, b: Block)
    requires bs > 0 && Ordered(s, bs) && Positive(s) && b.len > 0 && Fresh(s, bs, b) && MergesFit(s, bs, b)
    requires Settled(s, bs)
    ensures Settled(Queued(s, bs, b), bs) <==> !(s != [] && b.block < s[0].block && CanMerge(b, s[0], bs))
  {
    hide CanMerge, Merged, End, Settled, WithNext, Place;
    if s == [] {
      assert [b] + s == [b];
      SettledNone(bs);
      SettledBefore(b, s, bs);
    } else if s[0].block > b.block {
      SettledBefore(b, s, bs);
    } else {
      PlaceSplits(s, bs, b);
      NextSettled(s, bs, b, Place(s, b));
      NextFollows(s, bs, b, Place(s, b));
      LeftSettled(s, bs, Place(s, b), WithNext(s, bs, b, Place(s, b)));
    }
  }

  lemma SettledNone(bs: nat)
    requires bs > 0
    ensures Settled([], bs)
  {
  }

  /** The second merge, of what is before the new block with what then follows. */
  lemma LeftSettled(s: seq<Block>, bs: nat, p: nat, t: seq<Block>)
    requires bs > 0 && Settled(s, bs) && Settled(t, bs) && 0 < p <= |s| && t != []
    requires End(s[p - 1], bs) <= t[0].block && t[0].len > 0
    requires CanMerge(s[p - 1], t[0], bs) ==> s[p - 1].len + t[0].len < WORD
    ensures Settled(if CanMerge(s[p - 1], t[0], bs) then s[..p - 1] + [Merged(s[p - 1], t[0])] + t[1..] else s[..p] + t, bs)
  {
    hide CanMerge, Merged, End, Settled;
    SettledRest(s, bs, p);
    if CanMerge(s[p - 1], t[0], bs) {
      assert s[..p] == s[..p - 1] + [s[p - 1]] && t == [t[0]] + t[1..];
      MergedSettled(s[..p - 1], s[p - 1], t[0], t[1..], bs);
    } else {
      SettledAppend(s[..p], t, bs);
    }
  }

  lemma MergedSettled(s: seq<Block>, a: Block, b: Block, t: seq<Block>, bs: nat)
    requires bs > 0 && Settled(s + [a], bs) && Settled([b] + t, bs)
    requires CanMerge(a, b, bs) && End(a, bs) <= b.block && b.len > 0 && a.len + b.len < WORD
    ensures Settled(s + [Merged(a, b)] + t, bs)
  {
    hide CanMerge, Merged, End, Settled;
    var m := Merged(a, b);
    SettledAppend(s, [a], bs);
    SettledAppend([b], t, bs);
    if t != [] {
      MergedMerges(a, b, bs, t[0]);
    }
    if s != [] {
      MergedMerges(a, b, bs, s[|s| - 1]);
    }
    SettledBefore(m, t, bs);
    SettledAppend(s, [m] + t, bs);
    assert s + [m] + t == s + ([m] + t);
  }

  lemma NextFollows(s: seq<Block>, bs: nat, b: Block, p: nat)
    requires bs > 0 && 0 < p <= |s| && End(s[p - 1], bs) <= b.block && b.len > 0 && Positive(s)
    requires p < |s| ==> End(b, bs) <= s[p].block && (CanMerge(b, s[p], bs) ==> b.len + s[p].len < WORD)
    ensures
      var t := WithNext(s, bs, b, p);
      End(s[p - 1], bs) <= t[0].block && t[0].len > 0
  {
    if p < |s| && CanMerge(b, s[p], bs) {
      MergeOrder(b, s[p], bs);
    }
  }
}
