/** How sparse_file_resparse (tools/libsparse/sparse.c) cuts a list of blocks into files of
    limited length, as functions of the list. */
module Resparse {
  import opened Rounding
  import opened BackedBlocks

  const SPARSE_HEADER_LEN: nat := 28
  const CHUNK_HEADER_LEN: nat := 12

  /** What move_chunks_up_to_len subtracts from the length limit. */
  const OVERHEAD: nat := SPARSE_HEADER_LEN + 4 * CHUNK_HEADER_LEN + 4

  const HALF: nat := 0x8000_0000

  // ----- lengths as the writer computes them -----

  /** The conversion of an unsigned length to int. */
  function AsInt(x: int): int {
    if x % WORD < HALF then x % WORD else x % WORD - WORD
  }

  /** ALIGN, in unsigned int. */
  function Up32(x: nat, bs: nat): (r: nat)
    requires bs > 0
    ensures r < WORD
  {
    (x + bs - 1) % WORD / bs * bs % WORD
  }

  /** How far behind a page boundary the bytes of a file start: so much more is mapped. */
  function Skew(b: Backing): (r: nat)
    ensures r < 4096
  {
    match b
    case File(_, o) => o % 4096
    case Fd(_, o) => o % 4096
    case _ => 0
  }

  /** mmap64 takes the length, an int; memory is not mapped. */
  predicate Mapped(b: Block) {
    b.backing.File? || b.backing.Fd? ==> AsInt(b.len + Skew(b.backing)) > 0
  }

  /** The bytes that out_counter_write counts for a block: the lengths it is given are ints,
      and nothing is written of what cannot be mapped. */
  function Cost(b: Block, bs: nat): int
    requires bs > 0
  {
    if b.backing.Fill? then CHUNK_HEADER_LEN + 4
    else if !Mapped(b) then 0
    else CHUNK_HEADER_LEN + AsInt(b.len) + AsInt(Up32(b.len, bs) - b.len)
  }

  /** The lengths the writer computes for the block are not negative. */
  predicate IntSized(b: Block, bs: nat) {
    bs < HALF && (!b.backing.Fill? ==> b.len + Skew(b.backing) < HALF)
  }

  ghost predicate AllIntSized(s: seq<Block>, bs: nat) {
    forall i :: 0 <= i < |s| ==> IntSized(s[i], bs)
  }

  lemma Up32Is(x: nat, bs: nat)
    requires bs > 0 && x + bs <= WORD
    ensures Up32(x, bs) == Align(x, bs)
  {
    AlignFacts(x, bs);
  }

  /** The conversion keeps the low 32 bits and gives a number an int can have. */
  lemma IntRange(x: int)
    ensures 0 - HALF <= AsInt(x) < HALF && exists k: int :: x == AsInt(x) + WORD * k
  {
    assert x == AsInt(x) + WORD * (if x % WORD < HALF then x / WORD else x / WORD + 1);
  }

  /** The bytes of a file are mapped from a multiple of the page size on, the last one before
      them; those in memory are used where they are. */
  lemma SkewIs(b: Backing)
    ensures b.File? || b.Fd? ==> (b.offset - Skew(b)) % 4096 == 0 && b.offset - 4096 < b.offset - Skew(b) <= b.offset
    ensures b.Data? || b.Fill? ==> Skew(b) == 0
  {
  }

  /** What is counted is the length of the chunk. */
  lemma CostIs(b: Block, bs: nat)
    requires bs > 0 && b.len > 0 && IntSized(b, bs)
    ensures Cost(b, bs) == CHUNK_HEADER_LEN + if b.backing.Fill? then 4 else Align(b.len, bs)
  {
    hide Up32, Align, AsInt;
    if !b.backing.Fill? {
      Up32Is(b.len, bs);
      AlignFacts(b.len, bs);
      AsIntIs(b.len);
      AsIntIs(b.len + Skew(b.backing));
      AsIntIs(Align(b.len, bs) - b.len);
    }
  }

  lemma AsIntIs(x: int)
    ensures 0 <= x < HALF ==> AsInt(x) == x
  {
  }

  /** A block of 2^31 bytes counts for less than nothing: it fits in any room. */
  lemma LongBlockFits(len: nat)
    requires 0 < len < WORD
    ensures
      var s := [Block(0, 0x8000_0000, Data(0))];
      Cost(s[0], 4096) < 0 && Step(s, 4096, len) == Cut(s, [], false)
  {
    var s := [Block(0, 0x8000_0000, Data(0))];
    assert Up32(0x8000_0000, 4096) == 0x8000_0000;
    assert s[..1] == s && s[..0] == [];
    assert Total(s, 4096) == Cost(s[0], 4096) == CHUNK_HEADER_LEN - 0x8000_0000;
    assert Fit(s, 4096, len) == 1;
  }

  function Total(s: seq<Block>, bs: nat): int
    requires bs > 0
  {
    if s == [] then 0 else Total(s[..|s| - 1], bs) + Cost(s[|s| - 1], bs)
  }

  /** The first block, from i on, with which the chunks no longer fit. */
  function FitFrom(s: seq<Block>, bs: nat, len: nat, i: nat): (k: nat)
    requires bs > 0 && i <= |s| && Total(s[..i], bs) <= len
    ensures i <= k <= |s| && forall j :: i <= j <= k ==> Total(s[..j], bs) <= len
    ensures k < |s| ==> Total(s[..k + 1], bs) > len
    decreases |s| - i
  {
    if i == |s| || Total(s[..i + 1], bs) > len then i else FitFrom(s, bs, len, i + 1)
  }

  function Fit(s: seq<Block>, bs: nat, len: nat): (k: nat)
    requires bs > 0
    ensures k <= |s| && forall j :: 0 <= j <= k ==> Total(s[..j], bs) <= len
    ensures k < |s| ==> Total(s[..k + 1], bs) > len
  {
    FitFrom(s, bs, len, 0)
  }

  /** What is moved to the output, what stays, and whether the list was cut. The room that is
      left is passed to the split as an unsigned int. */
  datatype Cut = Cut(moved: seq<Block>, rest: seq<Block>, more: bool)

  function Step(s: seq<Block>, bs: nat, len: nat): Cut
    requires bs > 0
  {
    var k := Fit(s, bs, len);
    if k == |s| then Cut(s, [], false)
    else
      var left := len - Total(s[..k], bs);
      if k == 0 || left > len / 8 then
        var p := Pieces(s[k], bs, left % WORD);
        Cut(s[..k] + [p[0]], p[1..] + s[k + 1..], true)
      else
        Cut(s[..k], s[k..], true)
  }

  function Weight(s: seq<Block>): nat {
    if s == [] then 0 else s[0].len + Weight(s[1..])
  }

  /** All the outputs, in order. */
  function Outputs(s: seq<Block>, bs: nat, len: nat): (r: seq<seq<Block>>)
    requires 0 < bs <= len < WORD && Positive(s)
    ensures r != []
    decreases Weight(s)
  {
    StepShrinks(s, bs, len);
    var m := Step(s, bs, len);
    [m.moved] + if m.more then Outputs(m.rest, bs, len) else []
  }

  function Flatten(ss: seq<seq<Block>>): seq<Block> {
    if ss == [] then [] else ss[0] + Flatten(ss[1..])
  }

  lemma {:induction false} WeightAppend(s: seq<Block>, t: seq<Block>)
    ensures Weight(s + t) == Weight(s) + Weight(t)
  {
    if s == [] {
      assert s + t == t;
    } else {
      assert (s + t)[1..] == s[1..] + t;
      WeightAppend(s[1..], t);
    }
  }

  lemma PiecesWeight(b: Block, bs: nat, max: nat)
    requires bs > 0
    ensures
      var p := Pieces(b, bs, max);
      && 1 <= |p| <= 2 && p[0].len + Weight(p[1..]) == b.len && (bs <= max && b.len > 0 ==> p[0].len > 0)
      && (b.len > 0 ==> Positive(p[1..]))
  {
    AlignDownFacts(max, bs);
  }

  /** The two kinds of cut. */
  lemma StepShape(s: seq<Block>, bs: nat, len: nat) returns (k: nat, room: nat)
    requires bs > 0
    ensures k <= |s| && Step(s, bs, len).more == (k < |s|)
    ensures k == |s| ==> Step(s, bs, len) == Cut(s, [], false)
    ensures k < |s| ==>
              var p := Pieces(s[k], bs, room);
              || Step(s, bs, len) == Cut(s[..k] + [p[0]], p[1..] + s[k + 1..], true)
              || (k > 0 && Step(s, bs, len) == Cut(s[..k], s[k..], true))
    ensures k == 0 && len < WORD ==> room == len
  {
    hide Total, Cost, Pieces, Fit;
    k := Fit(s, bs, len);
    room := (len - Total(s[..k], bs)) % WORD;
    if k == 0 {
      assert s[..0] == [];
      TotalEmpty(bs);
    }
  }

  /** Every cut makes progress: the loop of sparse_file_resparse ends when the limit leaves
      room for a whole block. */
  lemma StepShrinks(s: seq<Block>, bs: nat, len: nat)
    requires 0 < bs <= len < WORD && Positive(s)
    ensures
      var m := Step(s, bs, len);
      m.more ==> Positive(m.rest) && Weight(m.rest) < Weight(s)
  {
    hide Pieces, Step;
    var k, room := StepShape(s, bs, len);
    if k < |s| {
      assert s == s[..k] + s[k..];
      WeightAppend(s[..k], s[k..]);
      assert s[k..][1..] == s[k + 1..];
      PiecesWeight(s[k], bs, room);
      WeightAppend(Pieces(s[k], bs, room)[1..], s[k + 1..]);
      if k > 0 {
        assert s[..k][0].len > 0;
      }
    }
  }

  lemma TotalEmpty(bs: nat)
    requires bs > 0
    ensures Total([], bs) == 0
  {
  }

  // ----- when the cutting ends -----

  /** The loop of sparse_file_resparse ends within n rounds. */
  ghost predicate EndsWithin(s: seq<Block>, bs: nat, len: nat, n: nat)
    requires bs > 0
    decreases n
  {
    n > 0 && (Step(s, bs, len).more ==> EndsWithin(Step(s, bs, len).rest, bs, len, n - 1))
  }

  /** The cutting ends exactly if there is room for a whole block, or nothing to cut, or only
      fills, each of which fits. */
  lemma EndsExactly(s: seq<Block>, bs: nat, len: nat)
    requires bs > 0 && len < WORD && Positive(s) && AllIntSized(s, bs)
    ensures (exists n: nat :: EndsWithin(s, bs, len, n)) <==>
            bs <= len || s == [] || (CHUNK_HEADER_LEN + 4 <= len && forall i :: 0 <= i < |s| ==> s[i].backing.Fill?)
  {
    hide Step, EndsWithin;
    if bs <= len {
      EndsWithRoom(s, bs, len);
    } else if s == [] {
      EmptyEnds(s, bs, len);
      assert exists n: nat :: EndsWithin(s, bs, len, n);
    } else if CHUNK_HEADER_LEN + 4 <= len && forall i :: 0 <= i < |s| ==> s[i].backing.Fill? {
      FillsEnd(s, bs, len);
    } else {
      forall n: nat ensures !EndsWithin(s, bs, len, n) {
        NeverEnds(s, bs, len, n);
      }
    }
  }

  lemma EmptyEnds(s: seq<Block>, bs: nat, len: nat)
    requires bs > 0 && s == []
    ensures EndsWithin(s, bs, len, |s| + 1)
  {
    assert Fit(s, bs, len) == 0;
  }

  lemma {:induction false} EndsWithRoom(s: seq<Block>, bs: nat, len: nat)
    requires 0 < bs <= len < WORD && Positive(s)
    ensures EndsWithin(s, bs, len, Weight(s) + 1)
    decreases Weight(s)
  {
    hide Step;
    StepShrinks(s, bs, len);
    var m := Step(s, bs, len);
    if m.more {
      EndsWithRoom(m.rest, bs, len);
      EndsLater(m.rest, bs, len, Weight(m.rest) + 1, Weight(s));
    }
  }

  lemma {:induction false} EndsLater(s: seq<Block>, bs: nat, len: nat, n: nat, n': nat)
    requires bs > 0 && EndsWithin(s, bs, len, n) && n <= n'
    ensures EndsWithin(s, bs, len, n')
    decreases n
  {
    hide Step;
    if Step(s, bs, len).more {
      EndsLater(Step(s, bs, len).rest, bs, len, n - 1, n' - 1);
    }
  }

  /** With less room than a block, whatever does not fit stays as it is. */
  lemma ShortStep(s: seq<Block>, bs: nat, len: nat)
    requires len < bs && len < WORD && Positive(s) && AllIntSized(s, bs)
    ensures
      var m := Step(s, bs, len);
      var k := Fit(s, bs, len);
      m.more == (k < |s|) && (m.more ==> m.rest == s[k..])
  {
    hide Total, Cost;
    var k := Fit(s, bs, len);
    if k < |s| {
      var left := len - Total(s[..k], bs);
      TotalNat(s, bs, k);
      assert left % WORD == left;
      EmptyPiece(s[k], bs, left);
      assert [s[k]] + s[k + 1..] == s[k..];
    }
  }

  lemma EmptyPiece(b: Block, bs: nat, left: nat)
    requires left < bs && b.len > 0
    ensures Pieces(b, bs, left) == [b.(len := 0), b]
  {
    DivUnique(left, bs, 0, left);
    CutIs(left, bs);
    assert Advance(b.backing, 0) == b.backing;
  }

  lemma {:induction false} TotalNat(s: seq<Block>, bs: nat, k: nat)
    requires bs > 0 && k <= |s| && Positive(s) && AllIntSized(s, bs)
    ensures Total(s[..k], bs) >= 0
  {
    hide Cost;
    if k > 0 {
      assert s[..k][..k - 1] == s[..k - 1];
      TotalNat(s, bs, k - 1);
      CostIs(s[k - 1], bs);
    }
  }

  /** A chunk that fits behind others fits alone. */
  lemma CostFits(s: seq<Block>, bs: nat, len: nat, j: nat)
    requires bs > 0 && j < Fit(s, bs, len) && Positive(s) && AllIntSized(s, bs)
    ensures Cost(s[j], bs) <= len
  {
    hide Cost;
    assert s[..j + 1][..j] == s[..j];
    TotalNat(s, bs, j);
  }

  lemma StoredLarge(b: Block, bs: nat)
    requires bs > 0 && b.len > 0 && IntSized(b, bs)
    ensures !b.backing.Fill? ==> Cost(b, bs) >= CHUNK_HEADER_LEN + bs
  {
    hide Cost;
    if !b.backing.Fill? {
      CostLarge(b, bs);
    }
  }

  lemma {:induction false} FillsEnd(s: seq<Block>, bs: nat, len: nat)
    requires CHUNK_HEADER_LEN + 4 <= len < bs && len < WORD && Positive(s) && AllIntSized(s, bs)
    requires forall i :: 0 <= i < |s| ==> s[i].backing.Fill?
    ensures EndsWithin(s, bs, len, |s| + 1)
    decreases |s|
  {
    hide Step, Fit, Total;
    ShortStep(s, bs, len);
    var k := Fit(s, bs, len);
    if k < |s| {
      FirstFits(s, bs, len);
      FillsEnd(s[k..], bs, len);
      EndsLater(s[k..], bs, len, |s| - k + 1, |s|);
    }
  }

  lemma FirstFits(s: seq<Block>, bs: nat, len: nat)
    requires bs > 0 && s != [] && Cost(s[0], bs) <= len
    ensures Fit(s, bs, len) > 0
  {
    hide Cost;
    assert s[..1] == [s[0]] && [s[0]][..0] == [];
    assert Total(s[..1], bs) == Cost(s[0], bs);
  }

  lemma {:induction false} NeverEnds(s: seq<Block>, bs: nat, len: nat, n: nat)
    requires len < bs && len < WORD && Positive(s) && AllIntSized(s, bs) && s != []
    requires len < CHUNK_HEADER_LEN + 4 || exists i :: 0 <= i < |s| && !s[i].backing.Fill?
    ensures !EndsWithin(s, bs, len, n)
    decreases n
  {
    hide Step, Fit, Total, Cost;
    if n > 0 {
      ShortStep(s, bs, len);
      var k := Fit(s, bs, len);
      var j: nat :| j < |s| && (len < CHUNK_HEADER_LEN + 4 || !s[j].backing.Fill?);
      if j < k {
        CostFits(s, bs, len, j);
        StoredLarge(s[j], bs);
        CostIs(s[j], bs);
        assert false;
      }
      assert s[k..][j - k] == s[j];
      NeverEnds(s[k..], bs, len, n - 1);
    }
  }

  // ----- conservation -----

  lemma SplitInList(s: seq<Block>, b: Block, t: seq<Block>, bs: nat, max: nat)
    requires bs > 0
    ensures forall n :: At(s + Pieces(b, bs, max) + t, bs, n) == At(s + [b] + t, bs, n)
    ensures Ordered(s + [b] + t, bs) ==> Ordered(s + Pieces(b, bs, max) + t, bs)
  {
    hide Pieces, End, At;
    var p := Pieces(b, bs, max);
    PiecesWeight(b, bs, max);
    forall n ensures At(s + p + t, bs, n) == At(s + [b] + t, bs, n) {
      AtAppend(s + p, t, bs, n);
      AtAppend(s, p, bs, n);
      AtAppend(s + [b], t, bs, n);
      AtAppend(s, [b], bs, n);
      SplitKeepsMap(b, bs, max, n);
    }
    SplitOrder(b, bs, max);
    if Ordered(s + [b] + t, bs) {
      var u, v := s + p + t, s + [b] + t;
      forall i, j | 0 <= i < j < |u| ensures End(u[i], bs) <= u[j].block {
        var i' := if i < |s| then i else if i < |s| + |p| then |s| else i - |p| + 1;
        var j' := if j < |s| then j else if j < |s| + |p| then |s| else j - |p| + 1;
        assert End(u[i], bs) <= End(v[i'], bs) && v[j'].block <= u[j].block;
        if i' == j' {
          assert u[i] == p[0] && u[j] == p[1];
        } else {
          assert End(v[i'], bs) <= v[j'].block;
        }
      }
    }
  }

  lemma StepMap(s: seq<Block>, bs: nat, len: nat)
    requires bs > 0
    ensures var m := Step(s, bs, len);
      && (forall n :: At(m.moved + m.rest, bs, n) == At(s, bs, n))
      && (Ordered(s, bs) ==> Ordered(m.moved + m.rest, bs))
      && (!m.more ==> m.rest == [])
  {
    hide At, Pieces, Ordered, Step;
    var k, left := StepShape(s, bs, len);
    var m := Step(s, bs, len);
    if k == |s| {
      assert m.moved + m.rest == s;
    } else {
      assert s == s[..k] + [s[k]] + s[k + 1..];
      SplitInList(s[..k], s[k], s[k + 1..], bs, left);
      PiecesWeight(s[k], bs, left);
      var p := Pieces(s[k], bs, left);
      assert p == [p[0]] + p[1..];
      assert s[..k] + p + s[k + 1..] == s[..k] + [p[0]] + (p[1..] + s[k + 1..]);
      assert s[..k] + s[k..] == s;
    }
  }

  /** The outputs one after the other. */
  lemma FlattenOutputs(s: seq<Block>, bs: nat, len: nat)
    requires 0 < bs <= len < WORD && Positive(s)
    ensures
      var m := Step(s, bs, len);
      && (m.more ==> Positive(m.rest) && Weight(m.rest) < Weight(s)
                     && Outputs(s, bs, len) == [m.moved] + Outputs(m.rest, bs, len)
                     && Flatten(Outputs(s, bs, len)) == m.moved + Flatten(Outputs(m.rest, bs, len)))
      && (!m.more ==> m.moved == s && Outputs(s, bs, len) == [s] && Flatten(Outputs(s, bs, len)) == s)
  {
    hide Step;
    StepShrinks(s, bs, len);
    var m := Step(s, bs, len);
    var o := Outputs(s, bs, len);
    if m.more {
      assert o[1..] == Outputs(m.rest, bs, len);
    } else {
      assert o == [m.moved];
      assert m.moved == s by { StepAll(s, bs, len); }
      assert o[1..] == [];
    }
  }

  lemma StepAll(s: seq<Block>, bs: nat, len: nat)
    requires bs > 0 && !Step(s, bs, len).more
    ensures Step(s, bs, len).moved == s
  {
  }

  lemma {:induction false} OutputsLower(s: seq<Block>, bs: nat, len: nat, lo: nat)
    requires 0 < bs <= len < WORD && Positive(s) && forall i :: 0 <= i < |s| ==> lo <= s[i].block
    ensures
      var f := Flatten(Outputs(s, bs, len));
      forall i :: 0 <= i < |f| ==> lo <= f[i].block
    decreases Weight(s)
  {
    hide Outputs, Flatten;
    FlattenOutputs(s, bs, len);
    var m := Step(s, bs, len);
    if m.more {
      RestLower(s, bs, len, lo);
      OutputsLower(m.rest, bs, len, lo);
    }
  }

  lemma RestLower(s: seq<Block>, bs: nat, len: nat, lo: nat)
    requires bs > 0 && forall i :: 0 <= i < |s| ==> lo <= s[i].block
    ensures
      var m := Step(s, bs, len);
      && (forall i :: 0 <= i < |m.moved| ==> lo <= m.moved[i].block)
      && (forall i :: 0 <= i < |m.rest| ==> lo <= m.rest[i].block)
  {
    hide Step;
    var k, left := StepShape(s, bs, len);
    if k < |s| {
      assert forall i :: 0 <= i < |Pieces(s[k], bs, left)| ==> lo <= Pieces(s[k], bs, left)[i].block;
    }
  }

  /** The outputs, one after the other, denote the image the input denoted, in the same
      order and without overlap. */
  lemma {:induction false} OutputsConserve(s: seq<Block>, bs: nat, len: nat)
    requires 0 < bs <= len < WORD && Positive(s) && Ordered(s, bs)
    ensures
      var f := Flatten(Outputs(s, bs, len));
      Ordered(f, bs) && forall n :: At(f, bs, n) == At(s, bs, n)
    decreases Weight(s)
  {
    hide Outputs, Flatten, Step, At, End;
    FlattenOutputs(s, bs, len);
    var m := Step(s, bs, len);
    if m.more {
      StepMap(s, bs, len);
      var u := m.moved + m.rest;
      forall i, j | 0 <= i < j < |m.rest| ensures End(m.rest[i], bs) <= m.rest[j].block {
        assert u[|m.moved| + i] == m.rest[i] && u[|m.moved| + j] == m.rest[j];
      }
      OutputsConserve(m.rest, bs, len);
      var f := Flatten(Outputs(m.rest, bs, len));
      forall n ensures At(m.moved + f, bs, n) == At(s, bs, n) {
        AtAppend(m.moved, f, bs, n);
        AtAppend(m.moved, m.rest, bs, n);
      }
      AppendOrdered(m.moved, m.rest, f, bs, len);
    }
  }

  lemma AppendOrdered(a: seq<Block>, rest: seq<Block>, f: seq<Block>, bs: nat, len: nat)
    requires 0 < bs <= len < WORD && Positive(rest) && f == Flatten(Outputs(rest, bs, len))
    requires Ordered(a + rest, bs) && Ordered(f, bs)
    ensures Ordered(a + f, bs)
  {
    hide Outputs, Flatten, End;
    var u := a + rest;
    forall i | 0 <= i < |a| ensures forall j :: 0 <= j < |f| ==> End(a[i], bs) <= f[j].block {
      assert u[i] == a[i];
      forall j | 0 <= j < |rest| ensures End(a[i], bs) <= rest[j].block {
        assert u[|a| + j] == rest[j];
      }
      OutputsLower(rest, bs, len, End(a[i], bs));
    }
    forall i, j | 0 <= i < j < |a + f| ensures End((a + f)[i], bs) <= (a + f)[j].block {
      if j < |a| {
        assert u[i] == a[i] && u[j] == a[j];
      }
    }
  }

  // ----- running again on what a dry run leaves -----

  lemma TotalSnoc(s: seq<Block>, b: Block, bs: nat)
    requires bs > 0
    ensures Total(s + [b], bs) == Total(s, bs) + Cost(b, bs)
  {
    assert (s + [b])[..|s|] == s;
  }

  lemma {:induction false} TotalMono(s: seq<Block>, bs: nat, i: nat, j: nat)
    requires bs > 0 && i <= j <= |s| && Positive(s[..j]) && AllIntSized(s[..j], bs)
    ensures Total(s[..i], bs) <= Total(s[..j], bs)
    decreases j
  {
    hide Cost, Total;
    if i < j {
      CostIs(s[j - 1], bs);
      assert s[..j] == s[..j - 1] + [s[j - 1]];
      TotalSnoc(s[..j - 1], s[j - 1], bs);
      TotalMono(s, bs, i, j - 1);
    }
  }

  lemma FitUnique(s: seq<Block>, bs: nat, len: nat, k: nat)
    requires bs > 0 && k <= |s| && forall j :: 0 <= j <= k ==> Total(s[..j], bs) <= len
    requires k == |s| || Total(s[..k + 1], bs) > len
    ensures Fit(s, bs, len) == k
  {
    hide Total;
    var f := Fit(s, bs, len);
    if f < k {
      assert false;
    }
  }

  /** What Step does, given where the list stops fitting. */
  lemma StepFirst(s: seq<Block>, bs: nat, len: nat, k: nat, left: int)
    requires bs > 0 && k < |s| && Total(s[..k], bs) + left == len && 0 <= left < Cost(s[k], bs)
    requires forall j :: 0 <= j <= k ==> Total(s[..j], bs) <= len
    ensures Step(s, bs, len) ==
            if k == 0 || left > len / 8 then
              var p := Pieces(s[k], bs, left % WORD);
              Cut(s[..k] + [p[0]], p[1..] + s[k + 1..], true)
            else
              Cut(s[..k], s[k..], true)
  {
    hide Total, Cost, Pieces;
    assert s[..k + 1] == s[..k] + [s[k]];
    TotalSnoc(s[..k], s[k], bs);
    FitUnique(s, bs, len, k);
  }

  lemma StepIs(s: seq<Block>, bs: nat, len: nat, k: nat, left: int)
    requires bs > 0 && len < WORD && k < |s| && Total(s[..k], bs) + left == len && 0 <= left < Cost(s[k], bs)
    requires Positive(s[..k]) && AllIntSized(s[..k], bs)
    ensures Step(s, bs, len) ==
            if k == 0 || left > len / 8 then
              var p := Pieces(s[k], bs, left);
              Cut(s[..k] + [p[0]], p[1..] + s[k + 1..], true)
            else
              Cut(s[..k], s[k..], true)
  {
    hide Total, Cost, Pieces, Step;
    forall j | 0 <= j <= k ensures Total(s[..j], bs) <= len {
      TotalMono(s, bs, j, k);
    }
    TotalNat(s[..k], bs, k);
    assert s[..k][..k] == s[..k];
    StepFirst(s, bs, len, k, left);
  }

  /** The first block of the outputs. */
  lemma OutputsHead(s: seq<Block>, bs: nat, len: nat)
    requires 0 < bs <= len < WORD && Positive(s) && s != []
    ensures
      var f := Flatten(Outputs(s, bs, len));
      f != [] && f[0] == if Cost(s[0], bs) > len then Pieces(s[0], bs, len)[0] else s[0]
  {
    hide Outputs, Flatten, Align, Pieces, Cost;
    FlattenOutputs(s, bs, len);
    if Cost(s[0], bs) > len {
      assert s[..0] == [];
      StepIs(s, bs, len, 0, len);
    } else {
      FirstFits(s, bs, len);
    }
  }

  /** A block of the outputs that starts a cut one is large. */
  lemma HeadCost(b: Block, bs: nat, len: nat)
    requires 0 < bs && 8 * bs <= len && 16 <= len && b.len > 0 && IntSized(b, bs)
    ensures
      var h := if Cost(b, bs) > len then Pieces(b, bs, len)[0] else b;
      && (h == b || Cost(h, bs) > len / 8)
      && (!b.backing.Fill? ==> Cost(h, bs) >= CHUNK_HEADER_LEN + bs)
  {
    hide Align, AlignDown, Cost;
    StoredLarge(b, bs);
    CostIs(b, bs);
    AlignDownFacts(len, bs);
    if Cost(b, bs) > len && b.len > AlignDown(len, bs) {
      var h := b.(len := AlignDown(len, bs));
      AlignFacts(h.len, bs);
      StoredLarge(h, bs);
      CostIs(h, bs);
    }
  }

  lemma CostLarge(b: Block, bs: nat)
    requires bs > 0 && b.len > 0 && !b.backing.Fill? && IntSized(b, bs)
    ensures Cost(b, bs) >= CHUNK_HEADER_LEN + bs
  {
    CostIs(b, bs);
    AlignFacts(b.len, bs);
    DivUpPositive(b.len, bs);
    MulLe(1, DivUp(b.len, bs), bs);
  }

  /** A piece cut to fit the room that is left. */
  lemma PieceFits(b: Block, bs: nat, left: nat)
    requires 0 < bs <= left && b.len > 0 && IntSized(b, bs) && Cost(b, bs) > left
    ensures
      var p := Pieces(b, bs, left);
      && Pieces(p[0], bs, left) == [p[0]]
      && p[0].len > 0
      && (Cost(p[0], bs) <= left ==>
            && |p| == 2 && p[1].len > 0 && !b.backing.Fill? && p[1].backing.Fill? == b.backing.Fill?
            && left - Cost(p[0], bs) < bs)
      && (b.backing.Fill? || Cost(p[0], bs) <= left + CHUNK_HEADER_LEN)
      && (b.backing.Fill? || Cost(p[0], bs) + bs > left)
  {
    hide Align, AlignDown, Cost;
    AlignDownFacts(left, bs);
    CostIs(b, bs);
    CostIs(Pieces(b, bs, left)[0], bs);
    AlignDownAgain(left, bs);
    AlignFacts(b.len, bs);
    AlignLe(b.len, left, bs);
  }

  lemma AlignDownAgain(x: nat, bs: nat)
    requires bs > 0
    ensures Align(AlignDown(x, bs), bs) == AlignDown(x, bs)
  {
    DivUpAdd(0, x / bs, bs);
    DivUpZero(bs);
    AlignFacts(AlignDown(x, bs), bs);
    CutIs(x, bs);
  }

  lemma AlignLe(x: nat, left: nat, bs: nat)
    requires bs > 0
    ensures x <= AlignDown(left, bs) ==> Align(x, bs) <= AlignDown(left, bs)
  {
    hide DivUp;
    AlignFacts(x, bs);
    CutIs(left, bs);
    if x <= AlignDown(left, bs) {
      DivUpCounts(x, bs, left / bs);
      MulLe(DivUp(x, bs), left / bs, bs);
    }
  }

  /** The block at the cut exceeds the room again, cut or not. */
  lemma AgainExceeds(s: seq<Block>, bs: nat, len: nat, k: nat, left: nat, b: Block, f: seq<Block>)
    requires 0 < bs <= left && len < WORD && k <= |s| && Total(s[..k], bs) + left == len && (k == 0 || left > len / 8)
    requires Positive(s) && AllIntSized(s, bs)
    requires b.len > 0 && IntSized(b, bs) && Cost(b, bs) > left && Cost(Pieces(b, bs, left)[0], bs) > left
    ensures Step(s[..k] + [Pieces(b, bs, left)[0]] + f, bs, len) == Cut(s[..k] + [Pieces(b, bs, left)[0]], f, true)
  {
    hide Cost, Pieces, Total, Step;
    PieceFits(b, bs, left);
    PieceBacking(b, bs, left);
    var p := Pieces(b, bs, left)[0];
    var t := s[..k] + [p] + f;
    assert t[..k] == s[..k] && t[k + 1..] == f && t[k] == p;
    StepIs(t, bs, len, k, left);
    assert [p][1..] + f == f;
  }

  /** The piece fits: what follows it cannot, and leaves too little room for a cut. */
  lemma AgainFits(s: seq<Block>, bs: nat, len: nat, k: nat, left: nat, p: Block, f: seq<Block>)
    requires 0 < bs && 8 * bs <= len < WORD && k <= |s| && Total(s[..k], bs) + left == len
    requires Positive(s) && AllIntSized(s, bs) && p.len > 0 && IntSized(p, bs)
    requires Cost(p, bs) <= left && left - Cost(p, bs) < bs
    requires f != [] && Cost(f[0], bs) >= CHUNK_HEADER_LEN + bs
    ensures Step(s[..k] + [p] + f, bs, len) == Cut(s[..k] + [p], f, true)
  {
    hide Cost, Total, Step;
    var t := s[..k] + [p] + f;
    assert t[..k + 1] == s[..k] + [p] && t[k + 1..] == f && t[k + 1] == f[0];
    TotalSnoc(s[..k], p, bs);
    StepIs(t, bs, len, k + 1, left - Cost(p, bs));
  }

  /** Cutting again what a cut has left gives the same cut. */
  lemma StepAgain(s: seq<Block>, bs: nat, len: nat)
    requires 0 < bs && 8 * bs <= len < WORD && 16 <= len && Positive(s) && AllIntSized(s, bs) && Step(s, bs, len).more
    ensures Positive(Step(s, bs, len).rest)
    ensures
      var m := Step(s, bs, len);
      var f := Flatten(Outputs(m.rest, bs, len));
      Step(m.moved + f, bs, len) == Cut(m.moved, f, true)
  {
    hide Outputs, Flatten, Cost, Pieces, Total, Step, Fit;
    StepShrinks(s, bs, len);
    var k := Fit(s, bs, len);
    var left := len - Total(s[..k], bs);
    WholeFits(s, bs, len);
    assert Cost(s[k], bs) > left by {
      assert s[..k + 1] == s[..k] + [s[k]];
      TotalSnoc(s[..k], s[k], bs);
    }
    StepIs(s, bs, len, k, left);
    assert k == 0 ==> left == len by { assert s[..0] == []; TotalEmpty(bs); }
    if k == 0 || left > len / 8 {
      PieceFits(s[k], bs, left);
      CutAgain(s, bs, len, k, left);
    } else {
      WholeAgain(s, bs, len, k, left);
    }
  }

  lemma WholeFits(s: seq<Block>, bs: nat, len: nat)
    requires bs > 0
    ensures Fit(s, bs, len) == |s| ==> !Step(s, bs, len).more
  {
  }

  lemma CutAgain(s: seq<Block>, bs: nat, len: nat, k: nat, left: nat)
    requires 0 < bs && 8 * bs <= len < WORD && 16 <= len && Positive(s) && AllIntSized(s, bs) && k < |s|
    requires Total(s[..k], bs) + left == len && Cost(s[k], bs) > left && (k == 0 || left > len / 8) && left >= bs
    ensures Pieces(s[k], bs, left) != [] && Positive(Pieces(s[k], bs, left)[1..] + s[k + 1..])
    ensures
      var p := Pieces(s[k], bs, left);
      var f := Flatten(Outputs(p[1..] + s[k + 1..], bs, len));
      Step(s[..k] + [p[0]] + f, bs, len) == Cut(s[..k] + [p[0]], f, true)
  {
    hide Outputs, Flatten, Cost, Pieces, Total, Step;
    PieceFits(s[k], bs, left);
    PiecesWeight(s[k], bs, left);
    PiecesIntSized(s[k], bs, left);
    var p := Pieces(s[k], bs, left);
    var rest := p[1..] + s[k + 1..];
    var f := Flatten(Outputs(rest, bs, len));
    if Cost(p[0], bs) > left {
      AgainExceeds(s, bs, len, k, left, s[k], f);
    } else {
      assert rest[0] == p[1];
      OutputsHead(rest, bs, len);
      HeadCost(p[1], bs, len);
      AgainFits(s, bs, len, k, left, p[0], f);
    }
  }

  lemma WholeAgain(s: seq<Block>, bs: nat, len: nat, k: nat, left: nat)
    requires 0 < bs && 8 * bs <= len < WORD && 16 <= len && Positive(s) && AllIntSized(s, bs) && 0 < k < |s|
    requires Total(s[..k], bs) + left == len && Cost(s[k], bs) > left && left <= len / 8
    ensures
      var f := Flatten(Outputs(s[k..], bs, len));
      Step(s[..k] + f, bs, len) == Cut(s[..k], f, true)
  {
    hide Outputs, Flatten, Cost, Pieces, Total, Step;
    var f := Flatten(Outputs(s[k..], bs, len));
    OutputsHead(s[k..], bs, len);
    HeadCost(s[k], bs, len);
    var t := s[..k] + f;
    assert t[..k] == s[..k] && t[k..] == f && t[k] == f[0];
    StepIs(t, bs, len, k, left);
  }

  /** The rest of a cut block is shorter by what it starts later. */
  lemma PiecesIntSized(b: Block, bs: nat, left: nat)
    requires bs > 0 && IntSized(b, bs)
    ensures AllIntSized(Pieces(b, bs, left), bs)
  {
    hide AlignDown;
    AlignDownFacts(left, bs);
  }

  lemma StepIntSized(s: seq<Block>, bs: nat, len: nat)
    requires bs > 0 && AllIntSized(s, bs)
    ensures AllIntSized(Step(s, bs, len).moved, bs) && AllIntSized(Step(s, bs, len).rest, bs)
  {
    hide Step, Pieces;
    var k, left := StepShape(s, bs, len);
    if k < |s| {
      PiecesIntSized(s[k], bs, left);
      PieceBacking(s[k], bs, left);
    }
  }

  lemma {:induction false} FlattenPositive(s: seq<Block>, bs: nat, len: nat)
    requires 0 < bs && 8 * bs <= len < WORD && Positive(s) && AllIntSized(s, bs)
    ensures Positive(Flatten(Outputs(s, bs, len)))
    decreases Weight(s)
  {
    hide Outputs, Flatten, Step;
    FlattenOutputs(s, bs, len);
    var m := Step(s, bs, len);
    if m.more {
      MovedPositive(s, bs, len);
      StepIntSized(s, bs, len);
      FlattenPositive(m.rest, bs, len);
    }
  }

  lemma MovedPositive(s: seq<Block>, bs: nat, len: nat)
    requires 0 < bs && 8 * bs <= len < WORD && Positive(s) && AllIntSized(s, bs)
    ensures Positive(Step(s, bs, len).moved)
  {
    hide Pieces, Total;
    var k := Fit(s, bs, len);
    if k < |s| {
      var left := len - Total(s[..k], bs);
      TotalNat(s, bs, k);
      assert k == 0 ==> left == len by { assert s[..0] == []; TotalEmpty(bs); }
      PiecesWeight(s[k], bs, left);
    }
  }

  /** A dry run leaves the chunks split; running for real on the list it leaves makes the
      very outputs, and so the count, that the dry run announced. */
  lemma {:induction false} DryRunPredicts(s: seq<Block>, bs: nat, len: nat)
    requires 0 < bs && 8 * bs <= len < WORD && 16 <= len && Positive(s) && AllIntSized(s, bs)
    ensures Positive(Flatten(Outputs(s, bs, len)))
    ensures Outputs(Flatten(Outputs(s, bs, len)), bs, len) == Outputs(s, bs, len)
    decreases Weight(s)
  {
    hide Outputs, Flatten, Step;
    FlattenPositive(s, bs, len);
    FlattenOutputs(s, bs, len);
    var m := Step(s, bs, len);
    if m.more {
      StepAgain(s, bs, len);
      StepIntSized(s, bs, len);
      DryRunPredicts(m.rest, bs, len);
      FlattenOutputs(Flatten(Outputs(s, bs, len)), bs, len);
    }
  }

  // ----- sizes -----

  /** Gaps between neighbours. */
  function Gaps(s: seq<Block>, bs: nat): nat
    requires bs > 0
  {
    if |s| < 2 then 0 else (if s[1].block > End(s[0], bs) then 1 else 0) + Gaps(s[1..], bs)
  }

  /** A cut takes at most a chunk header more than the limit, and, unless it is the last,
      at least seven eighths of it. */
  lemma MovedSize(s: seq<Block>, bs: nat, len: nat)
    requires 4 <= bs && 8 * bs <= len < WORD && Positive(s) && AllIntSized(s, bs)
    ensures
      var m := Step(s, bs, len);
      && Total(m.moved, bs) <= len + CHUNK_HEADER_LEN
      && (m.more ==> 8 * Total(m.moved, bs) >= 7 * len)
  {
    hide Pieces, Total, Align, Cost;
    var k := Fit(s, bs, len);
    if k == |s| {
      assert s[..k] == s;
    } else {
      var left := len - Total(s[..k], bs);
      TotalNat(s, bs, k);
      assert left % WORD == left;
      assert s[..k + 1] == s[..k] + [s[k]];
      TotalSnoc(s[..k], s[k], bs);
      CostIs(s[k], bs);
      assert k == 0 ==> left == len by { assert s[..0] == []; TotalEmpty(bs); }
      if k == 0 || left > len / 8 {
        PieceFits(s[k], bs, left);
        PieceBacking(s[k], bs, left);
        PiecesIntSized(s[k], bs, left);
        CostIs(Pieces(s[k], bs, left)[0], bs);
        TotalSnoc(s[..k], Pieces(s[k], bs, left)[0], bs);
      }
    }
  }

  lemma PieceBacking(b: Block, bs: nat, left: nat)
    requires bs > 0
    ensures Pieces(b, bs, left) != [] && Pieces(b, bs, left)[0].backing == b.backing
  {
  }

  /** The skip chunks write_all_blocks emits from block `last` on, in an image of `blocks`. */
  function Skips(s: seq<Block>, bs: nat, last: nat, blocks: nat): nat
    requires bs > 0
  {
    if s == [] then (if last < blocks then 1 else 0)
    else (if s[0].block > last then 1 else 0) + Skips(s[1..], bs, End(s[0], bs), blocks)
  }

  /** Length of the sparse file for a list. */
  function SparseLen(s: seq<Block>, bs: nat, blocks: nat, crc: bool): int
    requires bs > 0
  {
    SPARSE_HEADER_LEN + Total(s, bs) + CHUNK_HEADER_LEN * Skips(s, bs, 0, blocks)
    + if crc then CHUNK_HEADER_LEN + 4 else 0
  }

  lemma {:induction false} SkipsFewer(s: seq<Block>, bs: nat, last: nat, blocks: nat)
    requires bs > 0
    ensures Skips(s, bs, last, blocks) <= 2 + Gaps(s, bs)
    ensures Skips(s, bs, last, blocks) >= Gaps(s, bs) + if s != [] && s[0].block > last then 1 else 0
    ensures s != [] && s[0].block <= last ==> Skips(s, bs, last, blocks) <= 1 + Gaps(s, bs)
  {
    if |s| > 0 {
      SkipsFewer(s[1..], bs, End(s[0], bs), blocks);
      if |s| == 1 {
        assert s[1..] == [];
      }
    }
  }

  /** Every output fits the limit, CRC chunk included, but for a chunk header for every gap
      inside it; and every output but the last is at least seven eighths full. */
  lemma {:induction false} OutputsSize(s: seq<Block>, bs: nat, maxLen: nat, blocks: nat, i: nat)
    requires 4 <= bs && OVERHEAD + 8 * bs <= maxLen < WORD && Positive(s) && AllIntSized(s, bs)
    requires i < |Outputs(s, bs, maxLen - OVERHEAD)|
    ensures
      var o := Outputs(s, bs, maxLen - OVERHEAD);
      && SparseLen(o[i], bs, blocks, true) <= maxLen + CHUNK_HEADER_LEN * Gaps(o[i], bs)
      && (i + 1 < |o| ==> 8 * Total(o[i], bs) >= 7 * (maxLen - OVERHEAD))
    decreases i
  {
    hide Outputs, Flatten, Step, Total, Skips, Gaps;
    var len := maxLen - OVERHEAD;
    FlattenOutputs(s, bs, len);
    var m := Step(s, bs, len);
    assert Outputs(s, bs, len)[0] == m.moved;
    if i == 0 {
      MovedSize(s, bs, len);
      SkipsFewer(m.moved, bs, 0, blocks);
    } else {
      StepIntSized(s, bs, len);
      OutputsSize(m.rest, bs, maxLen, blocks, i - 1);
      assert Outputs(s, bs, len)[i] == Outputs(m.rest, bs, len)[i - 1];
    }
  }

  /** A list stays one file exactly if its chunks leave 80 bytes of the limit. */
  lemma OneFile(s: seq<Block>, bs: nat, maxLen: nat)
    requires bs > 0 && 80 + bs <= maxLen < WORD && Positive(s) && AllIntSized(s, bs)
    ensures |Outputs(s, bs, maxLen - OVERHEAD)| == 1 <==> Total(s, bs) + 80 <= maxLen
    ensures Total(s, bs) + 80 <= maxLen ==> Outputs(s, bs, maxLen - OVERHEAD) == [s]
  {
    hide Outputs, Flatten, Step, Total;
    var len := maxLen - OVERHEAD;
    FlattenOutputs(s, bs, len);
    assert s[..|s|] == s;
    var k := Fit(s, bs, len);
    StepEnds(s, bs, len);
    if Total(s, bs) <= len {
      forall j | 0 <= j <= |s| ensures Total(s[..j], bs) <= len {
        TotalMono(s, bs, j, |s|);
      }
      FitUnique(s, bs, len, |s|);
    }
  }

  lemma StepEnds(s: seq<Block>, bs: nat, len: nat)
    requires bs > 0
    ensures Step(s, bs, len).more <==> Fit(s, bs, len) < |s|
  {
  }
}
