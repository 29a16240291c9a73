/** The linked lists of tools/libsparse/backed_block.c, changed in place. */
module BlockLists {
  import opened Rounding
  import opened BackedBlocks

  class Node {
    var block: nat
    var len: nat
    var backing: Backing
    var next: Node?

    constructor (b: Block)
      ensures Value() == b && next == null
    {
      block, len, backing, next := b.block, b.len, b.backing, null;
    }

    ghost function Value(): Block
      reads this
    {
      Block(block, len, backing)
    }
  }

  // ----- chains -----

  ghost predicate Apart(m: seq<Node>, n: seq<Node>) {
    forall i, j :: 0 <= i < |m| && 0 <= j < |n| ==> m[i] != n[j]
  }

  function First(nodes: seq<Node>): Node? {
    if nodes == [] then null else nodes[0]
  }

  ghost predicate Distinct(nodes: seq<Node>) {
    forall i, j :: 0 <= i < j < |nodes| ==> nodes[i] != nodes[j]
  }

  /** The nodes are distinct and each is linked to the next. */
  ghost predicate Chain(nodes: seq<Node>)
    reads nodes
  {
    Distinct(nodes) && forall i :: 0 <= i < |nodes| ==> nodes[i].next == First(nodes[i + 1..])
  }

  ghost function Values(nodes: seq<Node>): (r: seq<Block>)
    reads nodes
    ensures |r| == |nodes| && forall i :: 0 <= i < |r| ==> r[i] == nodes[i].Value()
  {
    if nodes == [] then [] else Values(nodes[..|nodes| - 1]) + [nodes[|nodes| - 1].Value()]
  }

  lemma ChainNext(nodes: seq<Node>, i: nat)
    requires Chain(nodes) && i < |nodes|
    ensures nodes[i].next == if i + 1 < |nodes| then nodes[i + 1] else null
    ensures i + 1 < |nodes| ==> nodes[i] != nodes[i + 1]
  {
  }

  /** All nodes but the i-th are linked as in the chain and hold the given values. */
  ghost predicate Others(nodes: seq<Node>, vals: seq<Block>, i: nat)
    reads nodes
  {
    && |vals| == |nodes| && Distinct(nodes)
    && forall k :: 0 <= k < |nodes| && k != i ==> nodes[k].next == First(nodes[k + 1..]) && nodes[k].Value() == vals[k]
  }

  lemma ChainDistinct(nodes: seq<Node>)
    requires Chain(nodes)
    ensures Distinct(nodes)
  {
  }

  lemma ChainOthers(nodes: seq<Node>, i: nat)
    requires Chain(nodes)
    ensures Others(nodes, Values(nodes), i)
  {
  }

  lemma DistinctNodes(nodes: seq<Node>)
    requires Distinct(nodes)
    ensures forall i, j :: 0 <= i < |nodes| && 0 <= j < |nodes| && i != j ==> nodes[i] != nodes[j]
  {
  }

  lemma FirstSame(m: seq<Node>, n: seq<Node>)
    requires m != [] && n != [] && m[0] == n[0]
    ensures First(m) == First(n)
  {
  }

  lemma DistinctWithout(nodes: seq<Node>, i: nat)
    requires i < |nodes| && Distinct(nodes)
    ensures Distinct(nodes[..i] + nodes[i + 1..])
  {
  }

  lemma DistinctWith(nodes: seq<Node>, i: nat, b: Node)
    requires i <= |nodes| && Distinct(nodes) && b !in nodes
    ensures Distinct(nodes[..i] + [b] + nodes[i..])
  {
  }

  /** Node i has taken its successor's link: the successor is out of the chain. */
  lemma Unlinked(nodes: seq<Node>, vals: seq<Block>, i: nat, m: seq<Node>)
    requires i + 1 < |nodes| && m == nodes[..i + 1] + nodes[i + 2..]
    requires Others(nodes, vals, i) && nodes[i].next == First(nodes[i + 2..])
    ensures Chain(m)
    ensures Values(m) == vals[..i] + [nodes[i].Value()] + vals[i + 2..]
  {
    hide Values, Distinct, First;
    DistinctWithout(nodes, i + 1);
    forall k | 0 <= k < |m| ensures m[k].next == First(m[k + 1..]) {
      var k' := if k <= i then k else k + 1;
      assert m[k] == nodes[k'];
      FirstOf(m[k + 1..]);
      FirstOf(nodes[k' + 1..]);
      assert k == i ==> m[k + 1..] == nodes[k + 2..];
    }
  }

  lemma FirstOf(nodes: seq<Node>)
    ensures First(nodes) == if nodes == [] then null else nodes[0]
  {
  }

  /** Node i has been linked to a new node, and that to node i's old successor. */
  lemma LinkedAfter(nodes: seq<Node>, vals: seq<Block>, i: nat, b: Node, m: seq<Node>)
    requires i < |nodes| && b !in nodes && m == nodes[..i + 1] + [b] + nodes[i + 1..]
    requires Others(nodes, vals, i) && nodes[i].next == b && b.next == First(nodes[i + 1..])
    ensures Chain(m)
    ensures Values(m) == vals[..i] + [nodes[i].Value(), b.Value()] + vals[i + 1..]
  {
    hide Values, Distinct, First;
    DistinctWith(nodes, i + 1, b);
    forall k | 0 <= k < |m| ensures m[k].next == First(m[k + 1..]) {
      FirstOf(m[k + 1..]);
      if k > i {
        assert nodes[k..] == m[k + 1..];
        assert k > i + 1 ==> m[k] == nodes[k - 1];
      } else {
        assert m[k] == nodes[k];
        FirstOf(nodes[k + 1..]);
      }
    }
  }

  lemma LinkedFirst(nodes: seq<Node>, b: Node)
    requires Chain(nodes) && b !in nodes && b.next == First(nodes)
    ensures Chain([b] + nodes)
    ensures Values([b] + nodes) == [b.Value()] + Values(nodes)
  {
    hide Values, Distinct, First;
    var m := [b] + nodes;
    assert Distinct(m) by {
      DistinctWith(nodes, 0, b);
      assert m == nodes[..0] + [b] + nodes[0..];
    }
    forall k | 0 <= k < |m| ensures m[k].next == First(m[k + 1..]) {
      assert m[k + 1..] == nodes[k..];
      assert k > 0 ==> m[k] == nodes[k - 1];
      assert nodes[0..] == nodes;
    }
  }

  /** A stretch of a chain: linked up to its last node, whose link may be any. */
  ghost predicate Segment(m: seq<Node>, vals: seq<Block>)
    reads m
  {
    && |vals| == |m| && Distinct(m)
    && (forall k :: 0 <= k < |m| ==> m[k].Value() == vals[k])
    && forall k :: 0 <= k < |m| - 1 ==> m[k].next == First(m[k + 1..])
  }

  lemma SegmentEnds(m: seq<Node>, vals: seq<Block>)
    requires Segment(m, vals) && (m != [] ==> m[|m| - 1].next == null)
    ensures Chain(m) && Values(m) == vals
  {
    hide Values, Distinct;
    forall k | 0 <= k < |m| ensures m[k].next == First(m[k + 1..]) {
    }
  }

  /** Nodes lo to hi are out of the chain once the node before them is linked past them. */
  lemma CutOut(nodes: seq<Node>, vals: seq<Block>, lo: nat, hi: nat)
    requires lo <= hi <= |nodes|
    requires Others(nodes, vals, if lo > 0 then lo - 1 else |nodes|)
    requires lo > 0 ==> nodes[lo - 1].next == First(nodes[hi..]) && nodes[lo - 1].Value() == vals[lo - 1]
    ensures Chain(nodes[..lo] + nodes[hi..]) && Values(nodes[..lo] + nodes[hi..]) == vals[..lo] + vals[hi..]
    ensures Segment(nodes[lo..hi], vals[lo..hi])
  {
    CutRest(nodes, vals, lo, hi);
    CutSegment(nodes, vals, lo, hi);
  }

  lemma CutRest(nodes: seq<Node>, vals: seq<Block>, lo: nat, hi: nat)
    requires lo <= hi <= |nodes|
    requires Others(nodes, vals, if lo > 0 then lo - 1 else |nodes|)
    requires lo > 0 ==> nodes[lo - 1].next == First(nodes[hi..]) && nodes[lo - 1].Value() == vals[lo - 1]
    ensures Chain(nodes[..lo] + nodes[hi..]) && Values(nodes[..lo] + nodes[hi..]) == vals[..lo] + vals[hi..]
  {
    hide Values, First;
    var m := nodes[..lo] + nodes[hi..];
    forall k | 0 <= k < |m| ensures m[k].next == First(m[k + 1..]) {
      var k' := if k < lo then k else k - lo + hi;
      assert m[k] == nodes[k'];
      FirstOf(m[k + 1..]);
      FirstOf(nodes[k' + 1..]);
      FirstOf(nodes[hi..]);
    }
  }

  lemma DistinctSlice(nodes: seq<Node>, lo: nat, hi: nat)
    requires lo <= hi <= |nodes| && Distinct(nodes)
    ensures Distinct(nodes[lo..hi])
  {
  }

  lemma CutSegment(nodes: seq<Node>, vals: seq<Block>, lo: nat, hi: nat)
    requires lo <= hi <= |nodes|
    requires Others(nodes, vals, if lo > 0 then lo - 1 else |nodes|)
    ensures Segment(nodes[lo..hi], vals[lo..hi])
  {
    hide Values, First, Distinct;
    var m := nodes[lo..hi];
    DistinctSlice(nodes, lo, hi);
    forall k | 0 <= k < |m| - 1 ensures m[k].next == First(m[k + 1..]) {
      var k' := lo + k;
      assert m[k] == nodes[k'];
      FirstOf(m[k + 1..]);
      FirstOf(nodes[k' + 1..]);
    }
  }

  /** A segment linked in after the first k nodes of a chain. */
  lemma Spliced(t: seq<Node>, valsT: seq<Block>, k: nat, m: seq<Node>, valsM: seq<Block>)
    requires 0 < k <= |t| && m != [] && Apart(t, m)
    requires Others(t, valsT, k - 1) && t[k - 1].Value() == valsT[k - 1] && t[k - 1].next == m[0]
    requires Segment(m, valsM) && m[|m| - 1].next == First(t[k..])
    ensures Chain(t[..k] + m + t[k..]) && Values(t[..k] + m + t[k..]) == valsT[..k] + valsM + valsT[k..]
  {
    hide Values, First, Distinct, Apart;
    var u := t[..k] + m + t[k..];
    DistinctSplice(t, k, m);
    forall i | 0 <= i < |u| ensures u[i].next == First(u[i + 1..]) {
      SplicedLink(t, valsT, k, m, valsM, i);
    }
    SplicedValues(t, valsT, k, m, valsM);
  }

  lemma SplicedLink(t: seq<Node>, valsT: seq<Block>, k: nat, m: seq<Node>, valsM: seq<Block>, i: nat)
    requires 0 < k <= |t| && m != []
    requires Others(t, valsT, k - 1) && t[k - 1].next == m[0]
    requires Segment(m, valsM) && m[|m| - 1].next == First(t[k..])
    requires i < |t| + |m|
    ensures
      var u := t[..k] + m + t[k..];
      u[i].next == First(u[i + 1..])
  {
    hide Values, First, Distinct;
    var u := t[..k] + m + t[k..];
    FirstOf(u[i + 1..]);
    FirstOf(t[k..]);
    if i < k {
      assert u[i] == t[i];
      FirstOf(t[i + 1..]);
    } else if i < k + |m| {
      assert u[i] == m[i - k];
      FirstOf(m[i - k + 1..]);
    } else {
      var i' := i - |m|;
      assert u[i] == t[i'] && (i' + 1 < |t| ==> u[i + 1] == t[i' + 1]);
      FirstOf(t[i' + 1..]);
    }
  }

  lemma SplicedValues(t: seq<Node>, valsT: seq<Block>, k: nat, m: seq<Node>, valsM: seq<Block>)
    requires 0 < k <= |t| && Others(t, valsT, k - 1) && t[k - 1].Value() == valsT[k - 1] && Segment(m, valsM)
    ensures Values(t[..k] + m + t[k..]) == valsT[..k] + valsM + valsT[k..]
  {
    hide Values, First, Distinct;
    forall j | 0 <= j < |t| ensures t[j].Value() == valsT[j] {
    }
  }

  lemma DistinctSplice(t: seq<Node>, k: nat, m: seq<Node>)
    requires k <= |t| && Distinct(t) && Distinct(m) && Apart(t, m)
    ensures Distinct(t[..k] + m + t[k..])
  {
    var u := t[..k] + m + t[k..];
    forall i, j | 0 <= i < j < |u| ensures u[i] != u[j] {
      assert i < k || i >= k + |m| ==> u[i] in t;
      assert j < k || j >= k + |m| ==> u[j] in t;
      assert k <= i < k + |m| ==> u[i] in m;
      assert k <= j < k + |m| ==> u[j] in m;
    }
  }

  // ----- where a new block goes -----

  ghost predicate Ascending(s: seq<Block>) {
    forall i, j :: 0 <= i < j < |s| ==> s[i].block < s[j].block
  }

  lemma OrderedAscending(s: seq<Block>, bs: nat)
    requires bs > 0 && Ordered(s, bs) && Positive(s)
    ensures Ascending(s)
  {
    forall i, j | 0 <= i < j < |s| ensures s[i].block < s[j].block {
      EndAfter(s[i], bs);
    }
  }

  lemma NotAtStart(s: seq<Block>, bs: nat, v: Block, i: nat)
    requires bs > 0 && i < |s| && Positive(s) && v.len > 0 && Fresh(s, bs, v)
    ensures s[i].block != v.block
  {
    EndAfter(s[i], bs);
    EndAfter(v, bs);
  }

  lemma {:induction false} PositionUnique(s: seq<Block>, block: nat, p: nat)
    requires p <= |s| && (forall i :: 0 <= i < p ==> s[i].block < block) && (p < |s| ==> s[p].block >= block)
    ensures Position(s, block) == p
  {
    if p > 0 {
      PositionUnique(s[1..], block, p - 1);
    }
  }

  lemma PlaceUnique(s: seq<Block>, b: Block, p: nat)
    requires 0 < p <= |s| && (forall i :: 0 < i < p ==> s[i].block < b.block) && (p < |s| ==> s[p].block >= b.block)
    ensures Place(s, b) == p
  {
    PositionUnique(s[1..], b.block, p - 1);
  }

  /** How many leading blocks start no later than the given one. */
  function UpTo(s: seq<Block>, block: nat): (p: nat)
    ensures p <= |s|
    ensures forall i :: 0 <= i < p ==> s[i].block <= block
    ensures p < |s| ==> s[p].block > block
  {
    if s == [] || s[0].block > block then 0 else 1 + UpTo(s[1..], block)
  }

  lemma {:induction false} UpToUnique(s: seq<Block>, block: nat, p: nat)
    requires p <= |s| && (forall i :: 0 <= i < p ==> s[i].block <= block) && (p < |s| ==> s[p].block > block)
    ensures UpTo(s, block) == p
  {
    if p > 0 {
      UpToUnique(s[1..], block, p - 1);
    }
  }

  /** Where backed_block_list_move puts blocks: never before the first. */
  function MovedInto(t: seq<Block>, m: seq<Block>): seq<Block> {
    if t == [] || m == [] then t + m
    else
      var k := 1 + UpTo(t[1..], m[0].block);
      t[..k] + m + t[k..]
  }

  /** Blocks that lie in a gap of a list, or behind it, go where they belong; in front of its
      first block they do not, and the list is out of order. */
  lemma MovedOrdered(t: seq<Block>, m: seq<Block>, bs: nat)
    requires bs > 0 && t != [] && m != [] && Ordered(t, bs) && Ordered(m, bs) && Positive(t) && Positive(m)
    requires forall i :: 0 <= i < |t| ==> End(t[i], bs) <= m[0].block || End(m[|m| - 1], bs) <= t[i].block
    ensures Ordered(MovedInto(t, m), bs) <==> t[0].block < m[0].block
    ensures t[0].block < m[0].block ==> forall n :: At(MovedInto(t, m), bs, n) == if At(t, bs, n).Some? then At(t, bs, n) else At(m, bs, n)
  {
    hide End, At, UpTo;
    var k := 1 + UpTo(t[1..], m[0].block);
    SplitPlace(t, m, bs, k);
    var u := MovedInto(t, m);
    assert u == t[..k] + m + t[k..];
    EndAfter(t[0], bs);
    EndAfter(m[0], bs);
    EndAfter(m[|m| - 1], bs);
    if t[0].block < m[0].block {
      JoinedOrdered(t[..k], m, t[k..], bs);
      forall n ensures At(u, bs, n) == if At(t, bs, n).Some? then At(t, bs, n) else At(m, bs, n) {
        JoinedMap(t[..k], m, t[k..], bs, n);
        assert t == t[..k] + t[k..];
      }
    } else {
      assert u[0] == t[0] && u[k] == m[0];
    }
  }

  lemma SplitPlace(t: seq<Block>, m: seq<Block>, bs: nat, k: nat)
    requires bs > 0 && t != [] && m != [] && Ordered(m, bs) && Positive(t) && Positive(m) && Ordered(t, bs)
    requires forall i :: 0 <= i < |t| ==> End(t[i], bs) <= m[0].block || End(m[|m| - 1], bs) <= t[i].block
    requires k == 1 + UpTo(t[1..], m[0].block)
    ensures 0 < k <= |t| && forall i :: k <= i < |t| ==> End(m[|m| - 1], bs) <= t[i].block
    ensures t[0].block < m[0].block ==> forall i :: 0 <= i < k ==> End(t[i], bs) <= m[0].block
  {
    hide DivUp;
    forall i | 0 < i < |t| ensures if i < k then t[i].block <= m[0].block else t[i].block > m[0].block {
      assert t[i] == t[1..][i - 1];
      if i >= k {
        OrderedAscending(t, bs);
        assert t[1..][k - 1] == t[k];
      }
    }
    EndAfter(m[|m| - 1], bs);
    EndAfter(m[0], bs);
    forall i | 0 <= i < |t| ensures t[i].block < End(t[i], bs) {
      EndAfter(t[i], bs);
    }
  }

  lemma JoinedOrdered(a: seq<Block>, m: seq<Block>, c: seq<Block>, bs: nat)
    requires bs > 0 && m != [] && Ordered(a + c, bs) && Ordered(m, bs) && Positive(m)
    requires forall i :: 0 <= i < |a| ==> End(a[i], bs) <= m[0].block
    requires forall i :: 0 <= i < |c| ==> End(m[|m| - 1], bs) <= c[i].block
    ensures Ordered(a + m + c, bs)
  {
    hide End;
    var u, t := a + m + c, a + c;
    forall j | 0 <= j < |m| ensures m[0].block <= m[j].block && End(m[j], bs) <= End(m[|m| - 1], bs) {
      EndAfter(m[0], bs);
      EndAfter(m[|m| - 1], bs);
      EndAfter(m[j], bs);
    }
    EndAfter(m[0], bs);
    forall i, j | 0 <= i < j < |u| ensures End(u[i], bs) <= u[j].block {
      var i', j' := if i < |a| then i else i - |m|, if j < |a| then j else j - |m|;
      if (i < |a| || i >= |a| + |m|) && (j < |a| || j >= |a| + |m|) {
        assert u[i] == t[i'] && u[j] == t[j'];
      }
    }
  }

  lemma JoinedMap(a: seq<Block>, m: seq<Block>, c: seq<Block>, bs: nat, n: int)
    requires bs > 0 && m != [] && Ordered(m, bs) && Positive(m)
    requires forall i :: 0 <= i < |c| ==> End(m[|m| - 1], bs) <= c[i].block
    ensures At(a + m + c, bs, n) == if At(a + c, bs, n).Some? then At(a + c, bs, n) else At(m, bs, n)
  {
    hide End, At, Covers;
    AtAppend(a + m, c, bs, n);
    AtAppend(a, m, bs, n);
    AtAppend(a, c, bs, n);
    if At(m, bs, n).Some? {
      AtNone(m, bs, n);
      var j :| 0 <= j < |m| && Covers(m[j], bs, n);
      CoversEnd(m[j], bs, n);
      EndAfter(m[|m| - 1], bs);
      forall i | 0 <= i < |c| ensures !Covers(c[i], bs, n) {
        CoversEnd(c[i], bs, n);
      }
      AtNone(c, bs, n);
    }
  }

  class BlockList {
    const blockSize: nat
    var head: Node?
    var lastUsed: Node?
    ghost var nodes: seq<Node>

    constructor (blockSize: nat)
      requires blockSize > 0
      ensures Valid() && HintOk() && Blocks() == [] && nodes == [] && this.blockSize == blockSize
    {
      this.blockSize := blockSize;
      head, lastUsed, nodes := null, null, [];
    }

    ghost predicate Valid()
      reads this, nodes
    {
      blockSize > 0 && head == First(nodes) && Chain(nodes)
    }

    ghost function Blocks(): seq<Block>
      reads this, nodes
    {
      Values(nodes)
    }

    /** The search hint is unset or names a node that is still in the list. */
    ghost predicate HintOk()
      reads this
    {
      lastUsed == null || lastUsed in nodes
    }

    /** merge_bb, for the i-th node and its successor, if any. */
    method Merge(a: Node, b: Node?, ghost i: nat) returns (merged: bool)
      requires Valid() && i < |nodes| && nodes[i] == a && b == a.next
      requires b != null ==> a.block < b.block
      modifies this`nodes, a`len, a`next
      ensures Valid()
      ensures MergedAt(old(Blocks()), blockSize, i, merged, Blocks())
      ensures nodes == if merged then old(nodes)[..i + 1] + old(nodes)[i + 2..] else old(nodes)
    {
      hide Chain, Values;
      ChainNext(nodes, i);
      if b == null {
        return false;
      }
      ghost var s := Blocks();
      assert s[i] == a.Value() && s[i + 1] == b.Value();
      var blockLen := a.len / blockSize;
      if a.block + blockLen != b.block {
        return false;
      }
      match (a.backing, b.backing) {
        case (Fill(v), Fill(w)) =>
          if v != w {
            return false;
          }
        case (File(f, o), File(g, p)) =>
          if f != g || o + a.len != p {
            return false;
          }
        case (Fd(f, o), Fd(g, p)) =>
          if f != g || o + a.len != p {
            return false;
          }
        case _ =>
          return false;
      }
      Absorb(a, b, i);
      return true;
    }

    /** The end of merge_bb: b is merged into a and dropped. */
    method Absorb(a: Node, b: Node, ghost i: nat)
      requires Valid() && i + 1 < |nodes| && nodes[i] == a && nodes[i + 1] == b && a.next == b && a != b
      modifies this`nodes, a`len, a`next
      ensures Valid()
      ensures nodes == old(nodes)[..i + 1] + old(nodes)[i + 2..]
      ensures Blocks() == old(Blocks())[..i] + [Merged(old(Blocks())[i], old(Blocks())[i + 1])] + old(Blocks())[i + 2..]
    {
      hide Chain, Values, Distinct, First;
      ghost var vals := Values(nodes);
      ChainOthers(nodes, i);
      ChainOthers(nodes, i + 1);
      DistinctNodes(nodes);
      a.len := (a.len + b.len) % WORD;
      a.next := b.next;
      assert Others(nodes, vals, i);
      Unlinked(nodes, vals, i, nodes[..i + 1] + nodes[i + 2..]);
      nodes := nodes[..i + 1] + nodes[i + 2..];
      FirstSame(old(nodes), nodes);
    }

    /** queue_bb. The list ends up as if the search had started at the head, whatever the
        hint; and the hint stays usable unless the new node, which it names, was merged away. */
    method Queue(b: Node) returns (freed: bool)
      requires Valid() && HintOk() && b !in nodes && b.next == null
      requires Ascending(Blocks()) && forall n :: n in nodes ==> n.block != b.block
      modifies this, nodes, b
      ensures Valid()
      ensures Blocks() == Queued(old(Blocks()), blockSize, old(b.Value()))
      ensures freed <==> MergesLeft(old(Blocks()), blockSize, old(b.Value()))
      ensures HintOk() <==> !freed
      ensures forall n :: n in nodes ==> n in old(nodes) || n == b
    {
      hide Chain, Values, CanMerge, Merged, WithNext, Place;
      ghost var s, v := Blocks(), b.Value();
      freed := false;
      if head == null {
        head, nodes := b, [b];
        LinkedFirst([], b);
        assert [b] + [] == [b];
        return;
      }
      if head.block > b.block {
        b.next := head;
        head := b;
        LinkedFirst(nodes, b);
        nodes := [b] + nodes;
        return;
      }
      ghost var i: nat;
      var bb;
      bb, i := Search(b);
      lastUsed := b;
      Insert(bb, b, i);
      freed := MergeBoth(bb, b, i, s, v);
    }

    /** backed_block_add_data and its like, for a block that is clear of the list: the image
        is updated exactly on the new range, the list stays sorted and without overlaps, and
        nothing is left that could be merged, but a first block with its successor. */
    method Add(v: Block) returns (freed: bool)
      requires Valid() && HintOk() && Ordered(Blocks(), blockSize) && Positive(Blocks())
      requires v.len > 0 && Fresh(Blocks(), blockSize, v) && MergesFit(Blocks(), blockSize, v)
      modifies this, nodes
      ensures Valid() && Updates(Blocks(), old(Blocks()), blockSize, v)
      ensures old(Settled(Blocks(), blockSize)) ==>
                (Settled(Blocks(), blockSize)
                 <==> !(old(Blocks()) != [] && v.block < old(Blocks())[0].block && CanMerge(v, old(Blocks())[0], blockSize)))
      ensures HintOk() <==> !freed
      ensures forall n :: n in nodes ==> n in old(nodes) || fresh(n)
    {
      hide Chain, Queued, MergesFit, MergesLeft, Updates, Ordered, Positive, Settled, CanMerge;
      ghost var s := Blocks();
      OrderedAscending(s, blockSize);
      forall n | n in nodes ensures n.block != v.block {
        var i :| 0 <= i < |nodes| && nodes[i] == n;
        NotAtStart(s, blockSize, v, i);
      }
      QueuedMap(s, blockSize, v);
      if Settled(s, blockSize) {
        QueuedSettled(s, blockSize, v);
      }
      var b := new Node(v);
      freed := Queue(b);
    }

    /** The two merges that follow the insertion of b, with value v, into s. */
    method MergeBoth(bb: Node, b: Node, ghost i: nat, ghost s: seq<Block>, ghost v: Block) returns (freed: bool)
      requires Valid() && i < |s| && s[0].block <= v.block && i + 1 == Place(s, v)
      requires Blocks() == s[..i + 1] + [v] + s[i + 1..]
      requires |nodes| == |s| + 1 && nodes[i] == bb && nodes[i + 1] == b && lastUsed == b
      requires s[i].block < v.block && (i + 1 < |s| ==> v.block < s[i + 1].block)
      modifies this`nodes, bb, b
      ensures Valid()
      ensures Blocks() == Queued(s, blockSize, v)
      ensures freed <==> MergesLeft(s, blockSize, v)
      ensures HintOk() <==> !freed
      ensures forall n :: n in nodes ==> n in old(nodes)
    {
      hide Chain, Values, CanMerge, Merged, WithNext, Place, First, Queued, MergesLeft;
      ghost var u := Blocks();
      assert u[i + 1] == v == b.Value() && u[i] == s[i] == bb.Value();
      ChainNext(nodes, i + 1);
      assert i + 2 < |nodes| ==> nodes[i + 2].Value() == u[i + 2] == s[i + 1];
      var right := Merge(b, b.next, i + 1);
      WithNextList(s, blockSize, v, i + 1, right, u, Blocks());
      freed := MergeLeft(bb, b, i, s, v);
    }

    method MergeLeft(bb: Node, b: Node, ghost i: nat, ghost s: seq<Block>, ghost v: Block) returns (freed: bool)
      requires Valid() && i < |s| && s[0].block <= v.block && i + 1 == Place(s, v)
      requires Blocks() == s[..i + 1] + WithNext(s, blockSize, v, i + 1)
      requires i + 1 < |nodes| && nodes[i] == bb && nodes[i + 1] == b && lastUsed == b && bb.block < b.block
      modifies this`nodes, bb
      ensures Valid()
      ensures Blocks() == Queued(s, blockSize, v)
      ensures freed <==> MergesLeft(s, blockSize, v)
      ensures HintOk() <==> !freed
      ensures forall n :: n in nodes ==> n in old(nodes)
    {
      hide Chain, Values, CanMerge, Merged, WithNext, Place, First, Queued, MergesLeft;
      ghost var w, before := Blocks(), nodes;
      ChainNext(nodes, i);
      InNodes(nodes, i);
      ChainDistinct(nodes);
      freed := Merge(bb, b, i);
      QueuedList(s, blockSize, v, i + 1, freed, w, Blocks());
      assert freed ==> b !in nodes by {
        if freed { NotInWithout(before, i); }
      }
    }

    /** The search for the node to insert after, from the hint or from the head. */
    method Search(b: Node) returns (bb: Node, ghost i: nat)
      requires Valid() && HintOk() && b !in nodes
      requires Ascending(Blocks()) && forall n :: n in nodes ==> n.block != b.block
      requires head != null && head.block < b.block
      ensures i < |nodes| && bb == nodes[i]
      ensures i + 1 == Place(Blocks(), b.Value())
      ensures bb == nodes[Place(Blocks(), b.Value()) - 1]
      ensures Blocks()[i].block < b.block && (i + 1 < |nodes| ==> b.block < Blocks()[i + 1].block)
    {
      hide Chain, Values, Place;
      ghost var s := Blocks();
      i, bb := 0, head;
      if lastUsed != null && b.block > lastUsed.block {
        bb := lastUsed;
        i :| 0 <= i < |nodes| && nodes[i] == lastUsed;
      }
      assert s[i].block < b.block;
      while bb.next != null && bb.next.block < b.block
        invariant 0 <= i < |nodes| && bb == nodes[i] && s[i].block < b.block
        decreases |nodes| - i
      {
        ChainNext(nodes, i);
        bb := bb.next;
        i := i + 1;
      }
      ChainNext(nodes, i);
      PlaceUnique(s, b.Value(), i + 1);
    }

    method Insert(bb: Node, b: Node, ghost i: nat)
      requires Valid() && i < |nodes| && bb == nodes[i] && b !in nodes && b.next == null
      modifies this`nodes, bb, b
      ensures Valid()
      ensures nodes == old(nodes)[..i + 1] + [b] + old(nodes)[i + 1..]
      ensures Blocks() == old(Blocks())[..i + 1] + [old(b.Value())] + old(Blocks())[i + 1..]
    {
      hide Chain, Values, Distinct, First;
      ghost var vals := Values(nodes);
      ChainOthers(nodes, i);
      ChainOthers(nodes, |nodes|);
      DistinctNodes(nodes);
      if bb.next == null {
        bb.next := b;
      } else {
        b.next := bb.next;
        bb.next := b;
      }
      assert Others(nodes, vals, i);
      LinkedAfter(nodes, vals, i, b, nodes[..i + 1] + [b] + nodes[i + 1..]);
      nodes := nodes[..i + 1] + [b] + nodes[i + 1..];
      FirstSame(old(nodes), nodes);
      assert old(Blocks())[..i + 1] == old(Blocks())[..i] + [old(bb.Value())];
    }

    /** backed_block_split, for the i-th node. */
    method Split(bb: Node, maxLen: nat, ghost i: nat)
      requires Valid() && i < |nodes| && nodes[i] == bb
      modifies this`nodes, bb
      ensures Valid()
      ensures Blocks() == old(Blocks())[..i] + Pieces(old(Blocks())[i], blockSize, maxLen) + old(Blocks())[i + 1..]
      ensures |nodes| >= |old(nodes)| && nodes[..i + 1] == old(nodes)[..i + 1]
      ensures forall n :: n in nodes ==> n in old(nodes) || fresh(n)
    {
      hide Chain, Values, Distinct, First, AlignDown, Pieces;
      var cut := AlignDown(maxLen, blockSize);
      ghost var vals := Values(nodes);
      assert vals[i] == bb.Value();
      PiecesAre(vals[i], blockSize, maxLen);
      if bb.len <= cut {
        assert vals == vals[..i] + [vals[i]] + vals[i + 1..];
        return;
      }
      var b := new Node(Block(bb.block + cut / blockSize, bb.len - cut, Advance(bb.backing, cut)));
      SplitOff(bb, b, cut, i);
    }

    method SplitOff(bb: Node, b: Node, cut: nat, ghost i: nat)
      requires Valid() && i < |nodes| && nodes[i] == bb && b !in nodes
      modifies this`nodes, bb`next, bb`len, b`next
      ensures Valid()
      ensures nodes == old(nodes)[..i + 1] + [b] + old(nodes)[i + 1..]
      ensures Blocks() == old(Blocks())[..i] + [old(bb.Value()).(len := cut), old(b.Value())] + old(Blocks())[i + 1..]
    {
      hide Chain, Values, Distinct, First;
      ghost var vals := Values(nodes);
      ChainOthers(nodes, i);
      ChainOthers(nodes, |nodes|);
      DistinctNodes(nodes);
      b.next := bb.next;
      bb.next := b;
      bb.len := cut;
      assert Others(nodes, vals, i);
      LinkedAfter(nodes, vals, i, b, nodes[..i + 1] + [b] + nodes[i + 1..]);
      nodes := nodes[..i + 1] + [b] + nodes[i + 1..];
      FirstSame(old(nodes), nodes);
    }

    /** The search for the node before the lo-th. */
    method FindBefore(start: Node, ghost lo: nat) returns (bb: Node)
      requires Valid() && 0 < lo < |nodes| && nodes[lo] == start
      ensures bb == nodes[lo - 1]
    {
      hide Chain, Distinct;
      ChainDistinct(nodes);
      DistinctNodes(nodes);
      bb := head;
      ghost var i := 0;
      ChainNext(nodes, 0);
      while bb.next != start
        invariant i < lo && bb == nodes[i] && bb.next == nodes[i + 1]
        decreases lo - i
      {
        bb := bb.next;
        i := i + 1;
        ChainNext(nodes, i);
      }
    }

    /** The first half of backed_block_list_move: nodes lo to hi leave the list. */
    method TakeOut(start: Node, end: Node, ghost lo: nat, ghost hi: nat)
      requires Valid() && lo < hi <= |nodes| && nodes[lo] == start && nodes[hi - 1] == end
      modifies this, nodes
      ensures Valid() && lastUsed == null
      ensures nodes == old(nodes)[..lo] + old(nodes)[hi..]
      ensures Blocks() == old(Blocks())[..lo] + old(Blocks())[hi..]
      ensures Segment(old(nodes)[lo..hi], old(Blocks())[lo..hi])
    {
      hide Chain, Values, Distinct, First, Segment;
      ghost var vals := Values(nodes);
      lastUsed := null;
      ChainDistinct(nodes);
      DistinctNodes(nodes);
      ChainOthers(nodes, |nodes|);
      FirstOf(nodes);
      if head == start {
        assert lo == 0;
        head := end.next;
        CutOut(nodes, vals, lo, hi);
        nodes := nodes[..lo] + nodes[hi..];
        assert nodes == old(nodes)[hi..];
      } else {
        assert lo > 0;
        var bb := FindBefore(start, lo);
        PassOver(bb, end, lo, hi);
      }
    }

    method PassOver(bb: Node, end: Node, ghost lo: nat, ghost hi: nat)
      requires Valid() && 0 < lo < hi <= |nodes| && nodes[lo - 1] == bb && nodes[hi - 1] == end
      modifies this`nodes, bb
      ensures Valid()
      ensures nodes == old(nodes)[..lo] + old(nodes)[hi..]
      ensures Blocks() == old(Blocks())[..lo] + old(Blocks())[hi..]
      ensures Segment(old(nodes)[lo..hi], old(Blocks())[lo..hi])
    {
      hide Chain, Values, Distinct, First, Segment;
      ghost var vals := Values(nodes);
      ChainDistinct(nodes);
      DistinctNodes(nodes);
      ChainOthers(nodes, lo - 1);
      ChainOthers(nodes, |nodes|);
      bb.next := end.next;
      assert Others(nodes, vals, lo - 1);
      CutOut(nodes, vals, lo, hi);
      nodes := nodes[..lo] + nodes[hi..];
      FirstSame(old(nodes), nodes);
    }

    /** The search for the node to link a segment in after. */
    method FindPlace(start: Node) returns (bb: Node, ghost i: nat)
      requires Valid() && head != null
      ensures i < |nodes| && nodes[i] == bb && Blocks() != [] && i == UpTo(Blocks()[1..], start.block)
      ensures bb == nodes[UpTo(Blocks()[1..], start.block)]
    {
      hide Chain, Values;
      ghost var vals := Blocks();
      bb, i := head, 0;
      ChainNext(nodes, 0);
      while bb.next != null && bb.next.block <= start.block
        invariant i < |nodes| && bb == nodes[i] && bb.next == if i + 1 < |nodes| then nodes[i + 1] else null
        invariant forall k :: 0 < k <= i ==> vals[k].block <= start.block
        decreases |nodes| - i
      {
        bb := bb.next;
        i := i + 1;
        ChainNext(nodes, i);
      }
      UpToUnique(vals[1..], start.block, i);
    }

    /** The last node, if any. */
    method FindLast(start: Node?, ghost lo: nat) returns (end: Node?)
      requires Valid() && lo <= |nodes| && start == First(nodes[lo..])
      ensures if lo == |nodes| then end == null else end == nodes[|nodes| - 1]
    {
      hide Chain, Values;
      end := start;
      ghost var e := lo;
      if lo < |nodes| {
        ChainNext(nodes, lo);
      }
      while end != null && end.next != null
        invariant if lo == |nodes| then end == null else
                  lo <= e < |nodes| && end == nodes[e] && end.next == if e + 1 < |nodes| then nodes[e + 1] else null
        decreases |nodes| - e
      {
        end := end.next;
        e := e + 1;
        ChainNext(nodes, e);
      }
    }

    /** The second half: the segment is linked in. */
    method LinkIn(start: Node, end: Node, ghost m: seq<Node>, ghost valsM: seq<Block>)
      requires Valid() && Segment(m, valsM) && m != [] && m[0] == start && m[|m| - 1] == end
      requires Apart(nodes, m)
      modifies this, nodes, end
      ensures Valid() && lastUsed == null
      ensures Blocks() == MovedInto(old(Blocks()), valsM)
      ensures forall n :: n in nodes <==> n in old(nodes) || n in m
    {
      hide Chain, Values, Distinct, First, UpTo, MovedInto, Segment;
      lastUsed := null;
      FirstOf(nodes);
      FirstOf(m);
      ghost var vals := Blocks();
      if head == null {
        LinkFirst(start, end, m, valsM);
        MovedIntoIs(vals, valsM, 0);
      } else {
        var bb;
        ghost var i;
        bb, i := FindPlace(start);
        SegmentFirst(m, valsM);
        MovedIntoIs(vals, valsM, i);
        LinkAt(bb, start, end, m, valsM, i);
        InSplice(old(nodes), i + 1, m);
      }
    }

    method LinkFirst(start: Node, end: Node, ghost m: seq<Node>, ghost valsM: seq<Block>)
      requires Segment(m, valsM) && m != [] && m[0] == start && m[|m| - 1] == end && blockSize > 0
      modifies `head, `nodes, end
      ensures Valid() && nodes == m && Blocks() == valsM
    {
      hide Chain, Values, Distinct;
      SegmentDistinct(m, valsM);
      head := start;
      end.next := null;
      assert Segment(m, valsM);
      SegmentEnds(m, valsM);
      nodes := m;
    }

    method LinkAt(bb: Node, start: Node, end: Node, ghost m: seq<Node>, ghost valsM: seq<Block>, ghost i: nat)
      requires Valid() && Segment(m, valsM) && m != [] && m[0] == start && m[|m| - 1] == end
      requires Apart(nodes, m)
      requires i < |nodes| && nodes[i] == bb
      modifies this`nodes, bb, end
      ensures Valid()
      ensures nodes == old(nodes)[..i + 1] + m + old(nodes)[i + 1..]
      ensures Blocks() == old(Blocks())[..i + 1] + valsM + old(Blocks())[i + 1..]
    {
      hide Chain, Values, Distinct, First;
      ghost var vals := Values(nodes);
      ChainDistinct(nodes);
      DistinctNodes(nodes);
      ChainOthers(nodes, i);
      ChainOthers(nodes, |nodes|);
      assert end in m && bb in nodes;
      assert forall k :: 0 <= k < |nodes| ==> nodes[k] in nodes;
      SegmentDistinct(m, valsM);
      end.next := bb.next;
      bb.next := start;
      assert Others(nodes, vals, i);
      assert Segment(m, valsM);
      Spliced(nodes, vals, i + 1, m, valsM);
      nodes := nodes[..i + 1] + m + nodes[i + 1..];
      FirstSame(old(nodes), nodes);
    }
  }

  lemma SegmentDistinct(m: seq<Node>, vals: seq<Block>)
    requires Segment(m, vals)
    ensures forall i, j :: 0 <= i < |m| && 0 <= j < |m| && i != j ==> m[i] != m[j]
    ensures forall k :: 0 <= k < |m| ==> m[k] in m
  {
  }

  /** backed_block_list_move: nodes lo to hi, which start and end name, leave one list for
      the other. A null start is the head, a null end the last node. */
  method Move(from: BlockList, into: BlockList, start: Node?, end: Node?, ghost lo: nat, ghost hi: nat)
    requires from != into && from.Valid() && into.Valid()
    requires Apart(from.nodes, into.nodes)
    requires lo <= hi <= |from.nodes|
    requires if start == null then lo == 0 else lo < |from.nodes| && from.nodes[lo] == start
    requires if end == null then hi == |from.nodes| else lo < hi && from.nodes[hi - 1] == end
    modifies from, into, from.nodes, into.nodes
    ensures from.Valid() && into.Valid()
    ensures if lo < hi then from.lastUsed == into.lastUsed == null
            else from.lastUsed == old(from.lastUsed) && into.lastUsed == old(into.lastUsed)
    ensures from.nodes == old(from.nodes)[..lo] + old(from.nodes)[hi..]
    ensures from.Blocks() == old(from.Blocks())[..lo] + old(from.Blocks())[hi..]
    ensures into.Blocks() == MovedInto(old(into.Blocks()), old(from.Blocks())[lo..hi])
    ensures forall n :: n in into.nodes <==> n in old(into.nodes) || n in old(from.nodes)[lo..hi]
    ensures Apart(from.nodes, into.nodes)
  {
    hide Chain, Values, First;
    FirstOf(from.nodes);
    var first := if start == null then from.head else start;
    FirstOf(from.nodes[lo..]);
    var last := end;
    if last == null {
      last := from.FindLast(first, lo);
    }
    if first == null || last == null {
      return;
    }
    MoveSome(from, into, first, last, lo, hi);
  }

  method MoveSome(from: BlockList, into: BlockList, start: Node, end: Node, ghost lo: nat, ghost hi: nat)
    requires from != into && from.Valid() && into.Valid()
    requires Apart(from.nodes, into.nodes)
    requires lo < hi <= |from.nodes| && from.nodes[lo] == start && from.nodes[hi - 1] == end
    modifies from, into, from.nodes, into.nodes
    ensures from.Valid() && into.Valid()
    ensures from.lastUsed == into.lastUsed == null
    ensures from.nodes == old(from.nodes)[..lo] + old(from.nodes)[hi..]
    ensures from.Blocks() == old(from.Blocks())[..lo] + old(from.Blocks())[hi..]
    ensures into.Blocks() == MovedInto(old(into.Blocks()), old(from.Blocks())[lo..hi])
    ensures forall n :: n in into.nodes <==> n in old(into.nodes) || n in old(from.nodes)[lo..hi]
    ensures Apart(from.nodes, into.nodes)
  {
    hide Chain, Values, First, MovedInto, Segment, Distinct;
    ghost var m, valsM := from.nodes[lo..hi], from.Blocks()[lo..hi];
    ChainDistinct(from.nodes);
    PartsApart(from.nodes, lo, hi, into.nodes);
    from.TakeOut(start, end, lo, hi);
    assert into.Valid() && into.Blocks() == old(into.Blocks());
    into.LinkIn(start, end, m, valsM);
    StillApart(old(from.nodes), lo, hi, old(into.nodes), into.nodes);
  }

  lemma StillApart(nodes: seq<Node>, lo: nat, hi: nat, other: seq<Node>, into: seq<Node>)
    requires lo <= hi <= |nodes| && Distinct(nodes) && Apart(nodes, other)
    requires forall n :: n in into ==> n in other || n in nodes[lo..hi]
    ensures Apart(nodes[..lo] + nodes[hi..], into)
  {
    var m := nodes[..lo] + nodes[hi..];
    forall i, j | 0 <= i < |m| && 0 <= j < |into| ensures m[i] != into[j] {
      assert m[i] == nodes[if i < lo then i else i - lo + hi];
      if into[j] in other {
        var k :| 0 <= k < |other| && other[k] == into[j];
      } else {
        var k :| 0 <= k < hi - lo && nodes[lo..hi][k] == into[j];
        assert nodes[lo + k] == into[j];
      }
    }
  }

  /** The parts of a chain are apart from each other and from another chain. */
  lemma PartsApart(nodes: seq<Node>, lo: nat, hi: nat, other: seq<Node>)
    requires lo < hi <= |nodes| && Distinct(nodes) && Apart(nodes, other)
    ensures Apart(nodes[..lo] + nodes[hi..], other) && Apart(other, nodes[lo..hi])
    ensures forall i :: 0 <= i < |nodes[..lo] + nodes[hi..]| ==> (nodes[..lo] + nodes[hi..])[i] != nodes[hi - 1]
  {
  }

  lemma InSplice(t: seq<Node>, k: nat, m: seq<Node>)
    requires k <= |t|
    ensures forall n :: n in t[..k] + m + t[k..] <==> n in t || n in m
  {
    assert t == t[..k] + t[k..];
  }

  lemma SegmentFirst(m: seq<Node>, vals: seq<Block>)
    requires Segment(m, vals) && m != []
    ensures |vals| == |m| && vals[0] == m[0].Value()
  {
  }

  lemma MovedIntoIs(t: seq<Block>, m: seq<Block>, i: nat)
    requires t != [] && m != [] ==> i == UpTo(t[1..], m[0].block)
    ensures MovedInto(t, m) == if t == [] then m else if m == [] then t else t[..i + 1] + m + t[i + 1..]
  {
    hide UpTo;
  }

  lemma InNodes(nodes: seq<Node>, i: nat)
    requires i + 1 < |nodes|
    ensures nodes[i + 1] in nodes
  {
  }

  lemma NotInWithout(nodes: seq<Node>, i: nat)
    requires i + 1 < |nodes| && Distinct(nodes)
    ensures nodes[i + 1] !in nodes[..i + 1] + nodes[i + 2..]
  {
  }

  lemma PiecesAre(v: Block, bs: nat, maxLen: nat)
    requires bs > 0
    ensures
      var cut := AlignDown(maxLen, bs);
      Pieces(v, bs, maxLen) ==
      if v.len <= cut then [v] else [v.(len := cut), Block(v.block + cut / bs, v.len - cut, Advance(v.backing, cut))]
  {
    AlignDownFacts(maxLen, bs);
  }

  /** What a merge of neighbours p and p + 1 makes of the list u. */
  ghost predicate MergedAt(u: seq<Block>, bs: nat, p: nat, merged: bool, r: seq<Block>)
    requires bs > 0 && p < |u|
  {
    && (merged <==> p + 1 < |u| && CanMerge(u[p], u[p + 1], bs))
    && r == if merged then u[..p] + [Merged(u[p], u[p + 1])] + u[p + 2..] else u
  }

  lemma WithNextList(s: seq<Block>, bs: nat, v: Block, p: nat, merged: bool, u: seq<Block>, r: seq<Block>)
    requires bs > 0 && 0 < p <= |s| && u == s[..p] + [v] + s[p..] && MergedAt(u, bs, p, merged, r)
    ensures r == s[..p] + WithNext(s, bs, v, p)
  {
    hide CanMerge, Merged;
    assert u[p] == v && |u| == |s| + 1;
    if p < |s| {
      assert u[p + 1] == s[p];
      assert u[p + 2..] == s[p + 1..];
      assert u[..p] == s[..p];
      assert s[..p] + ([Merged(v, s[p])] + s[p + 1..]) == s[..p] + [Merged(v, s[p])] + s[p + 1..];
    }
    assert s[..p] + ([v] + s[p..]) == u;
  }

  lemma QueuedList(s: seq<Block>, bs: nat, v: Block, p: nat, merged: bool, w: seq<Block>, r: seq<Block>)
    requires bs > 0 && 0 < p <= |s| && s[0].block <= v.block && p == Place(s, v)
    requires w == s[..p] + WithNext(s, bs, v, p) && MergedAt(w, bs, p - 1, merged, r)
    ensures r == Queued(s, bs, v) && (merged <==> MergesLeft(s, bs, v))
  {
    hide CanMerge, Merged, WithNext, Place;
    var t := WithNext(s, bs, v, p);
    assert w[p - 1] == s[p - 1] && w[p] == t[0];
    assert w[..p - 1] == s[..p - 1];
    assert w[p + 1..] == t[1..];
  }
}
