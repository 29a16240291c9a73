/** The userspace access vector cache: tools/libselinux/src/avc.c and the notices of
    avc_internal.c. */
module Avc {
  /** AVC_CACHE_SLOTS. */
  const SLOTS: nat := 512

  type Sid = bv64
  type Perms = bv32

  datatype Key = Key(ssid: Sid, tsid: Sid, tclass: Sid)

  const NO_KEY: Key := Key(0, 0, 0)

  /** What a policy says about a key. */
  datatype Decision = Decision(allowed: Perms, decided: Perms, permissive: bool)

  /** struct av_decision: a decision and the sequence number of its policy. */
  datatype Avd = Avd(allowed: Perms, decided: Perms, permissive: bool, seqno: nat)

  const NO_AVD: Avd := Avd(0, 0, false, 0)

  /** The kernel's policies, by sequence number. */
  type Policies = (nat, Key) -> Decision

  /** security_compute_av under the given policy. */
  function ComputeAv(policies: Policies, seqno: nat, key: Key): Avd {
    var d := policies(seqno, key);
    Avd(d.allowed, d.decided, d.permissive, seqno)
  }

  function Bucket(ssid: Sid, tsid: Sid, tclass: Sid): Sid {
    (ssid ^ (tsid << 2) ^ tclass) & 511
  }

  /** avc_hash. */
  function Hash(k: Key): (r: nat)
    ensures r < SLOTS
  {
    Bucket(k.ssid, k.tsid, k.tclass) as nat
  }

  /** The low nine bits of the source and of the class and the low seven of the target tell
      chains apart, each given the other two; higher ones do not. */
  lemma BucketBits(s: Sid, t: Sid, c: Sid, x: Sid)
    ensures Bucket(s, t, c) == Bucket(x, t, c) <==> s & 511 == x & 511
    ensures Bucket(s, t, c) == Bucket(s, x, c) <==> t & 127 == x & 127
    ensures Bucket(s, t, c) == Bucket(s, t, x) <==> c & 511 == x & 511
  {
    hide Bucket;
    if Bucket(s, t, c) == Bucket(x, t, c) { SourceBits(s, t, c, x); }
    if s & 511 == x & 511 { SameSource(s, t, c, x); }
    if Bucket(s, t, c) == Bucket(s, x, c) { TargetBits(s, t, c, x); }
    if t & 127 == x & 127 { SameTarget(s, t, c, x); }
    if Bucket(s, t, c) == Bucket(s, t, x) { ClassBits(s, t, c, x); }
    if c & 511 == x & 511 { SameClass(s, t, c, x); }
  }

  lemma SourceBits(s: Sid, t: Sid, c: Sid, x: Sid)
    requires Bucket(s, t, c) == Bucket(x, t, c)
    ensures s & 511 == x & 511
  {
  }

  lemma SameSource(s: Sid, t: Sid, c: Sid, x: Sid)
    requires s & 511 == x & 511
    ensures Bucket(s, t, c) == Bucket(x, t, c)
  {
  }

  lemma TargetBits(s: Sid, t: Sid, c: Sid, x: Sid)
    requires Bucket(s, t, c) == Bucket(s, x, c)
    ensures t & 127 == x & 127
  {
  }

  lemma SameTarget(s: Sid, t: Sid, c: Sid, x: Sid)
    requires t & 127 == x & 127
    ensures Bucket(s, t, c) == Bucket(s, x, c)
  {
  }

  lemma ClassBits(s: Sid, t: Sid, c: Sid, x: Sid)
    requires Bucket(s, t, c) == Bucket(s, t, x)
    ensures c & 511 == x & 511
  {
  }

  lemma SameClass(s: Sid, t: Sid, c: Sid, x: Sid)
    requires c & 511 == x & 511
    ensures Bucket(s, t, c) == Bucket(s, t, x)
  {
  }

  /** struct avc_node; the chains are kept by the cache. */
  class Node {
    var key: Key
    var avd: Avd
    var used: bool
    /** The permissions requested of this entry in permissive mode, of the system or of the
        domain, since the entry was made. */
    ghost var asked: Perms

    constructor ()
      ensures Clear()
    {
      key, avd, used, asked := NO_KEY, NO_AVD, false, 0;
    }

    ghost predicate Clear()
      reads this
    {
      key == NO_KEY && avd == NO_AVD && !used && asked == 0
    }
  }

  ghost predicate NoDup(s: seq<Node>) {
    forall i, j :: 0 <= i < j < |s| ==> s[i] != s[j]
  }

  ghost function Total(slots: seq<seq<Node>>): nat {
    if slots == [] then 0 else Total(slots[..|slots| - 1]) + |slots[|slots| - 1]|
  }

  lemma {:induction false} TotalUpdate(slots: seq<seq<Node>>, h: nat, chain: seq<Node>)
    requires h < |slots|
    ensures Total(slots[h := chain]) == Total(slots) - |slots[h]| + |chain|
  {
    var n := |slots| - 1;
    if h == n {
      assert slots[h := chain][..n] == slots[..n];
    } else {
      assert slots[h := chain][..n] == slots[..n][h := chain];
      TotalUpdate(slots[..n], h, chain);
    }
  }

  /** What the netlink thread has still to do for the notice it is processing: flush the
      cache, or raise latest_notif. */
  datatype Pending = Idle | NeedsFlush(seqno: nat) | NeedsNotif(seqno: nat)

  ghost function Larger(a: nat, b: nat): nat {
    if a < b then b else a
  }

  datatype Answer = Granted | Denied | Again | Failed

  /** The requested permissions that are not allowed. */
  function Missing(requested: Perms, allowed: Perms): Perms {
    requested & !allowed
  }

  function Union(allowed: Perms, requested: Perms): Perms {
    allowed | requested
  }

  /** The decision settles every permission that is requested. */
  predicate Covers(avd: Avd, requested: Perms) {
    avd.decided & requested == requested
  }

  /** That is, none of them is left undecided. */
  lemma CoversAll(avd: Avd, requested: Perms)
    ensures Covers(avd, requested) <==> Missing(requested, avd.decided) == 0
  {
    hide Missing;
    SubsetBits(avd.decided, requested);
    MissingIs(requested, avd.decided);
  }

  lemma MissingIs(r: Perms, a: Perms)
    ensures Missing(r, a) == r & !a
  {
  }

  lemma SubsetBits(a: bv32, r: bv32)
    ensures a & r == r ==> r & !a == 0
    ensures r & !a == 0 ==> a & r == r
  {
  }

  /** The cached decision `avd` is the policy's `d` and what has been asked for besides. */
  ghost predicate AvdOk(avd: Avd, d: Avd, asked: Perms) {
    avd == d.(allowed := Union(d.allowed, asked))
  }

  lemma AvdFresh(d: Avd)
    ensures AvdOk(d, d, 0)
  {
  }

  lemma AvdWidened(avd: Avd, d: Avd, asked: Perms, r: Perms)
    requires AvdOk(avd, d, asked)
    ensures AvdOk(avd.(allowed := Union(avd.allowed, r)), d, Union(asked, r))
  {
    hide Union;
    UnionAssoc(d.allowed, asked, r);
  }

  lemma UnionAssoc(a: Perms, b: Perms, r: Perms)
    ensures Union(Union(a, b), r) == Union(a, Union(b, r))
  {
  }

  /** Permissions that are already allowed add nothing. */
  lemma AvdCovered(avd: Avd, d: Avd, asked: Perms, r: Perms)
    requires AvdOk(avd, d, asked) && Missing(r, avd.allowed) == 0
    ensures AvdOk(avd, d, Union(asked, r))
  {
    hide Union, Missing;
    Absorbed(avd.allowed, r);
    UnionAssoc(d.allowed, asked, r);
  }

  lemma Absorbed(a: Perms, r: Perms)
    requires Missing(r, a) == 0
    ensures Union(a, r) == a
  {
  }

  /** What the check makes of a cached decision. */
  lemma AvdAnswer(avd: Avd, d: Avd, asked: Perms, r: Perms)
    requires AvdOk(avd, d, asked)
    ensures avd.permissive == d.permissive && Missing(r, avd.allowed) == Missing(r, Union(d.allowed, asked))
    ensures Missing(r, d.allowed) == 0 ==> Missing(r, avd.allowed) == 0
    ensures asked == 0 ==> avd == d
  {
    MoreAllowed(d.allowed, asked, r);
  }

  lemma MoreAllowed(a: Perms, b: Perms, r: Perms)
    ensures Missing(r, a) == 0 ==> Missing(r, Union(a, b)) == 0
    ensures Union(a, 0) == a
  {
  }

  /** The free list that avc_init builds. */
  method MakeNodes(maxNodes: nat) returns (list: seq<Node>, ghost nodes: set<Node>)
    ensures |nodes| == maxNodes && fresh(nodes) && (forall n :: n in nodes <==> n in list) && NoDup(list)
    ensures forall n :: n in nodes ==> n.Clear()
  {
    list, nodes := [], {};
    for i := 0 to maxNodes
      invariant |nodes| == i && fresh(nodes) && (forall n :: n in nodes <==> n in list) && NoDup(list)
      invariant forall n :: n in nodes ==> n.Clear()
    {
      var node := new Node();
      list := [node] + list;
      nodes := nodes + {node};
    }
  }

  class Cache {
    ghost const all: set<Node>
    const slots: array<seq<Node>>
    var freelist: seq<Node>
    var lruHint: nat
    var activeNodes: nat
    var latestNotif: nat
    var enforcing: bool
    /** The application has fixed the mode: setenforce notices are ignored. */
    const fixedMode: bool
    var pending: Pending

    /** The kernel, with the sequence number of its current policy. */
    const policies: Policies
    var current: nat

    /** The policy that was current at the last flush; the latest load notice that has been
        processed. */
    ghost var flushedAt: nat
    ghost var noticed: nat

    /** Every node is either clear and on the free list, or in the chain of its key; and
        active_nodes counts the latter. */
    ghost predicate Table()
      reads `freelist, `lruHint, `activeNodes, slots, all
    {
      Holds(all) && activeNodes == Total(slots[..])
    }

    /** The chains and the free list hold the given nodes. */
    ghost predicate Holds(nodes: set<Node>)
      reads `freelist, `lruHint, slots, nodes
    {
      && slots.Length == SLOTS && lruHint < SLOTS
      && (forall h: nat, i: nat :: h < SLOTS && i < |slots[h]| ==> slots[h][i] in nodes && InChain(slots[h][i], h))
      && (forall h: nat :: h < SLOTS ==> NoDup(slots[h]))
      && NoDup(freelist)
      && (forall i: nat :: i < |freelist| ==> freelist[i] in nodes && freelist[i].Clear())
      && (forall n :: n in nodes ==> if n.key.ssid == 0 then n in freelist else n in slots[Hash(n.key)])
    }

    ghost predicate InChain(n: Node, h: nat)
      reads n
    {
      n.key.ssid != 0 && Hash(n.key) == h
    }

    /** A cached decision is one of a policy no older than the last flush, and what has been
        asked for in permissive mode. */
    ghost predicate EntryOk(n: Node)
      reads this, n
    {
      flushedAt <= n.avd.seqno <= current && AvdOk(n.avd, ComputeAv(policies, n.avd.seqno, n.key), n.asked)
    }

    ghost predicate Valid()
      reads this, slots, all
    {
      && Table()
      && (forall n :: n in all && n.key.ssid != 0 ==> EntryOk(n))
      && noticed <= flushedAt && latestNotif <= flushedAt <= current
      && (!pending.Idle? ==> pending.seqno <= current)
      && (pending.NeedsNotif? ==> pending.seqno <= flushedAt)
      && (enforcing && !pending.NeedsFlush? ==> NothingAsked())
    }

    /** Nothing has been added to an entry, except in a permissive domain. */
    ghost predicate NothingAsked()
      reads this, all
    {
      forall n :: n in all && n.key.ssid != 0 && !n.avd.permissive ==> n.asked == 0
    }

    /** avc_search_node. */
    method SearchNode(key: Key) returns (node: Node?)
      requires Table() && key.ssid != 0
      modifies all`used
      ensures Table()
      ensures node != null ==> Leads(node, key) && node.used
      ensures node == null ==> forall n :: n in all ==> n.key != key
      ensures forall n :: n in all && n != node ==> n.used == old(n.used)
    {
      hide Hash, Total;
      var h := Hash(key);
      var chain := slots[h];
      for i := 0 to |chain|
        invariant forall k: nat :: k < i ==> chain[k].key != key
        invariant Table()
      {
        if chain[i].key == key {
          assert InChain(slots[h][i], h);
          chain[i].used := true;
          return chain[i];
        }
      }
      return null;
    }

    /** The innermost loop of avc_reclaim_node: the first unused node of a chain, the used
        ones before it being given their second chance. */
    method SweepChain(h: nat) returns (found: bool, i: nat)
      requires Table() && h < SLOTS
      modifies all`used
      ensures Table()
      ensures found ==> i < |slots[h]| && !old(slots[h][i].used)
      ensures !found ==> i == |slots[h]|
      ensures forall n :: n in all ==> if n in slots[h][..i] then old(n.used) && !n.used else n.used == old(n.used)
    {
      hide Hash, Total;
      var chain := slots[h];
      i := 0;
      while i < |chain|
        invariant i <= |chain| && Table()
        invariant forall n :: n in all ==> if n in chain[..i] then old(n.used) && !n.used else n.used == old(n.used)
      {
        assert chain[i] !in chain[..i];
        if !chain[i].used {
          return true, i;
        }
        assert InChain(slots[h][i], h);
        chain[i].used := false;
        assert chain[..i + 1] == chain[..i] + [chain[i]];
        i := i + 1;
      }
      return false, i;
    }

    /** How many slots a sweep visits before slot h. */
    ghost function Distance(h: nat): int
      reads `lruHint
    {
      if h >= lruHint then h - lruHint else h + SLOTS - lruHint
    }

    /** A sweep visits node n before place i of chain h. */
    ghost predicate Before(n: Node, h: nat, i: nat)
      reads `lruHint, slots, n
      requires h < slots.Length && i <= |slots[h]|
    {
      Distance(Hash(n.key)) < Distance(h) || (Hash(n.key) == h && n in slots[h][..i])
    }

    /** Some entry is not marked as used. */
    ghost predicate SomeUnused()
      reads all
    {
      exists n :: n in all && n.key.ssid != 0 && !n.used
    }

    /** One sweep over all the slots. */
    method Sweep() returns (found: bool, h: nat, i: nat)
      requires Table()
      modifies all`used
      ensures Table()
      ensures found ==> h < SLOTS == slots.Length && i < |slots[h]| && !old(slots[h][i].used)
      ensures found ==> forall n :: n in all && n.key.ssid != 0 ==>
                if Before(n, h, i) then old(n.used) && !n.used else n.used == old(n.used)
      ensures !found ==> forall n :: n in all && n.key.ssid != 0 ==> old(n.used) && !n.used
    {
      hide Hash, Total, Table, Holds;
      TableSlots();
      h := lruHint;
      ghost var j := 0;
      var more := true;
      while more
        invariant Table() && h < SLOTS && j <= SLOTS && (more <==> j < SLOTS)
        invariant more ==> h == if lruHint + j < SLOTS then lruHint + j else lruHint + j - SLOTS
        invariant forall n :: n in all && n.key.ssid != 0 ==>
                    if Distance(Hash(n.key)) < j then old(n.used) && !n.used else n.used == old(n.used)
        decreases SLOTS - j
      {
        TableSlots();
        ChainNodes(h);
        found, i := SweepChain(h);
        if found {
          assert j == Distance(h);
          return true, h, i;
        }
        h := (h + 1) % SLOTS;
        j := j + 1;
        more := h != lruHint;
      }
      return false, 0, 0;
    }

    lemma TableSlots()
      requires Table()
      ensures slots.Length == SLOTS && lruHint < SLOTS
    {
    }

    lemma ChainNodes(h: nat)
      requires Table() && h < SLOTS
      ensures forall n :: n in slots[h] ==> n in all && n.key.ssid != 0 && Hash(n.key) == h
      ensures forall n :: n in all && n.key.ssid != 0 && Hash(n.key) == h ==> n in slots[h]
    {
      hide Hash, Total;
      forall n | n in slots[h] ensures n in all && n.key.ssid != 0 && Hash(n.key) == h {
        var i: nat :| i < |slots[h]| && slots[h][i] == n;
        assert InChain(slots[h][i], h);
      }
    }

    /** The victim of avc_reclaim_node: the first unused node after the hint, each used one
        before it losing its mark, or the first node at all if every one is in use. */
    method FindVictim() returns (found: bool, h: nat, i: nat)
      requires Table()
      modifies all`used
      ensures Table()
      ensures found <==> exists n :: n in all && n.key.ssid != 0
      ensures found ==> h < SLOTS == slots.Length && i < |slots[h]|
      ensures found && old(SomeUnused()) ==> !old(slots[h][i].used) && forall n :: n in all && n.key.ssid != 0 ==>
                if Before(n, h, i) then old(n.used) && !n.used else n.used == old(n.used)
      ensures found && !old(SomeUnused()) ==> forall n :: n in all && n.key.ssid != 0 ==> !Before(n, h, i) && !n.used
    {
      hide Hash, Total, Table, Holds;
      found, h, i := Sweep();
      if !found {
        found, h, i := Sweep();
      }
      if found {
        TableSlots();
        ChainNodes(h);
        assert slots[h][i] in slots[h];
      }
    }

    /** avc_reclaim_node: the node leaves its chain and the hint moves to it. */
    method ReclaimNode() returns (cur: Node?, ghost h: nat, ghost i: nat)
      requires Table()
      modifies all`used, slots, `lruHint
      ensures cur == null <==> forall n :: n in all ==> n.key.ssid == 0
      ensures cur == null ==> Table()
      ensures cur != null ==> cur in all && cur.key.ssid != 0 && Holds(all - {cur}) && activeNodes == Total(slots[..]) + 1
      ensures cur != null ==> h < SLOTS == slots.Length && i < |old(slots[h])| && cur == old(slots[h][i]) && lruHint == h
      ensures cur != null && old(SomeUnused()) ==> !old(cur.used) && forall n :: n in all && n.key.ssid != 0 ==>
                if old(Before(n, h, i)) then old(n.used) && !n.used else n.used == old(n.used)
      ensures cur != null && !old(SomeUnused()) ==> forall n :: n in all && n.key.ssid != 0 ==> !old(Before(n, h, i)) && !n.used
    {
      hide Hash, Total, Table, Holds;
      var found, slot, place := FindVictim();
      h, i := slot, place;
      if !found {
        return null, h, i;
      }
      cur := Unlink(slot, place);
    }

    /** The node at the given place leaves its chain. */
    method Unlink(h: nat, i: nat) returns (cur: Node)
      requires Table() && h < SLOTS && i < |slots[h]|
      modifies slots, `lruHint
      ensures cur == old(slots[h][i]) && lruHint == h
      ensures cur in all && cur.key.ssid != 0 && Holds(all - {cur}) && activeNodes == Total(slots[..]) + 1
    {
      hide Hash, Total;
      cur := slots[h][i];
      assert InChain(slots[h][i], h);
      TotalUpdate(slots[..], h, slots[h][..i] + slots[h][i + 1..]);
      Without(slots[h], i);
      lruHint := h;
      ghost var before := slots[..];
      slots[h] := slots[h][..i] + slots[h][i + 1..];
      assert slots[..] == before[h := slots[h]];
      Detached(before, cur, h, i);
    }

    lemma Detached(before: seq<seq<Node>>, cur: Node, h: nat, i: nat)
      requires slots.Length == SLOTS && |before| == SLOTS && h < SLOTS && i < |before[h]| && before[h][i] == cur && lruHint < SLOTS
      requires slots[..] == before[h := before[h][..i] + before[h][i + 1..]]
      requires cur in all && cur.key.ssid != 0 && Hash(cur.key) == h && NoDup(slots[h])
      requires forall n :: n in slots[h] <==> n in before[h] && n != cur
      requires forall g: nat, k: nat :: g < SLOTS && k < |before[g]| ==> before[g][k] in all && InChain(before[g][k], g)
      requires forall g: nat :: g < SLOTS ==> NoDup(before[g])
      requires NoDup(freelist)
      requires forall k: nat :: k < |freelist| ==> freelist[k] in all && freelist[k].Clear()
      requires forall n :: n in all ==> if n.key.ssid == 0 then n in freelist else n in before[Hash(n.key)]
      ensures Holds(all - {cur})
    {
      hide Hash, Total;
      forall g: nat, k: nat | g < SLOTS && k < |slots[g]| ensures slots[g][k] in all - {cur} && InChain(slots[g][k], g) {
        assert slots[g] == slots[..][g];
        if g == h {
          assert slots[g][k] in slots[h];
          var m: nat :| m < |before[h]| && before[h][m] == slots[g][k];
          assert InChain(before[h][m], h);
        } else {
          assert InChain(before[g][k], g);
        }
      }
      forall g: nat | g < SLOTS ensures NoDup(slots[g]) {
        assert slots[g] == slots[..][g];
      }
      forall n | n in all - {cur} ensures if n.key.ssid == 0 then n in freelist else n in slots[Hash(n.key)] {
        assert slots[Hash(n.key)] == slots[..][Hash(n.key)];
      }
    }

    /** n is the first entry of the key in its chain. */
    ghost predicate Leads(n: Node, key: Key)
      reads slots, all`key
    {
      && n in all && n.key == key && Hash(key) < slots.Length
      && exists i :: 0 <= i < |slots[Hash(key)]| && slots[Hash(key)][i] == n && NoneBefore(slots[Hash(key)], i, key)
    }

    ghost predicate NoneBefore(chain: seq<Node>, i: nat, key: Key)
      reads all`key
      requires i <= |chain|
    {
      forall k :: 0 <= k < i ==> chain[k] in all && chain[k].key != key
    }

    /** The end of avc_claim_node: the node is cleared and put at the head of its chain. */
    method Attach(node: Node, key: Key)
      requires node in all && Holds(all - {node}) && key.ssid != 0 && activeNodes == Total(slots[..]) + 1
      modifies node, slots
      ensures Table()
      ensures node.key == key && node.used && node.avd == NO_AVD && node.asked == 0 && Leads(node, key)
    {
      hide Hash, Total, Leads;
      node.key, node.avd, node.used, node.asked := NO_KEY, NO_AVD, false, 0;
      node.used := true;
      node.key := key;
      var h := Hash(key);
      TotalUpdate(slots[..], h, [node] + slots[h]);
      ghost var before := slots[..];
      slots[h] := [node] + slots[h];
      assert slots[..] == before[h := slots[h]];
      forall g: nat, k: nat | g < SLOTS && k < |slots[g]| ensures slots[g][k] in all && InChain(slots[g][k], g) {
        assert g == h && k > 0 ==> slots[g][k] == before[g][k - 1];
        assert g != h ==> slots[g] == before[g];
      }
      HeadLeads(node, key);
    }

    lemma HeadLeads(node: Node, key: Key)
      requires node in all && node.key == key && Hash(key) < slots.Length
      requires slots[Hash(key)] != [] && slots[Hash(key)][0] == node
      ensures Leads(node, key)
    {
      hide Hash;
    }

    /** avc_claim_node: fails only if there are no nodes at all. */
    method ClaimNode(key: Key) returns (node: Node?)
      requires Table() && key.ssid != 0
      modifies all, slots, `lruHint, `freelist, `activeNodes
      ensures Table()
      ensures node == null <==> all == {}
      ensures node != null ==> Leads(node, key) && node.used && node.avd == NO_AVD && node.asked == 0
      ensures old(freelist) != [] ==> node == old(freelist[0]) && forall n :: n in all && n != node ==> n.used == old(n.used)
      ensures old(freelist) == [] && node != null && old(SomeUnused()) ==> !old(node.used)
      ensures forall n :: n in all && n != node ==> n.key == old(n.key) && n.avd == old(n.avd) && n.asked == old(n.asked)
    {
      hide Hash, Total, Table, Holds, Leads;
      if freelist != [] {
        node := TakeFree();
      } else {
        ghost var h, i;
        node, h, i := ReclaimNode();
        if node == null {
          NoneFree();
          return;
        }
      }
      Attach(node, key);
    }

    /** The first node of the free list leaves it. */
    method TakeFree() returns (node: Node)
      requires Table() && freelist != []
      modifies `freelist, `activeNodes
      ensures node == old(freelist[0]) && freelist == old(freelist[1..])
      ensures node in all && Holds(all - {node}) && activeNodes == Total(slots[..]) + 1
    {
      hide Hash, Total;
      node := freelist[0];
      freelist := freelist[1..];
      activeNodes := activeNodes + 1;
      Taken(node, old(freelist));
    }

    lemma NoneFree()
      requires Table() && freelist == [] && forall n :: n in all ==> n.key.ssid == 0
      ensures all == {}
    {
      hide Hash, Total;
      assert forall n :: n in all ==> n in freelist;
    }

    lemma Taken(node: Node, before: seq<Node>)
      requires before != [] && before[0] == node && freelist == before[1..] && NoDup(before)
      requires slots.Length == SLOTS && lruHint < SLOTS
      requires forall h: nat, i: nat :: h < SLOTS && i < |slots[h]| ==> slots[h][i] in all && InChain(slots[h][i], h)
      requires forall h: nat :: h < SLOTS ==> NoDup(slots[h])
      requires forall i: nat :: i < |before| ==> before[i] in all && before[i].Clear()
      requires forall n :: n in all ==> if n.key.ssid == 0 then n in before else n in slots[Hash(n.key)]
      ensures Holds(all - {node})
    {
      hide Hash;
      assert before[0].Clear();
      forall i: nat | i < |freelist| ensures freelist[i] in all - {node} && freelist[i].Clear() {
        assert freelist[i] == before[i + 1];
      }
      forall n | n in all - {node} && n.key.ssid == 0 ensures n in freelist {
        var i: nat :| i < |before| && before[i] == n;
        assert freelist[i - 1] == n;
      }
    }

    // ----- permission checks -----

    /** The first entry of the key in its chain covers the request. */
    ghost predicate Cached(key: Key, requested: Perms)
      reads slots, all
    {
      exists n :: n in all && Leads(n, key) && Covers(n.avd, requested)
    }

    lemma OneLeader(n: Node, m: Node, key: Key)
      requires Leads(n, key) && Leads(m, key)
      ensures n == m
    {
      hide Hash;
    }

    /** avc_lookup. */
    method Lookup(key: Key, requested: Perms) returns (node: Node?)
      requires Valid() && key.ssid != 0
      modifies all`used
      ensures Valid()
      ensures node != null <==> old(Cached(key, requested))
      ensures node != null ==> node in all && node.key == key && node.used && Leads(node, key)
      ensures node != null ==> old(Leads(node, key) && Covers(node.avd, requested))
      ensures forall n :: n in all && n.key != key ==> n.used == old(n.used)
    {
      hide Hash, Total, Holds, AvdOk, Covers;
      node := SearchNode(key);
      if node != null {
        forall n | n in all && Leads(n, key) ensures n == node {
          OneLeader(n, node, key);
        }
        if !Covers(node.avd, requested) {
          node := null;
        }
      }
    }

    /** avc_insert. A decision no older than the last flush is never turned away. */
    method Insert(key: Key, avd: Avd) returns (answer: Answer, node: Node?)
      requires Valid() && key.ssid != 0 && flushedAt <= avd.seqno <= current && avd == ComputeAv(policies, avd.seqno, key)
      modifies all, slots, `lruHint, `freelist, `activeNodes
      ensures Valid()
      ensures answer == if all == {} then Failed else Granted
      ensures answer == Granted ==> node != null && Leads(node, key) && node.used && node.avd == avd && node.asked == 0
      ensures answer == Granted && old(freelist) != [] ==> node == old(freelist[0])
      ensures OthersKept(node)
    {
      hide Hash, Total, Holds, Table, AvdOk;
      if avd.seqno < latestNotif {
        return Again, null;
      }
      node := ClaimNode(key);
      if node == null {
        return Failed, null;
      }
      AvdFresh(avd);
      SetAvd(node, avd);
      return Granted, node;
    }

    /** No entry but that in the given node is replaced or changed. */
    twostate predicate OthersKept(new node: Node?)
      reads all
    {
      forall n :: n in all && n != node ==> n.key == old(n.key) && n.avd == old(n.avd) && n.asked == old(n.asked)
    }

    method SetAvd(node: Node, avd: Avd)
      requires Table() && node in all && node.key.ssid != 0
      modifies node`avd
      ensures Table() && node.avd == avd
    {
      hide Hash, Total;
      node.avd := avd;
    }

    ghost method SetAsked(node: Node, asked: Perms)
      requires Table() && node in all && node.key.ssid != 0
      modifies node`asked
      ensures Table() && node.asked == asked
    {
      hide Hash, Total;
      node.asked := asked;
    }

    /** What a check that asked the kernel directly would answer. */
    ghost function Direct(avd: Avd, requested: Perms): Answer
      reads this
    {
      if (requested != 0 && Missing(requested, avd.allowed) == 0) || !enforcing || avd.permissive then Granted else Denied
    }

    /** The caller's handle refers to an entry for the key that covers the request. */
    ghost predicate Usable(aeref: Node?, key: Key, requested: Perms)
      reads aeref
    {
      aeref != null && aeref.key == key && Covers(aeref.avd, requested)
    }

    /** The entry a check uses: the one its handle refers to if that is for the same key and
        covers the request, or else the first of the key in the table if that covers it, or
        else one for a decision newly computed, in a free node if there is one. Only a
        computation can fail, and only it lets policies be loaded. */
    method FindEntry(key: Key, requested: Perms, aeref: Node?, computeFails: bool, loads: nat)
      returns (answer: Answer, ae: Node?, aeref': Node?)
      requires Valid() && key.ssid != 0 && (aeref == null || aeref in all)
      modifies all, slots, `lruHint, `freelist, `activeNodes, `current
      ensures Valid()
      ensures answer == Granted || answer == Failed
      ensures answer == Failed <==> old(!Usable(aeref, key, requested) && !Cached(key, requested)) && (computeFails || all == {})
      ensures answer == Failed ==> aeref' == aeref
      ensures answer == Granted ==> ae != null && ae in all && ae.key == key && ae.used && aeref' == ae
      ensures old(Usable(aeref, key, requested)) ==> ae == aeref
      ensures old(!Usable(aeref, key, requested) && Cached(key, requested)) ==> old(Leads(ae, key) && Covers(ae.avd, requested))
      ensures old(Usable(aeref, key, requested) || Cached(key, requested)) ==>
                ae.avd == old(ae.avd) && ae.asked == old(ae.asked) && freelist == old(freelist)
      ensures answer == Granted && old(!Usable(aeref, key, requested)) ==> Leads(ae, key)
      ensures answer == Granted && old(!Usable(aeref, key, requested) && !Cached(key, requested)) ==>
                && ae.avd == ComputeAv(policies, old(current), key) && ae.asked == 0
                && (old(freelist) != [] ==> ae == old(freelist[0]))
      ensures current == old(current) + if old(!Usable(aeref, key, requested) && !Cached(key, requested)) && !computeFails then loads else 0
      ensures OthersKept(if answer == Failed then null else ae)
    {
      hide Hash, Total, Holds, Table, AvdOk, Missing, Union, Covers, Leads;
      aeref' := aeref;
      ae := aeref;
      if ae != null {
        if ae.key == key && Covers(ae.avd, requested) {
          MarkUsed(ae);
          return Granted, ae, aeref';
        }
      }
      ae := Lookup(key, requested);
      if ae == null {
        if computeFails {
          return Failed, ae, aeref';
        }
        answer, ae := ComputeEntry(key, loads);
        if answer != Granted {
          return;
        }
      }
      return Granted, ae, ae;
    }

    /** A decision is computed, policies may be loaded, and the decision is inserted. */
    method ComputeEntry(key: Key, loads: nat) returns (answer: Answer, ae: Node?)
      requires Valid() && key.ssid != 0
      modifies all, slots, `lruHint, `freelist, `activeNodes, `current
      ensures Valid() && current == old(current) + loads
      ensures answer == if all == {} then Failed else Granted
      ensures answer == Granted ==>
                && ae != null && ae in all && ae.key == key && Leads(ae, key) && ae.used
                && ae.avd == ComputeAv(policies, old(current), key) && ae.asked == 0
      ensures answer == Granted && old(freelist) != [] ==> ae == old(freelist[0])
      ensures OthersKept(ae)
    {
      hide Hash, Total, Holds, Table, AvdOk, Missing, Union;
      var computed := ComputeAv(policies, current, key);
      current := current + loads;
      answer, ae := Insert(key, computed);
    }

    /** Between a switch to enforcing mode and the flush that follows, what was asked of the
        entry before still counts: a request that the policy denies is granted. */
    ghost predicate WindowGrants(avd: Avd, asked: Perms, requested: Perms)
      reads this
    {
      && enforcing && pending.NeedsFlush? && !avd.permissive
      && requested != 0 && Missing(requested, avd.allowed) != 0 && Missing(requested, Union(avd.allowed, asked)) == 0
    }

    /** avc_has_perm_noaudit, after `netlink_check_nb`; the kernel may fail to decide, and may
        load policies once it has. However the entry was found, the answer is what a direct
        computation gives, under a policy that is not older than the last flush, unless
        WindowGrants; `asked` is what had been asked of the entry before. What a handle or the
        table has is used as it is, and only without it is a decision computed. */
    method HasPermNoaudit(key: Key, requested: Perms, aeref: Node?, computeFails: bool, loads: nat)
      returns (answer: Answer, avd: Avd, aeref': Node?, ghost asked: Perms)
      requires Valid() && key.ssid != 0 && (aeref == null || aeref in all)
      modifies all, slots, `lruHint, `freelist, `activeNodes, `current
      ensures Valid() && (aeref' == null || aeref' in all)
      ensures answer != Again
      ensures answer == Failed <==> old(!Usable(aeref, key, requested) && !Cached(key, requested)) && (computeFails || all == {})
      ensures answer != Failed ==> flushedAt <= avd.seqno <= old(current)
      ensures answer != Failed ==>
                (answer == Granted <==> !enforcing || avd.permissive || (requested != 0 && Missing(requested, avd.allowed) == 0))
      ensures answer != Failed ==>
                var d := ComputeAv(policies, avd.seqno, key);
                && (answer != Direct(d, requested) <==> WindowGrants(d, asked, requested))
                && (WindowGrants(d, asked, requested) ==> answer == Granted)
                && avd == d.(allowed := Union(d.allowed, asked))
      ensures answer != Failed ==>
                && aeref' != null && aeref'.key == key && aeref'.used && aeref'.avd == Asked(avd, requested)
                && aeref'.asked == if !enforcing || avd.permissive then Union(asked, requested) else asked
      ensures old(Usable(aeref, key, requested)) ==> aeref' == aeref
      ensures old(!Usable(aeref, key, requested) && Cached(key, requested)) ==>
                aeref' != null && old(Leads(aeref', key) && Covers(aeref'.avd, requested))
      ensures old(Usable(aeref, key, requested) || Cached(key, requested)) ==>
                avd == old(aeref'.avd) && asked == old(aeref'.asked) && freelist == old(freelist)
      ensures answer != Failed && old(!Usable(aeref, key, requested)) ==> Leads(aeref', key)
      ensures answer != Failed && old(!Usable(aeref, key, requested) && !Cached(key, requested)) ==>
                && avd == ComputeAv(policies, old(current), key) && asked == 0
                && (old(freelist) != [] ==> aeref' == old(freelist[0]))
      ensures answer == Failed ==> aeref' == aeref
      ensures current == old(current) + if old(!Usable(aeref, key, requested) && !Cached(key, requested)) && !computeFails then loads else 0
      ensures OthersKept(if answer == Failed then null else aeref')
    {
      hide Hash, Total, Holds, Table, Missing, Union, Covers, Leads, WindowGrants, Asked, Cached, Usable;
      avd, asked := NO_AVD, 0;
      var ae;
      answer, ae, aeref' := FindEntry(key, requested, aeref, computeFails, loads);
      if answer == Failed {
        return;
      }
      avd, asked := ae.avd, ae.asked;
      EntryFact(ae);
      answer := Decide(ae, requested);
    }

    /** What a check leaves of the entry it used. */
    ghost function Asked(avd: Avd, requested: Perms): Avd
      reads this
    {
      if !enforcing || avd.permissive then avd.(allowed := Union(avd.allowed, requested)) else avd
    }

    /** The end of avc_has_perm_noaudit. */
    method Decide(ae: Node, requested: Perms) returns (answer: Answer)
      requires Valid() && ae in all && ae.key.ssid != 0
      modifies ae`avd, ae`asked
      ensures Valid() && (answer == Granted || answer == Denied)
      ensures var d := ComputeAv(policies, old(ae.avd.seqno), ae.key);
              && (answer != Direct(d, requested) <==> WindowGrants(d, old(ae.asked), requested))
              && (WindowGrants(d, old(ae.asked), requested) ==> answer == Granted)
      ensures answer == Granted <==>
              !enforcing || old(ae.avd.permissive) || (requested != 0 && Missing(requested, old(ae.avd.allowed)) == 0)
      ensures ae.avd == Asked(old(ae.avd), requested)
      ensures ae.asked == if !enforcing || old(ae.avd.permissive) then Union(old(ae.asked), requested) else old(ae.asked)
    {
      hide Hash, Total, Holds, Table, AvdOk, Missing, Union, Direct, WindowGrants;
      AnswerIs(ae, requested);
      var denied := Missing(requested, ae.avd.allowed);
      answer := Granted;
      if requested == 0 || denied != 0 {
        if !enforcing || ae.avd.permissive {
          Widen(ae, requested);
        } else {
          answer := Denied;
        }
      } else if !enforcing || ae.avd.permissive {
        Absorbed(ae.avd.allowed, requested);
        Note(ae, requested);
      }
    }

    /** A check that is granted by an entry is granted by a direct computation, but in the
        window. */
    lemma AnswerIs(ae: Node, requested: Perms)
      requires Valid() && ae in all && ae.key.ssid != 0
      ensures
        var d := ComputeAv(policies, ae.avd.seqno, ae.key);
        var granted := !enforcing || ae.avd.permissive || (requested != 0 && Missing(requested, ae.avd.allowed) == 0);
        && (granted <==> Direct(d, requested) == Granted || WindowGrants(d, ae.asked, requested))
        && (Direct(d, requested) == Granted ==> !WindowGrants(d, ae.asked, requested))
        && (Direct(d, requested) == Granted || Direct(d, requested) == Denied)
    {
      hide Hash, Total, Holds, Table, AvdOk, Missing, Union;
      assert EntryOk(ae);
      AvdAnswer(ae.avd, ComputeAv(policies, ae.avd.seqno, ae.key), ae.asked, requested);
    }

    /** In permissive mode the request is added to what the entry allows. */
    method Widen(ae: Node, requested: Perms)
      requires Valid() && ae in all && ae.key.ssid != 0 && (!enforcing || ae.avd.permissive)
      modifies ae`avd, ae`asked
      ensures Valid()
      ensures ae.avd == old(ae.avd).(allowed := Union(old(ae.avd.allowed), requested)) && ae.asked == Union(old(ae.asked), requested)
    {
      hide Hash, Total, Holds, Table, AvdOk, Missing, Union;
      assert EntryOk(ae);
      AvdWidened(ae.avd, ComputeAv(policies, ae.avd.seqno, ae.key), ae.asked, requested);
      SetAvd(ae, ae.avd.(allowed := Union(ae.avd.allowed, requested)));
      SetAsked(ae, Union(ae.asked, requested));
    }

    /** Nothing needs to be added: the request only goes on record. */
    ghost method Note(ae: Node, requested: Perms)
      requires Valid() && ae in all && ae.key.ssid != 0 && (!enforcing || ae.avd.permissive)
      requires Missing(requested, ae.avd.allowed) == 0
      modifies ae`asked
      ensures Valid() && ae.asked == Union(old(ae.asked), requested)
    {
      hide Hash, Total, Holds, Table, AvdOk, Missing, Union;
      assert EntryOk(ae);
      AvdCovered(ae.avd, ComputeAv(policies, ae.avd.seqno, ae.key), ae.asked, requested);
      SetAsked(ae, Union(ae.asked, requested));
    }

    lemma EntryFact(n: Node)
      requires Valid() && n in all && n.key.ssid != 0
      ensures EntryOk(n)
    {
      hide Hash, Total, Holds, Table;
    }

    method MarkUsed(node: Node)
      requires Table() && node in all && node.key.ssid != 0
      modifies node`used
      ensures Table() && node.used
    {
      hide Hash, Total;
      node.used := true;
    }

    // ----- policy loads and notices -----

    /** The kernel loads a policy. */
    method PolicyLoad()
      requires Valid()
      modifies `current
      ensures Valid() && current == old(current) + 1
    {
      hide Hash, Total, Holds, Table, AvdOk, Missing, Union;
      current := current + 1;
    }

    /** A setenforce notice arrives. */
    method ReceiveSetenforce(val: bool)
      requires Valid() && pending.Idle?
      modifies `enforcing, `pending
      ensures Valid()
      ensures fixedMode ==> enforcing == old(enforcing) && pending.Idle?
      ensures !fixedMode ==> enforcing == val && pending == if val then NeedsFlush(0) else Idle
    {
      hide Hash, Total, Holds, Table, AvdOk, Missing, Union;
      if fixedMode {
        return;
      }
      enforcing := val;
      if enforcing {
        pending := NeedsFlush(0);
      }
    }

    /** A policyload notice arrives, for a policy that has been loaded. */
    method ReceivePolicyload(seqno: nat)
      requires Valid() && pending.Idle? && seqno <= current
      modifies `pending
      ensures Valid() && pending == NeedsFlush(seqno)
    {
      hide Hash, Total, Holds, Table, AvdOk, Missing, Union;
      pending := NeedsFlush(seqno);
    }

    /** The inner loop of avc_reset: the nodes of one chain go to the free list. */
    method FlushSlot(h: nat)
      requires Table() && h < SLOTS
      modifies all, slots, `freelist, `activeNodes
      ensures Table() && slots[h] == []
      ensures forall g: nat :: g < SLOTS && g != h ==> slots[g] == old(slots[g])
    {
      hide Hash, Total;
      var chain := slots[h];
      ChainNodes(h);
      ghost var before := slots[..];
      FreeClear();
      TotalUpdate(before, h, []);
      FlushChain(chain);
      slots[h] := [];
      assert slots[..] == before[h := []];
      forall g: nat, k: nat | g < SLOTS && k < |slots[g]| ensures slots[g][k] in all && InChain(slots[g][k], g) {
        assert g != h && slots[g] == before[g] == old(slots[g]);
        assert old(InChain(slots[g][k], g));
        assert slots[g][k] !in chain;
      }
      forall n | n in all ensures if n.key.ssid == 0 then n in freelist else n in slots[Hash(n.key)] {
        if n !in chain {
          assert n.key == old(n.key);
          assert n.key.ssid != 0 ==> Hash(n.key) != h && slots[Hash(n.key)] == before[Hash(n.key)];
        }
      }
    }

    lemma FreeClear()
      requires Table()
      ensures forall n :: n in freelist ==> n in all && n.Clear()
    {
      hide Hash, Total;
      forall n | n in freelist ensures n in all && n.Clear() {
        var i: nat :| i < |freelist| && freelist[i] == n;
      }
    }

    method FlushChain(chain: seq<Node>)
      requires NoDup(chain) && NoDup(freelist) && activeNodes >= |chain|
      requires forall n :: n in chain ==> n in all && n !in freelist
      requires forall n :: n in freelist ==> n in all && n.Clear()
      modifies all, `freelist, `activeNodes
      ensures NoDup(freelist) && activeNodes == old(activeNodes) - |chain|
      ensures forall n :: n in freelist <==> n in old(freelist) || n in chain
      ensures forall i: nat :: i < |freelist| ==> freelist[i] in all && freelist[i].Clear()
      ensures forall n :: n in chain ==> n.Clear()
      ensures forall n :: n in all && n !in chain ==> n.key == old(n.key) && n.avd == old(n.avd) && n.used == old(n.used) && n.asked == old(n.asked)
    {
      assert forall k: nat :: k < |chain| ==> chain[k] in chain;
      for i := 0 to |chain|
        invariant activeNodes == old(activeNodes) - i
        invariant forall n :: n in chain[..i] ==> n.Clear()
        invariant forall n :: n in all && n !in chain[..i] ==> n.key == old(n.key) && n.avd == old(n.avd) && n.used == old(n.used) && n.asked == old(n.asked)
        invariant forall n :: n in freelist <==> n in old(freelist) || n in chain[..i]
        invariant NoDup(freelist)
      {
        chain[i].key, chain[i].avd, chain[i].used, chain[i].asked := NO_KEY, NO_AVD, false, 0;
        freelist := [chain[i]] + freelist;
        activeNodes := activeNodes - 1;
        assert chain[..i + 1] == chain[..i] + [chain[i]];
      }
      assert chain[..|chain|] == chain;
      forall i: nat | i < |freelist| ensures freelist[i] in all && freelist[i].Clear() {
        assert freelist[i] in freelist;
      }
    }

    /** avc_reset: every node goes to the free list, cleared. */
    method Reset()
      requires Table()
      modifies all, slots, `freelist, `activeNodes, `lruHint, `flushedAt
      ensures Table() && forall n :: n in all ==> n.key.ssid == 0
      ensures flushedAt == current && lruHint == 0 && activeNodes == 0
    {
      hide Hash, Total, Table, Holds;
      TableSlots();
      for h := 0 to SLOTS
        invariant Table() && slots.Length == SLOTS
        invariant forall g: nat :: g < h ==> slots[g] == []
      {
        FlushSlot(h);
      }
      EmptyTable();
      RewindHint();
      flushedAt := current;
    }

    method RewindHint()
      requires Table()
      modifies `lruHint
      ensures Table() && lruHint == 0
    {
      hide Hash, Total;
      lruHint := 0;
    }

    lemma EmptyTable()
      requires Table() && forall g: nat :: g < SLOTS ==> slots[g] == []
      ensures (forall n :: n in all ==> n.key.ssid == 0) && activeNodes == 0
    {
      hide Hash;
      TotalEmpty(slots[..]);
    }

    /** One step of the netlink thread through avc_ss_reset: the flush, or, in another
        critical section, the raise of latest_notif. */
    method NetlinkStep()
      requires Valid() && !pending.Idle?
      modifies all, slots, `freelist, `activeNodes, `lruHint, `flushedAt, `latestNotif, `pending, `noticed
      ensures Valid()
      ensures old(pending).NeedsFlush? ==> pending == NeedsNotif(old(pending).seqno) && flushedAt == current
      ensures old(pending).NeedsFlush? ==>
                (forall n :: n in all ==> n.key.ssid == 0) && latestNotif == old(latestNotif) && noticed == old(noticed)
      ensures old(pending).NeedsNotif? ==>
                && pending.Idle? && flushedAt == old(flushedAt)
                && latestNotif == Larger(old(latestNotif), old(pending).seqno) && noticed == Larger(old(noticed), old(pending).seqno)
                && slots[..] == old(slots[..]) && freelist == old(freelist) && OthersKept(null)
    {
      hide Hash, Total, Table, Holds, AvdOk;
      match pending {
        case NeedsFlush(seqno) =>
          Reset();
          pending := NeedsNotif(seqno);
        case NeedsNotif(seqno) =>
          if seqno > latestNotif {
            latestNotif := seqno;
          }
          if seqno > noticed {
            noticed := seqno;
          }
          pending := Idle;
      }
    }

    /** avc_init, when maxNodes nodes can be allocated. */
    constructor (maxNodes: nat, enforcing: bool, fixedMode: bool, policies: Policies, current: nat)
      ensures Valid() && fresh(slots) && fresh(all) && |all| == maxNodes && pending.Idle? && slots.Length == 512 && lruHint == 0
      ensures this.enforcing == enforcing && this.fixedMode == fixedMode && this.policies == policies && this.current == current
      ensures latestNotif == 0
    {
      this.enforcing, this.fixedMode, this.policies, this.current := enforcing, fixedMode, policies, current;
      lruHint, activeNodes, latestNotif, pending := 0, 0, 0, Idle;
      flushedAt, noticed := current, 0;
      slots := new seq<Node>[SLOTS](_ => []);
      var list;
      ghost var nodes;
      list, nodes := MakeNodes(maxNodes);
      freelist, all := list, nodes;
      new;
      hide Hash, Table, Holds;
      NewTable();
    }

    lemma NewTable()
      requires slots.Length == SLOTS && lruHint < SLOTS && activeNodes == 0 && NoDup(freelist)
      requires forall h: nat :: h < SLOTS ==> slots[h] == []
      requires forall n :: n in all <==> n in freelist
      requires forall n :: n in all ==> n.Clear()
      ensures Table()
      ensures forall n :: n in all ==> n.key.ssid == 0
    {
      hide Hash;
      TotalEmpty(slots[..]);
      forall i: nat | i < |freelist| ensures freelist[i] in all && freelist[i].Clear() {
        assert freelist[i] in freelist;
      }
    }
  }

  /** What can happen: a check, through a handle kept from an earlier one if any; a policy
      load; the arrival of a notice, if the netlink thread is idle; or a step of that thread. */
  datatype Event =
    | Check(key: Key, requested: Perms, handle: nat, computeFails: bool, loads: nat)
    | Load
    | Setenforce(val: bool)
    | Policyload(seqno: nat)
    | Netlink

  /** A check and its answer, the policy it is from, the latest load notice processed before
      it, what a direct computation under that policy answers, and, of the moment of the check:
      whether an entry of the table or the handle covered the request, whether a flush was
      pending in enforcing mode, what the policy decides, and what had been asked in permissive
      mode of the entry used. */
  datatype Logged = Logged(key: Key, requested: Perms, answer: Answer, seqno: nat, noticed: nat, direct: Answer,
                           cached: bool, switching: bool, decision: Avd, asked: Perms)

  ghost predicate EventOk(l: Logged) {
    && l.answer != Again
    && (l.answer == Failed ==> !l.cached)
    && (l.answer != Failed ==>
          && l.seqno >= l.noticed
          && (l.answer != l.direct <==>
              && l.switching && !l.decision.permissive && l.requested != 0
              && Missing(l.requested, l.decision.allowed) != 0 && Missing(l.requested, Union(l.decision.allowed, l.asked)) == 0)
          && (l.answer != l.direct ==> l.answer == Granted && l.direct == Denied))
  }

  /** The checks among the events, in order. */
  ghost function Checks(events: seq<Event>): seq<(Key, Perms)> {
    if events == [] then []
    else
      var rest, e := Checks(events[..|events| - 1]), events[|events| - 1];
      if e.Check? && e.key.ssid != 0 then rest + [(e.key, e.requested)] else rest
  }

  /** What the application and the netlink thread share besides the table. */
  datatype Control = Control(enforcing: bool, pending: Pending, current: nat, notif: nat)

  ghost function ControlOf(cache: Cache): Control
    reads cache
  {
    Control(cache.enforcing, cache.pending, cache.current, cache.latestNotif)
  }

  /** What an event does to it; the kernel has loaded policies by a check only if the check
      had to ask it. */
  ghost function Apply(c: Control, e: Event, fixedMode: bool, cached: bool): Control {
    match e
    case Check(_, _, _, computeFails, loads) => if cached || computeFails then c else c.(current := c.current + loads)
    case Load => c.(current := c.current + 1)
    case Setenforce(val) =>
      if fixedMode || !c.pending.Idle? then c else c.(enforcing := val, pending := if val then NeedsFlush(0) else Idle)
    case Policyload(seqno) =>
      if c.pending.Idle? && seqno <= c.current then c.(pending := NeedsFlush(seqno)) else c
    case Netlink =>
      match c.pending
      case Idle => c
      case NeedsFlush(seqno) => c.(pending := NeedsNotif(seqno))
      case NeedsNotif(seqno) => c.(pending := Idle, notif := Larger(c.notif, seqno))
  }

  /** And what all of them do, in order. */
  ghost function Replay(c: Control, events: seq<Event>, fixedMode: bool, log: seq<Logged>): Control
    requires |log| == |Checks(events)|
  {
    if events == [] then c
    else
      var n, e := |events| - 1, events[|events| - 1];
      if e.Check? then
        if e.key.ssid == 0 then Replay(c, events[..n], fixedMode, log)
        else Apply(Replay(c, events[..n], fixedMode, log[..|log| - 1]), e, fixedMode, log[|log| - 1].cached)
      else Apply(Replay(c, events[..n], fixedMode, log), e, fixedMode, false)
  }

  ghost predicate Answers(log: seq<Logged>, checks: seq<(Key, Perms)>) {
    |log| == |checks| && forall i :: 0 <= i < |log| ==> log[i].key == checks[i].0 && log[i].requested == checks[i].1
  }

  ghost predicate LogOk(log: seq<Logged>) {
    forall i :: 0 <= i < |log| ==> EventOk(log[i])
  }

  /** One check of a run, with its record. */
  method LogCheck(cache: Cache, key: Key, requested: Perms, aeref: Node?, ghost handle: nat, computeFails: bool, loads: nat)
    returns (ghost logged: Logged, aeref': Node?)
    requires cache.Valid() && key.ssid != 0 && (aeref == null || aeref in cache.all)
    modifies cache, cache.all, cache.slots
    ensures cache.Valid() && (aeref' == null || aeref' in cache.all)
    ensures EventOk(logged) && logged.key == key && logged.requested == requested
    ensures
      ControlOf(cache) ==
      Apply(old(ControlOf(cache)), Check(key, requested, handle, computeFails, loads), cache.fixedMode, logged.cached)
  {
    hide Hash, Total, Missing, Union, Covers, Cache.Holds, Cache.Table, Cache.Leads, AvdOk;
    ghost var noticed, cached := cache.noticed, cache.Usable(aeref, key, requested) || cache.Cached(key, requested);
    var answer, avd;
    ghost var asked;
    answer, avd, aeref', asked := cache.HasPermNoaudit(key, requested, aeref, computeFails, loads);
    ghost var d := ComputeAv(cache.policies, avd.seqno, key);
    logged := Logged(key, requested, answer, avd.seqno, noticed, cache.Direct(d, requested),
                     cached, cache.enforcing && cache.pending.NeedsFlush?, d, asked);
  }

  /** Over every run every check is answered, no decision is used that is older than a
      processed load notice, no decision is turned away as too old, no check fails that a
      cached entry covers, and every answer is the one a direct computation
      gives, but that during a switch to enforcing mode a check is granted what it and the
      checks of the permissive time before have asked of the same entry; and when the netlink
      thread is idle in enforcing mode nothing widened in permissive mode is left. */
  method Run(cache: Cache, events: seq<Event>) returns (ghost log: seq<Logged>, handles: seq<Node?>)
    requires cache.Valid()
    modifies cache, cache.all, cache.slots
    ensures cache.Valid() && LogOk(log) && Answers(log, Checks(events)) && |handles| == |log|
    ensures ControlOf(cache) == Replay(old(ControlOf(cache)), events, cache.fixedMode, log)
    ensures cache.pending.Idle? && cache.enforcing ==>
              forall n :: n in cache.all && n.key.ssid != 0 && !n.avd.permissive ==> n.avd == ComputeAv(cache.policies, n.avd.seqno, n.key)
  {
    hide Hash, Total, Missing, Union, Cache.Holds, Cache.Table, Cache.Valid, AvdOk, EventOk, Apply, Replay, Checks;
    log, handles := [], [];
    ReplayStart(ControlOf(cache), cache.fixedMode);
    for i := 0 to |events|
      invariant cache.Valid() && LogOk(log) && Answers(log, Checks(events[..i])) && |handles| == |log|
      invariant ControlOf(cache) == Replay(old(ControlOf(cache)), events[..i], cache.fixedMode, log)
      invariant forall h :: 0 <= h < |handles| ==> handles[h] == null || handles[h] in cache.all
    {
      assert events[..i + 1][..i] == events[..i];
      ReplayStep(old(ControlOf(cache)), events[..i + 1], cache.fixedMode, log);
      match events[i] {
        case Check(key, requested, handle, computeFails, loads) =>
          if key.ssid != 0 {
            var aeref := if handle < |handles| then handles[handle] else null;
            ghost var logged;
            var aeref';
            logged, aeref' := LogCheck(cache, key, requested, aeref, handle, computeFails, loads);
            ReplayCheck(old(ControlOf(cache)), events[..i + 1], cache.fixedMode, log, logged);
            log := log + [logged];
            handles := handles + [aeref'];
          }
        case _ =>
          Happen(cache, events[i]);
      }
    }
    assert events[..|events|] == events;
    if cache.pending.Idle? && cache.enforcing {
      NothingWide(cache);
    }
  }

  /** An event that is no check. */
  method Happen(cache: Cache, e: Event)
    requires cache.Valid() && !e.Check?
    modifies cache, cache.all, cache.slots
    ensures cache.Valid() && ControlOf(cache) == Apply(old(ControlOf(cache)), e, cache.fixedMode, false)
  {
    hide Hash, Total, Missing, Union, Cache.Holds, Cache.Table, Cache.Valid, AvdOk;
    match e {
      case Load =>
        cache.PolicyLoad();
      case Setenforce(val) =>
        if cache.pending.Idle? {
          cache.ReceiveSetenforce(val);
        }
      case Policyload(seqno) =>
        if cache.pending.Idle? && seqno <= cache.current {
          cache.ReceivePolicyload(seqno);
        }
      case Netlink =>
        if !cache.pending.Idle? {
          cache.NetlinkStep();
        }
    }
  }

  lemma ReplayStart(c: Control, fixedMode: bool)
    ensures Checks([]) == [] && Replay(c, [], fixedMode, []) == c
  {
  }

  /** An event that is no check, or a check that is not made. */
  lemma ReplayStep(c: Control, events: seq<Event>, fixedMode: bool, log: seq<Logged>)
    requires events != [] && |log| == |Checks(events[..|events| - 1])|
    ensures
      var e, before := events[|events| - 1], events[..|events| - 1];
      !e.Check? || e.key.ssid == 0 ==>
        && Checks(events) == Checks(before)
        && Replay(c, events, fixedMode, log) ==
           if e.Check? then Replay(c, before, fixedMode, log) else Apply(Replay(c, before, fixedMode, log), e, fixedMode, false)
  {
    hide Apply;
  }

  lemma ReplayCheck(c: Control, events: seq<Event>, fixedMode: bool, log: seq<Logged>, logged: Logged)
    requires events != [] && |log| == |Checks(events[..|events| - 1])|
    requires
      var e := events[|events| - 1];
      e.Check? && e.key.ssid != 0 && logged.key == e.key && logged.requested == e.requested
    ensures
      var e, before := events[|events| - 1], events[..|events| - 1];
      && Checks(events) == Checks(before) + [(e.key, e.requested)]
      && Replay(c, events, fixedMode, log + [logged]) == Apply(Replay(c, before, fixedMode, log), e, fixedMode, logged.cached)
  {
    hide Apply;
    assert (log + [logged])[..|log|] == log;
  }

  /** What a check has left in the table answers the next one, whatever policies have been
      loaded since and although the kernel would not decide again. */
  method CheckTwice(cache: Cache, key: Key, requested: Perms, loads: nat) returns (first: Avd, second: Avd, answer: Answer)
    requires cache.Valid() && cache.all != {} && key.ssid != 0
    requires forall seqno :: Covers(ComputeAv(cache.policies, seqno, key), requested)
    modifies cache, cache.all, cache.slots
    ensures answer != Failed && second.seqno == first.seqno
  {
    hide Hash, Total, Cache.Holds, Cache.Table, Cache.Valid, Cache.Leads, Union, Missing;
    var handle;
    ghost var asked;
    answer, first, handle, asked := cache.HasPermNoaudit(key, requested, null, false, loads);
    assert Covers(ComputeAv(cache.policies, first.seqno, key), requested) && Covers(handle.avd, requested);
    forall n | n in cache.all && cache.Leads(n, key) ensures n == handle {
      cache.OneLeader(n, handle, key);
    }
    assert cache.Cached(key, requested);
    answer, second, handle, asked := cache.HasPermNoaudit(key, requested, null, true, 0);
  }

  /** A policy that denies everything, and decides everything. */
  function DenyAll(seqno: nat, key: Key): Decision {
    Decision(0, 0xffff_ffff, false)
  }

  /** The promise that nothing widened in permissive mode survives the switch does fail
      between the two steps of a setenforce notice: a check in permissive mode, the notice,
      and the same check again, before the flush. */
  method GrantedInWindow(key: Key, requested: Perms) returns (cache: Cache, first: Answer, second: Answer)
    requires key.ssid != 0 && requested != 0
    ensures first == Granted && second == Granted
    ensures cache.enforcing && cache.policies == DenyAll && forall seqno :: cache.Direct(ComputeAv(DenyAll, seqno, key), requested) == Denied
  {
    hide Hash, Total, Cache.Holds, Cache.Table, Cache.Valid, Union, Missing, AvdOk;
    cache := new Cache(1, false, false, DenyAll, 0);
    var avd, handle;
    ghost var asked;
    Whole(requested);
    first, avd, handle, asked := cache.HasPermNoaudit(key, requested, null, false, 0);
    Included(asked, requested);
    cache.ReceiveSetenforce(true);
    second, avd, handle, asked := cache.HasPermNoaudit(key, requested, handle, false, 0);
  }

  lemma Whole(r: Perms)
    ensures 0xffff_ffff & r == r && (r != 0 ==> Missing(r, 0) != 0)
  {
  }

  lemma Included(a: Perms, r: Perms)
    ensures Missing(r, Union(0, Union(a, r))) == 0
  {
  }

  lemma NothingWide(cache: Cache)
    requires cache.Valid() && cache.pending.Idle? && cache.enforcing
    ensures forall n :: n in cache.all && n.key.ssid != 0 && !n.avd.permissive ==> n.avd == ComputeAv(cache.policies, n.avd.seqno, n.key)
  {
    hide Hash, Total;
    forall n | n in cache.all && n.key.ssid != 0 && !n.avd.permissive ensures n.avd == ComputeAv(cache.policies, n.avd.seqno, n.key) {
      assert cache.EntryOk(n);
    }
  }

  lemma {:induction false} TotalEmpty(s: seq<seq<Node>>)
    requires forall h :: 0 <= h < |s| ==> s[h] == []
    ensures Total(s) == 0
  {
    if s != [] {
      TotalEmpty(s[..|s| - 1]);
    }
  }

  lemma Without(s: seq<Node>, i: nat)
    requires i < |s| && NoDup(s)
    ensures NoDup(s[..i] + s[i + 1..])
    ensures forall n :: n in s[..i] + s[i + 1..] <==> n in s && n != s[i]
  {
    var t := s[..i] + s[i + 1..];
    forall n | n in s && n != s[i] ensures n in t {
      var k: nat :| k < |s| && s[k] == n;
      assert t[if k < i then k else k - 1] == n;
    }
  }
}
