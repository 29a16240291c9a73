/** Bytes, and the little-endian fields of on-disk structures. */
module LittleEndian {
  import opened Rounding

  type byte = x: int | 0 <= x < 256
  type Bytes = seq<byte>

  function U16(v: nat): (r: Bytes)
    ensures |r| == 2
  {
    [v % 256, v / 256 % 256]
  }

  function U32(v: nat): (r: Bytes)
    ensures |r| == 4
  {
    U16(v % 0x1_0000) + U16(v / 0x1_0000)
  }

  function Get16(b: Bytes, at: nat): (r: nat)
    requires at + 2 <= |b|
    ensures r < 0x1_0000
  {
    b[at] as int + 256 * b[at + 1] as int
  }

  function Get32(b: Bytes, at: nat): (r: nat)
    requires at + 4 <= |b|
    ensures r < 0x1_0000_0000
  {
    Get16(b, at) + 0x1_0000 * Get16(b, at + 2)
  }

  /** The lowest byte of a field comes first. */
  lemma LowFirst(v: nat)
    requires v < 0x1_0000_0000
    ensures v < 0x1_0000 ==> v == U16(v)[0] as int + 0x100 * U16(v)[1] as int
    ensures v == U32(v)[0] as int + 0x100 * U32(v)[1] as int + 0x1_0000 * U32(v)[2] as int + 0x100_0000 * U32(v)[3] as int
  {
    Halves(v % 0x1_0000);
    Halves(v / 0x1_0000);
    if v < 0x1_0000 {
      Halves(v);
    }
  }

  lemma Field16(b: Bytes, at: nat, v: nat)
    requires at + 2 <= |b| && b[at..at + 2] == U16(v)
    ensures Get16(b, at) == v % 0x1_0000
  {
    assert b[at] == b[at..at + 2][0] && b[at + 1] == b[at..at + 2][1];
    Halves(v);
  }

  lemma Halves(v: nat)
    ensures v % 256 + 256 * (v / 256 % 256) == v % 0x1_0000
  {
    var q := v / 256;
    assert v == 256 * q + v % 256 && q == 256 * (q / 256) + q % 256;
    DivUnique(v, 0x1_0000, q / 256, 256 * (q % 256) + v % 256);
  }

  lemma Field32(b: Bytes, at: nat, v: nat)
    requires at + 4 <= |b| && b[at..at + 4] == U32(v) && v < 0x1_0000_0000
    ensures Get32(b, at) == v
  {
    hide U16, Get16;
    FieldAt(b, at, [], U16(v % 0x1_0000), U16(v / 0x1_0000));
    FieldAt(b, at, U16(v % 0x1_0000), U16(v / 0x1_0000), []);
    Field16(b, at, v % 0x1_0000);
    Field16(b, at + 2, v / 0x1_0000);
  }

  /** A field of a structure that lies at o. */
  lemma FieldAt(s: Bytes, o: nat, a: Bytes, f: Bytes, c: Bytes)
    requires o + |a| + |f| + |c| <= |s| && s[o..o + |a| + |f| + |c|] == a + f + c
    ensures s[o + |a|..o + |a| + |f|] == f
  {
    var t := s[o..o + |a| + |f| + |c|];
    forall k | 0 <= k < |f| ensures s[o + |a| + k] == f[k] {
      assert t[|a| + k] == (a + f + c)[|a| + k];
    }
  }

  // ----- buffers -----

  function Put(s: Bytes, at: nat, b: Bytes): (r: Bytes)
    requires at + |b| <= |s|
    ensures |r| == |s|
  {
    s[..at] + b + s[at + |b|..]
  }

  method PutBytes(data: array<byte>, at: nat, b: Bytes)
    requires at + |b| <= data.Length
    modifies data
    ensures data[..] == Put(old(data[..]), at, b)
  {
    ghost var s := data[..];
    for i := 0 to |b|
      invariant data[..] == s[..at] + b[..i] + s[at + i..]
    {
      data[at + i] := b[i];
    }
    assert b[..|b|] == b;
  }
}
