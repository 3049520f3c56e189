/** Bytes, fixed-width little-endian integers, and streams of bytes as the C library's files show them. */
module Bytes {
  type byte = b: int | 0 <= b < 256
  type bytes = seq<byte>
  type u32 = n: int | 0 <= n < 0x1_0000_0000
  type u64 = n: int | 0 <= n < 0x1_0000_0000_0000_0000

  function Pow256(w: nat): (p: nat)
    ensures p > 0
  {
    if w == 0 then 1 else 256 * Pow256(w - 1)
  }

  // The low `w` bytes of `n`, least significant first: what a store of a `w`-byte integer leaves in memory.
  function LE(n: nat, w: nat): (s: bytes)
    ensures |s| == w
  {
    if w == 0 then [] else [n % 256] + LE(n / 256, w - 1)
  }

  function FromLE(s: bytes): (n: nat)
    ensures n < Pow256(|s|)
  {
    if s == [] then 0 else s[0] + 256 * FromLE(s[1..])
  }

  lemma {:induction false} LoadStore(n: nat, w: nat)
    requires n < Pow256(w)
    ensures FromLE(LE(n, w)) == n
  {
    if w == 0 {
    } else {
      assert n / 256 < Pow256(w - 1);
      LoadStore(n / 256, w - 1);
      assert LE(n, w)[1..] == LE(n / 256, w - 1);
    }
  }

  lemma Widths()
    ensures Pow256(1) == 256
    ensures Pow256(4) == 0x1_0000_0000
    ensures Pow256(8) == 0x1_0000_0000_0000_0000
  {
    assert Pow256(2) == 0x1_0000 && Pow256(3) == 0x100_0000;
    assert Pow256(5) == 0x100_0000_0000 && Pow256(6) == 0x1_0000_0000_0000 && Pow256(7) == 0x100_0000_0000_0000;
  }

  function U32(s: bytes): (n: u32)
    requires |s| == 4
  {
    Widths();
    FromLE(s)
  }

  function U64(s: bytes): (n: u64)
    requires |s| == 8
  {
    Widths();
    FromLE(s)
  }

  function Byte(s: bytes): byte
    requires |s| == 1
  {
    s[0]
  }

  // A C `int` of 32 bits, in two's complement.
  function StoreInt(i: int): (s: bytes)
    ensures |s| == 4
  {
    LE(i % 0x1_0000_0000, 4)
  }

  function LoadInt(s: bytes): (i: int)
    requires |s| == 4
    ensures -0x8000_0000 <= i < 0x8000_0000
  {
    var n := U32(s);
    if n < 0x8000_0000 then n else n - 0x1_0000_0000
  }

  lemma StoredInt(i: int)
    requires -0x8000_0000 <= i < 0x8000_0000
    ensures LoadInt(StoreInt(i)) == i
  {
    Widths();
    LoadStore(i % 0x1_0000_0000, 4);
  }

  lemma StoredU32(n: u32)
    ensures U32(LE(n, 4)) == n
  {
    Widths();
    LoadStore(n, 4);
  }

  lemma StoredU64(n: u64)
    ensures U64(LE(n, 8)) == n
  {
    Widths();
    LoadStore(n, 8);
  }

  function StoreU64s(xs: seq<u64>): (s: bytes)
    ensures |s| == 8 * |xs|
  {
    if xs == [] then [] else LE(xs[0], 8) + StoreU64s(xs[1..])
  }

  function LoadU64s(s: bytes): (xs: seq<u64>)
    requires |s| % 8 == 0
    ensures |s| == 8 * |xs|
  {
    if s == [] then [] else [U64(s[..8])] + LoadU64s(s[8..])
  }

  lemma {:induction false} StoredU64s(xs: seq<u64>)
    ensures LoadU64s(StoreU64s(xs)) == xs
  {
    if xs == [] {
    } else {
      var s := StoreU64s(xs);
      assert s[..8] == LE(xs[0], 8) && s[8..] == StoreU64s(xs[1..]);
      StoredU64(xs[0]);
      StoredU64s(xs[1..]);
    }
  }

  function StoreU32s(xs: seq<u32>): (s: bytes)
    ensures |s| == 4 * |xs|
  {
    if xs == [] then [] else LE(xs[0], 4) + StoreU32s(xs[1..])
  }

  function LoadU32s(s: bytes): (xs: seq<u32>)
    requires |s| % 4 == 0
    ensures |s| == 4 * |xs|
  {
    if s == [] then [] else [U32(s[..4])] + LoadU32s(s[4..])
  }

  lemma {:induction false} StoredU32s(xs: seq<u32>)
    ensures LoadU32s(StoreU32s(xs)) == xs
  {
    if xs == [] {
    } else {
      var s := StoreU32s(xs);
      assert s[..4] == LE(xs[0], 4) && s[4..] == StoreU32s(xs[1..]);
      StoredU32(xs[0]);
      StoredU32s(xs[1..]);
    }
  }

  // A struct written raw is its fields one after another.
  function Flatten(fields: seq<bytes>): bytes {
    if fields == [] then [] else fields[0] + Flatten(fields[1..])
  }

  function Sum(widths: seq<nat>): nat {
    if widths == [] then 0 else widths[0] + Sum(widths[1..])
  }

  function Split(widths: seq<nat>, s: bytes): (fields: seq<bytes>)
    requires |s| == Sum(widths)
    ensures |fields| == |widths| && forall i :: 0 <= i < |fields| ==> |fields[i]| == widths[i]
  {
    if widths == [] then [] else [s[..widths[0]]] + Split(widths[1..], s[widths[0]..])
  }

  lemma {:induction false} SplitFlatten(widths: seq<nat>, fields: seq<bytes>)
    requires |fields| == |widths| && forall i :: 0 <= i < |fields| ==> |fields[i]| == widths[i]
    ensures |Flatten(fields)| == Sum(widths)
    ensures Split(widths, Flatten(fields)) == fields
  {
    if widths == [] {
    } else {
      SplitFlatten(widths[1..], fields[1..]);
      var s := Flatten(fields);
      assert s[..widths[0]] == fields[0] && s[widths[0]..] == Flatten(fields[1..]);
    }
  }

  /** An open file: `fread` stops at the end of the contents, `fwrite` appends, and
      `fseek` may go anywhere. */
  class ByteFile {
    var contents: bytes
    var pos: nat

    constructor ()
      ensures contents == [] && pos == 0
    {
      contents, pos := [], 0;
    }

    ghost function Rest(): bytes
      reads this
    {
      if pos <= |contents| then contents[pos..] else []
    }

    method Write(s: bytes)
      requires pos == |contents|
      modifies this
      ensures contents == old(contents) + s && pos == |contents|
    {
      contents := contents + s;
      pos := |contents|;
    }

    method Read(n: nat) returns (s: bytes)
      modifies this
      ensures contents == old(contents) && pos == old(pos) + |s|
      ensures |s| == if n <= |old(Rest())| then n else |old(Rest())|
      ensures s == old(Rest())[..|s|] && Rest() == old(Rest())[|s|..]
    {
      var avail := if pos <= |contents| then |contents| - pos else 0;
      var k := if n <= avail then n else avail;
      s := if k == 0 then [] else contents[pos..pos + k];
      pos := pos + k;
    }

    method SeekSet(offset: nat)
      modifies this
      ensures contents == old(contents) && pos == offset
    {
      pos := offset;
    }

    method SeekCur(delta: nat)
      modifies this
      ensures contents == old(contents) && pos == old(pos) + delta
    {
      pos := pos + delta;
    }
  }
}
