/** Reading the part of a stored region that a request overlaps, in one to three dimensions. */
module RegionRead {
  import opened Basics
  import opened Bytes
  import opened RegionGeometry

  // ---- The overlap of two regions ----

  function Max(a: nat, b: nat): nat {
    if a < b then b else a
  }

  function Min(a: nat, b: nat): nat {
    if a < b then a else b
  }

  // Regions as the source passes them: one start and one count for each dimension.
  ghost predicate Region(ndim: nat, start: seq<nat>, count: seq<nat>) {
    |start| >= ndim && |count| >= ndim && forall i :: 0 <= i < ndim ==> count[i] > 0
  }

  predicate MeetsIn(i: nat, sa: seq<nat>, ca: seq<nat>, sb: seq<nat>, cb: seq<nat>)
    requires i < |sa| && i < |ca| && i < |sb| && i < |cb|
  {
    sa[i] < sb[i] + cb[i] && sb[i] < sa[i] + ca[i]
  }

  ghost predicate Meets(ndim: nat, sa: seq<nat>, ca: seq<nat>, sb: seq<nat>, cb: seq<nat>)
    requires Region(ndim, sa, ca) && Region(ndim, sb, cb)
  {
    forall i :: 0 <= i < ndim ==> MeetsIn(i, sa, ca, sb, cb)
  }

  // The last coordinate of a region, in 64 bits: below zero it wraps around.
  function Last(start: nat, count: nat): nat {
    if start + count == 0 then WORD - 1 else start + count - 1
  }

  predicate Touches(i: nat, sa: seq<nat>, ca: seq<nat>, sb: seq<nat>, cb: seq<nat>)
    requires i < |sa| && i < |ca| && i < |sb| && i < |cb|
  {
    Last(sa[i], ca[i]) >= sb[i] && Last(sb[i], cb[i]) >= sa[i]
  }

  // In one dimension, for any counts: a region whose end wraps below zero touches everything.
  predicate TouchesIn(i: nat, sa: seq<nat>, ca: seq<nat>, sb: seq<nat>, cb: seq<nat>)
    requires i < |sa| && i < |ca| && i < |sb| && i < |cb|
  {
    (sa[i] + ca[i] == 0 || sb[i] < sa[i] + ca[i]) && (sb[i] + cb[i] == 0 || sa[i] < sb[i] + cb[i])
  }

  ghost predicate Below64(ndim: nat, s: seq<nat>) {
    |s| >= ndim && forall i :: 0 <= i < ndim ==> s[i] < WORD
  }

  function Clipped(x: int): int {
    if x < 0 then x + WORD else x
  }

  // Up to three dimensions are tested by their first and last coordinates, four are not, more are refused.
  method Overlaps(ndim: nat, sa: seq<nat>, ca: seq<nat>, sb: seq<nat>, cb: seq<nat>) returns (ok: bool)
    requires |sa| >= ndim && |ca| >= ndim && |sb| >= ndim && |cb| >= ndim
    ensures ok <==> ndim <= 4 && (ndim <= 3 ==> forall i :: 0 <= i < ndim ==> Touches(i, sa, ca, sb, cb))
  {
    if ndim > 4 { return false; }
    ok := true;
    if ndim <= 3 {
      for i := 0 to ndim
        invariant ok <==> forall j :: 0 <= j < i ==> Touches(j, sa, ca, sb, cb)
      {
        ok := ok && Touches(i, sa, ca, sb, cb);
      }
    }
  }

  /** Clip region `b` to region `a`.  For one to three dimensions and counts above zero an overlap is found
      exactly when the regions meet, and it is their intersection. */
  method GetOverlap(ndim: nat, sa: seq<nat>, ca: seq<nat>, sb: seq<nat>, cb: seq<nat>)
    returns (ok: bool, start: seq<nat>, count: seq<int>)
    requires |sa| >= ndim && |ca| >= ndim && |sb| >= ndim && |cb| >= ndim
    ensures ok <==> ndim <= 4 && (ndim <= 3 ==> forall i :: 0 <= i < ndim ==> Touches(i, sa, ca, sb, cb))
    ensures |start| == |count| == if ok then ndim else 0
    ensures Below64(ndim, sa) && Below64(ndim, sb) && ndim <= 3 ==>
              (ok <==> forall i :: 0 <= i < ndim ==> TouchesIn(i, sa, ca, sb, cb))
    ensures ok ==> forall i :: 0 <= i < ndim ==>
              && start[i] == Max(sa[i], sb[i])
              && start[i] + count[i] == Min(sa[i] + ca[i], sb[i] + cb[i])
                                        + if Min(sa[i] + ca[i], sb[i] + cb[i]) < start[i] then WORD else 0
    ensures Region(ndim, sa, ca) && Region(ndim, sb, cb) && 1 <= ndim <= 3 ==> ok == Meets(ndim, sa, ca, sb, cb)
    ensures Region(ndim, sa, ca) && Region(ndim, sb, cb) && 1 <= ndim <= 3 && ok ==> forall i :: 0 <= i < ndim ==>
              count[i] > 0 && start[i] + count[i] == Min(sa[i] + ca[i], sb[i] + cb[i])
  {
    start, count := [], [];
    ok := Overlaps(ndim, sa, ca, sb, cb);
    if Region(ndim, sa, ca) && Region(ndim, sb, cb) { TouchesIsMeets(ndim, sa, ca, sb, cb); }
    if Below64(ndim, sa) && Below64(ndim, sb) { TouchesExactly(ndim, sa, ca, sb, cb); }
    if ok {
      for i := 0 to ndim
        invariant |start| == |count| == i && forall j :: 0 <= j < i ==>
                    start[j] == Max(sa[j], sb[j]) && count[j] == Clipped(Min(sa[j] + ca[j], sb[j] + cb[j]) - start[j])
      {
        var from := Max(sa[i], sb[i]);
        start := start + [from];
        count := count + [Clipped(Min(sa[i] + ca[i], sb[i] + cb[i]) - from)];
      }
      if Region(ndim, sa, ca) && Region(ndim, sb, cb) && 1 <= ndim <= 3 {
        forall i | 0 <= i < ndim ensures count[i] > 0 && start[i] + count[i] == Min(sa[i] + ca[i], sb[i] + cb[i]) {
          assert Touches(i, sa, ca, sb, cb) && MeetsIn(i, sa, ca, sb, cb);
        }
      }
    }
  }

  lemma TouchesExactly(ndim: nat, sa: seq<nat>, ca: seq<nat>, sb: seq<nat>, cb: seq<nat>)
    requires |ca| >= ndim && |cb| >= ndim && Below64(ndim, sa) && Below64(ndim, sb)
    ensures forall i :: 0 <= i < ndim ==> (Touches(i, sa, ca, sb, cb) <==> TouchesIn(i, sa, ca, sb, cb))
  {
  }

  lemma TouchesIsMeets(ndim: nat, sa: seq<nat>, ca: seq<nat>, sb: seq<nat>, cb: seq<nat>)
    requires Region(ndim, sa, ca) && Region(ndim, sb, cb)
    ensures forall i :: 0 <= i < ndim ==> (Touches(i, sa, ca, sb, cb) <==> MeetsIn(i, sa, ca, sb, cb))
  {
  }

  function Extent(ndim: nat, count: seq<nat>, i: nat): nat
    requires |count| >= ndim
  {
    if i < ndim then count[i] else 1
  }

  // How far the overlap starts into region `a` in dimension `i`.
  function Into(ndim: nat, sa: seq<nat>, sb: seq<nat>, i: nat): nat
    requires |sa| >= ndim && |sb| >= ndim
  {
    if i < ndim then Max(sa[i], sb[i]) - sa[i] else 0
  }

  function Shared(ndim: nat, sa: seq<nat>, ca: seq<nat>, sb: seq<nat>, cb: seq<nat>, i: nat): nat
    requires |sa| >= ndim && |sb| >= ndim && |ca| >= ndim && |cb| >= ndim
    requires i < ndim ==> MeetsIn(i, sa, ca, sb, cb)
  {
    if i < ndim && ca[i] > 0 && cb[i] > 0 then Min(sa[i] + ca[i], sb[i] + cb[i]) - Max(sa[i], sb[i]) else 1
  }

  function OverlapOf(ndim: nat, rs: seq<nat>, rc: seq<nat>, ss: seq<nat>, sc: seq<nat>, base: nat): (g: Overlap)
    requires ndim <= 3 && Region(ndim, rs, rc) && Region(ndim, ss, sc) && Meets(ndim, rs, rc, ss, sc)
    ensures g.Valid()
  {
    assert forall i :: 0 <= i < ndim ==> MeetsIn(i, rs, rc, ss, sc);
    Overlap(Extent(ndim, rc, 0), Extent(ndim, rc, 1), Extent(ndim, rc, 2),
            Extent(ndim, sc, 0), Extent(ndim, sc, 1), Extent(ndim, sc, 2),
            Into(ndim, rs, ss, 0), Into(ndim, rs, ss, 1), Into(ndim, rs, ss, 2),
            Into(ndim, ss, rs, 0), Into(ndim, ss, rs, 1), Into(ndim, ss, rs, 2),
            Shared(ndim, rs, rc, ss, sc, 0), Shared(ndim, rs, rc, ss, sc, 1), Shared(ndim, rs, rc, ss, sc, 2), base)
  }

  // ---- Reading ----

  // fread into the buffer at `at`.
  method ReadInto(fp: ByteFile, buf: array<byte>, at: nat, n: nat) returns (got: nat)
    requires at + n <= buf.Length && n > 0
    modifies fp, buf
    ensures fp.contents == old(fp.contents)
    ensures got == n <==> old(fp.pos) + n <= |fp.contents|
    ensures got == n ==> fp.pos == old(fp.pos) + n
    ensures got == n ==> buf[..] == Splice(old(buf[..]), at, Fetch(fp.contents, old(fp.pos), n))
  {
    var s := fp.Read(n);
    got := |s|;
    forall i | 0 <= i < |s| { buf[at + i] := s[i]; }
  }

  // Places in the buffer and the file are reached from the places of the first byte.
  lemma RowPlaces(g: Overlap, y: nat, z: nat)
    ensures BufRow(g, y, z) == BufRow(g, 0, 0) + y * g.r0 + z * g.r0 * g.r1
    ensures FileRow(g, 0, z) == FileRow(g, 0, 0) + z * g.s0 * g.s1
  {
    CellOffset(g.r0, g.r1, g.b0, g.b1, g.b2, 0, y, z);
    CellOffset(g.s0, g.s1, g.p0, g.p1, g.p2, 0, 0, z);
    assert z * g.r0 * g.r1 == z * (g.r0 * g.r1) && z * g.s0 * g.s1 == z * (g.s0 * g.s1);
  }

  lemma PlaneRowBeforeEnd(g: Overlap, y: nat, z: nat)
    requires y < g.n1
    ensures FileRow(g, y, z) <= FileRow(g, g.n1 - 1, z)
  {
    TimesMono(g.p1 + y, g.p1 + g.n1 - 1, g.s0);
  }

  // One row, from where the file stands.
  method ReadRow(fp: ByteFile, buf: array<byte>, g: Overlap, y: nat, z: nat, bufOffset: nat, ghost was: bytes)
    returns (got: nat)
    requires g.Valid() && y < g.n1 && z < g.n2 && BufferFor(g, was) && bufOffset == BufRow(g, 0, 0)
    requires buf[..] == Rows(g, was, fp.contents, y, z) && fp.pos == FileRow(g, y, z)
    modifies fp, buf
    ensures fp.contents == old(fp.contents)
    ensures got == g.n0 <==> FileRow(g, y, z) + g.n0 <= |fp.contents|
    ensures got == g.n0 ==> fp.pos == FileRow(g, y, z) + g.n0 && buf[..] == Rows(g, was, fp.contents, y + 1, z)
  {
    RowPlaces(g, y, z);
    BufRowInside(g, y, z);
    got := ReadInto(fp, buf, bufOffset + y * g.r0 + z * g.r0 * g.r1, g.n0);
  }

  // The rows of one plane, each reached from the end of the row before it.
  method ReadPlane(fp: ByteFile, buf: array<byte>, g: Overlap, z: nat, bufOffset: nat, before: nat, ghost was: bytes)
    returns (ok: bool, total: nat)
    requires g.Valid() && z < g.n2 && BufferFor(g, was) && bufOffset == BufRow(g, 0, 0)
    requires buf[..] == Rows(g, was, fp.contents, 0, z) && fp.pos == FileRow(g, 0, z)
    modifies fp, buf
    ensures fp.contents == old(fp.contents)
    ensures ok <==> FileRow(g, g.n1 - 1, z) + g.n0 <= |fp.contents|
    ensures ok ==> buf[..] == Rows(g, was, fp.contents, g.n1, z) && total == before + g.n1 * g.n0
  {
    total := before;
    var i := 0;
    while i < g.n1
      invariant 0 <= i <= g.n1
      invariant fp.contents == old(fp.contents)
      invariant buf[..] == Rows(g, was, fp.contents, i, z) && total == before + i * g.n0
      invariant i == 0 ==> fp.pos == FileRow(g, 0, z)
      invariant i > 0 ==> fp.pos == FileRow(g, i - 1, z) + g.n0 <= |fp.contents|
    {
      if i != 0 {
        NextFileRow(g, i - 1, z);
        fp.SeekCur(g.s0 - g.n0);
      }
      PlaneRowBeforeEnd(g, i, z);
      var got := ReadRow(fp, buf, g, i, z, bufOffset, was);
      if got != g.n0 { return false, total; }
      OneMore(i, g.n0);
      total, i := total + got, i + 1;
    }
    ok := true;
  }

  lemma OneMore(j: nat, m: nat)
    ensures (j + 1) * m == j * m + m
  {
  }

  lemma AnyOrder(a: nat, b: nat, c: nat)
    ensures c * (b * a) == a * b * c
  {
  }

  // Plane by plane; a plane starts from the place of its first row.
  method ReadPlanes(fp: ByteFile, buf: array<byte>, g: Overlap, bufOffset: nat, storageOffset: nat)
    returns (ok: bool, total: nat)
    requires g.Valid() && buf.Length == g.r0 * g.r1 * g.r2
    requires bufOffset == BufRow(g, 0, 0) && storageOffset == FileRow(g, 0, 0)
    modifies fp, buf
    ensures fp.contents == old(fp.contents)
    ensures ok <==> LastEnd(g) <= |fp.contents|
    ensures ok ==> buf[..] == Image(g, old(buf[..]), fp.contents) && total == g.Total()
  {
    total := 0;
    var j := 0;
    ghost var was := buf[..];
    while j < g.n2
      invariant 0 <= j <= g.n2
      invariant fp.contents == old(fp.contents)
      invariant buf[..] == Rows(g, was, fp.contents, 0, j) && total == j * (g.n1 * g.n0)
      invariant j == g.n2 ==> LastEnd(g) <= |fp.contents|
    {
      RowPlaces(g, 0, j);
      FileRowBeforeEnd(g, g.n1 - 1, j);
      fp.SeekSet(storageOffset + j * g.s0 * g.s1);
      var more;
      more, total := ReadPlane(fp, buf, g, j, bufOffset, total, was);
      if !more { return false, total; }
      OneMore(j, g.n1 * g.n0);
      j := j + 1;
    }
    AnyOrder(g.n0, g.n1, g.n2);
    ok := true;
  }

  // One read for the whole overlap.
  method ReadAtOnce(fp: ByteFile, buf: array<byte>, g: Overlap, bufOffset: nat, storageOffset: nat, totalBytes: nat)
    returns (ok: bool, total: nat)
    requires g.Valid() && buf.Length == g.r0 * g.r1 * g.r2 && totalBytes == g.Total()
    requires bufOffset == BufRow(g, 0, 0) && storageOffset == FileRow(g, 0, 0)
    modifies fp, buf
    ensures fp.contents == old(fp.contents)
    ensures ok <==> storageOffset + totalBytes <= |fp.contents|
    ensures BufRow(g, 0, 0) + g.Total() <= buf.Length
    ensures ok ==> buf[..] == OneShot(g, old(buf[..]), fp.contents) && total == g.Total()
  {
    OneShotInside(g);
    PositiveTotal(g);
    if fp.pos != storageOffset { fp.SeekSet(storageOffset); }
    var got := ReadInto(fp, buf, bufOffset, totalBytes);
    ok, total := got == totalBytes, got;
  }

  lemma PositiveTotal(g: Overlap)
    requires g.Valid()
    ensures g.Total() > 0
  {
    TimesMono(1, g.n0, g.n1);
    TimesMono(1, g.n0 * g.n1, g.n2);
  }

  // One dimension is one row, whichever way it is read.
  lemma OneRow(g: Overlap, s: bytes, file: bytes)
    requires g.Valid() && g.n1 == 1 && g.n2 == 1 && BufferFor(g, s)
    ensures LastEnd(g) == FileRow(g, 0, 0) + g.Total()
    ensures BufRow(g, 0, 0) + g.Total() <= |s| && OneShot(g, s, file) == Image(g, s, file)
  {
    BufRowInside(g, 0, 0);
    assert Rows(g, s, file, 0, 1) == Rows(g, s, file, 1, 0);
    assert Rows(g, s, file, 0, 0) == s;
  }

  // The offset of a place in an array, added up dimension by dimension from `from`.
  method PlaceIn(ndim: nat, from: nat, at0: nat, at1: nat, at2: nat, count: seq<nat>) returns (at: nat)
    requires 1 <= ndim <= 3 && |count| >= ndim && (ndim < 2 ==> at1 == 0) && (ndim < 3 ==> at2 == 0)
    ensures at == from + Cell(Extent(ndim, count, 0), Extent(ndim, count, 1), at0, at1, at2)
  {
    at := from + at0;
    if ndim >= 2 { at := at + at1 * count[0]; }
    if ndim >= 3 {
      assert at2 * count[0] * count[1] == at2 * (count[0] * count[1]);
      at := at + at2 * count[0] * count[1];
    }
  }

  method CountBytes(ndim: nat, count: seq<nat>) returns (bytes: nat)
    requires 1 <= ndim <= 3 && |count| >= ndim
    ensures bytes == Extent(ndim, count, 0) * Extent(ndim, count, 1) * Extent(ndim, count, 2)
  {
    bytes := 1;
    for i := 0 to ndim
      invariant i == 0 ==> bytes == 1
      invariant i == 1 ==> bytes == count[0]
      invariant i == 2 ==> bytes == count[0] * count[1]
      invariant i == 3 ==> bytes == count[0] * count[1] * count[2]
    {
      bytes := bytes * count[i];
    }
  }

  // Whether the overlap is the whole storage region.
  method IsAllSelected(ndim: nat, start: seq<nat>, count: seq<nat>, ss: seq<nat>, sc: seq<nat>) returns (all: bool)
    requires |start| >= ndim && |count| >= ndim && |ss| >= ndim && |sc| >= ndim
    ensures all == forall i :: 0 <= i < ndim ==> start[i] == ss[i] && count[i] == sc[i]
  {
    all := true;
    for i := 0 to ndim
      invariant all && forall j :: 0 <= j < i ==> start[j] == ss[j] && count[j] == sc[j]
    {
      if start[i] != ss[i] || count[i] != sc[i] { return false; }
    }
  }

  // The buffer after a read: a fully selected region is read in one go, any other row by row.
  ghost function AsRead(g: Overlap, s: bytes, file: bytes): bytes
    requires g.Valid() && BufferFor(g, s)
  {
    OneShotInside(g);
    if g.AllSelected() then OneShot(g, s, file) else Image(g, s, file)
  }

  lemma AsReadRight(g: Overlap, s: bytes, file: bytes)
    requires g.Valid() && BufferFor(g, s) && LastEnd(g) <= |file| && (!g.AllSelected() || RowsRunOn(g))
    ensures AsRead(g, s, file) == Image(g, s, file)
  {
    if g.AllSelected() { RunOnRight(g, s, file); }
  }

  /** Every buffer and file gives the row-by-row image exactly when the region is not fully selected or its
      rows run on, which in one dimension they do. */
  lemma ReadRightExactly(g: Overlap)
    requires g.Valid()
    ensures (forall s, file :: BufferFor(g, s) && LastEnd(g) <= |file| ==> AsRead(g, s, file) == Image(g, s, file))
            <==> !g.AllSelected() || RowsRunOn(g)
    ensures g.n1 == 1 && g.n2 == 1 ==> RowsRunOn(g)
  {
    if !g.AllSelected() || RowsRunOn(g) {
      forall s, file | BufferFor(g, s) && LastEnd(g) <= |file| ensures AsRead(g, s, file) == Image(g, s, file) {
        AsReadRight(g, s, file);
      }
    } else {
      OneShotExactlyWhenRowsRunOn(g);
      var s, file :| BufferFor(g, s) && LastEnd(g) <= |file| && !OneShotRight(g, s, file);
      OneShotInside(g);
    }
  }

  /** The whole read.  It fails for other than one to three dimensions, for regions that do not meet
      and for a file that ends before the overlap does, and for nothing else. */
  method ReadOverlapRegions(ndim: nat, rs: seq<nat>, rc: seq<nat>, ss: seq<nat>, sc: seq<nat>,
                            fp: ByteFile, fileOffset: nat, buf: array<byte>)
    returns (ok: bool, total: nat)
    requires Region(ndim, rs, rc) && Region(ndim, ss, sc)
    requires ndim <= 3 ==> buf.Length == Extent(ndim, rc, 0) * Extent(ndim, rc, 1) * Extent(ndim, rc, 2)
    modifies fp, buf
    ensures fp.contents == old(fp.contents)
    ensures ok <==> 1 <= ndim <= 3 && Meets(ndim, rs, rc, ss, sc)
                    && LastEnd(OverlapOf(ndim, rs, rc, ss, sc, fileOffset)) <= |fp.contents|
    ensures ok ==>
              var g := OverlapOf(ndim, rs, rc, ss, sc, fileOffset);
              && total == g.Total()
              && buf[..] == AsRead(g, old(buf[..]), fp.contents)
              && (ndim == 1 || !g.AllSelected() || RowsRunOn(g) ==>
                    buf[..] == Image(g, old(buf[..]), fp.contents))
  {
    total := 0;
    if ndim > 3 || ndim <= 0 { return false, 0; }
    var meets, start, count := GetOverlap(ndim, rs, rc, ss, sc);
    if !meets { return false, 0; }
    var g := OverlapOf(ndim, rs, rc, ss, sc, fileOffset);
    assert forall i :: 0 <= i < ndim ==> MeetsIn(i, rs, rc, ss, sc) && count[i] == Shared(ndim, rs, rc, ss, sc, i);
    var totalBytes := CountBytes(ndim, count);
    var bufOffset := PlaceIn(ndim, 0, g.b0, g.b1, g.b2, rc);
    var storageOffset := PlaceIn(ndim, fileOffset, g.p0, g.p1, g.p2, sc);
    var selected := IsAllSelected(ndim, start, count, ss, sc);
    ok, total := ReadOverlap(fp, buf, g, bufOffset, storageOffset, totalBytes, ndim == 1 || selected);
  }

  // At once, or row by row.
  method ReadOverlap(fp: ByteFile, buf: array<byte>, g: Overlap, bufOffset: nat, storageOffset: nat, totalBytes: nat,
                     once: bool)
    returns (ok: bool, total: nat)
    requires g.Valid() && buf.Length == g.r0 * g.r1 * g.r2 && totalBytes == g.Total()
    requires bufOffset == BufRow(g, 0, 0) && storageOffset == FileRow(g, 0, 0)
    requires g.AllSelected() ==> once
    requires once ==> g.AllSelected() || (g.n1 == 1 && g.n2 == 1)
    modifies fp, buf
    ensures fp.contents == old(fp.contents)
    ensures ok <==> LastEnd(g) <= |fp.contents|
    ensures ok ==> total == g.Total() && buf[..] == AsRead(g, old(buf[..]), fp.contents)
    ensures ok && (!g.AllSelected() || RowsRunOn(g)) ==> buf[..] == Image(g, old(buf[..]), fp.contents)
  {
    if LastEnd(g) <= |fp.contents| && (!g.AllSelected() || RowsRunOn(g)) { AsReadRight(g, buf[..], fp.contents); }
    if once {
      if g.AllSelected() { WholeRegionEnd(g); } else { OneRow(g, buf[..], fp.contents); }
      ok, total := ReadAtOnce(fp, buf, g, bufOffset, storageOffset, totalBytes);
    } else {
      ok, total := ReadPlanes(fp, buf, g, bufOffset, storageOffset);
    }
  }

  // ---- What the read means in the regions' own coordinates ----

  ghost predicate Within(ndim: nat, start: seq<nat>, count: seq<nat>, c: seq<nat>)
    requires |start| >= ndim && |count| >= ndim
  {
    |c| == ndim && forall i :: 0 <= i < ndim ==> start[i] <= c[i] < start[i] + count[i]
  }

  function Along(ndim: nat, start: seq<nat>, c: seq<nat>, i: nat): nat
    requires |start| >= ndim && |c| == ndim
  {
    if i < ndim && start[i] <= c[i] then c[i] - start[i] else 0
  }

  /** Regions meet exactly when some coordinate lies in both. */
  lemma MeetsExactly(ndim: nat, sa: seq<nat>, ca: seq<nat>, sb: seq<nat>, cb: seq<nat>)
    requires Region(ndim, sa, ca) && Region(ndim, sb, cb)
    ensures Meets(ndim, sa, ca, sb, cb) <==> exists c :: Within(ndim, sa, ca, c) && Within(ndim, sb, cb, c)
  {
    if Meets(ndim, sa, ca, sb, cb) {
      var c := seq(ndim, i requires 0 <= i < ndim => Max(sa[i], sb[i]));
      forall i | 0 <= i < ndim ensures sa[i] <= c[i] < sa[i] + ca[i] && sb[i] <= c[i] < sb[i] + cb[i] {
        assert MeetsIn(i, sa, ca, sb, cb) && ca[i] > 0 && cb[i] > 0;
      }
      assert Within(ndim, sa, ca, c) && Within(ndim, sb, cb, c);
    }
    if c :| Within(ndim, sa, ca, c) && Within(ndim, sb, cb, c) {
      forall i | 0 <= i < ndim ensures MeetsIn(i, sa, ca, sb, cb) { assert sa[i] <= c[i] && sb[i] <= c[i]; }
    }
  }

  /** A region is fully selected exactly when the request contains it. */
  lemma AllSelectedExactly(ndim: nat, rs: seq<nat>, rc: seq<nat>, ss: seq<nat>, sc: seq<nat>, base: nat)
    requires 1 <= ndim <= 3 && Region(ndim, rs, rc) && Region(ndim, ss, sc) && Meets(ndim, rs, rc, ss, sc)
    ensures OverlapOf(ndim, rs, rc, ss, sc, base).AllSelected()
            <==> forall i :: 0 <= i < ndim ==> rs[i] <= ss[i] && ss[i] + sc[i] <= rs[i] + rc[i]
  {
    assert forall i :: 0 <= i < ndim ==> MeetsIn(i, rs, rc, ss, sc) && rc[i] > 0 && sc[i] > 0;
    forall i | 0 <= i < ndim
      ensures Into(ndim, ss, rs, i) == 0 && Shared(ndim, rs, rc, ss, sc, i) == Extent(ndim, sc, i)
              <==> rs[i] <= ss[i] && ss[i] + sc[i] <= rs[i] + rc[i]
    {
    }
  }

  // The offset of coordinate `c` in a region stored whole.
  function PlaceOf(ndim: nat, start: seq<nat>, count: seq<nat>, c: seq<nat>): nat
    requires |start| >= ndim && |count| >= ndim && |c| == ndim
  {
    Cell(Extent(ndim, count, 0), Extent(ndim, count, 1),
         Along(ndim, start, c, 0), Along(ndim, start, c, 1), Along(ndim, start, c, 2))
  }

  // In one dimension, coordinate `c` is byte `d` of the overlap.
  lemma AlongOverlap(ndim: nat, rs: seq<nat>, rc: seq<nat>, ss: seq<nat>, sc: seq<nat>, c: seq<nat>, i: nat)
    returns (d: nat)
    requires Region(ndim, rs, rc) && Region(ndim, ss, sc) && (i < ndim ==> MeetsIn(i, rs, rc, ss, sc))
    requires Within(ndim, rs, rc, c) && Within(ndim, ss, sc, c)
    ensures d < Shared(ndim, rs, rc, ss, sc, i)
    ensures Into(ndim, rs, ss, i) + d == Along(ndim, rs, c, i) && Into(ndim, ss, rs, i) + d == Along(ndim, ss, c, i)
  {
    d := if i < ndim then c[i] - Max(rs[i], ss[i]) else 0;
  }

  // A byte of the overlap, from its places along the dimensions.
  lemma CellOfOverlap(g: Overlap, x: nat, y: nat, z: nat, b0: nat, b1: nat, b2: nat, p0: nat, p1: nat, p2: nat)
    requires g.b0 + x == b0 && g.b1 + y == b1 && g.b2 + z == b2 && g.p0 + x == p0 && g.p1 + y == p1 && g.p2 + z == p2
    ensures BufCell(g, x, y, z) == Cell(g.r0, g.r1, b0, b1, b2)
    ensures FileCell(g, x, y, z) == g.base + Cell(g.s0, g.s1, p0, p1, p2)
  {
  }

  // Coordinate `c` of both regions is byte `(x, y, z)` of their overlap.
  lemma CoordinateOfOverlap(ndim: nat, rs: seq<nat>, rc: seq<nat>, ss: seq<nat>, sc: seq<nat>, base: nat, c: seq<nat>)
    returns (x: nat, y: nat, z: nat)
    requires ndim <= 3 && Region(ndim, rs, rc) && Region(ndim, ss, sc) && Meets(ndim, rs, rc, ss, sc)
    requires Within(ndim, rs, rc, c) && Within(ndim, ss, sc, c)
    ensures var g := OverlapOf(ndim, rs, rc, ss, sc, base);
            && x < g.n0 && y < g.n1 && z < g.n2
            && BufCell(g, x, y, z) == PlaceOf(ndim, rs, rc, c)
            && FileCell(g, x, y, z) == base + PlaceOf(ndim, ss, sc, c)
  {
    assert forall i :: 0 <= i < ndim ==> MeetsIn(i, rs, rc, ss, sc);
    x := AlongOverlap(ndim, rs, rc, ss, sc, c, 0);
    y := AlongOverlap(ndim, rs, rc, ss, sc, c, 1);
    z := AlongOverlap(ndim, rs, rc, ss, sc, c, 2);
    CellOfOverlap(OverlapOf(ndim, rs, rc, ss, sc, base), x, y, z,
                  Along(ndim, rs, c, 0), Along(ndim, rs, c, 1), Along(ndim, rs, c, 2),
                  Along(ndim, ss, c, 0), Along(ndim, ss, c, 1), Along(ndim, ss, c, 2));
  }

  /** Every coordinate that lies in both regions gets the storage byte of that coordinate. */
  lemma CoordinateIsCopied(ndim: nat, rs: seq<nat>, rc: seq<nat>, ss: seq<nat>, sc: seq<nat>, base: nat,
                           s: bytes, file: bytes, c: seq<nat>)
    requires ndim <= 3 && Region(ndim, rs, rc) && Region(ndim, ss, sc) && Meets(ndim, rs, rc, ss, sc)
    requires Within(ndim, rs, rc, c) && Within(ndim, ss, sc, c)
    requires BufferFor(OverlapOf(ndim, rs, rc, ss, sc, base), s)
    requires LastEnd(OverlapOf(ndim, rs, rc, ss, sc, base)) <= |file|
    ensures PlaceOf(ndim, rs, rc, c) < |s| && base + PlaceOf(ndim, ss, sc, c) < |file|
    ensures Image(OverlapOf(ndim, rs, rc, ss, sc, base), s, file)[PlaceOf(ndim, rs, rc, c)]
         == file[base + PlaceOf(ndim, ss, sc, c)]
  {
    var x, y, z := CoordinateOfOverlap(ndim, rs, rc, ss, sc, base, c);
    ImageAt(OverlapOf(ndim, rs, rc, ss, sc, base), s, file, x, y, z);
  }

  lemma OverlapIsCoordinate(ndim: nat, rs: seq<nat>, rc: seq<nat>, ss: seq<nat>, sc: seq<nat>, base: nat,
                            x: nat, y: nat, z: nat)
    returns (c: seq<nat>)
    requires 1 <= ndim <= 3 && Region(ndim, rs, rc) && Region(ndim, ss, sc) && Meets(ndim, rs, rc, ss, sc)
    requires var g := OverlapOf(ndim, rs, rc, ss, sc, base); x < g.n0 && y < g.n1 && z < g.n2
    ensures Within(ndim, rs, rc, c) && Within(ndim, ss, sc, c)
    ensures PlaceOf(ndim, rs, rc, c) == BufCell(OverlapOf(ndim, rs, rc, ss, sc, base), x, y, z)
  {
    var g := OverlapOf(ndim, rs, rc, ss, sc, base);
    assert forall i :: 0 <= i < ndim ==> MeetsIn(i, rs, rc, ss, sc);
    var c0 := Max(rs[0], ss[0]) + x;
    var c1 := if ndim > 1 then Max(rs[1], ss[1]) + y else 0;
    var c2 := if ndim > 2 then Max(rs[2], ss[2]) + z else 0;
    c := if ndim == 1 then [c0] else if ndim == 2 then [c0, c1] else [c0, c1, c2];
    assert g.b0 + x == Along(ndim, rs, c, 0) && g.b1 + y == Along(ndim, rs, c, 1) && g.b2 + z == Along(ndim, rs, c, 2);
  }

  /** A byte of the request that is no such coordinate's keeps its value. */
  lemma RestIsKept(ndim: nat, rs: seq<nat>, rc: seq<nat>, ss: seq<nat>, sc: seq<nat>, base: nat,
                   s: bytes, file: bytes, k: nat)
    requires 1 <= ndim <= 3 && Region(ndim, rs, rc) && Region(ndim, ss, sc) && Meets(ndim, rs, rc, ss, sc)
    requires BufferFor(OverlapOf(ndim, rs, rc, ss, sc, base), s) && k < |s|
    requires forall c :: Within(ndim, rs, rc, c) && Within(ndim, ss, sc, c) ==> PlaceOf(ndim, rs, rc, c) != k
    ensures Image(OverlapOf(ndim, rs, rc, ss, sc, base), s, file)[k] == s[k]
  {
    var g := OverlapOf(ndim, rs, rc, ss, sc, base);
    forall x: nat, y: nat, z: nat | x < g.n0 && y < g.n1 && z < g.n2 ensures BufCell(g, x, y, z) != k {
      var c := OverlapIsCoordinate(ndim, rs, rc, ss, sc, base, x, y, z);
    }
    ImageElsewhere(g, s, file, k);
  }
}
