/** Where the bytes of an overlap lie: rows of a box in a file and in a buffer, in up to three dimensions. */
module RegionGeometry {
  import opened Bytes

  /** Where an overlap sits: the request is `r0 * r1 * r2` bytes, the storage region `s0 * s1 * s2`
      bytes at `base` of its file, and the overlap is the `n0 * n1 * n2` bytes that start `(b0, b1, b2)`
      into the request and `(p0, p1, p2)` into the storage region.  Absent dimensions have extent one. */
  datatype Overlap = Overlap(r0: nat, r1: nat, r2: nat, s0: nat, s1: nat, s2: nat,
                             b0: nat, b1: nat, b2: nat, p0: nat, p1: nat, p2: nat,
                             n0: nat, n1: nat, n2: nat, base: nat)
  {
    ghost predicate Valid() {
      && 0 < n0 && b0 + n0 <= r0 && p0 + n0 <= s0
      && 0 < n1 && b1 + n1 <= r1 && p1 + n1 <= s1
      && 0 < n2 && b2 + n2 <= r2 && p2 + n2 <= s2
    }

    function Total(): nat {
      n0 * n1 * n2
    }

    predicate AllSelected() {
      p0 == p1 == p2 == 0 && n0 == s0 && n1 == s1 && n2 == s2
    }
  }

  // Row `y` of plane `z` in an array of rows of `w` bytes and planes of `h` rows.
  function Cell(w: nat, h: nat, x: nat, y: nat, z: nat): nat {
    x + y * w + z * (w * h)
  }

  function BufRow(g: Overlap, y: nat, z: nat): nat {
    Cell(g.r0, g.r1, g.b0, g.b1 + y, g.b2 + z)
  }

  function FileRow(g: Overlap, y: nat, z: nat): nat {
    g.base + Cell(g.s0, g.s1, g.p0, g.p1 + y, g.p2 + z)
  }

  // Where the last row of the overlap ends in the file.
  function LastEnd(g: Overlap): nat
    requires g.n1 > 0 && g.n2 > 0
  {
    FileRow(g, g.n1 - 1, g.n2 - 1) + g.n0
  }

  function Fetch(file: bytes, at: nat, n: nat): (r: bytes)
    ensures |r| == n
  {
    if at + n <= |file| then file[at..at + n] else seq(n, i => 0)
  }

  function Splice(s: bytes, at: nat, d: bytes): (r: bytes)
    requires at + |d| <= |s|
    ensures |r| == |s|
  {
    s[..at] + d + s[at + |d|..]
  }

  // ---- Rows stay apart ----

  lemma TimesMono(a: nat, b: nat, w: nat)
    requires a <= b
    ensures a * w <= b * w
  {
    assert b * w == a * w + (b - a) * w;
  }

  // Row numbers count through the planes.
  lemma CellByRow(w: nat, h: nat, x: nat, y: nat, z: nat)
    ensures Cell(w, h, x, y, z) == x + (y + z * h) * w
  {
    assert (y + z * h) * w == y * w + z * h * w;
    assert z * h * w == z * (w * h);
  }

  lemma RowNumberBound(h: nat, d: nat, y: nat, z: nat)
    requires y < h && z < d
    ensures y + z * h < h * d
  {
    TimesMono(z + 1, d, h);
    assert (z + 1) * h == z * h + h;
  }

  // A row of an array lies inside it.
  lemma RowInside(w: nat, h: nat, d: nat, x: nat, n: nat, y: nat, z: nat)
    requires x + n <= w && y < h && z < d
    ensures Cell(w, h, x, y, z) + n <= w * h * d
  {
    var row := y + z * h;
    CellByRow(w, h, x, y, z);
    RowNumberBound(h, d, y, z);
    TimesMono(row + 1, h * d, w);
    assert (row + 1) * w == row * w + w;
    assert h * d * w == w * h * d;
  }

  // Rows come in order, and each ends before the next one starts.
  lemma RowsApart(w: nat, x: nat, n: nat, row: nat, row': nat)
    requires x + n <= w && row < row'
    ensures x + row * w + n <= x + row' * w
  {
    TimesMono(row + 1, row', w);
    assert (row + 1) * w == row * w + w;
  }

  lemma RowNumberOrder(h: nat, y: nat, z: nat, y': nat, z': nat)
    requires y < h && y' < h && (z < z' || (z == z' && y < y'))
    ensures y + z * h < y' + z' * h
  {
    if z < z' {
      TimesMono(z + 1, z', h);
      assert (z + 1) * h == z * h + h;
    }
  }

  lemma BufRowInside(g: Overlap, y: nat, z: nat)
    requires g.Valid() && y < g.n1 && z < g.n2
    ensures BufRow(g, y, z) + g.n0 <= g.r0 * g.r1 * g.r2
  {
    RowInside(g.r0, g.r1, g.r2, g.b0, g.n0, g.b1 + y, g.b2 + z);
  }

  lemma BufRowsApart(g: Overlap, y: nat, z: nat, y': nat, z': nat)
    requires g.Valid() && y < g.n1 && y' < g.n1 && (z < z' || (z == z' && y < y'))
    ensures BufRow(g, y, z) + g.n0 <= BufRow(g, y', z')
  {
    CellByRow(g.r0, g.r1, g.b0, g.b1 + y, g.b2 + z);
    CellByRow(g.r0, g.r1, g.b0, g.b1 + y', g.b2 + z');
    RowNumberOrder(g.r1, g.b1 + y, g.b2 + z, g.b1 + y', g.b2 + z');
    RowsApart(g.r0, g.b0, g.n0, g.b1 + y + (g.b2 + z) * g.r1, g.b1 + y' + (g.b2 + z') * g.r1);
  }

  lemma FileRowBeforeEnd(g: Overlap, y: nat, z: nat)
    requires g.Valid() && y < g.n1 && z < g.n2
    ensures FileRow(g, y, z) + g.n0 <= LastEnd(g)
  {
    var y', z' := g.n1 - 1, g.n2 - 1;
    if y != y' || z != z' {
      CellByRow(g.s0, g.s1, g.p0, g.p1 + y, g.p2 + z);
      CellByRow(g.s0, g.s1, g.p0, g.p1 + y', g.p2 + z');
      RowNumberOrder(g.s1, g.p1 + y, g.p2 + z, g.p1 + y', g.p2 + z');
      RowsApart(g.s0, g.p0, g.n0, g.p1 + y + (g.p2 + z) * g.s1, g.p1 + y' + (g.p2 + z') * g.s1);
    }
  }

  lemma NextFileRow(g: Overlap, y: nat, z: nat)
    ensures FileRow(g, y + 1, z) == FileRow(g, y, z) + g.s0
  {
    assert (g.p1 + y + 1) * g.s0 == (g.p1 + y) * g.s0 + g.s0;
  }

  // ---- The buffer after reading row by row ----

  ghost predicate BufferFor(g: Overlap, s: bytes) {
    |s| == g.r0 * g.r1 * g.r2
  }

  // Planes below `z` done, and `y` rows of plane `z`.
  function Rows(g: Overlap, s: bytes, file: bytes, y: nat, z: nat): (r: bytes)
    requires g.Valid() && BufferFor(g, s) && y <= g.n1 && z <= g.n2 && (z == g.n2 ==> y == 0)
    ensures |r| == |s|
    decreases z, y
  {
    if y > 0 then
      BufRowInside(g, y - 1, z);
      Splice(Rows(g, s, file, y - 1, z), BufRow(g, y - 1, z), Fetch(file, FileRow(g, y - 1, z), g.n0))
    else if z > 0 then Rows(g, s, file, g.n1, z - 1)
    else s
  }

  // Row `(y, z)` comes before the rows still to be read.
  ghost predicate Done(y: nat, z: nat, y': nat, z': nat) {
    z < z' || (z == z' && y < y')
  }

  lemma SpliceAt(s: bytes, at: nat, d: bytes, k: nat)
    requires at + |d| <= |s| && k < |s|
    ensures Splice(s, at, d)[k] == if at <= k < at + |d| then d[k - at] else s[k]
  {
  }

  lemma FetchedAt(s: bytes, at: nat, file: bytes, from: nat, n: nat, x: nat)
    requires at + n <= |s| && from + n <= |file| && x < n
    ensures Splice(s, at, Fetch(file, from, n))[at + x] == file[from + x]
  {
    SpliceAt(s, at, Fetch(file, from, n), at + x);
  }

  // The row just read is in its place,
  lemma RowAt(g: Overlap, s: bytes, file: bytes, y: nat, z: nat, x: nat)
    requires g.Valid() && BufferFor(g, s) && LastEnd(g) <= |file| && y < g.n1 && z < g.n2 && x < g.n0
    ensures BufRow(g, y, z) + x < |s| && FileRow(g, y, z) + x < |file|
    ensures Rows(g, s, file, y + 1, z)[BufRow(g, y, z) + x] == file[FileRow(g, y, z) + x]
  {
    BufRowInside(g, y, z);
    FileRowBeforeEnd(g, y, z);
    FetchedAt(Rows(g, s, file, y, z), BufRow(g, y, z), file, FileRow(g, y, z), g.n0, x);
  }

  // and everything outside it is as before.
  lemma RowKeeps(g: Overlap, s: bytes, file: bytes, y: nat, z: nat, k: nat)
    requires g.Valid() && BufferFor(g, s) && LastEnd(g) <= |file| && y < g.n1 && z < g.n2 && k < |s|
    requires !(BufRow(g, y, z) <= k < BufRow(g, y, z) + g.n0)
    ensures Rows(g, s, file, y + 1, z)[k] == Rows(g, s, file, y, z)[k]
  {
    BufRowInside(g, y, z);
    FileRowBeforeEnd(g, y, z);
    SpliceAt(Rows(g, s, file, y, z), BufRow(g, y, z), Fetch(file, FileRow(g, y, z), g.n0), k);
  }

  /** Every byte of a row that has been read is the byte of the file at the same place of that row. */
  lemma {:induction false} RowsAt(g: Overlap, s: bytes, file: bytes, y: nat, z: nat, y': nat, z': nat, x: nat)
    requires g.Valid() && BufferFor(g, s) && LastEnd(g) <= |file|
    requires y' <= g.n1 && z' <= g.n2 && (z' == g.n2 ==> y' == 0)
    requires x < g.n0 && y < g.n1 && z < g.n2 && Done(y, z, y', z')
    ensures BufRow(g, y, z) + x < |s| && FileRow(g, y, z) + x < |file|
    ensures Rows(g, s, file, y', z')[BufRow(g, y, z) + x] == file[FileRow(g, y, z) + x]
    decreases z', y'
  {
    if y' > 0 {
      if y == y' - 1 && z == z' {
        RowAt(g, s, file, y, z, x);
      } else {
        BufRowsApart(g, y, z, y' - 1, z');
        RowsAt(g, s, file, y, z, y' - 1, z', x);
        RowKeeps(g, s, file, y' - 1, z', BufRow(g, y, z) + x);
      }
    } else {
      RowsAt(g, s, file, y, z, g.n1, z' - 1, x);
    }
  }

  // Index `k` of the buffer lies in a row of the overlap.
  ghost predicate InOverlap(g: Overlap, k: nat) {
    exists y: nat, z: nat :: y < g.n1 && z < g.n2 && BufRow(g, y, z) <= k < BufRow(g, y, z) + g.n0
  }

  /** Bytes outside the overlap are as they were. */
  lemma {:induction false} RowsElsewhere(g: Overlap, s: bytes, file: bytes, y: nat, z: nat, k: nat)
    requires g.Valid() && BufferFor(g, s) && y <= g.n1 && z <= g.n2 && (z == g.n2 ==> y == 0)
    requires k < |s| && !InOverlap(g, k)
    ensures Rows(g, s, file, y, z)[k] == s[k]
    decreases z, y
  {
    if y > 0 {
      BufRowInside(g, y - 1, z);
      SpliceAt(Rows(g, s, file, y - 1, z), BufRow(g, y - 1, z), Fetch(file, FileRow(g, y - 1, z), g.n0), k);
      RowsElsewhere(g, s, file, y - 1, z, k);
    } else if z > 0 {
      RowsElsewhere(g, s, file, g.n1, z - 1, k);
    }
  }

  /** The whole overlap copied, and nothing else. */
  function Image(g: Overlap, s: bytes, file: bytes): (r: bytes)
    requires g.Valid() && BufferFor(g, s)
    ensures |r| == |s|
  {
    Rows(g, s, file, 0, g.n2)
  }

  // Byte `(x, y, z)` of the overlap, in the request buffer and in the file.
  function BufCell(g: Overlap, x: nat, y: nat, z: nat): nat {
    Cell(g.r0, g.r1, g.b0 + x, g.b1 + y, g.b2 + z)
  }

  function FileCell(g: Overlap, x: nat, y: nat, z: nat): nat {
    g.base + Cell(g.s0, g.s1, g.p0 + x, g.p1 + y, g.p2 + z)
  }

  /** Each byte of the overlap lands at its own place of the request. */
  lemma ImageAt(g: Overlap, s: bytes, file: bytes, x: nat, y: nat, z: nat)
    requires g.Valid() && BufferFor(g, s) && LastEnd(g) <= |file|
    requires x < g.n0 && y < g.n1 && z < g.n2
    ensures BufCell(g, x, y, z) < |s| && FileCell(g, x, y, z) < |file|
    ensures Image(g, s, file)[BufCell(g, x, y, z)] == file[FileCell(g, x, y, z)]
  {
    RowsAt(g, s, file, y, z, 0, g.n2, x);
  }

  lemma CellInOverlap(g: Overlap, k: nat) returns (x: nat, y: nat, z: nat)
    requires InOverlap(g, k)
    ensures x < g.n0 && y < g.n1 && z < g.n2 && BufCell(g, x, y, z) == k
  {
    y, z :| y < g.n1 && z < g.n2 && BufRow(g, y, z) <= k < BufRow(g, y, z) + g.n0;
    x := k - BufRow(g, y, z);
  }

  /** No other byte of the request changes. */
  lemma ImageElsewhere(g: Overlap, s: bytes, file: bytes, k: nat)
    requires g.Valid() && BufferFor(g, s) && k < |s|
    requires forall x: nat, y: nat, z: nat :: x < g.n0 && y < g.n1 && z < g.n2 ==> BufCell(g, x, y, z) != k
    ensures Image(g, s, file)[k] == s[k]
  {
    if InOverlap(g, k) { var x, y, z := CellInOverlap(g, k); }
    RowsElsewhere(g, s, file, 0, g.n2, k);
  }

  // ---- Reading a fully selected storage region in one go ----

  // The single read runs on through the buffer where the rows of the request do not.
  function OneShot(g: Overlap, s: bytes, file: bytes): (r: bytes)
    requires BufRow(g, 0, 0) + g.Total() <= |s|
  {
    Splice(s, BufRow(g, 0, 0), Fetch(file, FileRow(g, 0, 0), g.Total()))
  }

  // The extents of the storage region and the request agree wherever more than one row, or plane, is read.
  predicate RowsRunOn(g: Overlap) {
    && (g.n1 == 1 || g.r0 == g.n0)
    && (g.n2 == 1 || (g.r0 == g.n0 && g.r1 == g.n1))
  }

  lemma ProductInside(n0: nat, n1: nat, n2: nat, r0: nat, r1: nat)
    requires 0 < n1 && 0 < n2 && n0 <= r0 && n1 <= r1
    ensures n0 * n1 * n2 <= n0 + (n1 - 1) * r0 + (n2 - 1) * (r0 * r1)
  {
    assert n0 * n1 == n0 + (n1 - 1) * n0;
    TimesMono(n0, r0, n1 - 1);
    assert n0 * (n1 - 1) == (n1 - 1) * n0 && r0 * (n1 - 1) == (n1 - 1) * r0;
    TimesMono(n0, r0, n1);
    TimesMono(n1, r1, r0);
    assert n0 * n1 <= r0 * r1 by { assert r0 * n1 == n1 * r0 && r1 * r0 == r0 * r1; }
    TimesMono(n0 * n1, r0 * r1, n2 - 1);
    assert n0 * n1 * n2 == n0 * n1 + (n0 * n1) * (n2 - 1);
    assert (r0 * r1) * (n2 - 1) == (n2 - 1) * (r0 * r1);
  }

  lemma CellOffset(w: nat, h: nat, x: nat, y: nat, z: nat, a: nat, b: nat, c: nat)
    ensures Cell(w, h, x + a, y + b, z + c) == Cell(w, h, x, y, z) + Cell(w, h, a, b, c)
  {
    assert (y + b) * w == y * w + b * w;
    assert (z + c) * (w * h) == z * (w * h) + c * (w * h);
  }

  /** The single read never leaves the request buffer. */
  lemma OneShotInside(g: Overlap)
    requires g.Valid()
    ensures BufRow(g, 0, 0) + g.Total() <= g.r0 * g.r1 * g.r2
  {
    ProductInside(g.n0, g.n1, g.n2, g.r0, g.r1);
    CellOffset(g.r0, g.r1, g.b0, g.b1, g.b2, 0, g.n1 - 1, g.n2 - 1);
    BufRowInside(g, g.n1 - 1, g.n2 - 1);
  }

  // A cell of an array of rows of `w` bytes and planes of `h` rows is one of its `w * h * d` bytes.
  lemma CellInside(w: nat, h: nat, d: nat, x: nat, y: nat, z: nat)
    requires x < w && y < h && z < d
    ensures Cell(w, h, x, y, z) < w * h * d
  {
    RowInside(w, h, d, x, 1, y, z);
  }

  // ... and each of its bytes is a cell.
  lemma CellOf(w: nat, h: nat, d: nat, k: nat) returns (x: nat, y: nat, z: nat)
    requires 0 < w && 0 < h && k < w * h * d
    ensures x < w && y < h && z < d && Cell(w, h, x, y, z) == k
  {
    assert w * h * d == (h * d) * w;
    var row;
    x, row := DivideBy(k, w, h * d);
    assert h * d == d * h;
    y, z := DivideBy(row, h, d);
    CellByRow(w, h, x, y, z);
  }

  lemma DivideBy(k: nat, w: nat, n: nat) returns (r: nat, q: nat)
    requires 0 < w && k < n * w
    ensures r < w && q < n && k == r + q * w
  {
    if k < w {
      r, q := k, 0;
      assert n == 0 ==> n * w == 0;
    } else {
      assert (n - 1) * w == n * w - w;
      r, q := DivideBy(k - w, w, n - 1);
      q := q + 1;
    }
  }

  lemma OneShotAt(g: Overlap, s: bytes, file: bytes, x: nat, y: nat, z: nat)
    requires g.Valid() && g.AllSelected() && BufferFor(g, s) && LastEnd(g) <= |file|
    requires x < g.n0 && y < g.n1 && z < g.n2
    ensures BufRow(g, 0, 0) + g.Total() <= |s|
    ensures BufRow(g, 0, 0) + Cell(g.n0, g.n1, x, y, z) < |s| && FileCell(g, x, y, z) < |file|
    ensures OneShot(g, s, file)[BufRow(g, 0, 0) + Cell(g.n0, g.n1, x, y, z)] == file[FileCell(g, x, y, z)]
  {
    OneShotInside(g);
    CellInside(g.n0, g.n1, g.n2, x, y, z);
    WholeRegionEnd(g);
    var at := BufRow(g, 0, 0);
    SpliceAt(s, at, Fetch(file, g.base, g.Total()), at + Cell(g.n0, g.n1, x, y, z));
  }

  // The last row of a whole region ends with the region.
  lemma WholeRegionEnd(g: Overlap)
    requires g.Valid() && g.AllSelected()
    ensures FileRow(g, 0, 0) == g.base && LastEnd(g) == g.base + g.Total()
  {
    var n0, n1, n2 := g.n0, g.n1, g.n2;
    assert n0 + (n1 - 1) * n0 == n1 * n0 == n0 * n1;
    assert n0 * n1 + (n2 - 1) * (n0 * n1) == n2 * (n0 * n1) == n0 * n1 * n2;
  }

  lemma OneShotElsewhere(g: Overlap, s: bytes, file: bytes, k: nat)
    requires BufRow(g, 0, 0) + g.Total() <= |s| && k < |s|
    requires !(BufRow(g, 0, 0) <= k < BufRow(g, 0, 0) + g.Total())
    ensures OneShot(g, s, file)[k] == s[k]
  {
    SpliceAt(s, BufRow(g, 0, 0), Fetch(file, FileRow(g, 0, 0), g.Total()), k);
  }

  lemma RunOnCell(g: Overlap, x: nat, y: nat, z: nat)
    requires g.Valid() && RowsRunOn(g) && x < g.n0 && y < g.n1 && z < g.n2
    ensures BufCell(g, x, y, z) == BufRow(g, 0, 0) + Cell(g.n0, g.n1, x, y, z)
  {
    CellOffset(g.r0, g.r1, g.b0, g.b1, g.b2, x, y, z);
    if g.n1 == 1 { assert y * g.r0 == 0 == y * g.n0; }
    if g.n2 == 1 { assert z * (g.r0 * g.r1) == 0 == z * (g.n0 * g.n1); }
  }

  lemma RunOnSame(g: Overlap, s: bytes, file: bytes, k: nat)
    requires g.Valid() && g.AllSelected() && RowsRunOn(g) && BufferFor(g, s) && LastEnd(g) <= |file| && k < |s|
    ensures BufRow(g, 0, 0) + g.Total() <= |s|
    ensures OneShot(g, s, file)[k] == Image(g, s, file)[k]
  {
    OneShotInside(g);
    var at := BufRow(g, 0, 0);
    if at <= k < at + g.Total() {
      var x, y, z := CellOf(g.n0, g.n1, g.n2, k - at);
      RunOnCell(g, x, y, z);
      ImageAt(g, s, file, x, y, z);
      OneShotAt(g, s, file, x, y, z);
    } else {
      RunOnElsewhere(g, k);
      ImageElsewhere(g, s, file, k);
      OneShotElsewhere(g, s, file, k);
    }
  }

  lemma RunOnElsewhere(g: Overlap, k: nat)
    requires g.Valid() && RowsRunOn(g) && !(BufRow(g, 0, 0) <= k < BufRow(g, 0, 0) + g.Total())
    ensures forall x: nat, y: nat, z: nat :: x < g.n0 && y < g.n1 && z < g.n2 ==> BufCell(g, x, y, z) != k
  {
    forall x: nat, y: nat, z: nat | x < g.n0 && y < g.n1 && z < g.n2 ensures BufCell(g, x, y, z) != k {
      RunOnCell(g, x, y, z);
      CellInside(g.n0, g.n1, g.n2, x, y, z);
    }
  }

  // A file that is zero but for one byte.
  function Spike(n: nat, at: nat): (f: bytes)
    ensures |f| == n && forall i :: 0 <= i < n ==> f[i] == if i == at then 1 else 0
  {
    seq(n, i => if i == at then 1 else 0)
  }

  // If byte `(x, y, z)` has two places, some contents tell the two ways of reading apart.
  lemma TwoPlaces(g: Overlap, x: nat, y: nat, z: nat) returns (s: bytes, file: bytes)
    requires g.Valid() && g.AllSelected() && x < g.n0 && y < g.n1 && z < g.n2
    requires BufCell(g, x, y, z) != BufRow(g, 0, 0) + Cell(g.n0, g.n1, x, y, z)
    ensures BufferFor(g, s) && LastEnd(g) <= |file| && BufRow(g, 0, 0) + g.Total() <= |s|
    ensures OneShot(g, s, file) != Image(g, s, file)
  {
    var f, k := FileCell(g, x, y, z), BufCell(g, x, y, z);
    s, file := Spike(g.r0 * g.r1 * g.r2, g.r0 * g.r1 * g.r2), Spike(LastEnd(g), f);
    ImageAt(g, s, file, x, y, z);
    WholeRegionEnd(g);
    OneShotAt(g, s, file, x, y, z);
    SpikeOnce(s, BufRow(g, 0, 0), file, g.base, g.Total(), f, k);
  }

  // A spike that is read whole shows up in one place only.
  lemma SpikeOnce(s: bytes, at: nat, file: bytes, from: nat, n: nat, f: nat, k: nat)
    requires at + n <= |s| && from + n <= |file| && f < |file| && k < |s| && s[k] == 0 && k != at + f - from
    requires file == Spike(|file|, f)
    ensures Splice(s, at, Fetch(file, from, n))[k] == 0
  {
    SpliceAt(s, at, Fetch(file, from, n), k);
  }

  lemma RunOnNeeded(g: Overlap) returns (x: nat, y: nat, z: nat)
    requires g.Valid() && !RowsRunOn(g)
    ensures x < g.n0 && y < g.n1 && z < g.n2
    ensures BufCell(g, x, y, z) != BufRow(g, 0, 0) + Cell(g.n0, g.n1, x, y, z)
  {
    if g.n1 > 1 && g.r0 != g.n0 {
      SecondRow(g);
      return 0, 1, 0;
    } else {
      LargerProduct(g.n0, g.n1, g.r0, g.r1);
      SecondPlane(g);
      return 0, 0, 1;
    }
  }

  lemma SecondRow(g: Overlap)
    ensures BufCell(g, 0, 1, 0) == BufRow(g, 0, 0) + g.r0 && Cell(g.n0, g.n1, 0, 1, 0) == g.n0
  {
    CellOffset(g.r0, g.r1, g.b0, g.b1, g.b2, 0, 1, 0);
    CellUnits(g.r0, g.r1);
    CellUnits(g.n0, g.n1);
  }

  lemma SecondPlane(g: Overlap)
    ensures BufCell(g, 0, 0, 1) == BufRow(g, 0, 0) + g.r0 * g.r1 && Cell(g.n0, g.n1, 0, 0, 1) == g.n0 * g.n1
  {
    CellOffset(g.r0, g.r1, g.b0, g.b1, g.b2, 0, 0, 1);
    CellUnits(g.r0, g.r1);
    CellUnits(g.n0, g.n1);
  }

  lemma CellUnits(w: nat, h: nat)
    ensures Cell(w, h, 0, 1, 0) == w && Cell(w, h, 0, 0, 1) == w * h
  {
  }

  lemma LargerProduct(a: nat, b: nat, a': nat, b': nat)
    requires 0 < a <= a' && 0 < b <= b' && (a != a' || b != b')
    ensures a * b < a' * b'
  {
    if a < a' {
      TimesMono(a + 1, a', b);
      assert (a + 1) * b == a * b + b;
      TimesMono(b, b', a');
    } else {
      TimesMono(b + 1, b', a);
      assert (b + 1) * a == b * a + a;
    }
  }

  ghost predicate OneShotRight(g: Overlap, s: bytes, file: bytes)
    requires g.Valid() && BufferFor(g, s)
  {
    BufRow(g, 0, 0) + g.Total() <= |s| && OneShot(g, s, file) == Image(g, s, file)
  }

  lemma RunOnRight(g: Overlap, s: bytes, file: bytes)
    requires g.Valid() && g.AllSelected() && RowsRunOn(g) && BufferFor(g, s) && LastEnd(g) <= |file|
    ensures OneShotRight(g, s, file)
  {
    OneShotInside(g);
    forall k | 0 <= k < |s| ensures OneShot(g, s, file)[k] == Image(g, s, file)[k] {
      RunOnSame(g, s, file, k);
    }
  }

  /** The code reads a fully selected region in one go without looking at the request's extents.
      That gives the row-by-row result for every buffer and file exactly when the rows run on. */
  lemma OneShotExactlyWhenRowsRunOn(g: Overlap)
    requires g.Valid() && g.AllSelected()
    ensures (forall s, file :: BufferFor(g, s) && LastEnd(g) <= |file| ==> OneShotRight(g, s, file))
            <==> RowsRunOn(g)
  {
    if RowsRunOn(g) {
      forall s, file | BufferFor(g, s) && LastEnd(g) <= |file| ensures OneShotRight(g, s, file) {
        RunOnRight(g, s, file);
      }
    } else {
      var x, y, z := RunOnNeeded(g);
      var s, file := TwoPlaces(g, x, y, z);
      assert !OneShotRight(g, s, file);
    }
  }
}
