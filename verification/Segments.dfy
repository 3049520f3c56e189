/** The memory segments a client maps for a region of one, two or three dimensions. */
module Segments {
  import opened Basics

  // The first `n` segments: `w` bytes each, one behind the other from `start` on.
  ghost predicate Filled(ptrs: seq<nat>, sizes: seq<nat>, n: nat, start: nat, w: nat) {
    && n <= |ptrs| && n <= |sizes|
    && (forall k :: 0 <= k < n ==> ptrs[k] == start + k * w)
    && (forall k :: 0 <= k < n ==> sizes[k] == w)
  }

  // One more segment, `d` places behind segment `k`.
  lemma OneMore(ptrs: seq<nat>, sizes: seq<nat>, n: nat, start: nat, w: nat, k: nat, d: nat)
    requires Filled(ptrs, sizes, n, start, w) && k < n < |ptrs| && n < |sizes| && n == k + d
    ensures Filled(ptrs[n := ptrs[k] + d * w], sizes[n := w], n + 1, start, w)
  {
    Distribute(k, d, w);
  }

  /** Segments behind the one at `first`, each found from the one before it. */
  method FillRow(ptrs: array<nat>, sizes: array<nat>, first: nat, count: nat, ghost start: nat, w: nat)
    requires ptrs != sizes && count > 0
    requires first + count <= ptrs.Length && first + count <= sizes.Length
    requires Filled(ptrs[..], sizes[..], first + 1, start, w)
    modifies ptrs, sizes
    ensures Filled(ptrs[..], sizes[..], first + count, start, w)
  {
    var j := 0;
    while j < count - 1
      invariant 0 <= j < count
      invariant Filled(ptrs[..], sizes[..], first + j + 1, start, w)
    {
      ghost var p, s := ptrs[..], sizes[..];
      OneMore(p, s, first + j + 1, start, w, first + j, 1);
      ptrs[first + j + 1] := ptrs[first + j] + w;
      sizes[first + j + 1] := w;
      assert ptrs[..] == p[first + j + 1 := p[first + j] + 1 * w];
      assert sizes[..] == s[first + j + 1 := w];
      j := j + 1;
    }
  }

  /** Planes of `rows` segments: a row of them, then the first segment of the next plane, found from the
      first of this one. */
  method FillPlanes(ptrs: array<nat>, sizes: array<nat>, planes: nat, rows: nat, ghost start: nat, w: nat)
    requires ptrs != sizes && planes > 0 && rows > 0
    requires ptrs.Length == sizes.Length == planes * rows
    requires Filled(ptrs[..], sizes[..], 1, start, w)
    modifies ptrs, sizes
    ensures Filled(ptrs[..], sizes[..], planes * rows, start, w)
  {
    var i := 0;
    while i < planes - 1
      invariant 0 <= i < planes
      invariant i * rows < ptrs.Length
      invariant Filled(ptrs[..], sizes[..], i * rows + 1, start, w)
    {
      Below(i + 1, planes, rows);
      Distribute(i, 1, rows);
      FillRow(ptrs, sizes, i * rows, rows, start, w);
      NextPlane(ptrs, sizes, i * rows, rows, start, w);
      i := i + 1;
    }
    Distribute(i, 1, rows);
    FillRow(ptrs, sizes, i * rows, rows, start, w);
  }

  method NextPlane(ptrs: array<nat>, sizes: array<nat>, first: nat, rows: nat, ghost start: nat, w: nat)
    requires ptrs != sizes && rows > 0 && first + rows < ptrs.Length && first + rows < sizes.Length
    requires Filled(ptrs[..], sizes[..], first + rows, start, w)
    modifies ptrs, sizes
    ensures Filled(ptrs[..], sizes[..], first + rows + 1, start, w)
  {
    ghost var p, s := ptrs[..], sizes[..];
    OneMore(p, s, first + rows, start, w, first, rows);
    ptrs[first + rows] := ptrs[first] + w * rows;
    sizes[first + rows] := w;
    assert ptrs[..] == p[first + rows := p[first] + rows * w];
    assert sizes[..] == s[first + rows := w];
  }

  // ---- The segments of a region ----

  function Product(dims: seq<nat>): nat {
    if |dims| == 1 then dims[0]
    else if |dims| == 2 then dims[0] * dims[1]
    else if |dims| == 3 then dims[0] * dims[1] * dims[2]
    else 0
  }

  // The place of a coordinate in rows and planes as long as the region's own.
  function Place(dims: seq<nat>, c: seq<nat>): nat
    requires |dims| == |c|
  {
    if |dims| == 1 then c[0]
    else if |dims| == 2 then c[0] * dims[1] + c[1]
    else if |dims| == 3 then (c[0] * dims[1] + c[1]) * dims[2] + c[2]
    else 0
  }

  // A zero offset in the fastest dimension maps from the start of the data.
  function Begin(unit: nat, dims: seq<nat>, offset: seq<nat>): nat
    requires |dims| == |offset|
  {
    if |dims| > 0 && offset[|dims| - 1] == 0 then 0 else unit * Place(dims, offset)
  }

  ghost predicate Reaches(ptrs: seq<nat>, sizes: seq<nat>, b: nat)
    requires |ptrs| == |sizes|
  {
    exists k :: 0 <= k < |ptrs| && ptrs[k] <= b < ptrs[k] + sizes[k]
  }

  // One behind the other, without a gap and without overlap.
  ghost predicate Adjacent(ptrs: seq<nat>, sizes: seq<nat>)
    requires |ptrs| == |sizes|
  {
    forall k :: 0 <= k < |ptrs| - 1 ==> ptrs[k + 1] == ptrs[k] + sizes[k]
  }

  // The segment a byte lies in.
  lemma SegmentOf(x: nat, w: nat, n: nat) returns (k: nat)
    requires x < n * w
    ensures k < n && k * w <= x < k * w + w
  {
    Factors(n, w);
    k := x / w;
    assert x == w * k + x % w;
    if n <= k {
      Distribute(n, k - n, w);
      Nonneg(k - n, w);
    }
  }

  lemma Factors(n: nat, w: nat)
    requires n * w > 0
    ensures n > 0 && w > 0
  {
  }

  lemma SegmentInside(k: nat, n: nat, w: nat)
    requires k < n
    ensures 0 <= k * w && k * w + w <= n * w
  {
    Nonneg(k, w);
    Below(k, n, w);
  }

  // Segments that are filled reach every byte from the start of the first to the end of the last.
  lemma FilledReach(ptrs: seq<nat>, sizes: seq<nat>, start: nat, w: nat, b: nat)
    requires |ptrs| == |sizes| && Filled(ptrs, sizes, |ptrs|, start, w)
    ensures Reaches(ptrs, sizes, b) <==> start <= b < start + |ptrs| * w
  {
    if Reaches(ptrs, sizes, b) {
      var k: nat :| k < |ptrs| && ptrs[k] <= b < ptrs[k] + sizes[k];
      SegmentInside(k, |ptrs|, w);
    }
    if start <= b < start + |ptrs| * w {
      var k := SegmentOf(b - start, w, |ptrs|);
      assert ptrs[k] <= b < ptrs[k] + sizes[k];
    }
  }

  lemma FilledAdjacent(ptrs: seq<nat>, sizes: seq<nat>, start: nat, w: nat)
    requires |ptrs| == |sizes| && Filled(ptrs, sizes, |ptrs|, start, w)
    ensures Adjacent(ptrs, sizes)
  {
    forall k | 0 <= k < |ptrs| - 1 ensures ptrs[k + 1] == ptrs[k] + sizes[k] { Distribute(k, 1, w); }
  }

  // The segments reach `total` bytes from `start` on, each byte once.
  ghost predicate Exactly(ptrs: seq<nat>, sizes: seq<nat>, start: nat, total: nat) {
    && |ptrs| == |sizes| && Adjacent(ptrs, sizes)
    && forall b: nat :: Reaches(ptrs, sizes, b) <==> start <= b < start + total
  }

  lemma FilledExactly(ptrs: seq<nat>, sizes: seq<nat>, start: nat, w: nat)
    requires |ptrs| == |sizes| && Filled(ptrs, sizes, |ptrs|, start, w)
    ensures Exactly(ptrs, sizes, start, |ptrs| * w)
  {
    FilledAdjacent(ptrs, sizes, start, w);
    forall b: nat ensures Reaches(ptrs, sizes, b) <==> start <= b < start + |ptrs| * w {
      FilledReach(ptrs, sizes, start, w, b);
    }
  }

  method MapOne(start: nat, total: nat) returns (ptrs: seq<nat>, sizes: seq<nat>)
    ensures Exactly(ptrs, sizes, start, total) && ptrs == [start] && sizes == [total]
  {
    ptrs, sizes := [start], [total];
    FilledExactly(ptrs, sizes, start, total);
  }

  method MapPlanes(start: nat, planes: nat, rows: nat, w: nat) returns (ptrs: seq<nat>, sizes: seq<nat>)
    requires planes > 0 && rows > 0
    ensures Exactly(ptrs, sizes, start, planes * rows * w)
    ensures |ptrs| == |sizes| == planes * rows && Filled(ptrs, sizes, |ptrs|, start, w)
  {
    Below(0, planes, rows);
    var count := planes * rows;
    var p, s := new nat[count], new nat[count];
    p[0], s[0] := start, w;
    FillPlanes(p, s, planes, rows, start, w);
    FilledExactly(p[..], s[..], start, w);
    return p[..], s[..];
  }

  method MapRows(start: nat, rows: nat, w: nat) returns (ptrs: seq<nat>, sizes: seq<nat>)
    requires rows > 0
    ensures Exactly(ptrs, sizes, start, rows * w)
    ensures |ptrs| == |sizes| == rows && Filled(ptrs, sizes, |ptrs|, start, w)
  {
    var p, s := new nat[rows], new nat[rows];
    p[0], s[0] := start, w;
    FillRow(p, s, 0, rows, start, w);
    FilledExactly(p[..], s[..], start, w);
    return p[..], s[..];
  }

  // ---- Every segment is a row ----

  // Segment `i` is row `i` of the region, from its place on.
  ghost predicate IsRow(unit: nat, dims: seq<nat>, c: seq<nat>, ptr: nat, size: nat)
    requires |dims| == |c| > 0
  {
    ptr == unit * Place(dims, c) && size == unit * dims[|dims| - 1]
  }

  ghost predicate RowsOf(unit: nat, dims: seq<nat>, offset: seq<nat>, ptrs: seq<nat>, sizes: seq<nat>)
    requires |dims| == |offset| == 2
  {
    |ptrs| == |sizes| == dims[0] &&
    forall i :: 0 <= i < dims[0] ==> IsRow(unit, dims, [offset[0] + i, offset[1]], ptrs[i], sizes[i])
  }

  // Row `j` of plane `i` is segment `i * dims[1] + j`.
  ghost predicate PlaneRow(unit: nat, dims: seq<nat>, offset: seq<nat>, ptrs: seq<nat>, sizes: seq<nat>, i: nat, j: nat)
    requires |dims| == |offset| == 3 && |ptrs| == |sizes|
  {
    var k := i * dims[1] + j;
    0 <= k < |ptrs| && IsRow(unit, dims, [offset[0] + i, offset[1] + j, offset[2]], ptrs[k], sizes[k])
  }

  ghost predicate PlaneRowsOf(unit: nat, dims: seq<nat>, offset: seq<nat>, ptrs: seq<nat>, sizes: seq<nat>)
    requires |dims| == |offset| == 3
  {
    |ptrs| == |sizes| == dims[0] * dims[1] &&
    forall i: nat, j: nat :: i < dims[0] && j < dims[1] ==> PlaneRow(unit, dims, offset, ptrs, sizes, i, j)
  }

  lemma Moved(unit: nat, a: nat, b: nat, i: nat, w: nat)
    ensures unit * (a * w + b) + i * (unit * w) == unit * ((a + i) * w + b)
  {
    Distribute(a, i, w);
    Distribute(a * w + b, i * w, unit);
    assert i * (unit * w) == unit * (i * w);
  }

  lemma FilledRows(unit: nat, dims: seq<nat>, offset: seq<nat>, ptrs: seq<nat>, sizes: seq<nat>)
    requires |dims| == |offset| == 2 && |ptrs| == |sizes| == dims[0]
    requires Filled(ptrs, sizes, |ptrs|, unit * Place(dims, offset), unit * dims[1])
    ensures RowsOf(unit, dims, offset, ptrs, sizes)
  {
    forall i | 0 <= i < dims[0] ensures IsRow(unit, dims, [offset[0] + i, offset[1]], ptrs[i], sizes[i]) {
      Moved(unit, offset[0], offset[1], i, dims[1]);
    }
  }

  lemma FilledPlaneRow(unit: nat, dims: seq<nat>, offset: seq<nat>, ptrs: seq<nat>, sizes: seq<nat>, i: nat, j: nat)
    requires |dims| == |offset| == 3 && |ptrs| == |sizes| == dims[0] * dims[1] && i < dims[0] && j < dims[1]
    requires Filled(ptrs, sizes, |ptrs|, unit * Place(dims, offset), unit * dims[2])
    ensures PlaneRow(unit, dims, offset, ptrs, sizes, i, j)
  {
    SegmentInside(i, dims[0], dims[1]);
    MovedPlace(unit, dims, offset, i, j);
  }

  lemma MovedPlace(unit: nat, dims: seq<nat>, offset: seq<nat>, i: nat, j: nat)
    requires |dims| == |offset| == 3
    ensures unit * Place(dims, offset) + (i * dims[1] + j) * (unit * dims[2])
         == unit * Place(dims, [offset[0] + i, offset[1] + j, offset[2]])
  {
    MovedPlane(unit, offset[0], offset[1], offset[2], i, j, dims[1], dims[2]);
  }

  lemma MovedPlane(unit: nat, a: nat, b: nat, c: nat, i: nat, j: nat, h: nat, w: nat)
    ensures unit * ((a * h + b) * w + c) + (i * h + j) * (unit * w) == unit * (((a + i) * h + (b + j)) * w + c)
  {
    Distribute(a, i, h);
    Nonneg(a, h);
    Nonneg(i, h);
    Moved(unit, a * h + b, c, i * h + j, w);
  }

  lemma FilledPlaneRows(unit: nat, dims: seq<nat>, offset: seq<nat>, ptrs: seq<nat>, sizes: seq<nat>)
    requires |dims| == |offset| == 3 && |ptrs| == |sizes| == dims[0] * dims[1]
    requires Filled(ptrs, sizes, |ptrs|, unit * Place(dims, offset), unit * dims[2])
    ensures PlaneRowsOf(unit, dims, offset, ptrs, sizes)
  {
    forall i: nat, j: nat | i < dims[0] && j < dims[1] ensures PlaneRow(unit, dims, offset, ptrs, sizes, i, j) {
      FilledPlaneRow(unit, dims, offset, ptrs, sizes, i, j);
    }
  }

  lemma Swap(a: nat, b: nat, c: nat)
    ensures a * (b * c) == b * (a * c)
  {
  }

  lemma SlowPlaces(dims: seq<nat>, c: seq<nat>)
    requires |dims| == |c| == 3
    ensures Place(dims, c) == dims[2] * dims[1] * c[0] + dims[2] * c[1] + c[2]
  {
    Spread(c[0], c[1], dims[1], dims[2]);
  }

  lemma Spread(a: nat, b: nat, h: nat, w: nat)
    ensures (a * h + b) * w == w * h * a + w * b
  {
    Distribute(a * h, b, w);
    assert w * h * a == w * (h * a);
  }

  /** The segments of a region of up to three dimensions; more dimensions are refused. */
  method MapSegments(unit: nat, dims: seq<nat>, offset: seq<nat>)
    returns (ok: bool, ptrs: seq<nat>, sizes: seq<nat>)
    requires |dims| == |offset| && forall i :: 0 <= i < |dims| ==> dims[i] > 0
    ensures ok <==> 1 <= |dims| <= 3
    ensures ok ==> Exactly(ptrs, sizes, Begin(unit, dims, offset), unit * Product(dims))
    ensures |dims| == 1 ==> ptrs == [unit * offset[0]] && sizes == [unit * dims[0]]
    ensures |dims| == 2 && offset[1] > 0 ==> RowsOf(unit, dims, offset, ptrs, sizes)
    ensures |dims| == 3 && offset[2] > 0 ==> PlaneRowsOf(unit, dims, offset, ptrs, sizes)
    ensures ok && unit > 0 ==>
              (Exactly(ptrs, sizes, unit * Place(dims, offset), unit * Product(dims)) <==> NoShortCut(dims, offset))
  {
    ok, ptrs, sizes := 1 <= |dims| <= 3, [], [];
    if |dims| == 1 && offset[0] == 0 {
      ptrs, sizes := MapOne(0, unit * dims[0]);
    } else if |dims| == 1 {
      ptrs, sizes := MapOne(unit * offset[0], unit * dims[0]);
    } else if |dims| == 2 && offset[1] == 0 {
      ptrs, sizes := MapOne(0, unit * (dims[0] * dims[1]));
    } else if |dims| == 2 {
      ptrs, sizes := MapRows(unit * (dims[1] * offset[0] + offset[1]), dims[0], unit * dims[1]);
      Swap(dims[0], unit, dims[1]);
      FilledRows(unit, dims, offset, ptrs, sizes);
    } else if |dims| == 3 && offset[2] == 0 {
      ptrs, sizes := MapOne(0, unit * (dims[0] * dims[1] * dims[2]));
    } else if |dims| == 3 {
      SlowPlaces(dims, offset);
      ptrs, sizes := MapPlanes(unit * (dims[2] * dims[1] * offset[0] + dims[2] * offset[1] + offset[2]),
                               dims[0], dims[1], unit * dims[2]);
      Swap(dims[0] * dims[1], unit, dims[2]);
      FilledPlaneRows(unit, dims, offset, ptrs, sizes);
    }
    if ok && unit > 0 { MapsRegionExactly(unit, dims, offset, ptrs, sizes); }
  }

  lemma Zero(a: nat, b: nat)
    requires a > 0
    ensures a * b == 0 <==> b == 0
  {
    if b > 0 { Below(0, b, a); }
  }

  // Every offset is zero, or the one in the fastest dimension is not.
  ghost predicate NoShortCut(dims: seq<nat>, offset: seq<nat>)
    requires |dims| == |offset|
  {
    |dims| > 0 && offset[|dims| - 1] == 0 ==> forall i :: 0 <= i < |dims| ==> offset[i] == 0
  }

  lemma BeginIsRight(unit: nat, dims: seq<nat>, offset: seq<nat>)
    requires unit > 0 && |dims| == |offset| && 1 <= |dims| <= 3 && forall i :: 0 <= i < |dims| ==> dims[i] > 0
    ensures Begin(unit, dims, offset) == unit * Place(dims, offset) <==> NoShortCut(dims, offset)
    ensures !NoShortCut(dims, offset) ==> Begin(unit, dims, offset) == 0 < unit * Place(dims, offset)
    ensures unit * Product(dims) > 0
  {
    Zero(unit, Place(dims, offset));
    Zero(unit, Product(dims));
    PlaceZero(dims, offset);
    ProductPositive(dims);
  }

  lemma PlaceZero(dims: seq<nat>, offset: seq<nat>)
    requires |dims| == |offset| && 1 <= |dims| <= 3 && forall i :: 0 <= i < |dims| ==> dims[i] > 0
    ensures Place(dims, offset) == 0 <==> forall i :: 0 <= i < |dims| ==> offset[i] == 0
  {
    if |dims| == 2 {
      Zero(dims[1], offset[0]);
    } else if |dims| == 3 {
      Zero(dims[1], offset[0]);
      Zero(dims[2], offset[0] * dims[1] + offset[1]);
    }
  }

  lemma ProductPositive(dims: seq<nat>)
    requires 1 <= |dims| <= 3 && forall i :: 0 <= i < |dims| ==> dims[i] > 0
    ensures Product(dims) > 0
  {
    if |dims| > 1 { Zero(dims[0], dims[1]); }
    if |dims| == 3 { Zero(dims[0] * dims[1], dims[2]); }
  }

  // Segments that reach the same number of bytes from an earlier start reach one byte too many and miss one.
  lemma StartsTooEarly(ptrs: seq<nat>, sizes: seq<nat>, start: nat, right: nat, total: nat)
    requires Exactly(ptrs, sizes, start, total) && start < right && total > 0
    ensures Reaches(ptrs, sizes, start) && !(right <= start < right + total)
    ensures !Reaches(ptrs, sizes, right + total - 1) && right <= right + total - 1 < right + total
    ensures !Exactly(ptrs, sizes, right, total)
  {
    assert Reaches(ptrs, sizes, start);
    var last: nat := right + total - 1;
    assert !Reaches(ptrs, sizes, last);
  }

  /** The segments mapped reach the bytes of the region, each once, exactly when the short cut for a zero
      offset in the fastest dimension is not taken, or every slower offset is zero as well.  Otherwise byte 0,
      which is not the region's, is mapped, and the last byte of the region is missed. */
  lemma MapsRegionExactly(unit: nat, dims: seq<nat>, offset: seq<nat>, ptrs: seq<nat>, sizes: seq<nat>)
    requires unit > 0 && |dims| == |offset| && 1 <= |dims| <= 3 && forall i :: 0 <= i < |dims| ==> dims[i] > 0
    requires Exactly(ptrs, sizes, Begin(unit, dims, offset), unit * Product(dims))
    ensures Exactly(ptrs, sizes, unit * Place(dims, offset), unit * Product(dims)) <==> NoShortCut(dims, offset)
    ensures !NoShortCut(dims, offset) ==>
              Reaches(ptrs, sizes, 0) && !Reaches(ptrs, sizes, unit * Place(dims, offset) + unit * Product(dims) - 1)
  {
    BeginIsRight(unit, dims, offset);
    if !NoShortCut(dims, offset) {
      StartsTooEarly(ptrs, sizes, 0, unit * Place(dims, offset), unit * Product(dims));
    }
  }

  // ---- Where a region starts ----

  // How far a region moves when its offset in dimension `d` is raised by one.
  function Stride(dims: seq<nat>, d: nat): nat
    requires d < |dims| <= 3
  {
    if d == |dims| - 1 then 1 else if d == |dims| - 2 then dims[|dims| - 1] else dims[1] * dims[2]
  }

  lemma Raised(dims: seq<nat>, offset: seq<nat>, d: nat)
    requires |dims| == |offset| && d < |dims| <= 3
    ensures Place(dims, offset[d := offset[d] + 1]) == Place(dims, offset) + Stride(dims, d)
  {
    if |dims| == 3 {
      SlowPlaces(dims, offset);
      SlowPlaces(dims, offset[d := offset[d] + 1]);
    }
    if d == 0 && |dims| > 1 { Distribute(offset[0], 1, dims[1]); }
    if d == 0 && |dims| == 3 { Distribute(offset[0], 1, dims[2] * dims[1]); }
    if d == 1 && |dims| == 3 { Distribute(offset[1], 1, dims[2]); }
  }

  /** Raising one offset moves all bytes mapped by one unit, one row or one plane, and with all offsets zero they
      start at byte 0: that fixes where every region starts that is mapped right. */
  method MapTwice(unit: nat, dims: seq<nat>, offset: seq<nat>, d: nat)
    returns (ptrs: seq<nat>, sizes: seq<nat>, ptrs': seq<nat>, sizes': seq<nat>)
    requires unit > 0 && |dims| == |offset| && d < |dims| <= 3 && forall i :: 0 <= i < |dims| ==> dims[i] > 0
    requires NoShortCut(dims, offset) && NoShortCut(dims, offset[d := offset[d] + 1])
    ensures |ptrs| == |sizes| && |ptrs'| == |sizes'|
    ensures forall b: nat :: Reaches(ptrs', sizes', b) <==>
              b >= unit * Stride(dims, d) && Reaches(ptrs, sizes, b - unit * Stride(dims, d))
    ensures (forall i :: 0 <= i < |dims| ==> offset[i] == 0) ==>
              forall b: nat :: Reaches(ptrs, sizes, b) <==> b < unit * Product(dims)
  {
    var ok, ok';
    ok, ptrs, sizes := MapSegments(unit, dims, offset);
    ok', ptrs', sizes' := MapSegments(unit, dims, offset[d := offset[d] + 1]);
    Raised(dims, offset, d);
    Distribute(Place(dims, offset), Stride(dims, d), unit);
  }
}
