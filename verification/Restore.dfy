/** What a restart makes of the items it reads: transient fields cleared, sizes recomputed,
    storage regions sorted by the bytes of their start. */
module Restore {
  import opened Options
  import opened Basics
  import opened Bytes
  import opened ListSort
  import opened ServerMetadata

  const PDC_LUSTRE: u32 := 1
  const PDC_NA: u32 := 0
  // "/global/cscratch"
  const CSCRATCH: bytes := [47, 103, 108, 111, 98, 97, 108, 47, 99, 115, 99, 114, 97, 116, 99, 104]

  // ---- Sizes ----

  function Product(xs: seq<u64>): nat {
    if xs == [] then 1 else Product(xs[..|xs| - 1]) * xs[|xs| - 1]
  }

  // The dimensions that are in use; a count beyond the array would be read from elsewhere.
  function Used(ndim: u64, xs: Dims): (r: seq<u64>)
    ensures |r| == if ndim <= 4 then ndim else 4
  {
    if ndim <= 4 then xs[..ndim] else xs
  }

  // Multiplying what is left after wrapping wraps to the same.
  lemma WrapTimes(a: nat, b: nat)
    ensures ((a % WORD) * b) % WORD == (a * b) % WORD
  {
    var q, r := a / WORD, a % WORD;
    ScaledSum(q, r, b);
    Shifted(q * b, r * b);
  }

  lemma ScaledSum(q: nat, r: nat, b: nat)
    ensures (q * WORD + r) * b == (q * b) * WORD + r * b
  {
    assert (q * WORD) * b == (q * b) * WORD;
  }

  lemma Shifted(k: nat, n: nat)
    ensures (k * WORD + n) % WORD == n % WORD
  {
  }

  /** The size loop multiplies in 64 bits; it gives the product of the counts, wrapped. */
  method DataSize(r: Region) returns (size: u64)
    ensures size == Product(Used(r.ndim, r.count)) % WORD
  {
    size := 1;
    var idx := 0;
    ghost var used := Used(r.ndim, r.count);
    while idx < r.ndim && idx < 4
      invariant 0 <= idx <= |used|
      invariant size == Product(used[..idx]) % WORD
    {
      assert used[..idx + 1][..idx] == used[..idx] && used[idx] == r.count[idx];
      WrapTimes(Product(used[..idx]), used[idx]);
      size := (size * r.count[idx]) % WORD;
      idx := idx + 1;
    }
    assert used[..idx] == used;
  }

  // ---- Regions ----

  function Cleared(): Transient {
    Transient(seq(128, i => 0), 0, seq(1024, i => 0), 0, 0, 0, 0, PDC_NA, 0, 0, 0, 0, 0, 0, 0)
  }

  function Location(r: Region): u32 {
    if Contains(CString(r.storageLocation), CSCRATCH) then PDC_LUSTRE else r.dataLocType
  }

  function RestoreRegion(objId: u64, r: StorageRegion): StorageRegion {
    r.(region := r.region.(dataSize := Product(Used(r.region.ndim, r.region.count)) % WORD,
                           objId := objId, dataLocType := Location(r.region), live := Cleared()))
  }

  // ---- What a restart keeps of a region ----

  // The scratch path stands in the text, before its end.
  ghost predicate OnScratch(s: Text) {
    exists i: nat :: ScratchAt(s, i)
  }

  ghost predicate ScratchAt(s: Text, i: nat) {
    i + |CSCRATCH| <= |s| && s[i..i + |CSCRATCH|] == CSCRATCH && 0 !in s[..i]
  }

  // The counts in use, multiplied.
  function Volume(ndim: u64, c: Dims): nat {
    var c0: nat, c1: nat, c2: nat, c3: nat := c[0], c[1], c[2], c[3];
    if ndim == 0 then 1
    else if ndim == 1 then c0
    else if ndim == 2 then c0 * c1
    else if ndim == 3 then c0 * c1 * c2
    else c0 * c1 * c2 * c3
  }

  ghost predicate AllZero(s: bytes) {
    forall i :: 0 <= i < |s| ==> s[i] == 0
  }

  ghost predicate Idle(t: Transient) {
    && AllZero(t.clientIds) && AllZero(t.shmAddr) && t.isDataReady == 0 && t.shmFd == 0 && t.nOverlap == 0
    && t.refcount == 0 && t.dirty == 0 && t.accessType == PDC_NA && t.regId == 0 && t.fromObjId == 0
    && t.clientId == 0 && t.isIoDone == 0 && t.isShmClosed == 0 && t.sentToServer == 0 && t.seqId == 0
  }

  /** Dimensions, extents, unit, file and cache locations with their offsets, and the histogram stay; the size,
      the owner, the kind of location and the running server's own fields are set anew. */
  ghost predicate KeepsRegion(objId: u64, was: StorageRegion, now: StorageRegion) {
    var a, b := was.region, now.region;
    && now.hist == was.hist
    && b == a.(dataSize := b.dataSize, objId := b.objId, dataLocType := b.dataLocType, live := b.live)
    && b.dataSize == Volume(a.ndim, a.count) % WORD && b.objId == objId
    && b.dataLocType == (if OnScratch(a.storageLocation) then PDC_LUSTRE else a.dataLocType)
    && Idle(b.live)
  }

  lemma ProductIsVolume(ndim: u64, c: Dims)
    requires ndim <= 4
    ensures Product(Used(ndim, c)) == Volume(ndim, c)
  {
    assert c[..1][..0] == [] && c[..2][..1] == c[..1] && c[..3][..2] == c[..2] && c[..4][..3] == c[..3];
    var c0: nat, c1: nat, c2: nat, c3: nat := c[0], c[1], c[2], c[3];
    assert Product(c[..1]) == c0;
    assert Product(c[..2]) == c0 * c1;
    assert Product(c[..3]) == c0 * c1 * c2;
    assert Product(c[..4]) == c0 * c1 * c2 * c3;
  }

  lemma ScratchExactly(s: Text)
    ensures Contains(CString(s), CSCRATCH) <==> OnScratch(s)
  {
    var t, n := CString(s), |CSCRATCH|;
    ContainsExactly(t, CSCRATCH);
    if i: nat :| StandsAt(t, CSCRATCH, i) {
      assert s[i..i + n] == t[i..i + n] && s[..i] == t[..i];
      assert ScratchAt(s, i);
    }
    if i: nat :| ScratchAt(s, i) {
      BeforeTheZero(s, i);
      assert s[i..i + n] == t[i..i + n];
      assert StandsAt(t, CSCRATCH, i);
    }
  }

  // The path has no zero in it, so it ends before the text does.
  lemma BeforeTheZero(s: Text, i: nat)
    requires ScratchAt(s, i)
    ensures i + |CSCRATCH| <= |CString(s)|
  {
    var n := |CSCRATCH|;
    assert forall j :: 0 <= j < i ==> s[..i][j] == s[j];
    assert forall j :: i <= j < i + n ==> s[j] == s[i..i + n][j - i];
  }

  /** What a restart makes of a region, field by field. */
  lemma RestoreKeepsRegion(objId: u64, r: StorageRegion)
    requires r.region.ndim <= 4
    ensures KeepsRegion(objId, r, RestoreRegion(objId, r))
  {
    ProductIsVolume(r.region.ndim, r.region.count);
    ScratchExactly(r.region.storageLocation);
  }

  lemma RestoreTwice(objId: u64, r: StorageRegion)
    ensures RestoreRegion(objId, RestoreRegion(objId, r)) == RestoreRegion(objId, r)
  {
  }

  // ---- The order of storage regions ----

  // memcmp of equally long byte strings, as "first is not above second".
  predicate BytesLeq(a: bytes, b: bytes)
    requires |a| == |b|
  {
    a == [] || a[0] < b[0] || (a[0] == b[0] && BytesLeq(a[1..], b[1..]))
  }

  lemma {:induction false} BytesLeqOrders(a: bytes, b: bytes, c: bytes)
    requires |a| == |b| == |c|
    ensures BytesLeq(a, b) || BytesLeq(b, a)
    ensures BytesLeq(a, b) && BytesLeq(b, a) ==> a == b
    ensures BytesLeq(a, b) && BytesLeq(b, c) ==> BytesLeq(a, c)
  {
    if a == [] {
    } else {
      BytesLeqOrders(a[1..], b[1..], c[1..]);
    }
  }

  // region_cmp(a, b) <= 0: the first region decides how many dimensions count.
  predicate RegionLeq(a: StorageRegion, b: StorageRegion) {
    var n := 8 * |Used(a.region.ndim, a.region.start)|;
    BytesLeq(StoreU64s(a.region.start)[..n], StoreU64s(b.region.start)[..n])
  }

  ghost predicate SameNdim(rs: seq<StorageRegion>) {
    forall i, j :: 0 <= i < |rs| && 0 <= j < |rs| ==> rs[i].region.ndim == rs[j].region.ndim
  }

  lemma RegionsOrdered(rs: seq<StorageRegion>)
    requires SameNdim(rs)
    ensures PreorderOn(RegionLeq, rs)
  {
    forall x, y, z | x in rs && y in rs && z in rs
      ensures RegionLeq(x, y) || RegionLeq(y, x)
      ensures RegionLeq(x, y) && RegionLeq(y, z) ==> RegionLeq(x, z)
    {
      var n := 8 * |Used(x.region.ndim, x.region.start)|;
      BytesLeqOrders(StoreU64s(x.region.start)[..n], StoreU64s(y.region.start)[..n], StoreU64s(z.region.start)[..n]);
    }
  }

  // The order one would expect: the first dimension in which the starts differ decides.
  predicate LexLeq(a: seq<u64>, b: seq<u64>)
    requires |a| == |b|
  {
    a == [] || a[0] < b[0] || (a[0] == b[0] && LexLeq(a[1..], b[1..]))
  }

  lemma {:induction false} LeqConcat(a: bytes, b: bytes, c: bytes, d: bytes)
    requires |a| == |b| && |c| == |d|
    ensures BytesLeq(a + c, b + d) <==> if a == b then BytesLeq(c, d) else BytesLeq(a, b)
  {
    if a == [] {
      assert a + c == c && b + d == d;
    } else {
      assert (a + c)[1..] == a[1..] + c && (b + d)[1..] == b[1..] + d;
      assert a == [a[0]] + a[1..] && b == [b[0]] + b[1..];
      LeqConcat(a[1..], b[1..], c, d);
    }
  }

  lemma SmallLeq(a: nat, b: nat)
    requires a < 256 && b < 256
    ensures LE(a, 8) == LE(b, 8) <==> a == b
    ensures a != b ==> (BytesLeq(LE(a, 8), LE(b, 8)) <==> a < b)
  {
    SmallLE(a);
    SmallLE(b);
    assert LE(a, 8)[0] == a && LE(b, 8)[0] == b;
  }

  lemma SmallLE(a: nat)
    requires a < 256
    ensures LE(a, 8) == [a] + LE(0, 7)
  {
    assert a % 256 == a && a / 256 == 0;
  }

  lemma {:induction false} SmallWordsLeq(a: seq<u64>, b: seq<u64>)
    requires |a| == |b| && forall i :: 0 <= i < |a| ==> a[i] < 256 && b[i] < 256
    ensures BytesLeq(StoreU64s(a), StoreU64s(b)) <==> LexLeq(a, b)
  {
    if a == [] {
    } else {
      SmallLeq(a[0], b[0]);
      LeqConcat(LE(a[0], 8), LE(b[0], 8), StoreU64s(a[1..]), StoreU64s(b[1..]));
      SmallWordsLeq(a[1..], b[1..]);
    }
  }

  lemma {:induction false} StorePrefix(a: seq<u64>, n: nat)
    requires n <= |a|
    ensures StoreU64s(a)[..8 * n] == StoreU64s(a[..n])
  {
    if n == 0 {
    } else {
      StorePrefix(a[1..], n - 1);
      assert a[..n][1..] == a[1..][..n - 1];
      assert StoreU64s(a)[..8 * n] == LE(a[0], 8) + StoreU64s(a[1..])[..8 * (n - 1)];
    }
  }

  function Starts(r: StorageRegion): seq<u64> {
    Used(r.region.ndim, r.region.start)
  }

  ghost predicate StartsBelow(r: StorageRegion, bound: u64) {
    forall i :: 0 <= i < |Starts(r)| ==> Starts(r)[i] < bound
  }

  lemma RegionLeqIsBytes(a: StorageRegion, b: StorageRegion)
    requires a.region.ndim == b.region.ndim
    ensures RegionLeq(a, b) <==> BytesLeq(StoreU64s(Starts(a)), StoreU64s(Starts(b)))
  {
    var n := |Starts(a)|;
    StorePrefix(a.region.start, n);
    StorePrefix(b.region.start, n);
    assert a.region.start[..n] == Starts(a) && b.region.start[..n] == Starts(b);
  }

  // A one-dimensional region at `start`.
  function RegionAt(start: u64): StorageRegion {
    StorageRegion(Region(1, [start, 0, 0, 0], [1, 0, 0, 0], 0, 1, 0, seq(1024, i => 0), 0, 0, seq(1024, i => 0), 0,
                         Cleared()), None)
  }

  lemma StoreOne(x: u64)
    ensures StoreU64s([x]) == LE(x, 8)
  {
    assert [x][1..] == [] && StoreU64s([x]) == LE(x, 8) + StoreU64s([]);
  }

  lemma FirstByteDecides(a: bytes, b: bytes)
    requires |a| == |b| > 0 && a[0] < b[0]
    ensures BytesLeq(a, b)
  {
  }

  // 256 comes before 1, because its low byte does.
  lemma OrderIsNotNumeric()
    ensures RegionLeq(RegionAt(256), RegionAt(1)) && !LexLeq(Starts(RegionAt(256)), Starts(RegionAt(1)))
  {
    var a, b := RegionAt(256), RegionAt(1);
    assert Starts(a) == [256] && Starts(b) == [1];
    RegionLeqIsBytes(a, b);
    StoreOne(256);
    StoreOne(1);
    assert LE(256, 8)[0] == 0 && LE(1, 8)[0] == 1;
    FirstByteDecides(LE(256, 8), LE(1, 8));
    assert !LexLeq([256], [1]);
  }

  /** Regions are ordered by their starts as little-endian bytes.  For starts below a bound that is their
      order by number, dimension after dimension, exactly when the bound is at most 256. */
  lemma OrderIsNumericBelow256(bound: u64)
    ensures (forall a: StorageRegion, b: StorageRegion ::
               a.region.ndim == b.region.ndim && StartsBelow(a, bound) && StartsBelow(b, bound) ==>
               (RegionLeq(a, b) <==> LexLeq(Starts(a), Starts(b))))
            <==> bound <= 256
  {
    if bound <= 256 {
      forall a: StorageRegion, b: StorageRegion |
        a.region.ndim == b.region.ndim && StartsBelow(a, bound) && StartsBelow(b, bound)
        ensures RegionLeq(a, b) <==> LexLeq(Starts(a), Starts(b))
      {
        RegionLeqIsBytes(a, b);
        SmallWordsLeq(Starts(a), Starts(b));
      }
    } else {
      OrderIsNotNumeric();
      assert Starts(RegionAt(256)) == [256] && Starts(RegionAt(1)) == [1];
      assert StartsBelow(RegionAt(256), bound) && StartsBelow(RegionAt(1), bound);
    }
  }

  // ---- Objects, groups, the whole state ----

  ghost function RestoreRegions(objId: u64, rs: seq<StorageRegion>): (r: seq<StorageRegion>)
    ensures |r| == |rs| && forall i :: 0 <= i < |r| ==> r[i] == RestoreRegion(objId, rs[i])
  {
    seq(|rs|, i requires 0 <= i < |rs| => RestoreRegion(objId, rs[i]))
  }

  function RestoreMeta(m: Metadata): Metadata {
    m.(allDistributed := 0)
  }

  ghost function RestoreObject(o: Object): Object {
    Object(RestoreMeta(o.meta), o.tags, StableSort(RegionLeq, RestoreRegions(o.meta.objId, o.regions)))
  }

  ghost function RestoreGroup(g: Group): (r: Group)
    ensures r.nObj == |r.objects| == |g.objects|
    ensures forall i :: 0 <= i < |g.objects| ==> r.objects[i] == RestoreObject(g.objects[i])
  {
    Group(|g.objects|, seq(|g.objects|, i requires 0 <= i < |g.objects| => RestoreObject(g.objects[i])))
  }

  ghost function RestoreState(st: ServerState): ServerState {
    st.(groups := map k | k in st.groups :: RestoreGroup(st.groups[k]))
  }

  // Regions that are already as a restart leaves them stay so in any order.
  lemma RestoredStay(objId: u64, rs: seq<StorageRegion>)
    requires forall r :: r in rs ==> RestoreRegion(objId, r) == r
    ensures RestoreRegions(objId, rs) == rs
  {
  }

  /** A restart settles an object: a second restart finds nothing left to change. */
  lemma ObjectSettles(o: Object)
    requires SameNdim(o.regions)
    ensures RestoreObject(RestoreObject(o)) == RestoreObject(o)
  {
    var id := o.meta.objId;
    var once := RestoreRegions(id, o.regions);
    var sorted := StableSort(RegionLeq, once);
    RegionsOrdered(once);
    SortSorts(RegionLeq, once);
    SortPermutes(RegionLeq, once);
    forall r | r in sorted ensures RestoreRegion(id, r) == r {
      var i :| 0 <= i < |once| && once[i] == r;
      RestoreTwice(id, o.regions[i]);
    }
    RestoredStay(id, sorted);
    SortedFixed(RegionLeq, sorted);
  }

  lemma GroupSettles(g: Group)
    requires forall i :: 0 <= i < |g.objects| ==> SameNdim(g.objects[i].regions)
    ensures RestoreGroup(RestoreGroup(g)) == RestoreGroup(g)
  {
    forall i | 0 <= i < |g.objects|
      ensures RestoreObject(RestoreObject(g.objects[i])) == RestoreObject(g.objects[i])
    {
      ObjectSettles(g.objects[i]);
    }
  }

  /** Closing and reopening a server twice is the same as doing so once. */
  lemma RestartSettles(st: ServerState)
    requires forall k, i :: k in st.groups && 0 <= i < |st.groups[k].objects| ==>
               SameNdim(st.groups[k].objects[i].regions)
    ensures RestoreState(RestoreState(st)) == RestoreState(st)
  {
    forall k | k in st.groups ensures RestoreGroup(RestoreGroup(st.groups[k])) == RestoreGroup(st.groups[k]) {
      GroupSettles(st.groups[k]);
    }
  }

  /** What a restart does to one object's storage regions, stated without the sort: the same
      regions, each restored, in the byte order of their starts, ties in the order they had. */
  lemma RestoredRegions(o: Object)
    requires SameNdim(o.regions)
    ensures var rs := RestoreObject(o).regions;
            var once := RestoreRegions(o.meta.objId, o.regions);
            && multiset(rs) == multiset(once)
            && Sorted(RegionLeq, rs)
            && (forall k :: k in once ==> Ties(RegionLeq, k, rs) == Ties(RegionLeq, k, once))
            && (forall r :: r in rs ==> r.region.live == Cleared() && r.region.objId == o.meta.objId)
            && (forall r :: r in rs ==> r.region.dataSize == Product(Used(r.region.ndim, r.region.count)) % WORD)
  {
    var once := RestoreRegions(o.meta.objId, o.regions);
    RegionsOrdered(once);
    StableSortIsStable(RegionLeq, once);
    SortPermutes(RegionLeq, once);
  }
}
