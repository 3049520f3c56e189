/** The metadata a server holds, and the structs it writes raw.

    Structs written raw are the concatenation of their inline fields.  Fields that hold
    addresses are not durable and are left out, as is padding. */
module ServerMetadata {
  import opened Options
  import opened Bytes

  type Text = s: bytes | |s| == 1024 witness seq(1024, i => 0)
  type LongText = s: bytes | |s| == 2048 witness seq(2048, i => 0)
  type ClientIds = s: bytes | |s| == 128 witness seq(128, i => 0)
  type Dims = s: seq<u64> | |s| == 4 witness [0, 0, 0, 0]

  datatype Container = Container(contId: u64, name: Text, nObj: u32, nDeleted: u32, nAllocated: u32, tags: LongText)

  datatype Tag = Tag(name: bytes, ty: byte, value: bytes)

  // `range` and `incr` hold doubles by their bit patterns.
  datatype Histogram = Histogram(dtype: int, nbin: int, range: seq<u64>, bin: seq<u64>, incr: u64)

  /** `region_list_t`: what is durable, and what only the running server uses. */
  datatype Region = Region(ndim: u64, start: Dims, count: Dims, dataSize: u64, unitSize: u64,
                           dataLocType: u32, storageLocation: Text, offset: u64, objId: u64,
                           cacheLocation: Text, cacheOffset: u64, live: Transient)

  datatype Transient = Transient(clientIds: ClientIds, isDataReady: u32, shmAddr: Text, shmFd: u32,
                                 nOverlap: u32, refcount: u32, dirty: u32, accessType: u32,
                                 regId: u64, fromObjId: u64, clientId: u32, isIoDone: u32,
                                 isShmClosed: u32, sentToServer: u32, seqId: u32)

  datatype StorageRegion = StorageRegion(region: Region, hist: Option<Histogram>)

  datatype Metadata = Metadata(userId: u32, appName: Text, objName: Text, timeStep: u32, dataType: u32,
                               objId: u64, contId: u64, createTime: u64, lastModified: u64,
                               dataServerId: u32, regionPartition: byte, consistency: byte,
                               tags: LongText, dataLocation: Text, ndim: u64, dims: Dims,
                               allDistributed: u32, transformState: u32, current: TransformState)

  datatype TransformState = TransformState(storageOrder: u32, dtype: u32, ndim: u64, dims: Dims, metaIndex: u32)

  datatype Object = Object(meta: Metadata, tags: seq<Tag>, regions: seq<StorageRegion>)

  datatype Group = Group(nObj: int, objects: seq<Object>)

  datatype DataObject = DataObject(objId: u64, regions: seq<Region>)

  datatype ServerState = ServerState(containers: map<u32, Container>, groups: map<u32, Group>,
                                     dataObjects: seq<DataObject>, queryBlob: bytes)

  // ---- C strings ----

  function CString(s: bytes): (r: bytes)
    ensures r <= s && 0 !in r && (|r| < |s| ==> s[|r|] == 0)
  {
    if s == [] || s[0] == 0 then [] else [s[0]] + CString(s[1..])
  }

  lemma {:induction false} CStringBack(s: bytes)
    requires 0 !in s
    ensures CString(s + [0]) == s
  {
    if s == [] {
    } else {
      assert (s + [0])[1..] == s[1..] + [0];
      CStringBack(s[1..]);
    }
  }

  predicate Contains(hay: bytes, needle: bytes) {
    needle <= hay || (hay != [] && Contains(hay[1..], needle))
  }

  ghost predicate StandsAt(hay: bytes, needle: bytes, i: nat) {
    i + |needle| <= |hay| && hay[i..i + |needle|] == needle
  }

  lemma {:induction false} ContainsExactly(hay: bytes, needle: bytes)
    ensures Contains(hay, needle) <==> exists i: nat :: StandsAt(hay, needle, i)
  {
    if needle <= hay {
      assert StandsAt(hay, needle, 0);
    } else if hay == [] {
    } else {
      ContainsExactly(hay[1..], needle);
      if i: nat :| StandsAt(hay[1..], needle, i) { assert StandsAt(hay, needle, i + 1); }
      if i: nat :| StandsAt(hay, needle, i) {
        assert i > 0;
        assert StandsAt(hay[1..], needle, i - 1);
      }
    }
  }

  // djb2 over the bytes of a C string, read as signed chars, in 32 bits.
  function Djb2(h: u32, s: bytes): u32
    decreases |s|
  {
    if s == [] then h else Djb2((h * 33 + SignedChar(s[0])) % 0x1_0000_0000, s[1..])
  }

  function SignedChar(c: byte): int {
    if c < 128 then c else c - 256
  }

  function HashByName(name: bytes): u32 {
    Djb2(5381, CString(name))
  }

  // The same sum without wrapping around.
  function Djb2Sum(s: bytes): int {
    if s == [] then 5381 else Djb2Sum(s[..|s| - 1]) * 33 + SignedChar(s[|s| - 1])
  }

  lemma {:induction false} Djb2Next(h: u32, s: bytes, c: byte)
    ensures Djb2(h, s + [c]) == (Djb2(h, s) * 33 + SignedChar(c)) % 0x1_0000_0000
    decreases |s|
  {
    if s == [] {
      assert (s + [c])[1..] == [];
    } else {
      assert (s + [c])[1..] == s[1..] + [c];
      Djb2Next((h * 33 + SignedChar(s[0])) % 0x1_0000_0000, s[1..], c);
    }
  }

  lemma WrapStep(a: int, c: int)
    ensures (a % 0x1_0000_0000 * 33 + c) % 0x1_0000_0000 == (a * 33 + c) % 0x1_0000_0000
  {
    var q, r := a / 0x1_0000_0000, a % 0x1_0000_0000;
    assert a * 33 + c == 0x1_0000_0000 * (q * 33) + (r * 33 + c);
  }

  /** Wrapping at every character gives the sum wrapped once. */
  lemma {:induction false} HashWraps(s: bytes)
    ensures Djb2(5381, s) == Djb2Sum(s) % 0x1_0000_0000
  {
    if s == [] {
    } else {
      var n := |s| - 1;
      assert s == s[..n] + [s[n]];
      HashWraps(s[..n]);
      Djb2Next(5381, s[..n], s[n]);
      WrapStep(Djb2Sum(s[..n]), SignedChar(s[n]));
    }
  }

  // ---- Structs written raw: 64-bit fields, 32-bit fields, then the texts ----

  predicate Shaped(f: seq<bytes>, widths: seq<nat>) {
    |f| == |widths| && forall i :: 0 <= i < |f| ==> |f[i]| == widths[i]
  }

  const CONTAINER_WIDTHS: seq<nat> := [8, 12, 1024, 2048]

  function ContainerFields(c: Container): (f: seq<bytes>)
    ensures Shaped(f, CONTAINER_WIDTHS)
  {
    [StoreU64s([c.contId]), StoreU32s([c.nObj, c.nDeleted, c.nAllocated]), c.name, c.tags]
  }

  function ContainerOf(f: seq<bytes>): Container
    requires Shaped(f, CONTAINER_WIDTHS)
  {
    var w, i := LoadU64s(f[0]), LoadU32s(f[1]);
    Container(w[0], f[2], i[0], i[1], i[2], f[3])
  }

  lemma ContainerFieldsBack(c: Container)
    ensures ContainerOf(ContainerFields(c)) == c
  {
    StoredU64s([c.contId]);
    StoredU32s([c.nObj, c.nDeleted, c.nAllocated]);
  }

  const REGION_WIDTHS: seq<nat> := [128, 48, 128, 1024, 1024, 1024]

  function RegionWords(r: Region): (w: seq<u64>)
    ensures |w| == 16
  {
    [r.ndim, r.start[0], r.start[1], r.start[2], r.start[3], r.count[0], r.count[1], r.count[2], r.count[3],
     r.dataSize, r.unitSize, r.offset, r.objId, r.cacheOffset, r.live.regId, r.live.fromObjId]
  }

  function RegionInts(r: Region): (i: seq<u32>)
    ensures |i| == 12
  {
    [r.dataLocType, r.live.isDataReady, r.live.shmFd, r.live.nOverlap, r.live.refcount, r.live.dirty,
     r.live.accessType, r.live.clientId, r.live.isIoDone, r.live.isShmClosed, r.live.sentToServer, r.live.seqId]
  }

  function RegionFields(r: Region): (f: seq<bytes>)
    ensures Shaped(f, REGION_WIDTHS)
  {
    [StoreU64s(RegionWords(r)), StoreU32s(RegionInts(r)), r.live.clientIds, r.live.shmAddr,
     r.storageLocation, r.cacheLocation]
  }

  function RegionOf(f: seq<bytes>): Region
    requires Shaped(f, REGION_WIDTHS)
  {
    var w, i := LoadU64s(f[0]), LoadU32s(f[1]);
    Region(w[0], w[1..5], w[5..9], w[9], w[10], i[0], f[4], w[11], w[12], f[5], w[13],
           Transient(f[2], i[1], f[3], i[2], i[3], i[4], i[5], i[6], w[14], w[15], i[7], i[8], i[9], i[10], i[11]))
  }

  lemma RegionFieldsBack(r: Region)
    ensures RegionOf(RegionFields(r)) == r
  {
    var w, f := RegionWords(r), RegionFields(r);
    StoredU64s(w);
    StoredU32s(RegionInts(r));
    assert LoadU64s(f[0]) == w && LoadU32s(f[1]) == RegionInts(r);
    RegionDims(r);
  }

  lemma RegionDims(r: Region)
    ensures RegionWords(r)[1..5] == r.start && RegionWords(r)[5..9] == r.count
  {
    var w := RegionWords(r);
    assert w[1..5] == [r.start[0], r.start[1], r.start[2], r.start[3]] == r.start;
    assert w[5..9] == [r.count[0], r.count[1], r.count[2], r.count[3]] == r.count;
  }

  const METADATA_WIDTHS: seq<nat> := [112, 36, 2, 1024, 1024, 2048, 1024]

  function MetadataWords(m: Metadata): (w: seq<u64>)
    ensures |w| == 14
  {
    [m.objId, m.contId, m.createTime, m.lastModified, m.ndim, m.dims[0], m.dims[1], m.dims[2], m.dims[3],
     m.current.ndim, m.current.dims[0], m.current.dims[1], m.current.dims[2], m.current.dims[3]]
  }

  function MetadataInts(m: Metadata): (i: seq<u32>)
    ensures |i| == 9
  {
    [m.userId, m.timeStep, m.dataType, m.dataServerId, m.allDistributed, m.transformState,
     m.current.storageOrder, m.current.dtype, m.current.metaIndex]
  }

  function MetadataFields(m: Metadata): (f: seq<bytes>)
    ensures Shaped(f, METADATA_WIDTHS)
  {
    [StoreU64s(MetadataWords(m)), StoreU32s(MetadataInts(m)), [m.regionPartition, m.consistency],
     m.appName, m.objName, m.tags, m.dataLocation]
  }

  function MetadataOf(f: seq<bytes>): Metadata
    requires Shaped(f, METADATA_WIDTHS)
  {
    var w, i := LoadU64s(f[0]), LoadU32s(f[1]);
    Metadata(i[0], f[3], f[4], i[1], i[2], w[0], w[1], w[2], w[3], i[3], f[2][0], f[2][1], f[5], f[6],
             w[4], w[5..9], i[4], i[5], TransformState(i[6], i[7], w[9], w[10..14], i[8]))
  }

  lemma MetadataFieldsBack(m: Metadata)
    ensures MetadataOf(MetadataFields(m)) == m
  {
    var w := MetadataWords(m);
    StoredU64s(w);
    StoredU32s(MetadataInts(m));
    assert w[5..9] == m.dims && w[10..14] == m.current.dims;
  }
}
