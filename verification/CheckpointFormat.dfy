/** The checkpoint stream: how each level is written, how each level is read back, and that
    reading inverts writing. */
module CheckpointFormat {
  import opened Options
  import opened Bytes
  import opened Parsing
  import opened ServerMetadata

  // A hash-table entry as the stream lists it.
  datatype Keyed<+T> = Keyed(key: u32, value: T)

  datatype Stream = Stream(containers: seq<Keyed<Container>>, groups: seq<Keyed<Group>>,
                           dataObjects: seq<DataObject>, queryBlob: bytes)

  // ---- Writing ----

  function EncContainer(c: Keyed<Container>, tail: bytes): bytes {
    LE(c.key, 4) + (Flatten(ContainerFields(c.value)) + tail)
  }

  function EncTag(t: Tag, tail: bytes): bytes {
    StoreInt(|t.name| + 1) + ((t.name + [0]) + (LE(|t.value|, 4) + ([t.ty] + (t.value + tail))))
  }

  function EncHist(h: Histogram, tail: bytes): bytes {
    StoreInt(h.dtype) + (StoreInt(h.nbin) + (StoreU64s(h.range) + (StoreU64s(h.bin) + (LE(h.incr, 8) + tail))))
  }

  function EncRegion(r: Region, tail: bytes): bytes {
    Flatten(RegionFields(r)) + tail
  }

  function EncStorageRegion(r: StorageRegion, tail: bytes): bytes {
    EncRegion(r.region,
      match r.hist
      case None => StoreInt(0) + tail
      case Some(h) => StoreInt(1) + EncHist(h, tail))
  }

  ghost function EncRegions(rs: seq<StorageRegion>, tail: bytes): bytes {
    StoreInt(|rs|) + EncodeAll(EncStorageRegion, rs, tail)
  }

  ghost function EncObject(o: Object, tail: bytes): bytes {
    Flatten(MetadataFields(o.meta)) + (StoreInt(|o.tags|) + EncodeAll(EncTag, o.tags, EncRegions(o.regions, tail)))
  }

  ghost function EncGroup(g: Keyed<Group>, tail: bytes): bytes {
    StoreInt(g.value.nObj) + (LE(g.key, 4) + EncodeAll(EncObject, g.value.objects, tail))
  }

  ghost function EncData(d: DataObject, tail: bytes): bytes {
    LE(d.objId, 8) + (StoreInt(|d.regions|) + EncodeAll(EncRegion, d.regions, tail))
  }

  ghost function EncDataAndBlob(ds: seq<DataObject>, blob: bytes, tail: bytes): bytes {
    StoreInt(|ds|) + EncodeAll(EncData, ds, LE(|blob|, 8) + (blob + tail))
  }

  ghost function EncStream(st: Stream, tail: bytes): bytes {
    StoreInt(|st.containers|) + EncodeAll(EncContainer, st.containers,
      StoreInt(|st.groups|) + EncodeAll(EncGroup, st.groups, EncDataAndBlob(st.dataObjects, st.queryBlob, tail)))
  }

  // ---- Reading ----

  function PContainer(s: bytes): Parse<Keyed<Container>> {
    var (key, r) :- PU32(s);
    var (b, t) :- PBytes(Sum(CONTAINER_WIDTHS), r);
    Parsed(Keyed(key, ContainerOf(Split(CONTAINER_WIDTHS, b))), t)
  }

  function PTag(s: bytes): Parse<Tag> {
    var (keyLen, r) :- PInt(s);
    var (name, r) :- PBytes(keyLen, r);
    var (size, r) :- PU32(r);
    var (ty, r) :- PByte(r);
    var (value, r) :- PBytes(size, r);
    Parsed(Tag(CString(name), ty, value), r)
  }

  function PHist(s: bytes): Parse<Histogram> {
    var (dtype, r) :- PInt(s);
    var (nbin, r) :- PInt(r);
    var (range, r) :- PU64s(nbin * 2, r);
    var (bin, r) :- PU64s(nbin, r);
    var (incr, r) :- PU64(r);
    Parsed(Histogram(dtype, nbin, range, bin, incr), r)
  }

  function PRegion(s: bytes): Parse<Region> {
    var (b, r) :- PBytes(Sum(REGION_WIDTHS), s);
    Parsed(RegionOf(Split(REGION_WIDTHS, b)), r)
  }

  function PStorageRegion(s: bytes): Parse<StorageRegion> {
    var (region, r) :- PRegion(s);
    var (hasHist, r) :- PInt(r);
    if hasHist == 1 then
      var (h, r) :- PHist(r);
      Parsed(StorageRegion(region, Some(h)), r)
    else
      Parsed(StorageRegion(region, None), r)
  }

  function PMetadata(s: bytes): Parse<Metadata> {
    var (b, r) :- PBytes(Sum(METADATA_WIDTHS), s);
    Parsed(MetadataOf(Split(METADATA_WIDTHS, b)), r)
  }

  // A negative region count is refused.
  function PRegions(s: bytes): Parse<seq<StorageRegion>> {
    var (n, r) :- PInt(s);
    if n < 0 then Bad else Repeat(n, PStorageRegion, r)
  }

  function PObject(s: bytes): Parse<Object> {
    var (meta, r) :- PMetadata(s);
    var (body, r) :- PBody(r);
    Parsed(Object(meta, body.0, body.1), r)
  }

  // The tags and storage regions behind an object's metadata.
  function PBody(s: bytes): Parse<(seq<Tag>, seq<StorageRegion>)> {
    var (tags, r) :- PTags(s);
    var (regions, r) :- PRegions(r);
    Parsed((tags, regions), r)
  }

  function PTags(s: bytes): Parse<seq<Tag>> {
    var (nTags, r) :- PInt(s);
    Repeat(nTags, PTag, r)
  }

  function PGroup(s: bytes): Parse<Keyed<Group>> {
    var (count, r) :- PInt(s);
    var (key, r) :- PU32(r);
    var (objects, r) :- Repeat(count, PObject, r);
    Parsed(Keyed(key, Group(|objects|, objects)), r)
  }

  function PData(s: bytes): Parse<DataObject> {
    var (objId, r) :- PU64(s);
    var (n, r) :- PInt(r);
    var (regions, r) :- Repeat(n, PRegion, r);
    Parsed(DataObject(objId, regions), r)
  }

  function PBlob(s: bytes): Parse<bytes> {
    var (n, r) :- PU64(s);
    PBytes(n, r)
  }

  function PDataAndBlob(s: bytes): Parse<(seq<DataObject>, bytes)> {
    var (n, r) :- PInt(s);
    var (dataObjects, r) :- Repeat(n, PData, r);
    var (blob, r) :- PBlob(r);
    Parsed((dataObjects, blob), r)
  }

  function PStream(s: bytes): Parse<Stream> {
    var (n, r) :- PInt(s);
    var (containers, r) :- Repeat(n, PContainer, r);
    var (n, r) :- PInt(r);
    var (groups, r) :- Repeat(n, PGroup, r);
    var (d, r) :- PDataAndBlob(r);
    Parsed(Stream(containers, groups, d.0, d.1), r)
  }

  // ---- What the format can carry ----

  ghost predicate Counted(n: int) {
    0 <= n < 0x8000_0000
  }

  ghost predicate StorableTag(t: Tag) {
    0 !in t.name && Counted(|t.name| + 1) && |t.value| < 0x1_0000_0000
  }

  ghost predicate StorableHist(h: Histogram) {
    && -0x8000_0000 <= h.dtype < 0x8000_0000 && 0 <= h.nbin < 0x4000_0000
    && |h.range| == 2 * h.nbin && |h.bin| == h.nbin
  }

  ghost predicate StorableRegions(rs: seq<StorageRegion>) {
    Counted(|rs|) && forall i :: 0 <= i < |rs| ==> rs[i].hist.Some? ==> StorableHist(rs[i].hist.value)
  }

  ghost predicate StorableObject(o: Object) {
    && Counted(|o.tags|) && (forall i :: 0 <= i < |o.tags| ==> StorableTag(o.tags[i]))
    && StorableRegions(o.regions)
  }

  ghost predicate StorableGroup(g: Group) {
    && g.nObj == |g.objects| && Counted(|g.objects|)
    && (forall i :: 0 <= i < |g.objects| ==> StorableObject(g.objects[i]))
  }

  ghost predicate StorableData(d: DataObject) {
    Counted(|d.regions|)
  }

  ghost predicate Storable(st: Stream) {
    && Counted(|st.containers|) && Counted(|st.groups|) && Counted(|st.dataObjects|)
    && (forall i :: 0 <= i < |st.groups| ==> StorableGroup(st.groups[i].value))
    && (forall i :: 0 <= i < |st.dataObjects| ==> StorableData(st.dataObjects[i]))
    && |st.queryBlob| < 0x1_0000_0000_0000_0000
  }

  // ---- Reading inverts writing ----

  lemma ContainerBack(c: Keyed<Container>, tail: bytes)
    ensures PContainer(EncContainer(c, tail)) == Parsed(c, tail)
  {
    var f := ContainerFields(c.value);
    U32Back(c.key, Flatten(f) + tail);
    SplitFlatten(CONTAINER_WIDTHS, f);
    BytesBack(Flatten(f), tail);
    ContainerFieldsBack(c.value);
  }

  lemma TagBack(t: Tag, tail: bytes)
    requires StorableTag(t)
    ensures PTag(EncTag(t, tail)) == Parsed(t, tail)
  {
    var r4 := t.value + tail;
    var r3 := [t.ty] + r4;
    var r2 := LE(|t.value|, 4) + r3;
    IntBack(|t.name| + 1, (t.name + [0]) + r2);
    BytesBack(t.name + [0], r2);
    CStringBack(t.name);
    U32Back(|t.value|, r3);
    ByteBack(t.ty, r4);
    BytesBack(t.value, tail);
  }

  lemma HistBack(h: Histogram, tail: bytes)
    requires StorableHist(h)
    ensures PHist(EncHist(h, tail)) == Parsed(h, tail)
  {
    var r4 := LE(h.incr, 8) + tail;
    var r3 := StoreU64s(h.bin) + r4;
    var r2 := StoreU64s(h.range) + r3;
    IntBack(h.dtype, StoreInt(h.nbin) + r2);
    IntBack(h.nbin, r2);
    U64sBack(h.range, r3);
    U64sBack(h.bin, r4);
    U64Back(h.incr, tail);
  }

  lemma RegionBack(r: Region, tail: bytes)
    ensures PRegion(EncRegion(r, tail)) == Parsed(r, tail)
  {
    var f := RegionFields(r);
    SplitFlatten(REGION_WIDTHS, f);
    BytesBack(Flatten(f), tail);
    RegionFieldsBack(r);
  }

  lemma StorageRegionBack(r: StorageRegion, tail: bytes)
    requires r.hist.Some? ==> StorableHist(r.hist.value)
    ensures PStorageRegion(EncStorageRegion(r, tail)) == Parsed(r, tail)
  {
    match r.hist
    case None =>
      RegionBack(r.region, StoreInt(0) + tail);
      IntBack(0, tail);
    case Some(h) =>
      RegionBack(r.region, StoreInt(1) + EncHist(h, tail));
      IntBack(1, EncHist(h, tail));
      HistBack(h, tail);
  }

  lemma RegionsBack(rs: seq<StorageRegion>, tail: bytes)
    requires StorableRegions(rs)
    ensures PRegions(EncRegions(rs, tail)) == Parsed(rs, tail)
  {
    IntBack(|rs|, EncodeAll(EncStorageRegion, rs, tail));
    forall i, t | 0 <= i < |rs| ensures PStorageRegion(EncStorageRegion(rs[i], t)) == Parsed(rs[i], t) {
      StorageRegionBack(rs[i], t);
    }
    RepeatBack(PStorageRegion, EncStorageRegion, rs, tail);
  }

  lemma MetadataBack(m: Metadata, tail: bytes)
    ensures PMetadata(Flatten(MetadataFields(m)) + tail) == Parsed(m, tail)
  {
    var f := MetadataFields(m);
    SplitFlatten(METADATA_WIDTHS, f);
    BytesBack(Flatten(f), tail);
    MetadataFieldsBack(m);
  }

  lemma ObjectBack(o: Object, tail: bytes)
    requires StorableObject(o)
    ensures PObject(EncObject(o, tail)) == Parsed(o, tail)
  {
    MetadataBack(o.meta, StoreInt(|o.tags|) + EncodeAll(EncTag, o.tags, EncRegions(o.regions, tail)));
    BodyBack(o, tail);
  }

  lemma BodyBack(o: Object, tail: bytes)
    requires StorableObject(o)
    ensures PBody(StoreInt(|o.tags|) + EncodeAll(EncTag, o.tags, EncRegions(o.regions, tail)))
         == Parsed((o.tags, o.regions), tail)
  {
    var r2 := EncRegions(o.regions, tail);
    IntBack(|o.tags|, EncodeAll(EncTag, o.tags, r2));
    forall i, t | 0 <= i < |o.tags| ensures PTag(EncTag(o.tags[i], t)) == Parsed(o.tags[i], t) {
      TagBack(o.tags[i], t);
    }
    RepeatBack(PTag, EncTag, o.tags, r2);
    RegionsBack(o.regions, tail);
  }

  lemma GroupBack(g: Keyed<Group>, tail: bytes)
    requires StorableGroup(g.value)
    ensures PGroup(EncGroup(g, tail)) == Parsed(g, tail)
  {
    var os := g.value.objects;
    var r := EncodeAll(EncObject, os, tail);
    IntBack(g.value.nObj, LE(g.key, 4) + r);
    U32Back(g.key, r);
    forall i, t | 0 <= i < |os| ensures PObject(EncObject(os[i], t)) == Parsed(os[i], t) {
      ObjectBack(os[i], t);
    }
    RepeatBack(PObject, EncObject, os, tail);
  }

  lemma DataBack(d: DataObject, tail: bytes)
    requires StorableData(d)
    ensures PData(EncData(d, tail)) == Parsed(d, tail)
  {
    var r := EncodeAll(EncRegion, d.regions, tail);
    U64Back(d.objId, StoreInt(|d.regions|) + r);
    IntBack(|d.regions|, r);
    forall i, t | 0 <= i < |d.regions| ensures PRegion(EncRegion(d.regions[i], t)) == Parsed(d.regions[i], t) {
      RegionBack(d.regions[i], t);
    }
    RepeatBack(PRegion, EncRegion, d.regions, tail);
  }

  lemma BlobBack(blob: bytes, tail: bytes)
    requires |blob| < 0x1_0000_0000_0000_0000
    ensures PBlob(LE(|blob|, 8) + (blob + tail)) == Parsed(blob, tail)
  {
    U64Back(|blob|, blob + tail);
    BytesBack(blob, tail);
  }

  lemma ContainersBack(cs: seq<Keyed<Container>>, tail: bytes)
    ensures Repeat(|cs|, PContainer, EncodeAll(EncContainer, cs, tail)) == Parsed(cs, tail)
  {
    forall i, t | 0 <= i < |cs| ensures PContainer(EncContainer(cs[i], t)) == Parsed(cs[i], t) {
      ContainerBack(cs[i], t);
    }
    RepeatBack(PContainer, EncContainer, cs, tail);
  }

  lemma GroupsBack(gs: seq<Keyed<Group>>, tail: bytes)
    requires forall i :: 0 <= i < |gs| ==> StorableGroup(gs[i].value)
    ensures Repeat(|gs|, PGroup, EncodeAll(EncGroup, gs, tail)) == Parsed(gs, tail)
  {
    forall i, t | 0 <= i < |gs| ensures PGroup(EncGroup(gs[i], t)) == Parsed(gs[i], t) {
      GroupBack(gs[i], t);
    }
    RepeatBack(PGroup, EncGroup, gs, tail);
  }

  lemma DataObjectsBack(ds: seq<DataObject>, tail: bytes)
    requires forall i :: 0 <= i < |ds| ==> StorableData(ds[i])
    ensures Repeat(|ds|, PData, EncodeAll(EncData, ds, tail)) == Parsed(ds, tail)
  {
    forall i, t | 0 <= i < |ds| ensures PData(EncData(ds[i], t)) == Parsed(ds[i], t) {
      DataBack(ds[i], t);
    }
    RepeatBack(PData, EncData, ds, tail);
  }

  lemma DataAndBlobBack(ds: seq<DataObject>, blob: bytes, tail: bytes)
    requires Counted(|ds|) && (forall i :: 0 <= i < |ds| ==> StorableData(ds[i]))
    requires |blob| < 0x1_0000_0000_0000_0000
    ensures PDataAndBlob(EncDataAndBlob(ds, blob, tail)) == Parsed((ds, blob), tail)
  {
    var r := LE(|blob|, 8) + (blob + tail);
    IntBack(|ds|, EncodeAll(EncData, ds, r));
    DataObjectsBack(ds, r);
    BlobBack(blob, tail);
  }

  /** The whole stream: everything written is read back, up to the last byte and no further. */
  lemma StreamBack(st: Stream, tail: bytes)
    requires Storable(st)
    ensures PStream(EncStream(st, tail)) == Parsed(st, tail)
  {
    var r2 := EncDataAndBlob(st.dataObjects, st.queryBlob, tail);
    var r1 := EncodeAll(EncGroup, st.groups, r2);
    IntBack(|st.containers|, EncodeAll(EncContainer, st.containers, StoreInt(|st.groups|) + r1));
    ContainersBack(st.containers, StoreInt(|st.groups|) + r1);
    IntBack(|st.groups|, r1);
    GroupsBack(st.groups, r2);
    DataAndBlobBack(st.dataObjects, st.queryBlob, tail);
  }

  // ---- A stream cut short is never taken for a complete one ----

  lemma IntExtends(s: bytes, t: bytes)
    ensures Extends(PInt(s), PInt(s + t), t)
  {
    BytesExtend(4, s, t);
  }

  lemma ContainerExtends(s: bytes, t: bytes)
    ensures Extends(PContainer(s), PContainer(s + t), t)
  {
    BytesExtend(4, s, t);
    if PU32(s).Parsed? { BytesExtend(Sum(CONTAINER_WIDTHS), PU32(s).rest, t); }
  }

  lemma TagExtends(s: bytes, t: bytes)
    ensures Extends(PTag(s), PTag(s + t), t)
  {
    IntExtends(s, t);
    if PInt(s).Parsed? {
      var n, r := PInt(s).value, PInt(s).rest;
      BytesExtend(n, r, t);
      if PBytes(n, r).Parsed? { TagTailExtends(PBytes(n, r).rest, t); }
    }
  }

  lemma TagTailExtends(s: bytes, t: bytes)
    ensures Extends(PU32(s), PU32(s + t), t)
    ensures PU32(s).Parsed? ==>
              var r := PU32(s).rest;
              && Extends(PByte(r), PByte(r + t), t)
              && (PByte(r).Parsed? ==>
                    var n, q := PU32(s).value, PByte(r).rest; Extends(PBytes(n, q), PBytes(n, q + t), t))
  {
    BytesExtend(4, s, t);
    if PU32(s).Parsed? {
      BytesExtend(1, PU32(s).rest, t);
      if PByte(PU32(s).rest).Parsed? { BytesExtend(PU32(s).value, PByte(PU32(s).rest).rest, t); }
    }
  }

  lemma HistExtends(s: bytes, t: bytes)
    ensures Extends(PHist(s), PHist(s + t), t)
  {
    IntExtends(s, t);
    if PInt(s).Parsed? {
      var r := PInt(s).rest;
      IntExtends(r, t);
      if PInt(r).Parsed? {
        var n, q := PInt(r).value, PInt(r).rest;
        BytesExtend(8 * (n * 2), q, t);
        if PU64s(n * 2, q).Parsed? {
          var u := PU64s(n * 2, q).rest;
          BytesExtend(8 * n, u, t);
          if PU64s(n, u).Parsed? { BytesExtend(8, PU64s(n, u).rest, t); }
        }
      }
    }
  }

  lemma RegionExtends(s: bytes, t: bytes)
    ensures Extends(PRegion(s), PRegion(s + t), t)
  {
    BytesExtend(Sum(REGION_WIDTHS), s, t);
  }

  lemma StorageRegionExtends(s: bytes, t: bytes)
    ensures Extends(PStorageRegion(s), PStorageRegion(s + t), t)
  {
    RegionExtends(s, t);
    if PRegion(s).Parsed? {
      var r := PRegion(s).rest;
      IntExtends(r, t);
      if PInt(r).Parsed? { HistExtends(PInt(r).rest, t); }
    }
  }

  lemma RegionsExtend(s: bytes, t: bytes)
    ensures Extends(PRegions(s), PRegions(s + t), t)
  {
    IntExtends(s, t);
    if PInt(s).Parsed? {
      forall u ensures Extends(PStorageRegion(u), PStorageRegion(u + t), t) { StorageRegionExtends(u, t); }
      RepeatExtends(PInt(s).value, PStorageRegion, PInt(s).rest, t);
    }
  }

  lemma TagsExtend(n: int, s: bytes, t: bytes)
    ensures Extends(Repeat(n, PTag, s), Repeat(n, PTag, s + t), t)
  {
    forall u ensures Extends(PTag(u), PTag(u + t), t) { TagExtends(u, t); }
    RepeatExtends(n, PTag, s, t);
  }

  lemma ObjectExtends(s: bytes, t: bytes)
    ensures Extends(PObject(s), PObject(s + t), t)
  {
    BytesExtend(Sum(METADATA_WIDTHS), s, t);
    if PMetadata(s).Parsed? { BodyExtends(PMetadata(s).rest, t); }
  }

  lemma BodyExtends(s: bytes, t: bytes)
    ensures Extends(PBody(s), PBody(s + t), t)
  {
    IntExtends(s, t);
    if PInt(s).Parsed? { TagsExtend(PInt(s).value, PInt(s).rest, t); }
    if PTags(s).Parsed? { RegionsExtend(PTags(s).rest, t); }
  }

  lemma GroupExtends(s: bytes, t: bytes)
    ensures Extends(PGroup(s), PGroup(s + t), t)
  {
    IntExtends(s, t);
    if PInt(s).Parsed? {
      BytesExtend(4, PInt(s).rest, t);
      if PU32(PInt(s).rest).Parsed? {
        forall u ensures Extends(PObject(u), PObject(u + t), t) { ObjectExtends(u, t); }
        RepeatExtends(PInt(s).value, PObject, PU32(PInt(s).rest).rest, t);
      }
    }
  }

  lemma DataExtends(s: bytes, t: bytes)
    ensures Extends(PData(s), PData(s + t), t)
  {
    BytesExtend(8, s, t);
    if PU64(s).Parsed? {
      var r := PU64(s).rest;
      IntExtends(r, t);
      if PInt(r).Parsed? {
        forall u ensures Extends(PRegion(u), PRegion(u + t), t) { RegionExtends(u, t); }
        RepeatExtends(PInt(r).value, PRegion, PInt(r).rest, t);
      }
    }
  }

  lemma CountedContainersExtend(n: int, s: bytes, t: bytes)
    ensures Extends(Repeat(n, PContainer, s), Repeat(n, PContainer, s + t), t)
  {
    forall u ensures Extends(PContainer(u), PContainer(u + t), t) { ContainerExtends(u, t); }
    RepeatExtends(n, PContainer, s, t);
  }

  lemma CountedGroupsExtend(n: int, s: bytes, t: bytes)
    ensures Extends(Repeat(n, PGroup, s), Repeat(n, PGroup, s + t), t)
  {
    forall u ensures Extends(PGroup(u), PGroup(u + t), t) { GroupExtends(u, t); }
    RepeatExtends(n, PGroup, s, t);
  }

  lemma CountedDataExtend(n: int, s: bytes, t: bytes)
    ensures Extends(Repeat(n, PData, s), Repeat(n, PData, s + t), t)
  {
    forall u ensures Extends(PData(u), PData(u + t), t) { DataExtends(u, t); }
    RepeatExtends(n, PData, s, t);
  }

  lemma BlobExtends(s: bytes, t: bytes)
    ensures Extends(PBlob(s), PBlob(s + t), t)
  {
    BytesExtend(8, s, t);
    if PU64(s).Parsed? { BytesExtend(PU64(s).value, PU64(s).rest, t); }
  }

  lemma DataAndBlobExtends(s: bytes, t: bytes)
    ensures Extends(PDataAndBlob(s), PDataAndBlob(s + t), t)
  {
    IntExtends(s, t);
    if PInt(s).Parsed? {
      CountedDataExtend(PInt(s).value, PInt(s).rest, t);
      var d := Repeat(PInt(s).value, PData, PInt(s).rest);
      if d.Parsed? { BlobExtends(d.rest, t); }
    }
  }

  lemma StreamExtends(s: bytes, t: bytes)
    ensures Extends(PStream(s), PStream(s + t), t)
  {
    IntExtends(s, t);
    if PInt(s).Parsed? {
      var n, r := PInt(s).value, PInt(s).rest;
      CountedContainersExtend(n, r, t);
      if Repeat(n, PContainer, r).Parsed? {
        var q := Repeat(n, PContainer, r).rest;
        IntExtends(q, t);
        if PInt(q).Parsed? {
          var m, u := PInt(q).value, PInt(q).rest;
          CountedGroupsExtend(m, u, t);
          if Repeat(m, PGroup, u).Parsed? { DataAndBlobExtends(Repeat(m, PGroup, u).rest, t); }
        }
      }
    }
  }

  lemma ShortWithout<T>(a: Parse<T>, b: Parse<T>, t: bytes)
    requires Extends(a, b, t) && b.Parsed? && b.rest == [] && t != []
    ensures a == Short
  {
  }

  lemma PrefixIsShort(s: bytes, k: nat)
    requires k < |s| && PStream(s).Parsed? && PStream(s).rest == []
    ensures PStream(s[..k]) == Short
  {
    var t := s[k..];
    assert s[..k] + t == s;
    StreamExtends(s[..k], t);
    ShortWithout(PStream(s[..k]), PStream(s), t);
  }

  /** Reading any proper prefix of a checkpoint runs into the end of the stream. */
  lemma TruncationIsNoticed(st: Stream, k: nat)
    requires Storable(st) && k < |EncStream(st, [])|
    ensures PStream(EncStream(st, [])[..k]) == Short
  {
    StreamBack(st, []);
    PrefixIsShort(EncStream(st, []), k);
  }

  /** Two servers' worth of metadata never share a checkpoint. */
  lemma StreamsAreDistinct(a: Stream, b: Stream)
    requires Storable(a) && Storable(b) && EncStream(a, []) == EncStream(b, [])
    ensures a == b
  {
    StreamBack(a, []);
    StreamBack(b, []);
  }
}
