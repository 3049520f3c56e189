/** Writing a checkpoint and restarting from one, step by step on a file. */
module Checkpointing {
  import opened Options
  import opened Basics
  import opened Bytes
  import opened Parsing
  import opened ListSort
  import opened ServerMetadata
  import opened CheckpointFormat
  import opened Restore

  // ---- The state, and the stream of it in the order the hash tables are walked ----

  ghost predicate Walk<T>(order: seq<u32>, table: map<u32, T>) {
    && (forall k :: k in order <==> k in table)
    && (forall i, j :: 0 <= i < j < |order| ==> order[i] != order[j])
  }

  ghost function StreamOf(st: ServerState, contOrder: seq<u32>, groupOrder: seq<u32>): Stream
    requires Walk(contOrder, st.containers) && Walk(groupOrder, st.groups)
    requires forall k :: k in st.groups ==> st.groups[k].objects != []
  {
    Stream(seq(|contOrder|, i requires 0 <= i < |contOrder| =>
                 ContainerEntry(st.containers[contOrder[i]])),
           seq(|groupOrder|, i requires 0 <= i < |groupOrder| =>
                 GroupEntry(st.groups[groupOrder[i]])),
           st.dataObjects, st.queryBlob)
  }

  // The key of an entry is computed again from a name.
  function ContainerEntry(c: Container): Keyed<Container> {
    Keyed(HashByName(c.name), c)
  }

  function GroupEntry(g: Group): Keyed<Group>
    requires g.objects != []
  {
    Keyed(HashByName(g.objects[0].meta.objName), g)
  }

  // No region has more dimensions than its arrays have room for.
  ghost predicate Dimensioned(rs: seq<StorageRegion>) {
    forall i :: 0 <= i < |rs| ==> rs[i].region.ndim <= 4
  }

  /** A state a running server can be in: tables keyed by name hash, no empty group, counts right,
      no region of more than four dimensions. */
  ghost predicate WellFormed(st: ServerState) {
    && (forall k :: k in st.containers ==> HashByName(st.containers[k].name) == k)
    && (forall k :: k in st.groups ==>
          && st.groups[k].objects != []
          && HashByName(st.groups[k].objects[0].meta.objName) == k
          && StorableGroup(st.groups[k])
          && forall i :: 0 <= i < |st.groups[k].objects| ==> Dimensioned(st.groups[k].objects[i].regions))
    && (forall i :: 0 <= i < |st.dataObjects| ==> StorableData(st.dataObjects[i]))
    && Counted(|st.containers|) && Counted(|st.groups|) && Counted(|st.dataObjects|)
    && |st.queryBlob| < 0x1_0000_0000_0000_0000
  }

  // ---- Writing ----

  method Put(f: ByteFile, s: bytes, ghost tail: bytes)
    requires f.pos == |f.contents|
    modifies f
    ensures f.pos == |f.contents| && f.contents + tail == old(f.contents) + (s + tail)
  {
    f.Write(s);
    assert f.contents + tail == old(f.contents) + (s + tail);
  }

  method WriteContainer(f: ByteFile, c: Container, ghost tail: bytes)
    requires f.pos == |f.contents|
    modifies f
    ensures f.pos == |f.contents| && f.contents + tail == old(f.contents) + EncContainer(ContainerEntry(c), tail)
  {
    var hashKey := HashByName(c.name);
    Put(f, LE(hashKey, 4), Flatten(ContainerFields(c)) + tail);
    Put(f, Flatten(ContainerFields(c)), tail);
  }

  method WriteTag(f: ByteFile, t: Tag, ghost tail: bytes)
    requires f.pos == |f.contents|
    modifies f
    ensures f.pos == |f.contents| && f.contents + tail == old(f.contents) + EncTag(t, tail)
  {
    ghost var r3 := [t.ty] + (t.value + tail);
    ghost var r2 := LE(|t.value|, 4) + r3;
    Put(f, StoreInt(|t.name| + 1), (t.name + [0]) + r2);
    Put(f, t.name + [0], r2);
    Put(f, LE(|t.value|, 4), r3);
    Put(f, [t.ty], t.value + tail);
    Put(f, t.value, tail);
  }

  method WriteTags(f: ByteFile, tags: seq<Tag>, ghost tail: bytes)
    requires f.pos == |f.contents|
    modifies f
    ensures f.pos == |f.contents| && f.contents + tail == old(f.contents) + EncodeAll(EncTag, tags, tail)
  {
    assert tags[0..] == tags;
    for i := 0 to |tags|
      invariant f.pos == |f.contents|
      invariant f.contents + EncodeAll(EncTag, tags[i..], tail) == old(f.contents) + EncodeAll(EncTag, tags, tail)
    {
      assert tags[i..][0] == tags[i] && tags[i..][1..] == tags[i + 1..];
      WriteTag(f, tags[i], EncodeAll(EncTag, tags[i + 1..], tail));
    }
  }

  method WriteHist(f: ByteFile, h: Histogram, ghost tail: bytes)
    requires f.pos == |f.contents|
    modifies f
    ensures f.pos == |f.contents| && f.contents + tail == old(f.contents) + EncHist(h, tail)
  {
    ghost var r3 := StoreU64s(h.bin) + (LE(h.incr, 8) + tail);
    ghost var r2 := StoreU64s(h.range) + r3;
    Put(f, StoreInt(h.dtype), StoreInt(h.nbin) + r2);
    Put(f, StoreInt(h.nbin), r2);
    Put(f, StoreU64s(h.range), r3);
    Put(f, StoreU64s(h.bin), LE(h.incr, 8) + tail);
    Put(f, LE(h.incr, 8), tail);
  }

  method WriteStorageRegion(f: ByteFile, r: StorageRegion, ghost tail: bytes)
    requires f.pos == |f.contents|
    modifies f
    ensures f.pos == |f.contents| && f.contents + tail == old(f.contents) + EncStorageRegion(r, tail)
  {
    var hasHist := if r.hist.Some? then 1 else 0;
    ghost var r2 := if r.hist.Some? then EncHist(r.hist.value, tail) else tail;
    Put(f, Flatten(RegionFields(r.region)), StoreInt(hasHist) + r2);
    Put(f, StoreInt(hasHist), r2);
    if hasHist == 1 { WriteHist(f, r.hist.value, tail); }
  }

  method WriteStorageRegions(f: ByteFile, rs: seq<StorageRegion>, ghost tail: bytes)
    requires f.pos == |f.contents|
    modifies f
    ensures f.pos == |f.contents| && f.contents + tail == old(f.contents) + EncRegions(rs, tail)
  {
    Put(f, StoreInt(|rs|), EncodeAll(EncStorageRegion, rs, tail));
    assert rs[0..] == rs;
    for i := 0 to |rs|
      invariant f.pos == |f.contents|
      invariant f.contents + EncodeAll(EncStorageRegion, rs[i..], tail) == old(f.contents) + EncRegions(rs, tail)
    {
      assert rs[i..][0] == rs[i] && rs[i..][1..] == rs[i + 1..];
      WriteStorageRegion(f, rs[i], EncodeAll(EncStorageRegion, rs[i + 1..], tail));
    }
  }

  method WriteObject(f: ByteFile, o: Object, ghost tail: bytes)
    requires f.pos == |f.contents|
    modifies f
    ensures f.pos == |f.contents| && f.contents + tail == old(f.contents) + EncObject(o, tail)
  {
    ghost var r2 := EncRegions(o.regions, tail);
    ghost var r1 := EncodeAll(EncTag, o.tags, r2);
    Put(f, Flatten(MetadataFields(o.meta)), StoreInt(|o.tags|) + r1);
    Put(f, StoreInt(|o.tags|), r1);
    WriteTags(f, o.tags, r2);
    WriteStorageRegions(f, o.regions, tail);
  }

  method WriteGroup(f: ByteFile, g: Group, ghost tail: bytes)
    requires f.pos == |f.contents| && g.objects != []
    modifies f
    ensures f.pos == |f.contents| && f.contents + tail == old(f.contents) + EncGroup(GroupEntry(g), tail)
  {
    var hashKey := HashByName(g.objects[0].meta.objName);
    ghost var os := g.objects;
    Put(f, StoreInt(g.nObj), LE(hashKey, 4) + EncodeAll(EncObject, os, tail));
    Put(f, LE(hashKey, 4), EncodeAll(EncObject, os, tail));
    assert os[0..] == os;
    for i := 0 to |g.objects|
      invariant f.pos == |f.contents|
      invariant f.contents + EncodeAll(EncObject, os[i..], tail) == old(f.contents) + EncGroup(GroupEntry(g), tail)
    {
      assert os[i..][0] == os[i] && os[i..][1..] == os[i + 1..];
      WriteObject(f, g.objects[i], EncodeAll(EncObject, os[i + 1..], tail));
    }
  }

  method WriteData(f: ByteFile, d: DataObject, ghost tail: bytes)
    requires f.pos == |f.contents|
    modifies f
    ensures f.pos == |f.contents| && f.contents + tail == old(f.contents) + EncData(d, tail)
  {
    ghost var rs := d.regions;
    Put(f, LE(d.objId, 8), StoreInt(|rs|) + EncodeAll(EncRegion, rs, tail));
    Put(f, StoreInt(|d.regions|), EncodeAll(EncRegion, rs, tail));
    assert rs[0..] == rs;
    for i := 0 to |d.regions|
      invariant f.pos == |f.contents|
      invariant f.contents + EncodeAll(EncRegion, rs[i..], tail) == old(f.contents) + EncData(d, tail)
    {
      assert rs[i..][0] == rs[i] && rs[i..][1..] == rs[i + 1..];
      Put(f, Flatten(RegionFields(d.regions[i])), EncodeAll(EncRegion, rs[i + 1..], tail));
    }
  }

  method WriteDataAndBlob(f: ByteFile, ds: seq<DataObject>, blob: bytes)
    requires f.pos == |f.contents|
    modifies f
    ensures f.pos == |f.contents| && f.contents == old(f.contents) + EncDataAndBlob(ds, blob, [])
  {
    ghost var r := LE(|blob|, 8) + (blob + []);
    Put(f, StoreInt(|ds|), EncodeAll(EncData, ds, r));
    assert ds[0..] == ds;
    for i := 0 to |ds|
      invariant f.pos == |f.contents|
      invariant f.contents + EncodeAll(EncData, ds[i..], r) == old(f.contents) + EncDataAndBlob(ds, blob, [])
    {
      assert ds[i..][0] == ds[i] && ds[i..][1..] == ds[i + 1..];
      WriteData(f, ds[i], EncodeAll(EncData, ds[i + 1..], r));
    }
    Put(f, LE(|blob|, 8), blob + []);
    Put(f, blob, []);
    assert f.contents + [] == f.contents;
  }

  method WriteContainers(f: ByteFile, st: ServerState, order: seq<u32>, ghost es: seq<Keyed<Container>>,
                         ghost tail: bytes)
    requires f.pos == |f.contents| && |es| == |order|
    requires forall i :: 0 <= i < |order| ==>
               order[i] in st.containers && es[i] == ContainerEntry(st.containers[order[i]])
    modifies f
    ensures f.pos == |f.contents| && f.contents + tail == old(f.contents) + EncodeAll(EncContainer, es, tail)
  {
    assert es[0..] == es;
    for i := 0 to |order|
      invariant f.pos == |f.contents|
      invariant f.contents + EncodeAll(EncContainer, es[i..], tail)
             == old(f.contents) + EncodeAll(EncContainer, es, tail)
    {
      assert es[i..][0] == es[i] && es[i..][1..] == es[i + 1..];
      WriteContainer(f, st.containers[order[i]], EncodeAll(EncContainer, es[i + 1..], tail));
    }
  }

  method WriteGroups(f: ByteFile, st: ServerState, order: seq<u32>, ghost es: seq<Keyed<Group>>, ghost tail: bytes)
    requires f.pos == |f.contents| && |es| == |order|
    requires forall i :: 0 <= i < |order| ==>
               order[i] in st.groups && st.groups[order[i]].objects != [] && es[i] == GroupEntry(st.groups[order[i]])
    modifies f
    ensures f.pos == |f.contents| && f.contents + tail == old(f.contents) + EncodeAll(EncGroup, es, tail)
  {
    assert es[0..] == es;
    for i := 0 to |order|
      invariant f.pos == |f.contents|
      invariant f.contents + EncodeAll(EncGroup, es[i..], tail) == old(f.contents) + EncodeAll(EncGroup, es, tail)
    {
      assert es[i..][0] == es[i] && es[i..][1..] == es[i + 1..];
      WriteGroup(f, st.groups[order[i]], EncodeAll(EncGroup, es[i + 1..], tail));
    }
  }

  method WriteGroupsAndData(f: ByteFile, st: ServerState, order: seq<u32>, ghost es: seq<Keyed<Group>>)
    requires f.pos == |f.contents| && |es| == |order|
    requires forall i :: 0 <= i < |order| ==>
               order[i] in st.groups && st.groups[order[i]].objects != [] && es[i] == GroupEntry(st.groups[order[i]])
    modifies f
    ensures f.contents == old(f.contents) + (StoreInt(|order|)
                            + EncodeAll(EncGroup, es, EncDataAndBlob(st.dataObjects, st.queryBlob, [])))
  {
    ghost var r := EncDataAndBlob(st.dataObjects, st.queryBlob, []);
    Put(f, StoreInt(|order|), EncodeAll(EncGroup, es, r));
    WriteGroups(f, st, order, es, r);
    WriteDataAndBlob(f, st.dataObjects, st.queryBlob);
  }

  /** The checkpoint of a server, whatever order its hash tables are walked in. */
  method Checkpoint(st: ServerState, contOrder: seq<u32>, groupOrder: seq<u32>, f: ByteFile)
    requires f.contents == [] && f.pos == 0
    requires Walk(contOrder, st.containers) && Walk(groupOrder, st.groups)
    requires forall k :: k in st.groups ==> st.groups[k].objects != []
    modifies f
    ensures f.contents == EncStream(StreamOf(st, contOrder, groupOrder), [])
  {
    ghost var out := StreamOf(st, contOrder, groupOrder);
    ghost var r2 := EncDataAndBlob(st.dataObjects, st.queryBlob, []);
    ghost var r1 := StoreInt(|out.groups|) + EncodeAll(EncGroup, out.groups, r2);
    Put(f, StoreInt(|contOrder|), EncodeAll(EncContainer, out.containers, r1));
    WriteContainers(f, st, contOrder, out.containers, r1);
    WriteGroupsAndData(f, st, groupOrder, out.groups);
  }

  // ---- Reading ----

  /** What stops a restart.  The source logs a read that comes up short and goes on with whatever
      memory holds; here reading ends there. */
  datatype Stop = ShortRead | NegativeRegionCount

  datatype Result<+T> = Ok(value: T) | Stopped(why: Stop) {
    predicate IsFailure() {
      Stopped?
    }

    function PropagateFailure<U>(): Result<U>
      requires Stopped?
    {
      Stopped(why)
    }

    function Extract(): T
      requires Ok?
    {
      value
    }
  }

  // A step on the file did what the reader of the stream says.
  ghost predicate Agrees<T>(p: Parse<T>, r: Result<T>, rest: bytes) {
    match p
    case Short => r == Stopped(ShortRead)
    case Bad => r == Stopped(NegativeRegionCount)
    case Parsed(x, t) => r == Ok(x) && rest == t
  }

  method Get(f: ByteFile, n: int) returns (r: Result<bytes>)
    modifies f
    ensures f.contents == old(f.contents) && Agrees(PBytes(n, old(f.Rest())), r, f.Rest())
  {
    if n < 0 { return Stopped(ShortRead); }
    ghost var rest := f.Rest();
    var s := f.Read(n);
    if |s| == n {
      assert s == rest[..n] && f.Rest() == rest[n..];
      return Ok(s);
    } else {
      assert |rest| < n;
      return Stopped(ShortRead);
    }
  }

  method GetInt(f: ByteFile) returns (r: Result<int>)
    modifies f
    ensures f.contents == old(f.contents) && Agrees(PInt(old(f.Rest())), r, f.Rest())
  {
    var s :- Get(f, 4);
    r := Ok(LoadInt(s));
  }

  method GetU32(f: ByteFile) returns (r: Result<u32>)
    modifies f
    ensures f.contents == old(f.contents) && Agrees(PU32(old(f.Rest())), r, f.Rest())
  {
    var s :- Get(f, 4);
    r := Ok(U32(s));
  }

  method GetU64(f: ByteFile) returns (r: Result<u64>)
    modifies f
    ensures f.contents == old(f.contents) && Agrees(PU64(old(f.Rest())), r, f.Rest())
  {
    var s :- Get(f, 8);
    r := Ok(U64(s));
  }

  method GetU64s(f: ByteFile, n: int) returns (r: Result<seq<u64>>)
    modifies f
    ensures f.contents == old(f.contents) && Agrees(PU64s(n, old(f.Rest())), r, f.Rest())
  {
    var s :- Get(f, 8 * n);
    assert |s| == 8 * n;
    r := Ok(LoadU64s(s));
  }

  // ---- Items.  `p` is the reader of the item, kept abstract in the loops that call these. ----

  method ReadContainer(f: ByteFile, ghost p: bytes -> Parse<Keyed<Container>>) returns (r: Result<Keyed<Container>>)
    requires Same(p, PContainer)
    modifies f
    ensures f.contents == old(f.contents) && Agrees(p(old(f.Rest())), r, f.Rest())
  {
    assert At(f.Rest());
    var hashKey :- GetU32(f);
    var s :- Get(f, Sum(CONTAINER_WIDTHS));
    r := Ok(Keyed(hashKey, ContainerOf(Split(CONTAINER_WIDTHS, s))));
  }

  method ReadTag(f: ByteFile, ghost p: bytes -> Parse<Tag>) returns (r: Result<Tag>)
    requires Same(p, PTag)
    modifies f
    ensures f.contents == old(f.contents) && Agrees(p(old(f.Rest())), r, f.Rest())
  {
    assert At(f.Rest());
    var keyLen :- GetInt(f);
    var name :- Get(f, keyLen);
    var size :- GetU32(f);
    var ty :- Get(f, 1);
    var value :- Get(f, size);
    r := Ok(Tag(CString(name), Byte(ty), value));
  }

  method ReadTags(f: ByteFile, n: int, ghost p: bytes -> Parse<Tag>) returns (r: Result<seq<Tag>>)
    requires Same(p, PTag)
    modifies f
    ensures f.contents == old(f.contents) && Agrees(Repeat(n, p, old(f.Rest())), r, f.Rest())
  {
    var tags, j := [], 0;
    ghost var all := Repeat(n, p, f.Rest());
    AfterNone(all);
    while j < n
      invariant f.contents == old(f.contents)
      invariant all == After(tags, Repeat(n - j, p, f.Rest()))
      decreases n - j
    {
      Round(p, all, tags, n - j, f.Rest());
      var t :- ReadTag(f, p);
      tags, j := tags + [t], j + 1;
    }
    LoopEnds(p, all, tags, n - j, f.Rest());
    r := Ok(tags);
  }

  method ReadHist(f: ByteFile) returns (r: Result<Histogram>)
    modifies f
    ensures f.contents == old(f.contents) && Agrees(PHist(old(f.Rest())), r, f.Rest())
  {
    var dtype :- GetInt(f);
    var nbin :- GetInt(f);
    var range :- GetU64s(f, nbin * 2);
    var bin :- GetU64s(f, nbin);
    var incr :- GetU64(f);
    r := Ok(Histogram(dtype, nbin, range, bin, incr));
  }

  method ReadRegion(f: ByteFile, ghost p: bytes -> Parse<Region>) returns (r: Result<Region>)
    requires Same(p, PRegion)
    modifies f
    ensures f.contents == old(f.contents) && Agrees(p(old(f.Rest())), r, f.Rest())
  {
    assert At(f.Rest());
    var s :- Get(f, Sum(REGION_WIDTHS));
    r := Ok(RegionOf(Split(REGION_WIDTHS, s)));
  }

  method ReadStorageRegion(f: ByteFile, ghost p: bytes -> Parse<StorageRegion>) returns (r: Result<StorageRegion>)
    requires Same(p, PStorageRegion)
    modifies f
    ensures f.contents == old(f.contents) && Agrees(p(old(f.Rest())), r, f.Rest())
  {
    assert At(f.Rest());
    var region :- ReadRegion(f, PRegion);
    var hasHist :- GetInt(f);
    if hasHist == 1 {
      var h :- ReadHist(f);
      r := Ok(StorageRegion(region, Some(h)));
    } else {
      r := Ok(StorageRegion(region, None));
    }
  }

  // Clear the transient fields of a region just read and give it its owner.
  method Reset(objId: u64, raw: StorageRegion) returns (r: StorageRegion)
    ensures r == RestoreRegion(objId, raw) && (raw.region.ndim <= 4 ==> KeepsRegion(objId, raw, r))
  {
    if raw.region.ndim <= 4 { RestoreKeepsRegion(objId, raw); }
    var size := DataSize(raw.region);
    var loc := raw.region.dataLocType;
    if Contains(CString(raw.region.storageLocation), CSCRATCH) { loc := PDC_LUSTRE; }
    r := raw.(region := raw.region.(dataSize := size, objId := objId, dataLocType := loc, live := Cleared()));
  }

  // As `Agrees`, where `keep` relates what is kept to what was read.
  ghost predicate Yields<T, U>(p: Parse<T>, r: Result<U>, rest: bytes, keep: (T, U) -> bool) {
    match p
    case Short => r == Stopped(ShortRead)
    case Bad => r == Stopped(NegativeRegionCount)
    case Parsed(x, t) => r.Ok? && keep(x, r.value) && rest == t
  }

  // The counted storage regions of one object, each reset as it is read, in stream order.
  method ReadStorageRegions(f: ByteFile, n: int, objId: u64, ghost p: bytes -> Parse<StorageRegion>)
    returns (r: Result<seq<StorageRegion>>)
    requires Same(p, PStorageRegion)
    modifies f
    ensures f.contents == old(f.contents)
    ensures Yields(Repeat(n, p, old(f.Rest())), r, f.Rest(), (raw, rs) => rs == RestoreRegions(objId, raw))
  {
    var regions, j := [], 0;
    ghost var raw: seq<StorageRegion> := [];
    ghost var all := Repeat(n, p, f.Rest());
    AfterNone(all);
    while j < n
      invariant f.contents == old(f.contents)
      invariant all == After(raw, Repeat(n - j, p, f.Rest()))
      invariant regions == RestoreRegions(objId, raw)
      decreases n - j
    {
      Round(p, all, raw, n - j, f.Rest());
      var rr :- ReadStorageRegion(f, p);
      var region := Reset(objId, rr);
      regions, raw, j := regions + [region], raw + [rr], j + 1;
    }
    LoopEnds(p, all, raw, n - j, f.Rest());
    r := Ok(regions);
  }

  ghost predicate RestoresRegions(objId: u64, raw: seq<StorageRegion>, rs: seq<StorageRegion>) {
    && multiset(rs) == multiset(RestoreRegions(objId, raw))
    && (SameNdim(raw) ==> rs == StableSort(RegionLeq, RestoreRegions(objId, raw)))
  }

  // The region count, the regions, and the sort of the list they were appended to.
  method ReadRegionList(f: ByteFile, objId: u64) returns (r: Result<seq<StorageRegion>>)
    modifies f
    ensures f.contents == old(f.contents)
    ensures Yields(PRegions(old(f.Rest())), r, f.Rest(), (raw, rs) => RestoresRegions(objId, raw, rs))
  {
    var nRegion :- GetInt(f);
    if nRegion < 0 { return Stopped(NegativeRegionCount); }
    ghost var parsed := Repeat(nRegion, PStorageRegion, f.Rest());
    var regions :- ReadStorageRegions(f, nRegion, objId, PStorageRegion);
    var sorted := Sort(regions, RegionLeq);
    if SameNdim(parsed.value) { RegionsOrdered(regions); }
    r := Ok(sorted);
  }

  // What reading leaves of an object whose stream image is `raw`.
  ghost predicate Restores(raw: Object, o: Object) {
    && o.meta == RestoreMeta(raw.meta) && o.tags == raw.tags
    && RestoresRegions(raw.meta.objId, raw.regions, o.regions)
  }

  method ReadMetadata(f: ByteFile) returns (r: Result<Metadata>)
    modifies f
    ensures f.contents == old(f.contents) && Agrees(PMetadata(old(f.Rest())), r, f.Rest())
  {
    var s :- Get(f, Sum(METADATA_WIDTHS));
    r := Ok(MetadataOf(Split(METADATA_WIDTHS, s)));
  }

  ghost predicate RestoresBody(objId: u64, raw: (seq<Tag>, seq<StorageRegion>), b: (seq<Tag>, seq<StorageRegion>)) {
    b.0 == raw.0 && RestoresRegions(objId, raw.1, b.1)
  }

  method ReadBody(f: ByteFile, objId: u64) returns (r: Result<(seq<Tag>, seq<StorageRegion>)>)
    modifies f
    ensures f.contents == old(f.contents)
    ensures Yields(PBody(old(f.Rest())), r, f.Rest(), (raw, b) => RestoresBody(objId, raw, b))
  {
    var tags :- ReadTagList(f);
    var regions :- ReadRegionList(f, objId);
    r := Ok((tags, regions));
  }

  method ReadTagList(f: ByteFile) returns (r: Result<seq<Tag>>)
    modifies f
    ensures f.contents == old(f.contents) && Agrees(PTags(old(f.Rest())), r, f.Rest())
  {
    var nTags :- GetInt(f);
    r := ReadTags(f, nTags, PTag);
  }

  method ReadObject(f: ByteFile, ghost p: bytes -> Parse<Object>) returns (r: Result<Object>)
    requires Same(p, PObject)
    modifies f
    ensures f.contents == old(f.contents) && Yields(p(old(f.Rest())), r, f.Rest(), Restores)
  {
    assert At(f.Rest());
    var meta :- ReadMetadata(f);
    var body :- ReadBody(f, meta.objId);
    r := Ok(Object(meta.(allDistributed := 0), body.0, body.1));
  }

  ghost predicate RestoresAll(raw: seq<Object>, os: seq<Object>) {
    |raw| == |os| && forall i :: 0 <= i < |os| ==> Restores(raw[i], os[i])
  }

  method ReadObjects(f: ByteFile, count: int, ghost p: bytes -> Parse<Object>) returns (r: Result<seq<Object>>)
    requires Same(p, PObject)
    modifies f
    ensures f.contents == old(f.contents) && Yields(Repeat(count, p, old(f.Rest())), r, f.Rest(), RestoresAll)
  {
    var objects, i := [], 0;
    ghost var raw: seq<Object> := [];
    ghost var all := Repeat(count, p, f.Rest());
    AfterNone(all);
    while i < count
      invariant f.contents == old(f.contents)
      invariant all == After(raw, Repeat(count - i, p, f.Rest()))
      invariant RestoresAll(raw, objects)
      decreases count - i
    {
      ghost var next := p(f.Rest());
      Round(p, all, raw, count - i, f.Rest());
      var o :- ReadObject(f, p);
      objects, raw, i := objects + [o], raw + [next.value], i + 1;
    }
    LoopEnds(p, all, raw, count - i, f.Rest());
    r := Ok(objects);
  }

  ghost predicate RestoresGroup(raw: Keyed<Group>, e: Keyed<Group>) {
    && e.key == raw.key && e.value.nObj == |e.value.objects|
    && RestoresAll(raw.value.objects, e.value.objects)
  }

  method ReadGroup(f: ByteFile, ghost p: bytes -> Parse<Keyed<Group>>) returns (r: Result<Keyed<Group>>)
    requires Same(p, PGroup)
    modifies f
    ensures f.contents == old(f.contents) && Yields(p(old(f.Rest())), r, f.Rest(), RestoresGroup)
  {
    assert At(f.Rest());
    var count :- GetInt(f);
    var hashKey :- GetU32(f);
    var objects :- ReadObjects(f, count, PObject);
    r := Ok(Keyed(hashKey, Group(|objects|, objects)));
  }

  method ReadRegions(f: ByteFile, n: int, ghost p: bytes -> Parse<Region>) returns (r: Result<seq<Region>>)
    requires Same(p, PRegion)
    modifies f
    ensures f.contents == old(f.contents) && Agrees(Repeat(n, p, old(f.Rest())), r, f.Rest())
  {
    var regions, j := [], 0;
    ghost var all := Repeat(n, p, f.Rest());
    AfterNone(all);
    while j < n
      invariant f.contents == old(f.contents)
      invariant all == After(regions, Repeat(n - j, p, f.Rest()))
      decreases n - j
    {
      Round(p, all, regions, n - j, f.Rest());
      var region :- ReadRegion(f, p);
      regions, j := regions + [region], j + 1;
    }
    LoopEnds(p, all, regions, n - j, f.Rest());
    r := Ok(regions);
  }

  method ReadData(f: ByteFile, ghost p: bytes -> Parse<DataObject>) returns (r: Result<DataObject>)
    requires Same(p, PData)
    modifies f
    ensures f.contents == old(f.contents) && Agrees(p(old(f.Rest())), r, f.Rest())
  {
    assert At(f.Rest());
    var objId :- GetU64(f);
    var n :- GetInt(f);
    var regions :- ReadRegions(f, n, PRegion);
    r := Ok(DataObject(objId, regions));
  }

  // ---- Hash tables: a later entry with the same key takes the place of an earlier one ----

  ghost function Table<T>(es: seq<Keyed<T>>): map<u32, T> {
    if es == [] then map[] else Table(es[..|es| - 1])[es[|es| - 1].key := es[|es| - 1].value]
  }

  lemma TableAdd<T>(es: seq<Keyed<T>>, e: Keyed<T>)
    ensures Table(es + [e]) == Table(es)[e.key := e.value]
  {
    assert (es + [e])[..|es|] == es;
  }

  lemma {:induction false} TableOf<T>(es: seq<Keyed<T>>, table: map<u32, T>)
    requires forall i, j :: 0 <= i < j < |es| ==> es[i].key != es[j].key
    requires forall i :: 0 <= i < |es| ==> es[i].key in table && table[es[i].key] == es[i].value
    ensures forall k :: k in Table(es) <==> exists i :: 0 <= i < |es| && es[i].key == k
    ensures forall k :: k in Table(es) ==> k in table && Table(es)[k] == table[k]
  {
    if es == [] {
    } else {
      var n := |es| - 1;
      TableOf(es[..n], table);
      forall k ensures k in Table(es) <==> exists i :: 0 <= i < |es| && es[i].key == k {
        if k in Table(es[..n]) {
          var i :| 0 <= i < n && es[..n][i].key == k;
          assert es[i].key == k;
        }
        if exists i :: 0 <= i < |es| && es[i].key == k {
          var i :| 0 <= i < |es| && es[i].key == k;
          if i < n { assert es[..n][i].key == k; }
        }
      }
    }
  }

  method ReadContainers(f: ByteFile, n: int, ghost p: bytes -> Parse<Keyed<Container>>)
    returns (r: Result<map<u32, Container>>)
    requires Same(p, PContainer)
    modifies f
    ensures f.contents == old(f.contents)
    ensures Yields(Repeat(n, p, old(f.Rest())), r, f.Rest(), (es, table) => table == Table(es))
  {
    var table: map<u32, Container> := map[];
    var left := n;
    ghost var es: seq<Keyed<Container>> := [];
    ghost var all := Repeat(n, p, f.Rest());
    AfterNone(all);
    while left > 0
      invariant f.contents == old(f.contents)
      invariant all == After(es, Repeat(left, p, f.Rest()))
      invariant table == Table(es)
    {
      Round(p, all, es, left, f.Rest());
      var e :- ReadContainer(f, p);
      TableAdd(es, e);
      table, es, left := table[e.key := e.value], es + [e], left - 1;
    }
    LoopEnds(p, all, es, left, f.Rest());
    r := Ok(table);
  }

  ghost predicate RestoresEntries(raw: seq<Keyed<Group>>, es: seq<Keyed<Group>>) {
    |raw| == |es| && forall i :: 0 <= i < |es| ==> RestoresGroup(raw[i], es[i])
  }

  ghost predicate RestoresTable(raw: seq<Keyed<Group>>, table: map<u32, Group>) {
    exists es :: RestoresEntries(raw, es) && table == Table(es)
  }

  method ReadGroups(f: ByteFile, n: int, ghost p: bytes -> Parse<Keyed<Group>>) returns (r: Result<map<u32, Group>>)
    requires Same(p, PGroup)
    modifies f
    ensures f.contents == old(f.contents) && Yields(Repeat(n, p, old(f.Rest())), r, f.Rest(), RestoresTable)
  {
    var table: map<u32, Group> := map[];
    var left := n;
    ghost var raw: seq<Keyed<Group>> := [];
    ghost var es: seq<Keyed<Group>> := [];
    ghost var all := Repeat(n, p, f.Rest());
    AfterNone(all);
    while left > 0
      invariant f.contents == old(f.contents)
      invariant all == After(raw, Repeat(left, p, f.Rest()))
      invariant table == Table(es) && RestoresEntries(raw, es)
    {
      ghost var next := p(f.Rest());
      Round(p, all, raw, left, f.Rest());
      var e :- ReadGroup(f, p);
      TableAdd(es, e);
      table := table[e.key := e.value];
      es, raw, left := es + [e], raw + [next.value], left - 1;
    }
    LoopEnds(p, all, raw, left, f.Rest());
    r := Ok(table);
  }

  method ReadDataObjects(f: ByteFile, n: int, ghost p: bytes -> Parse<DataObject>) returns (r: Result<seq<DataObject>>)
    requires Same(p, PData)
    modifies f
    ensures f.contents == old(f.contents) && Agrees(Repeat(n, p, old(f.Rest())), r, f.Rest())
  {
    var ds, i := [], 0;
    ghost var all := Repeat(n, p, f.Rest());
    AfterNone(all);
    while i < n
      invariant f.contents == old(f.contents)
      invariant all == After(ds, Repeat(n - i, p, f.Rest()))
      decreases n - i
    {
      Round(p, all, ds, n - i, f.Rest());
      var d :- ReadData(f, p);
      ds, i := ds + [d], i + 1;
    }
    LoopEnds(p, all, ds, n - i, f.Rest());
    r := Ok(ds);
  }

  method ReadDataAndBlob(f: ByteFile) returns (r: Result<(seq<DataObject>, bytes)>)
    modifies f
    ensures f.contents == old(f.contents) && Agrees(PDataAndBlob(old(f.Rest())), r, f.Rest())
  {
    var nObjs :- GetInt(f);
    var dataObjects :- ReadDataObjects(f, nObjs, PData);
    var size :- GetU64(f);
    var blob :- Get(f, size);
    r := Ok((dataObjects, blob));
  }

  // The state a restart builds from a stream it could read.
  ghost predicate RestoresStream(raw: Stream, st: ServerState) {
    && st.containers == Table(raw.containers) && RestoresTable(raw.groups, st.groups)
    && st.dataObjects == raw.dataObjects && st.queryBlob == raw.queryBlob
  }

  /** A restart reads any stream as the reader says: it builds the state the stream holds, and it
      stops where the stream is cut short or refused. */
  method Restart(f: ByteFile) returns (r: Result<ServerState>)
    requires f.pos == 0
    modifies f
    ensures f.contents == old(f.contents) && Yields(PStream(f.contents), r, f.Rest(), RestoresStream)
  {
    assert f.Rest() == f.contents;
    var nCont :- GetInt(f);
    var containers :- ReadContainers(f, nCont, PContainer);
    var nEntry :- GetInt(f);
    var groups :- ReadGroups(f, nEntry, PGroup);
    var d :- ReadDataAndBlob(f);
    r := Ok(ServerState(containers, groups, d.0, d.1));
  }

  // ---- Checkpoint, then restart ----

  ghost function Elements(s: seq<u32>): set<u32> {
    set k | k in s
  }

  lemma {:induction false} DistinctSize(s: seq<u32>)
    requires forall i, j :: 0 <= i < j < |s| ==> s[i] != s[j]
    ensures |Elements(s)| == |s|
  {
    if s == [] {
    } else {
      var n := |s| - 1;
      DistinctSize(s[..n]);
      assert Elements(s) == Elements(s[..n]) + {s[n]};
      assert s[n] !in s[..n];
    }
  }

  lemma WalkSize<T>(order: seq<u32>, table: map<u32, T>)
    requires Walk(order, table)
    ensures |order| == |table|
  {
    DistinctSize(order);
    assert table.Keys == Elements(order);
    assert |table| == |table.Keys|;
  }

  lemma WalkStorable(st: ServerState, contOrder: seq<u32>, groupOrder: seq<u32>)
    requires WellFormed(st) && Walk(contOrder, st.containers) && Walk(groupOrder, st.groups)
    ensures Storable(StreamOf(st, contOrder, groupOrder))
  {
    WalkSize(contOrder, st.containers);
    WalkSize(groupOrder, st.groups);
    forall i | 0 <= i < |groupOrder| ensures StorableGroup(st.groups[groupOrder[i]]) {
      assert groupOrder[i] in groupOrder;
    }
  }

  // Listing a table in any order and inserting the list again gives the table.
  lemma TableBack<T>(es: seq<Keyed<T>>, order: seq<u32>, table: map<u32, T>)
    requires Walk(order, table) && |es| == |order|
    requires forall i :: 0 <= i < |es| ==> es[i].key == order[i] && order[i] in table && es[i].value == table[order[i]]
    ensures Table(es) == table
  {
    TableOf(es, table);
    forall k | k in table ensures k in Table(es) {
      assert k in order;
      var i :| 0 <= i < |order| && order[i] == k;
      assert es[i].key == k;
    }
  }

  lemma {:induction false} TableHas<T>(es: seq<Keyed<T>>)
    requires forall i, j :: 0 <= i < j < |es| ==> es[i].key != es[j].key
    ensures forall i :: 0 <= i < |es| ==> es[i].key in Table(es) && Table(es)[es[i].key] == es[i].value
    ensures forall k :: k in Table(es) ==> exists i :: 0 <= i < |es| && es[i].key == k
  {
    if es == [] {
    } else {
      var n := |es| - 1;
      TableHas(es[..n]);
      forall i | 0 <= i < |es| ensures es[i].key in Table(es) && Table(es)[es[i].key] == es[i].value {
        if i < n { assert es[..n][i] == es[i]; }
      }
      forall k | k in Table(es) ensures exists i :: 0 <= i < |es| && es[i].key == k {
        if k == es[n].key {
        } else {
          var i :| 0 <= i < n && es[..n][i].key == k;
          assert es[i].key == k;
        }
      }
    }
  }

  // A group after a restart: the same objects in order, each restored.
  ghost predicate GroupFrom(g: Group, g': Group) {
    g'.nObj == |g'.objects| && RestoresAll(g.objects, g'.objects)
  }

  /** What a restart makes of a server: everything as it was, except that each object is restored, with its
      regions in the order the sort leaves them. */
  ghost predicate RestoresState(st: ServerState, st': ServerState) {
    && st'.containers == st.containers && st'.dataObjects == st.dataObjects && st'.queryBlob == st.queryBlob
    && (forall k :: k in st'.groups <==> k in st.groups)
    && (forall k :: k in st.groups ==> GroupFrom(st.groups[k], st'.groups[k]))
  }

  // Every object's regions have one dimensionality.
  ghost predicate OneNdim(st: ServerState) {
    forall k :: k in st.groups ==> GroupOneNdim(st.groups[k])
  }

  ghost predicate GroupOneNdim(g: Group) {
    forall i :: 0 <= i < |g.objects| ==> SameNdim(g.objects[i].regions)
  }

  lemma GroupsRestored(st: ServerState, order: seq<u32>, raw: seq<Keyed<Group>>, groups: map<u32, Group>)
    requires Walk(order, st.groups) && |raw| == |order|
    requires forall i :: 0 <= i < |order| ==> order[i] in st.groups && raw[i] == Keyed(order[i], st.groups[order[i]])
    requires RestoresTable(raw, groups)
    ensures forall k :: k in groups <==> k in st.groups
    ensures forall k :: k in st.groups ==> GroupFrom(st.groups[k], groups[k])
  {
    var es: seq<Keyed<Group>> :| RestoresEntries(raw, es) && groups == Table(es);
    forall i | 0 <= i < |es| ensures es[i].key == order[i] && GroupFrom(st.groups[order[i]], es[i].value) {
      assert RestoresGroup(raw[i], es[i]);
    }
    TableHas(es);
    forall k | k in groups ensures k in st.groups {
      var i :| 0 <= i < |es| && es[i].key == k;
      assert order[i] in order;
    }
    forall k | k in st.groups ensures k in groups && GroupFrom(st.groups[k], groups[k]) {
      assert k in order;
      var i :| 0 <= i < |order| && order[i] == k;
      assert es[i].key == k;
    }
  }

  lemma ContainersBack(st: ServerState, order: seq<u32>, raw: seq<Keyed<Container>>)
    requires WellFormed(st) && Walk(order, st.containers) && |raw| == |order|
    requires forall i :: 0 <= i < |order| ==>
               order[i] in st.containers && raw[i] == ContainerEntry(st.containers[order[i]])
    ensures Table(raw) == st.containers
  {
    TableBack(raw, order, st.containers);
  }

  lemma GroupsOfStream(st: ServerState, contOrder: seq<u32>, groupOrder: seq<u32>)
    requires WellFormed(st) && Walk(contOrder, st.containers) && Walk(groupOrder, st.groups)
    ensures var raw := StreamOf(st, contOrder, groupOrder).groups;
            |raw| == |groupOrder| && forall i :: 0 <= i < |groupOrder| ==>
              groupOrder[i] in st.groups && raw[i] == Keyed(groupOrder[i], st.groups[groupOrder[i]])
  {
    forall i | 0 <= i < |groupOrder| ensures groupOrder[i] in st.groups { assert groupOrder[i] in groupOrder; }
  }

  lemma ContainersOfStream(st: ServerState, contOrder: seq<u32>, groupOrder: seq<u32>)
    requires WellFormed(st) && Walk(contOrder, st.containers) && Walk(groupOrder, st.groups)
    ensures Table(StreamOf(st, contOrder, groupOrder).containers) == st.containers
  {
    forall i | 0 <= i < |contOrder| ensures contOrder[i] in st.containers { assert contOrder[i] in contOrder; }
    ContainersBack(st, contOrder, StreamOf(st, contOrder, groupOrder).containers);
  }

  lemma StateRestored(st: ServerState, contOrder: seq<u32>, groupOrder: seq<u32>, st': ServerState)
    requires WellFormed(st) && Walk(contOrder, st.containers) && Walk(groupOrder, st.groups)
    requires RestoresStream(StreamOf(st, contOrder, groupOrder), st')
    ensures RestoresState(st, st')
  {
    ContainersOfStream(st, contOrder, groupOrder);
    GroupsOfStream(st, contOrder, groupOrder);
    GroupsRestored(st, groupOrder, StreamOf(st, contOrder, groupOrder).groups, st'.groups);
  }

  // ---- What a restart keeps, field by field ----

  // The regions of `was`, rearranged, each as a restart leaves it.
  ghost predicate KeepsRegions(objId: u64, was: seq<StorageRegion>, now: seq<StorageRegion>) {
    |now| == |was| && exists p: seq<nat> :: KeepsRegionsFrom(objId, was, now, p)
  }

  ghost predicate KeepsRegionsFrom(objId: u64, was: seq<StorageRegion>, now: seq<StorageRegion>, p: seq<nat>) {
    && |p| == |now| && Distinct(p)
    && forall i :: 0 <= i < |p| ==> p[i] < |was| && KeepsRegion(objId, was[p[i]], now[i])
  }

  // All of the metadata but one flag, the tags, and the regions.
  ghost predicate KeepsObject(was: Object, now: Object) {
    && now.meta == was.meta.(allDistributed := 0) && now.tags == was.tags
    && KeepsRegions(was.meta.objId, was.regions, now.regions)
  }

  ghost predicate KeepsGroup(was: Group, now: Group) {
    && now.nObj == |now.objects| == |was.objects|
    && forall i :: 0 <= i < |was.objects| ==> KeepsObject(was.objects[i], now.objects[i])
  }

  /** A restart keeps a server: containers, data regions and query blob as they were, the same groups of the same
      objects in order, and of each object everything but the fields a restart sets. */
  ghost predicate KeepsState(was: ServerState, now: ServerState) {
    && now.containers == was.containers && now.dataObjects == was.dataObjects && now.queryBlob == was.queryBlob
    && now.groups.Keys == was.groups.Keys
    && forall k :: k in was.groups ==> KeepsGroup(was.groups[k], now.groups[k])
  }

  lemma RestoredKeepsRegions(objId: u64, was: seq<StorageRegion>, now: seq<StorageRegion>)
    requires Dimensioned(was) && RestoresRegions(objId, was, now)
    ensures KeepsRegions(objId, was, now)
  {
    var p := Rearrangement(now, RestoreRegions(objId, was));
    forall i | 0 <= i < |p| ensures KeepsRegion(objId, was[p[i]], now[i]) { RestoreKeepsRegion(objId, was[p[i]]); }
    assert KeepsRegionsFrom(objId, was, now, p);
  }

  lemma RestoredKeepsState(was: ServerState, now: ServerState)
    requires WellFormed(was) && RestoresState(was, now)
    ensures KeepsState(was, now)
  {
    forall k | k in was.groups ensures KeepsGroup(was.groups[k], now.groups[k]) {
      var g, g' := was.groups[k], now.groups[k];
      forall i | 0 <= i < |g.objects| ensures KeepsObject(g.objects[i], g'.objects[i]) {
        assert Restores(g.objects[i], g'.objects[i]);
        RestoredKeepsRegions(g.objects[i].meta.objId, g.objects[i].regions, g'.objects[i].regions);
      }
    }
  }

  lemma GroupSorted(g: Group, g': Group)
    requires GroupFrom(g, g') && GroupOneNdim(g)
    ensures g' == RestoreGroup(g)
  {
    forall i | 0 <= i < |g.objects| ensures g'.objects[i] == RestoreObject(g.objects[i]) {
      assert Restores(g.objects[i], g'.objects[i]);
    }
    assert g'.objects == RestoreGroup(g).objects;
  }

  /** Where the regions of each object have one dimensionality, the order is that of the stable sort, and the
      restarted server is determined. */
  lemma StateDetermined(st: ServerState, st': ServerState)
    requires RestoresState(st, st') && OneNdim(st)
    ensures st' == RestoreState(st)
  {
    forall k | k in st.groups ensures st'.groups[k] == RestoreGroup(st.groups[k]) {
      GroupSorted(st.groups[k], st'.groups[k]);
    }
    assert st'.groups == RestoreState(st).groups;
  }

  lemma ObjectStaysWellFormed(o: Object, o': Object)
    requires StorableObject(o) && Dimensioned(o.regions) && Restores(o, o')
    ensures StorableObject(o') && Dimensioned(o'.regions)
  {
    var once := RestoreRegions(o.meta.objId, o.regions);
    SameMembers(o'.regions, once);
    SameSize(o'.regions, once);
    forall i | 0 <= i < |o'.regions|
      ensures exists j :: 0 <= j < |o.regions| && once[j] == o'.regions[i]
    {
      assert o'.regions[i] in once;
    }
    forall i | 0 <= i < |o'.regions|
      ensures o'.regions[i].region.ndim <= 4
      ensures o'.regions[i].hist.Some? ==> StorableHist(o'.regions[i].hist.value)
    {
      var j :| 0 <= j < |o.regions| && once[j] == o'.regions[i];
      assert o.regions[j].hist == o'.regions[i].hist && o.regions[j].region.ndim == o'.regions[i].region.ndim;
    }
  }

  lemma SameSize<T>(a: seq<T>, b: seq<T>)
    requires multiset(a) == multiset(b)
    ensures |a| == |b|
  {
    assert |multiset(a)| == |multiset(b)|;
  }

  lemma GroupStaysWellFormed(g: Group, g': Group)
    requires StorableGroup(g) && GroupFrom(g, g')
    requires forall i :: 0 <= i < |g.objects| ==> Dimensioned(g.objects[i].regions)
    ensures StorableGroup(g') && forall i :: 0 <= i < |g'.objects| ==> Dimensioned(g'.objects[i].regions)
  {
    forall i | 0 <= i < |g.objects| ensures StorableObject(g'.objects[i]) && Dimensioned(g'.objects[i].regions) {
      assert Restores(g.objects[i], g'.objects[i]);
      ObjectStaysWellFormed(g.objects[i], g'.objects[i]);
    }
  }

  /** A restarted server is again one that can be checkpointed. */
  lemma RestartedIsWellFormed(st: ServerState, st': ServerState)
    requires WellFormed(st) && RestoresState(st, st')
    ensures WellFormed(st')
  {
    assert st'.groups.Keys == st.groups.Keys;
    assert |st'.groups| == |st'.groups.Keys| && |st.groups| == |st.groups.Keys|;
    forall k | k in st.groups
      ensures StorableGroup(st'.groups[k]) && st'.groups[k].objects != []
      ensures forall i :: 0 <= i < |st'.groups[k].objects| ==> Dimensioned(st'.groups[k].objects[i].regions)
      ensures HashByName(st'.groups[k].objects[0].meta.objName) == k
    {
      assert GroupFrom(st.groups[k], st'.groups[k]);
      GroupStaysWellFormed(st.groups[k], st'.groups[k]);
      assert Restores(st.groups[k].objects[0], st'.groups[k].objects[0]);
    }
  }

  lemma ObjectStaysOneNdim(o: Object, o': Object)
    requires Restores(o, o') && SameNdim(o.regions)
    ensures SameNdim(o'.regions)
  {
    var once := RestoreRegions(o.meta.objId, o.regions);
    SameMembers(o'.regions, once);
    forall i | 0 <= i < |o'.regions|
      ensures exists j :: 0 <= j < |o.regions| && o.regions[j].region.ndim == o'.regions[i].region.ndim
    {
      assert o'.regions[i] in once;
      var j :| 0 <= j < |o.regions| && once[j] == o'.regions[i];
    }
  }

  lemma StaysOneNdim(st: ServerState, st': ServerState)
    requires RestoresState(st, st') && OneNdim(st)
    ensures OneNdim(st')
  {
    forall k | k in st'.groups ensures GroupOneNdim(st'.groups[k]) {
      var g, g' := st.groups[k], st'.groups[k];
      forall i | 0 <= i < |g'.objects| ensures SameNdim(g'.objects[i].regions) {
        assert Restores(g.objects[i], g'.objects[i]);
        ObjectStaysOneNdim(g.objects[i], g'.objects[i]);
      }
    }
  }

  /** A second restart, in whatever order its tables are walked, changes nothing any more. */
  lemma SecondRestartIsFirst(st: ServerState, once: ServerState, twice: ServerState)
    requires RestoresState(st, once) && RestoresState(once, twice) && OneNdim(st)
    ensures twice == once
  {
    StaysOneNdim(st, once);
    StateDetermined(st, once);
    StateDetermined(once, twice);
    RestartSettles(st);
  }

  lemma CheckpointReadBack(st: ServerState, contOrder: seq<u32>, groupOrder: seq<u32>)
    requires WellFormed(st) && Walk(contOrder, st.containers) && Walk(groupOrder, st.groups)
    ensures var out := StreamOf(st, contOrder, groupOrder); PStream(EncStream(out, [])) == Parsed(out, [])
  {
    WalkStorable(st, contOrder, groupOrder);
    StreamBack(StreamOf(st, contOrder, groupOrder), []);
  }

  /** The round trip: whatever order the hash tables are walked in, a restart from a server's
      checkpoint reads it to its last byte and rebuilds that server, restored; and exactly the one
      `RestoreState` gives where the regions of each object have one dimensionality. */
  method CheckpointThenRestart(st: ServerState, contOrder: seq<u32>, groupOrder: seq<u32>)
    returns (r: Result<ServerState>, unread: nat)
    requires WellFormed(st) && Walk(contOrder, st.containers) && Walk(groupOrder, st.groups)
    ensures r.Ok? && RestoresState(st, r.value) && KeepsState(st, r.value) && unread == 0
    ensures OneNdim(st) ==> r.value == RestoreState(st)
  {
    var f := new ByteFile();
    Checkpoint(st, contOrder, groupOrder, f);
    f.SeekSet(0);
    r, unread := RestartFrom(f, st, contOrder, groupOrder);
    RestoredKeepsState(st, r.value);
    if OneNdim(st) { StateDetermined(st, r.value); }
  }

  /** Closing and reopening a server twice, the tables walked in any order each time, gives the server that
      doing so once gives. */
  method CheckpointTwice(st: ServerState, contOrder: seq<u32>, groupOrder: seq<u32>,
                         contOrder': seq<u32>, groupOrder': seq<u32>)
    returns (once: Result<ServerState>, twice: Result<ServerState>)
    requires WellFormed(st) && Walk(contOrder, st.containers) && Walk(groupOrder, st.groups)
    requires Walk(contOrder', st.containers) && Walk(groupOrder', st.groups)
    ensures once.Ok? && twice.Ok? && RestoresState(st, once.value) && RestoresState(once.value, twice.value)
    ensures OneNdim(st) ==> twice == once
  {
    var unread;
    once, unread := CheckpointThenRestart(st, contOrder, groupOrder);
    RestartedIsWellFormed(st, once.value);
    twice, unread := CheckpointThenRestart(once.value, contOrder', groupOrder');
    if OneNdim(st) { SecondRestartIsFirst(st, once.value, twice.value); }
  }

  method RestartFrom(f: ByteFile, ghost st: ServerState, ghost contOrder: seq<u32>, ghost groupOrder: seq<u32>)
    returns (r: Result<ServerState>, unread: nat)
    requires WellFormed(st) && Walk(contOrder, st.containers) && Walk(groupOrder, st.groups)
    requires f.pos == 0 && f.contents == EncStream(StreamOf(st, contOrder, groupOrder), [])
    modifies f
    ensures r.Ok? && RestoresState(st, r.value) && unread == 0
  {
    CheckpointReadBack(st, contOrder, groupOrder);
    r := Restart(f);
    StateRestored(st, contOrder, groupOrder, r.value);
    assert f.Rest() == [];
    unread := if f.pos <= |f.contents| then |f.contents| - f.pos else 0;
  }
}
