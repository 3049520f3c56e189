/** The multi-dataset plugin: write requests kept by dataset name until they are flushed into objects. */
module MultiDatasets {
  import opened Basics
  import opened Bytes
  import opened Options
  import opened RequestMerging

  datatype Dataset = Dataset(writes: seq<Write>, lastEnd: nat, mtype: MType)

  // An object: the bytes of one element, fixed when it is created; its size in elements; what was put in it.
  datatype Stored = Stored(unit: nat, dims: nat, log: seq<Put>)

  ghost predicate Kept(d: Dataset) {
    d.writes != [] && d.lastEnd == d.writes[|d.writes| - 1].range.hi
  }

  // Requests of one type, in order, into an object created for that type.
  ghost predicate Regular(d: Dataset, s: Stored) {
    && !d.mtype.OtherType? && s.unit == ESize(d.mtype)
    && InOrder(d.writes) && Sized(d.writes, ESize(d.mtype))
  }

  // What flushing `d` makes of `s` when its requests come in order.  The last request's type decides how
  // all of them are read.
  ghost function Flushed(d: Dataset, s: Stored): Stored {
    var buf := Packed(AsRead(d.writes, ESize(d.mtype)));
    Stored(s.unit, d.lastEnd, s.log + FlushPuts(Merged(d.writes), buf, s.unit, Walk(d.mtype)))
  }

  /** A flush of regular requests leaves the object as writing them one by one does. */
  lemma FlushWritesRequests(d: Dataset, s: Stored)
    requires Regular(d, s)
    ensures SameContents(Flushed(d, s).log, s.log + Puts(d.writes, s.unit))
  {
    SizedAsRead(d.writes, s.unit);
    MergedWritesTheSame(s.log, d.writes, s.unit);
  }

  // A dataset with one more part, behind the end of its last request, or at 0 if there is none.
  function Extended(datasets: map<string, Dataset>, name: string, part: Part, m: MType): Dataset {
    var d := if name in datasets then datasets[name] else Dataset([], 0, m);
    Dataset(d.writes + [Write(Range(d.lastEnd, d.lastEnd + part.size), part.data)], d.lastEnd + part.size, m)
  }

  // Requests out of order are flushed from ranges that were never filled: nothing is said of them.
  ghost predicate FlushedTo(d: Dataset, s: Stored, r: Stored) {
    InOrder(d.writes) ==> r == Flushed(d, s)
  }

  class Plugin {
    var datasets: map<string, Dataset>
    var objects: map<string, Stored>

    ghost predicate Valid()
      reads this
    {
      && datasets.Keys <= objects.Keys
      && forall name :: name in datasets ==> Kept(datasets[name])
    }

    constructor ()
      ensures Valid() && datasets == map[] && objects == map[]
    {
      datasets := map[];
      objects := map[];
    }

    method Register(name: string, data: bytes, start: nat, end: nat, mtype: MType)
      requires Valid()
      requires start <= end && |data| == ESize(mtype) * (end - start)
      modifies this
      ensures Valid()
      ensures var before := if name in old(datasets) then old(datasets[name].writes) else [];
              datasets == old(datasets)[name := Dataset(before + [Write(Range(start, end), data)], end, mtype)]
      ensures name in old(objects) ==> objects == old(objects)
      ensures name !in old(objects) ==> objects == old(objects)[name := Stored(Unit(mtype), end - start, [])]
    {
      var d := if name in datasets then datasets[name] else Dataset([], 0, mtype);
      if name !in datasets && name !in objects {
        objects := objects[name := Stored(Unit(mtype), end - start, [])];
      }
      datasets := datasets[name := Dataset(d.writes + [Write(Range(start, end), data)], end, mtype)];
    }

    method Append(name: string, data: bytes, size: nat, mtype: MType)
      requires Valid() && |data| == ESize(mtype) * size
      modifies this
      ensures Valid()
      ensures datasets == old(datasets)[name := Extended(old(datasets), name, Part(size, data), mtype)]
      ensures name in old(objects) ==> objects == old(objects)
      ensures name !in old(objects) ==> objects == old(objects)[name := Stored(Unit(mtype), size, [])]
    {
      var start := if name in datasets then datasets[name].lastEnd else 0;
      Register(name, data, start, start + size, mtype);
    }

    method Flush()
      requires Valid()
      modifies this
      ensures Valid() && datasets == map[] && objects.Keys == old(objects.Keys)
      ensures forall name :: name in objects && name !in old(datasets) ==> objects[name] == old(objects[name])
      ensures forall name :: name in old(datasets) ==>
                FlushedTo(old(datasets[name]), old(objects[name]), objects[name])
    {
      var left := datasets.Keys;
      while left != {}
        invariant left <= datasets.Keys
        invariant datasets == old(datasets) && objects.Keys == old(objects.Keys)
        invariant forall name :: name in objects && (name !in datasets || name in left) ==>
                    objects[name] == old(objects[name])
        invariant forall name :: name in datasets && name !in left ==>
                    FlushedTo(datasets[name], old(objects[name]), objects[name])
        decreases |left|
      {
        var name :| name in left;
        assert Kept(datasets[name]);
        var s := FlushDataset(datasets[name], objects[name]);
        objects := objects[name := s];
        left := left - {name};
      }
      datasets := map[];
    }
  }

  method FlushDataset(d: Dataset, s: Stored) returns (r: Stored)
    requires Kept(d)
    ensures FlushedTo(d, s, r)
  {
    var ranges, buf := MergeRequests(d.writes, ESize(d.mtype));
    LoopsAgreeExactlyInOrder(d.writes);
    var log := FlushRanges(ranges[..], buf, s.unit, Walk(d.mtype), s.log);
    r := Stored(s.unit, ranges[ranges.Length - 1].hi, log);
    if InOrder(d.writes) { assert ranges[..] == Merged(d.writes); }
  }

  // ---- Appending ----

  datatype Part = Part(size: nat, data: bytes)

  function End(parts: seq<Part>): nat {
    if parts == [] then 0 else End(parts[..|parts| - 1]) + parts[|parts| - 1].size
  }

  function Joined(parts: seq<Part>): bytes {
    if parts == [] then [] else Joined(parts[..|parts| - 1]) + parts[|parts| - 1].data
  }

  // The requests of a dataset to which these parts have been appended, and nothing else.
  ghost function Appends(parts: seq<Part>): (r: seq<Write>)
    ensures |r| == |parts|
  {
    if parts == [] then []
    else
      var before, last := parts[..|parts| - 1], parts[|parts| - 1];
      Appends(before) + [Write(Range(End(before), End(before) + last.size), last.data)]
  }

  lemma AppendsEnd(parts: seq<Part>)
    ensures parts != [] ==> Appends(parts)[|parts| - 1].range.hi == End(parts)
  {
  }

  ghost predicate Whole(parts: seq<Part>, e: nat) {
    forall i :: 0 <= i < |parts| ==> |parts[i].data| == e * parts[i].size
  }

  lemma {:induction false} AppendsInOrder(parts: seq<Part>)
    ensures InOrder(Appends(parts))
  {
    if parts == [] {
    } else {
      var n := |parts| - 1;
      AppendsInOrder(parts[..n]);
      AppendsEnd(parts[..n]);
      assert Appends(parts)[..n] == Appends(parts[..n]);
      InOrderInit(Appends(parts));
    }
  }

  lemma {:induction false} AppendsSized(parts: seq<Part>, e: nat)
    requires Whole(parts, e)
    ensures Sized(Appends(parts), e)
  {
    if parts == [] {
    } else {
      AppendsSized(parts[..|parts| - 1], e);
    }
  }

  // Appended parts merge into one range over the parts joined together.
  lemma {:induction false} AppendsMerge(parts: seq<Part>)
    requires parts != []
    ensures Merged(Appends(parts)) == [Range(0, End(parts))] && Packed(Appends(parts)) == Joined(parts)
  {
    var n := |parts| - 1;
    assert Appends(parts)[..n] == Appends(parts[..n]);
    if n > 0 {
      AppendsMerge(parts[..n]);
      AppendsEnd(parts[..n]);
    } else {
      MergedOne(Appends(parts));
      assert Joined(parts) == Joined([]) + parts[0].data;
    }
  }

  lemma {:induction false} JoinedLength(parts: seq<Part>, e: nat)
    requires Whole(parts, e)
    ensures |Joined(parts)| == e * End(parts)
  {
    if parts == [] {
    } else {
      var n := |parts| - 1;
      JoinedLength(parts[..n], e);
      Distribute(End(parts[..n]), parts[n].size, e);
    }
  }

  // ---- Runs ----

  datatype Call = RegisterAt(name: string, range: Range, data: bytes) | AppendTo(name: string, part: Part) | FlushAll

  // A call on a dataset of one of the two types a flush names, with data of that type.
  ghost predicate Fits(c: Call, m: MType) {
    match c
    case FlushAll => true
    case AppendTo(_, part) => !m.OtherType? && |part.data| == ESize(m) * part.size
    case RegisterAt(_, range, data) =>
      !m.OtherType? && range.lo <= range.hi && |data| == ESize(m) * (range.hi - range.lo)
  }

  ghost predicate Typed(calls: seq<Call>, typeOf: string -> MType) {
    forall i :: 0 <= i < |calls| && !calls[i].FlushAll? ==> Fits(calls[i], typeOf(calls[i].name))
  }

  ghost function LastEnd(ws: seq<Write>): nat {
    if ws == [] then 0 else ws[|ws| - 1].range.hi
  }

  // The request a call makes of a dataset with requests `ws`.
  ghost function Request(ws: seq<Write>, c: Call): Write
    requires !c.FlushAll?
  {
    if c.RegisterAt? then Write(c.range, c.data)
    else Write(Range(LastEnd(ws), LastEnd(ws) + c.part.size), c.part.data)
  }

  // The requests a dataset has had since the last flush,
  ghost function Pending(calls: seq<Call>, name: string): seq<Write> {
    if calls == [] then []
    else
      var before, c := Pending(calls[..|calls| - 1], name), calls[|calls| - 1];
      if c.FlushAll? then [] else if c.name == name then before + [Request(before, c)] else before
  }

  // what has reached its object: the merged ranges of every flush,
  ghost function Reached(calls: seq<Call>, name: string, e: nat): seq<Put> {
    if calls == [] then []
    else
      var before := calls[..|calls| - 1];
      Reached(before, name, e) + if calls[|calls| - 1].FlushAll? then MergedPuts(Pending(before, name), e) else []
  }

  // and what would have, had every request been written on its own.
  ghost function Written(calls: seq<Call>, name: string, e: nat): seq<Put> {
    if calls == [] then []
    else
      var before := calls[..|calls| - 1];
      Written(before, name, e) + if calls[|calls| - 1].FlushAll? then Puts(Pending(before, name), e) else []
  }

  ghost function MergedPuts(ws: seq<Write>, e: nat): seq<Put> {
    if ws == [] then [] else FlushPuts(Merged(ws), Packed(ws), e, e)
  }

  // At every flush the requests of every dataset are in order.
  ghost predicate FlushedInOrder(calls: seq<Call>) {
    forall i, name :: 0 <= i < |calls| && calls[i].FlushAll? ==> InOrder(Pending(calls[..i], name))
  }

  ghost predicate Named(calls: seq<Call>, name: string) {
    exists i :: 0 <= i < |calls| && !calls[i].FlushAll? && calls[i].name == name
  }

  // The object of a name, if it has been made, holds `log`,
  ghost predicate HoldsLog(objects: map<string, Stored>, name: string, made: bool, unit: nat, log: seq<Put>) {
    && (name in objects <==> made)
    && (name in objects ==> objects[name].unit == unit && objects[name].log == log)
  }

  // and its dataset, if there are any, the requests still to be flushed.
  ghost predicate HoldsRequests(datasets: map<string, Dataset>, name: string, ws: seq<Write>, m: MType) {
    && (name in datasets <==> ws != [])
    && (name in datasets ==> datasets[name] == Dataset(ws, LastEnd(ws), m))
  }

  // The plugin's maps after a run, for one name.
  ghost predicate After(calls: seq<Call>, typeOf: string -> MType, name: string,
                        datasets: map<string, Dataset>, objects: map<string, Stored>) {
    var m := typeOf(name);
    && HoldsLog(objects, name, Named(calls, name), ESize(m), Reached(calls, name, ESize(m)))
    && HoldsRequests(datasets, name, Pending(calls, name), m)
  }

  lemma NamedNext(calls: seq<Call>, c: Call, name: string)
    ensures Named(calls + [c], name) <==> Named(calls, name) || (!c.FlushAll? && c.name == name)
  {
    var all := calls + [c];
    if !c.FlushAll? && c.name == name { assert all[|calls|] == c; }
    if i :| 0 <= i < |calls| && !calls[i].FlushAll? && calls[i].name == name { assert all[i] == calls[i]; }
  }

  ghost function NextPending(ws: seq<Write>, c: Call, name: string): seq<Write> {
    if c.FlushAll? then [] else if c.name == name then ws + [Request(ws, c)] else ws
  }

  lemma RunNext(calls: seq<Call>, c: Call, name: string, e: nat)
    ensures Pending(calls + [c], name) == NextPending(Pending(calls, name), c, name)
    ensures Reached(calls + [c], name, e)
         == Reached(calls, name, e) + if c.FlushAll? then MergedPuts(Pending(calls, name), e) else []
  {
    assert (calls + [c])[..|calls|] == calls;
  }

  lemma TypedInit(calls: seq<Call>, typeOf: string -> MType)
    requires calls != [] && Typed(calls, typeOf)
    ensures Typed(calls[..|calls| - 1], typeOf)
    ensures var c := calls[|calls| - 1]; !c.FlushAll? ==> Fits(c, typeOf(c.name))
  {
  }

  lemma {:induction false} PendingTyped(calls: seq<Call>, typeOf: string -> MType, name: string)
    requires Typed(calls, typeOf)
    ensures Sized(Pending(calls, name), ESize(typeOf(name)))
    ensures Pending(calls, name) != [] ==> !typeOf(name).OtherType?
  {
    if calls == [] {
    } else {
      PendingTyped(calls[..|calls| - 1], typeOf, name);
      TypedInit(calls, typeOf);
    }
  }

  lemma RequestElsewhere(calls: seq<Call>, c: Call, name: string, e: nat)
    requires !c.FlushAll? && c.name != name
    ensures Pending(calls + [c], name) == Pending(calls, name)
    ensures Reached(calls + [c], name, e) == Reached(calls, name, e)
    ensures Named(calls + [c], name) <==> Named(calls, name)
  {
    RunNext(calls, c, name, e);
    NamedNext(calls, c, name);
    assert Reached(calls, name, e) + [] == Reached(calls, name, e);
  }

  lemma RequestHere(calls: seq<Call>, c: Call, e: nat)
    requires !c.FlushAll?
    ensures Pending(calls + [c], c.name) == Pending(calls, c.name) + [Request(Pending(calls, c.name), c)]
    ensures Reached(calls + [c], c.name, e) == Reached(calls, c.name, e) && Named(calls + [c], c.name)
  {
    RunNext(calls, c, c.name, e);
    NamedNext(calls, c, c.name);
    assert Reached(calls, c.name, e) + [] == Reached(calls, c.name, e);
  }

  // A dataset with one more request.
  ghost predicate TakesRequest(ds: map<string, Dataset>, c: Call, m: MType, ds': map<string, Dataset>)
    requires !c.FlushAll?
  {
    var ws := if c.name in ds then ds[c.name].writes else [];
    var w := Request(ws, c);
    ds' == ds[c.name := Dataset(ws + [w], w.range.hi, m)]
  }

  lemma RequestTaken(ds: map<string, Dataset>, c: Call, ws: seq<Write>, m: MType, ds': map<string, Dataset>)
    requires !c.FlushAll? && HoldsRequests(ds, c.name, ws, m) && TakesRequest(ds, c, m, ds')
    ensures HoldsRequests(ds', c.name, ws + [Request(ws, c)], m)
  {
  }

  // The object of a name called upon: there already, or made now.
  lemma LogKept(os: map<string, Stored>, other: string, o: Stored, name: string, made: bool, unit: nat, log: seq<Put>)
    requires HoldsLog(os, name, made, unit, log)
    requires other == name && name !in os ==> o.unit == unit && o.log == log
    ensures HoldsLog(if other in os then os else os[other := o], name, made || other == name, unit, log)
  {
  }

  lemma AfterRequest(calls: seq<Call>, c: Call, typeOf: string -> MType, name: string,
                     ds: map<string, Dataset>, os: map<string, Stored>, o: Stored,
                     ds': map<string, Dataset>, os': map<string, Stored>)
    requires !c.FlushAll? && After(calls, typeOf, name, ds, os)
    requires TakesRequest(ds, c, typeOf(c.name), ds')
    requires os' == if c.name in os then os else os[c.name := o]
    requires o.unit == ESize(typeOf(c.name)) && o.log == []
    requires c.name !in os ==> Reached(calls, c.name, ESize(typeOf(c.name))) == []
    ensures After(calls + [c], typeOf, name, ds', os')
  {
    var m, ws := typeOf(name), Pending(calls, name);
    LogKept(os, c.name, o, name, Named(calls, name), ESize(m), Reached(calls, name, ESize(m)));
    if c.name == name {
      RequestHere(calls, c, ESize(m));
      RequestTaken(ds, c, ws, m, ds');
    } else {
      RequestElsewhere(calls, c, name, ESize(m));
    }
  }

  lemma {:induction false} NothingReached(calls: seq<Call>, name: string, e: nat)
    ensures !Named(calls, name) ==> Reached(calls, name, e) == [] && Pending(calls, name) == []
  {
    if calls == [] {
    } else {
      var n := |calls| - 1;
      NothingReached(calls[..n], name, e);
      NamedNext(calls[..n], calls[n], name);
      assert calls == calls[..n] + [calls[n]];
    }
  }

  // What a flush of requests of one type, in order, makes of an object of that type.
  lemma FlushedIs(ws: seq<Write>, m: MType, s: Stored, r: Stored)
    requires ws != [] && InOrder(ws) && Sized(ws, ESize(m)) && !m.OtherType? && s.unit == ESize(m)
    requires FlushedTo(Dataset(ws, LastEnd(ws), m), s, r)
    ensures r.unit == s.unit && r.log == s.log + MergedPuts(ws, ESize(m))
  {
    SizedAsRead(ws, ESize(m));
  }

  lemma AfterFlush(calls: seq<Call>, typeOf: string -> MType, name: string, ds: map<string, Dataset>,
                   os: map<string, Stored>, os': map<string, Stored>)
    requires Typed(calls, typeOf) && After(calls, typeOf, name, ds, os) && os'.Keys == os.Keys
    requires InOrder(Pending(calls, name)) && ds.Keys <= os.Keys
    requires name in ds ==> FlushedTo(ds[name], os[name], os'[name])
    requires name in os && name !in ds ==> os'[name] == os[name]
    ensures After(calls + [FlushAll], typeOf, name, map[], os')
  {
    var m, ws := typeOf(name), Pending(calls, name);
    RunNext(calls, FlushAll, name, ESize(m));
    NamedNext(calls, FlushAll, name);
    PendingTyped(calls, typeOf, name);
    if name in ds { FlushedIs(ws, m, os[name], os'[name]); }
    assert Reached(calls, name, ESize(m)) + [] == Reached(calls, name, ESize(m));
  }

  // ---- Every run writes what its requests say ----

  lemma {:induction false} SameUnder(a: seq<Put>, b: seq<Put>, more: seq<Put>)
    requires SameContents(a, b)
    ensures SameContents(a + more, b + more)
  {
    if more == [] {
      assert a + more == a && b + more == b;
    } else {
      var n := |more| - 1;
      SameUnder(a, b, more[..n]);
      assert a + more == a + more[..n] + [more[n]] && b + more == b + more[..n] + [more[n]];
      forall k | 0 <= k ensures Value(a + more, k) == Value(b + more, k) {
        ValueAdd(a + more[..n], more[n], k);
        ValueAdd(b + more[..n], more[n], k);
      }
    }
  }

  lemma FlushSame(a: seq<Put>, b: seq<Put>, ws: seq<Write>, e: nat)
    requires SameContents(a, b) && e > 0 && InOrder(ws) && Sized(ws, e)
    ensures SameContents(a + MergedPuts(ws, e), b + Puts(ws, e))
  {
    SameUnder(a, b, Puts(ws, e));
    if ws == [] {
      assert MergedPuts(ws, e) == Puts(ws, e);
    } else {
      MergedWritesTheSame(a, ws, e);
    }
  }

  lemma FlushedInOrderInit(calls: seq<Call>)
    requires calls != [] && FlushedInOrder(calls)
    ensures FlushedInOrder(calls[..|calls| - 1])
  {
    var init := calls[..|calls| - 1];
    forall i, name | 0 <= i < |init| && init[i].FlushAll? ensures InOrder(Pending(init[..i], name)) {
      assert init[..i] == calls[..i];
    }
  }

  /** A run that has the requests in order at every flush leaves in every object what writing the requests
      one by one does. */
  lemma {:induction false} RunWritesRequests(calls: seq<Call>, typeOf: string -> MType, name: string)
    requires Typed(calls, typeOf) && FlushedInOrder(calls) && ESize(typeOf(name)) > 0
    ensures var e := ESize(typeOf(name)); SameContents(Reached(calls, name, e), Written(calls, name, e))
  {
    if calls == [] {
    } else {
      var n, e := |calls| - 1, ESize(typeOf(name));
      var init := calls[..n];
      TypedInit(calls, typeOf);
      FlushedInOrderInit(calls);
      RunWritesRequests(init, typeOf, name);
      if calls[n].FlushAll? {
        assert InOrder(Pending(calls[..n], name));
        PendingTyped(init, typeOf, name);
        FlushSame(Reached(init, name, e), Written(init, name, e), Pending(init, name), e);
      } else {
        SameUnder(Reached(init, name, e), Written(init, name, e), []);
      }
    }
  }

  ghost predicate AfterAll(calls: seq<Call>, typeOf: string -> MType, ds: map<string, Dataset>,
                           os: map<string, Stored>) {
    forall name :: After(calls, typeOf, name, ds, os)
  }

  lemma AllAfterRequest(calls: seq<Call>, c: Call, typeOf: string -> MType,
                        ds: map<string, Dataset>, os: map<string, Stored>, o: Stored,
                        ds': map<string, Dataset>, os': map<string, Stored>)
    requires !c.FlushAll? && AfterAll(calls, typeOf, ds, os) && TakesRequest(ds, c, typeOf(c.name), ds')
    requires os' == if c.name in os then os else os[c.name := o]
    requires o.unit == ESize(typeOf(c.name)) && o.log == []
    ensures AfterAll(calls + [c], typeOf, ds', os')
  {
    NothingReached(calls, c.name, ESize(typeOf(c.name)));
    assert After(calls, typeOf, c.name, ds, os);
    forall name ensures After(calls + [c], typeOf, name, ds', os') {
      AfterRequest(calls, c, typeOf, name, ds, os, o, ds', os');
    }
  }

  lemma AllAfterFlush(calls: seq<Call>, typeOf: string -> MType, ds: map<string, Dataset>,
                      os: map<string, Stored>, os': map<string, Stored>)
    requires Typed(calls, typeOf) && AfterAll(calls, typeOf, ds, os) && os'.Keys == os.Keys && ds.Keys <= os.Keys
    requires forall name :: InOrder(Pending(calls, name))
    requires forall name :: name in ds ==> FlushedTo(ds[name], os[name], os'[name])
    requires forall name :: name in os' && name !in ds ==> os'[name] == os[name]
    ensures AfterAll(calls + [FlushAll], typeOf, map[], os')
  {
    forall name ensures After(calls + [FlushAll], typeOf, name, map[], os') {
      AfterFlush(calls, typeOf, name, ds, os, os');
    }
  }

  // The objects hold what the requests say.
  ghost predicate HoldsWritten(calls: seq<Call>, typeOf: string -> MType, os: map<string, Stored>) {
    forall name :: name in os ==> SameContents(os[name].log, Written(calls, name, ESize(typeOf(name))))
  }

  lemma AfterHoldsWritten(calls: seq<Call>, typeOf: string -> MType, ds: map<string, Dataset>, os: map<string, Stored>)
    requires Typed(calls, typeOf) && FlushedInOrder(calls) && AfterAll(calls, typeOf, ds, os)
    ensures HoldsWritten(calls, typeOf, os)
  {
    forall name | name in os ensures SameContents(os[name].log, Written(calls, name, ESize(typeOf(name)))) {
      assert After(calls, typeOf, name, ds, os) && Named(calls, name);
      RunWritesRequests(calls, typeOf, name);
    }
  }

  lemma RunPrefix(calls: seq<Call>, typeOf: string -> MType, i: nat)
    requires i < |calls| && Typed(calls, typeOf) && FlushedInOrder(calls)
    ensures calls[..i + 1] == calls[..i] + [calls[i]] && Typed(calls[..i], typeOf)
    ensures calls[i].FlushAll? ==> forall name :: InOrder(Pending(calls[..i], name))
    ensures !calls[i].FlushAll? ==> Fits(calls[i], typeOf(calls[i].name))
  {
  }

  /** Every run of registers, appends and flushes, on any datasets, that has the requests in order at every
      flush: an object has the contents its flushed requests give it one by one, and a dataset the requests
      since the last flush. */
  method RunCalls(calls: seq<Call>, typeOf: string -> MType) returns (p: Plugin)
    requires Typed(calls, typeOf) && FlushedInOrder(calls)
    ensures fresh(p) && p.Valid()
    ensures AfterAll(calls, typeOf, p.datasets, p.objects)
    ensures HoldsWritten(calls, typeOf, p.objects)
  {
    p := new Plugin();
    var i := 0;
    while i < |calls|
      invariant 0 <= i <= |calls| && fresh(p) && p.Valid()
      invariant AfterAll(calls[..i], typeOf, p.datasets, p.objects)
    {
      ghost var ds, os, done := p.datasets, p.objects, calls[..i];
      var c := calls[i];
      RunPrefix(calls, typeOf, i);
      if c.FlushAll? {
        p.Flush();
        AllAfterFlush(done, typeOf, ds, os, p.objects);
      } else {
        ghost var o := PassOn(p, c, typeOf(c.name));
        AllAfterRequest(done, c, typeOf, ds, os, o, p.datasets, p.objects);
      }
      i := i + 1;
    }
    assert calls[..|calls|] == calls;
    AfterHoldsWritten(calls, typeOf, p.datasets, p.objects);
  }

  // One call other than a flush; `o` is the object made if there is none yet.
  method PassOn(p: Plugin, c: Call, m: MType) returns (ghost o: Stored)
    requires p.Valid() && !c.FlushAll? && Fits(c, m)
    modifies p
    ensures p.Valid() && TakesRequest(old(p.datasets), c, m, p.datasets)
    ensures p.objects == if c.name in old(p.objects) then old(p.objects) else old(p.objects)[c.name := o]
    ensures o.unit == ESize(m) && o.log == []
  {
    if c.RegisterAt? {
      p.Register(c.name, c.data, c.range.lo, c.range.hi, m);
      o := Stored(Unit(m), c.range.hi - c.range.lo, []);
    } else {
      assert c.name in p.datasets ==> Kept(p.datasets[c.name]);
      p.Append(c.name, c.part.data, c.part.size, m);
      o := Stored(Unit(m), c.part.size, []);
    }
  }

  // ---- A flush in between ----

  ghost predicate OnlyAppends(calls: seq<Call>) {
    forall i :: 0 <= i < |calls| ==> calls[i].AppendTo?
  }

  // The parts appended to a dataset.
  ghost function Parts(calls: seq<Call>, name: string): seq<Part>
    requires OnlyAppends(calls)
  {
    if calls == [] then []
    else
      var before, c := Parts(calls[..|calls| - 1], name), calls[|calls| - 1];
      if c.name == name then before + [c.part] else before
  }

  lemma {:induction false} PartsAdd(a: seq<Call>, b: seq<Call>, name: string)
    requires OnlyAppends(a) && OnlyAppends(b)
    ensures Parts(a + b, name) == Parts(a, name) + Parts(b, name)
  {
    if b == [] {
      assert a + b == a;
    } else {
      var n := |b| - 1;
      PartsAdd(a, b[..n], name);
      assert (a + b)[..|a + b| - 1] == a + b[..n];
    }
  }

  lemma AppendsLast(parts: seq<Part>, all: seq<Part>)
    requires all != [] && all[..|all| - 1] == parts
    ensures var part := all[|all| - 1];
            Appends(all) == Appends(parts) + [Write(Range(End(parts), End(parts) + part.size), part.data)]
  {
  }

  lemma {:induction false} PendingParts(calls: seq<Call>, name: string)
    requires OnlyAppends(calls)
    ensures Pending(calls, name) == Appends(Parts(calls, name))
  {
    if calls == [] {
    } else {
      var n := |calls| - 1;
      PendingParts(calls[..n], name);
      AppendsEnd(Parts(calls[..n], name));
      if calls[n].name == name { AppendsLast(Parts(calls[..n], name), Parts(calls, name)); }
    }
  }

  lemma RunOnStep(a: seq<Call>, b: seq<Call>, c: Call, name: string, e: nat)
    requires c.AppendTo? && Pending(a, name) == Pending(b, name)
    ensures Pending(a + [c], name) == Pending(b + [c], name) && Reached(a + [c], name, e) == Reached(a, name, e)
  {
    RunNext(a, c, name, e);
    RunNext(b, c, name, e);
  }

  // After a flush a dataset starts anew.
  lemma {:induction false} RunOnWithoutFlush(a: seq<Call>, b: seq<Call>, name: string, e: nat)
    requires OnlyAppends(b) && Pending(a, name) == []
    ensures Pending(a + b, name) == Pending(b, name) && Reached(a + b, name, e) == Reached(a, name, e)
  {
    if b == [] {
      assert a + b == a;
    } else {
      var init, c := b[..|b| - 1], b[|b| - 1];
      var x := a + init;
      RunOnWithoutFlush(a, init, name, e);
      RunOnStep(x, init, c, name, e);
      LastOff(a, b);
    }
  }

  // What a flush of appended parts writes: all of them joined, from the start.
  ghost function AsWrite(parts: seq<Part>): seq<Put> {
    if parts == [] then [] else [Put(0, Joined(parts))]
  }

  lemma AppendsAsWrite(parts: seq<Part>, e: nat)
    requires Whole(parts, e)
    ensures MergedPuts(Appends(parts), e) == AsWrite(parts)
  {
    if parts != [] {
      var r := Range(0, End(parts));
      AppendsMerge(parts);
      JoinedLength(parts, e);
      FlushAdd([], r, Joined(parts), e, e);
      assert [] + [r] == [r];
      assert Peek(Joined(parts), 0, e * End(parts)) == Joined(parts);
    }
  }

  /** Appended parts are flushed as one write of everything appended, at the start of the object. */
  lemma AppendsAreOneWrite(parts: seq<Part>, m: MType, s: Stored)
    requires parts != [] && !m.OtherType? && Whole(parts, ESize(m)) && s.unit == ESize(m)
    ensures Flushed(Dataset(Appends(parts), End(parts), m), s)
         == Stored(s.unit, End(parts), s.log + [Put(0, Joined(parts))])
  {
    AppendsSized(parts, ESize(m));
    SizedAsRead(Appends(parts), ESize(m));
    AppendsAsWrite(parts, ESize(m));
  }

  lemma {:induction false} PartsWhole(calls: seq<Call>, typeOf: string -> MType, name: string)
    requires OnlyAppends(calls) && Typed(calls, typeOf)
    ensures Whole(Parts(calls, name), ESize(typeOf(name)))
  {
    if calls == [] {
    } else {
      TypedInit(calls, typeOf);
      PartsWhole(calls[..|calls| - 1], typeOf, name);
    }
  }

  // What a run of appends and one flush adds to an object.
  lemma ReachedByFlush(f: seq<Call>, a: seq<Call>, typeOf: string -> MType, name: string, e: nat)
    requires Pending(f, name) == [] && OnlyAppends(a) && Typed(a, typeOf) && e == ESize(typeOf(name))
    ensures Reached(f + a + [FlushAll], name, e) == Reached(f, name, e) + AsWrite(Parts(a, name))
    ensures Pending(f + a + [FlushAll], name) == []
  {
    RunOnWithoutFlush(f, a, name, e);
    RunNext(f + a, FlushAll, name, e);
    PendingParts(a, name);
    PartsWhole(a, typeOf, name);
    AppendsAsWrite(Parts(a, name), e);
  }

  // What one flush shows at an offset: its own bytes, and beyond them what was there before.
  lemma WriteOver(log: seq<Put>, parts: seq<Part>, k: nat)
    ensures Value(log + AsWrite(parts), k) == if k < |Joined(parts)| then Some(Joined(parts)[k]) else Value(log, k)
  {
    if parts == [] {
      assert log + AsWrite(parts) == log;
    } else {
      ValueAdd(log, Put(0, Joined(parts)), k);
    }
  }

  lemma {:induction false} JoinedAdd(a: seq<Part>, b: seq<Part>)
    ensures Joined(a + b) == Joined(a) + Joined(b)
  {
    if b == [] {
      assert a + b == a;
    } else {
      var n := |b| - 1;
      assert (a + b)[..|a + b| - 1] == a + b[..n];
      JoinedAdd(a, b[..n]);
    }
  }

  // Two flushes, and one flush of both, on top of nothing.
  lemma TwoWritesAsOne(a: seq<Part>, b: seq<Part>)
    ensures SameContents(AsWrite(a) + AsWrite(b), AsWrite(a + b)) <==> Joined(a) == [] || Joined(b) == []
  {
    if Joined(a) != [] && Joined(b) != [] {
      ValuesOfTwo(a, b, |Joined(a) + Joined(b)| - 1);
    } else {
      forall k | 0 <= k ensures Value(AsWrite(a) + AsWrite(b), k) == Value(AsWrite(a + b), k) {
        ValuesOfTwo(a, b, k);
      }
    }
  }

  lemma ValuesOfTwo(a: seq<Part>, b: seq<Part>, k: nat)
    ensures var x, y := Joined(a), Joined(b);
            && Value(AsWrite(a) + AsWrite(b), k)
               == (if k < |y| then Some(y[k]) else if k < |x| then Some(x[k]) else None)
            && Value(AsWrite(a + b), k) == if k < |x + y| then Some((x + y)[k]) else None
  {
    JoinedAdd(a, b);
    WriteOver(AsWrite(a), b, k);
    WriteOver([], a, k);
    WriteOver([], a + b, k);
    assert [] + AsWrite(a) == AsWrite(a) && [] + AsWrite(a + b) == AsWrite(a + b);
  }

  lemma ReachedOnce(a: seq<Call>, typeOf: string -> MType, name: string, e: nat)
    requires OnlyAppends(a) && Typed(a, typeOf) && e == ESize(typeOf(name))
    ensures Reached(a + [FlushAll], name, e) == AsWrite(Parts(a, name)) && Pending(a + [FlushAll], name) == []
  {
    assert [] + a == a;
    ReachedByFlush([], a, typeOf, name, e);
    assert [] + AsWrite(Parts(a, name)) == AsWrite(Parts(a, name));
  }

  // Parts of a type with elements of at least one byte have bytes exactly when they have elements.
  lemma NoBytesNoElements(calls: seq<Call>, typeOf: string -> MType, name: string)
    requires OnlyAppends(calls) && Typed(calls, typeOf) && !typeOf(name).OtherType?
    ensures Joined(Parts(calls, name)) == [] <==> End(Parts(calls, name)) == 0
  {
    PartsWhole(calls, typeOf, name);
    JoinedLength(Parts(calls, name), ESize(typeOf(name)));
  }

  /** A flush between two series of appends makes no difference to an object exactly when one of the series
      gives it no elements: otherwise appending starts at the beginning of the object again. */
  lemma FlushBetweenExactly(a: seq<Call>, b: seq<Call>, typeOf: string -> MType, name: string, e: nat)
    requires OnlyAppends(a) && OnlyAppends(b) && Typed(a, typeOf) && Typed(b, typeOf)
    requires !typeOf(name).OtherType? && e == ESize(typeOf(name))
    ensures SameContents(Reached(a + [FlushAll] + b + [FlushAll], name, e), Reached(a + b + [FlushAll], name, e))
            <==> End(Parts(a, name)) == 0 || End(Parts(b, name)) == 0
  {
    ReachedOnce(a, typeOf, name, e);
    ReachedByFlush(a + [FlushAll], b, typeOf, name, e);
    ReachedOnce(a + b, typeOf, name, e);
    PartsAdd(a, b, name);
    NoBytesNoElements(a, typeOf, name);
    NoBytesNoElements(b, typeOf, name);
    TwoWritesAsOne(Parts(a, name), Parts(b, name));
  }
}
