/** Fetching the data of a selection: the client sends a request, waits for its acknowledgement, then waits
    for chunks that servers push in any order, and copies them out in the order of their sequence ids.
    Callbacks run from the loop that waits, so any number of them may run before that loop looks at its
    counter again. */
module SelectionFetch {
  import opened Options
  import opened Bytes

  datatype Chunk = Chunk(seqId: nat, nhits: nat, data: bytes)

  datatype Phase = WaitAck | WaitData | Done | Failed

  /** `todo` is the counter the wait loop watches, `slots` and `recv` what the query result collects. */
  datatype State = State(phase: Phase, todo: int, acked: bool, slots: seq<Option<bytes>>, recv: nat, nhits: nat,
                         user: bytes)

  datatype Event = Ack | Arrive(c: Chunk) | Observe

  function Join(slots: seq<Option<bytes>>): bytes {
    if slots == [] then []
    else Join(slots[..|slots| - 1]) + (var s := slots[|slots| - 1]; if s.Some? then s.value else [])
  }

  function Clear(n: nat): (r: seq<Option<bytes>>)
    ensures |r| == n && forall i :: 0 <= i < n ==> r[i].None?
  {
    seq(n, i => Option.None)
  }

  // The wait loop leaves only when it sees its counter at zero or below.
  predicate Enabled(s: State, e: Event) {
    match e
    case Ack => true
    case Arrive(c) => c.seqId < |s.slots|
    case Observe => s.todo <= 0 && (s.phase == WaitAck || s.phase == WaitData)
  }

  function Step(s: State, e: Event): (s': State)
    requires Enabled(s, e)
    ensures |s'.slots| == |s.slots|
  {
    match e
    case Ack => s.(acked := true, todo := s.todo - 1)
    case Arrive(c) =>
      var t := s.(slots := s.slots[c.seqId := Option.Some(c.data)], recv := s.recv + c.nhits);
      if t.recv == t.nhits then t.(todo := t.todo - 1) else t
    case Observe =>
      if s.phase == WaitAck then
        if s.acked then s.(phase := WaitData, todo := 1) else s.(phase := Failed)
      else s.(phase := Done, user := Join(s.slots), slots := Clear(|s.slots|), recv := 0)
  }

  // ---- The handlers, on the client's variables ----

  class Fetch {
    var phase: Phase
    var todo: int
    var acked: bool
    var dataArr: array<Option<bytes>>
    var recvDataNhits: nat
    var nhits: nat
    var user: bytes

    constructor (nServer: nat, nhits: nat)
      ensures View() == Start(nServer, nhits, []) && fresh(dataArr)
    {
      phase, todo, acked, recvDataNhits, user := WaitAck, 1, false, 0, [];
      this.nhits := nhits;
      dataArr := new Option<bytes>[nServer](i => Option.None);
    }

    ghost function View(): State
      reads this, dataArr
    {
      State(phase, todo, acked, dataArr[..], recvDataNhits, nhits, user)
    }

    method OnAck()
      modifies this
      ensures dataArr == old(dataArr) && View() == Step(old(View()), Ack)
    {
      acked := true;
      todo := todo - 1;
    }

    method OnChunk(c: Chunk)
      requires c.seqId < dataArr.Length
      modifies this, dataArr
      ensures dataArr == old(dataArr) && View() == Step(old(View()), Arrive(c))
    {
      dataArr[c.seqId] := Option.Some(c.data);
      recvDataNhits := recvDataNhits + c.nhits;
      if recvDataNhits == nhits { todo := todo - 1; }
    }

    method LeaveFirstWait()
      requires todo <= 0 && phase == WaitAck
      modifies this
      ensures dataArr == old(dataArr) && View() == Step(old(View()), Observe)
    {
      if !acked {
        phase := Failed;
      } else {
        todo := 1;
        phase := WaitData;
      }
    }

    // Copy the chunks to the user's buffer and free their slots.
    method LeaveSecondWait()
      requires todo <= 0 && phase == WaitData
      modifies this, dataArr
      ensures dataArr == old(dataArr) && View() == Step(old(View()), Observe)
    {
      user := CopyOut(dataArr);
      recvDataNhits := 0;
      phase := Done;
    }
  }

  lemma JoinNext(slots: seq<Option<bytes>>, i: nat)
    requires i < |slots|
    ensures Join(slots[..i + 1]) == Join(slots[..i]) + if slots[i].Some? then slots[i].value else []
  {
    assert slots[..i + 1][..i] == slots[..i];
  }

  method CopyOut(slots: array<Option<bytes>>) returns (out: bytes)
    modifies slots
    ensures out == Join(old(slots[..])) && slots[..] == Clear(slots.Length)
  {
    ghost var was := slots[..];
    out := [];
    for i := 0 to slots.Length
      invariant forall j :: 0 <= j < i ==> slots[j].None?
      invariant forall j :: i <= j < slots.Length ==> slots[j] == was[j]
      invariant out == Join(was[..i])
    {
      JoinNext(was, i);
      if slots[i].Some? {
        out := out + slots[i].value;
        slots[i] := Option.None;
      }
    }
    assert was[..slots.Length] == was;
  }

  // ---- Runs ----

  function Start(n: nat, nhits: nat, user: bytes): State {
    State(WaitAck, 1, false, Clear(n), 0, nhits, user)
  }

  // The state after a run of events, if each of them was enabled in its turn.
  function Run(s: State, es: seq<Event>): (r: Option<State>)
    ensures r.Some? ==> |r.value.slots| == |s.slots|
  {
    if es == [] then Option.Some(s)
    else
      var t := Run(s, es[..|es| - 1]);
      if t.Some? && Enabled(t.value, es[|es| - 1]) then Option.Some(Step(t.value, es[|es| - 1])) else Option.None
  }

  function Arrivals(es: seq<Event>): seq<Chunk> {
    if es == [] then []
    else
      var e := es[|es| - 1];
      Arrivals(es[..|es| - 1]) + if e.Arrive? then [e.c] else []
  }

  function Hits(cs: seq<Chunk>): nat {
    if cs == [] then 0 else Hits(cs[..|cs| - 1]) + cs[|cs| - 1].nhits
  }

  function Acks(es: seq<Event>): nat {
    if es == [] then 0 else Acks(es[..|es| - 1]) + if es[|es| - 1].Ack? then 1 else 0
  }

  // How often an arrival found the result complete.
  function Signals(es: seq<Event>, nhits: nat): nat {
    if es == [] then 0
    else Signals(es[..|es| - 1], nhits) + if es[|es| - 1].Arrive? && Hits(Arrivals(es)) == nhits then 1 else 0
  }

  // The result was complete when the wait loop first left.
  predicate Early(es: seq<Event>, nhits: nat) {
    es != [] &&
    var before := es[..|es| - 1];
    Early(before, nhits) || (es[|es| - 1].Observe? && Observe !in before && Hits(Arrivals(before)) == nhits)
  }

  function Place(n: nat, cs: seq<Chunk>): (r: seq<Option<bytes>>)
    ensures |r| == n
  {
    if cs == [] then Clear(n)
    else
      var before, c := Place(n, cs[..|cs| - 1]), cs[|cs| - 1];
      if c.seqId < n then before[c.seqId := Option.Some(c.data)] else before
  }

  ghost predicate DistinctIds(cs: seq<Chunk>) {
    forall j, k :: 0 <= j < k < |cs| ==> cs[j].seqId != cs[k].seqId
  }

  /** The chunks of one fetch: one for each of some servers, none of them empty, `nhits` hits in all. */
  ghost predicate Delivery(n: nat, nhits: nat, cs: seq<Chunk>) {
    && (forall i :: 0 <= i < |cs| ==> cs[i].seqId < n && cs[i].nhits > 0)
    && DistinctIds(cs)
    && Hits(cs) <= nhits
  }

  // What holds after every prefix of a run.
  ghost predicate Inv(n: nat, nhits: nat, es: seq<Event>, s: State) {
    var d := Arrivals(es);
    var complete := Hits(d) == nhits;
    && s.nhits == nhits && s.acked == (Acks(es) > 0) && (Early(es, nhits) ==> complete)
    && (s.phase != Done ==> s.slots == Place(n, d) && s.recv == Hits(d))
    && match s.phase
       case WaitAck => Observe !in es && !Early(es, nhits) && s.todo == 1 - Acks(es) - (if complete then 1 else 0)
       case WaitData => Observe in es && Acks(es) == 1 && s.todo == 1 - (if complete && !Early(es, nhits) then 1 else 0)
       case Done => complete && Observe in es && !Early(es, nhits) && Acks(es) == 1 && s.todo == 0
                    && s.user == Join(Place(n, d)) && s.slots == Clear(n) && s.recv == 0
       case Failed => complete && Observe in es && Early(es, nhits)
  }

  lemma {:induction false} HitsGrow(cs: seq<Chunk>, k: nat)
    requires k <= |cs|
    ensures Hits(cs[..k]) <= Hits(cs)
    ensures k < |cs| && (forall i :: 0 <= i < |cs| ==> cs[i].nhits > 0) ==> Hits(cs[..k]) < Hits(cs)
    decreases |cs|
  {
    if k == |cs| {
      assert cs[..k] == cs;
    } else {
      var m := |cs| - 1;
      HitsGrow(cs[..m], k);
      assert cs[..m][..k] == cs[..k];
    }
  }

  // A shorter run delivers the first of the same chunks.
  lemma DeliveryShrinks(n: nat, nhits: nat, cs: seq<Chunk>)
    requires Delivery(n, nhits, cs) && cs != []
    ensures Delivery(n, nhits, cs[..|cs| - 1]) && Hits(cs[..|cs| - 1]) < nhits
  {
    HitsGrow(cs, |cs| - 1);
  }

  // One event more, in each of the summaries of a run.
  lemma OneMore(before: seq<Event>, e: Event, nhits: nat)
    ensures Arrivals(before + [e]) == if e.Arrive? then Arrivals(before) + [e.c] else Arrivals(before)
    ensures Acks(before + [e]) == Acks(before) + if e.Ack? then 1 else 0
    ensures Early(before + [e], nhits) <==>
              Early(before, nhits) || (e.Observe? && Observe !in before && Hits(Arrivals(before)) == nhits)
    ensures Signals(before + [e], nhits)
         == Signals(before, nhits) + if e.Arrive? && Hits(Arrivals(before + [e])) == nhits then 1 else 0
    ensures Observe in before + [e] <==> Observe in before || e.Observe?
  {
    var es := before + [e];
    assert es[..|es| - 1] == before && es[|es| - 1] == e;
    assert Arrivals(before) + [] == Arrivals(before);
  }

  lemma OneMoreChunk(n: nat, d: seq<Chunk>, c: Chunk)
    ensures Hits(d + [c]) == Hits(d) + c.nhits
    ensures Place(n, d + [c]) == if c.seqId < n then Place(n, d)[c.seqId := Option.Some(c.data)] else Place(n, d)
  {
    assert (d + [c])[..|d|] == d;
  }

  lemma StepKeepsInv(n: nat, nhits: nat, before: seq<Event>, e: Event, s: State)
    requires Inv(n, nhits, before, s) && |s.slots| == n && Enabled(s, e)
    requires Acks(before + [e]) <= 1 && (e.Arrive? ==> Hits(Arrivals(before)) < nhits)
    ensures Inv(n, nhits, before + [e], Step(s, e))
  {
    OneMore(before, e, nhits);
    if e.Arrive? { OneMoreChunk(n, Arrivals(before), e.c); }
  }

  lemma RunOneMore(s: State, before: seq<Event>, e: Event)
    requires Run(s, before + [e]).Some?
    ensures Run(s, before).Some? && Enabled(Run(s, before).value, e)
    ensures Run(s, before + [e]).value == Step(Run(s, before).value, e)
  {
    assert (before + [e])[..|before|] == before;
  }

  // Leaving out the last event of a run leaves a delivery; a chunk left out was still missing.
  lemma BeforeDelivery(n: nat, nhits: nat, before: seq<Event>, e: Event)
    requires Delivery(n, nhits, Arrivals(before + [e]))
    ensures Delivery(n, nhits, Arrivals(before)) && (e.Arrive? ==> Hits(Arrivals(before)) < nhits)
  {
    OneMore(before, e, nhits);
    if e.Arrive? {
      var d := Arrivals(before + [e]);
      assert d[..|d| - 1] == Arrivals(before);
      DeliveryShrinks(n, nhits, d);
    }
  }

  /** Every run keeps the invariant, whatever the order of its events. */
  lemma {:induction false} RunKeepsInv(n: nat, nhits: nat, user: bytes, es: seq<Event>)
    requires nhits > 0 && Run(Start(n, nhits, user), es).Some?
    requires Delivery(n, nhits, Arrivals(es)) && Acks(es) <= 1
    ensures Inv(n, nhits, es, Run(Start(n, nhits, user), es).value)
    decreases |es|
  {
    if es == [] {
    } else {
      var before, e := es[..|es| - 1], es[|es| - 1];
      var s := Start(n, nhits, user);
      assert es == before + [e];
      RunOneMore(s, before, e);
      BeforeDelivery(n, nhits, before, e);
      RunKeepsInv(n, nhits, user, before);
      StepKeepsInv(n, nhits, before, e, Run(s, before).value);
    }
  }

  /** Completion is signalled at the arrival that completes the result and at no other. */
  lemma {:induction false} SignalledOnce(n: nat, nhits: nat, es: seq<Event>)
    requires nhits > 0 && Delivery(n, nhits, Arrivals(es))
    ensures Signals(es, nhits) == if Hits(Arrivals(es)) == nhits then 1 else 0
    decreases |es|
  {
    if es == [] {
    } else {
      var before, e := es[..|es| - 1], es[|es| - 1];
      assert es == before + [e];
      BeforeDelivery(n, nhits, before, e);
      OneMore(before, e, nhits);
      SignalledOnce(n, nhits, before);
    }
  }

  // ---- The chunk of a sequence id ----

  function DataOf(cs: seq<Chunk>, id: nat): Option<bytes> {
    if cs == [] then Option.None
    else if cs[|cs| - 1].seqId == id then Option.Some(cs[|cs| - 1].data)
    else DataOf(cs[..|cs| - 1], id)
  }

  lemma {:induction false} PlaceIsData(n: nat, cs: seq<Chunk>, id: nat)
    requires id < n
    ensures Place(n, cs)[id] == DataOf(cs, id)
  {
    if cs == [] {
    } else {
      PlaceIsData(n, cs[..|cs| - 1], id);
    }
  }

  lemma {:induction false} DataOfMember(cs: seq<Chunk>, i: nat)
    requires i < |cs| && DistinctIds(cs)
    ensures DataOf(cs, cs[i].seqId) == Option.Some(cs[i].data)
  {
    if i == |cs| - 1 {
    } else {
      DataOfMember(cs[..|cs| - 1], i);
    }
  }

  lemma {:induction false} DataOfNone(cs: seq<Chunk>, id: nat)
    requires forall i :: 0 <= i < |cs| ==> cs[i].seqId != id
    ensures DataOf(cs, id) == Option.None
  {
    if cs == [] {
    } else {
      DataOfNone(cs[..|cs| - 1], id);
    }
  }

  lemma SameData(cs: seq<Chunk>, ds: seq<Chunk>, id: nat)
    requires DistinctIds(cs) && DistinctIds(ds)
    requires forall c :: c in cs <==> c in ds
    ensures DataOf(cs, id) == DataOf(ds, id)
  {
    if i :| 0 <= i < |cs| && cs[i].seqId == id {
      DataOfMember(cs, i);
      assert cs[i] in ds;
      var j :| 0 <= j < |ds| && ds[j] == cs[i];
      DataOfMember(ds, j);
    } else {
      forall j | 0 <= j < |ds| ensures ds[j].seqId != id {
        assert ds[j] in cs;
      }
      DataOfNone(cs, id);
      DataOfNone(ds, id);
    }
  }

  lemma SamePlaces(n: nat, nhits: nat, cs: seq<Chunk>, ds: seq<Chunk>)
    requires Delivery(n, nhits, cs) && Delivery(n, nhits, ds) && multiset(cs) == multiset(ds)
    ensures Place(n, cs) == Place(n, ds)
  {
    assert forall c :: c in cs <==> c in ds by {
      assert forall c :: (c in cs <==> c in multiset(cs)) && (c in ds <==> c in multiset(ds));
    }
    forall id | 0 <= id < n ensures Place(n, cs)[id] == Place(n, ds)[id] {
      PlaceIsData(n, cs, id);
      PlaceIsData(n, ds, id);
      SameData(cs, ds, id);
    }
    assert Place(n, cs) == Place(n, ds);
  }

  // ---- Where the data of a chunk stands ----

  // How much data the chunks with ids below `id` have.
  function Ahead(cs: seq<Chunk>, id: nat): nat {
    if cs == [] then 0
    else Ahead(cs[..|cs| - 1], id) + if cs[|cs| - 1].seqId < id then |cs[|cs| - 1].data| else 0
  }

  ghost predicate StandsAt(out: bytes, at: nat, d: bytes) {
    at + |d| <= |out| && out[at..at + |d|] == d
  }

  // Byte `k` of the output belongs to chunk `i`.
  ghost predicate Belongs(cs: seq<Chunk>, i: nat, k: nat)
    requires i < |cs|
  {
    Ahead(cs, cs[i].seqId) <= k < Ahead(cs, cs[i].seqId) + |cs[i].data|
  }

  ghost predicate Owned(cs: seq<Chunk>, k: nat) {
    exists i :: 0 <= i < |cs| && Belongs(cs, i, k)
  }

  /** The data of every chunk stands behind that of all chunks with smaller ids, no two in the same place, and
      there is nothing else. */
  ghost predicate Laid(out: bytes, cs: seq<Chunk>) {
    && (forall i :: 0 <= i < |cs| ==> StandsAt(out, Ahead(cs, cs[i].seqId), cs[i].data))
    && (forall i, j :: 0 <= i < |cs| && 0 <= j < |cs| && cs[i].seqId < cs[j].seqId ==>
          Ahead(cs, cs[i].seqId) + |cs[i].data| <= Ahead(cs, cs[j].seqId))
    && forall k: nat :: k < |out| ==> Owned(cs, k)
  }

  function Size(d: Option<bytes>): nat {
    if d.Some? then |d.value| else 0
  }

  lemma {:induction false} AheadNext(cs: seq<Chunk>, id: nat)
    requires DistinctIds(cs)
    ensures Ahead(cs, id + 1) == Ahead(cs, id) + Size(DataOf(cs, id))
  {
    if cs == [] {
    } else {
      var n := |cs| - 1;
      AheadNext(cs[..n], id);
      if cs[n].seqId == id { DataOfNone(cs[..n], id); }
    }
  }

  lemma {:induction false} AheadGrows(cs: seq<Chunk>, a: nat, b: nat)
    requires a <= b
    ensures Ahead(cs, a) <= Ahead(cs, b)
  {
    if cs == [] {
    } else {
      AheadGrows(cs[..|cs| - 1], a, b);
    }
  }

  lemma {:induction false} AheadOfFirst(cs: seq<Chunk>)
    ensures Ahead(cs, 0) == 0
  {
    if cs == [] {
    } else {
      AheadOfFirst(cs[..|cs| - 1]);
    }
  }

  // The first `id` slots hold what is ahead of chunk `id`.
  lemma {:induction false} JoinedAhead(n: nat, cs: seq<Chunk>, id: nat)
    requires DistinctIds(cs) && id <= n
    ensures |Join(Place(n, cs)[..id])| == Ahead(cs, id)
  {
    if id == 0 {
      AheadOfFirst(cs);
    } else {
      JoinedAhead(n, cs, id - 1);
      JoinNext(Place(n, cs), id - 1);
      PlaceIsData(n, cs, id - 1);
      AheadNext(cs, id - 1);
    }
  }

  lemma {:induction false} JoinPrefix(slots: seq<Option<bytes>>, i: nat)
    requires i <= |slots|
    ensures Join(slots[..i]) <= Join(slots)
    decreases |slots|
  {
    if i == |slots| {
      assert slots[..i] == slots;
    } else {
      var init := slots[..|slots| - 1];
      JoinPrefix(init, i);
      assert init[..i] == slots[..i];
    }
  }

  lemma SlotStands(slots: seq<Option<bytes>>, i: nat)
    requires i < |slots| && slots[i].Some?
    ensures StandsAt(Join(slots), |Join(slots[..i])|, slots[i].value)
  {
    JoinNext(slots, i);
    JoinPrefix(slots, i + 1);
    var at, d := |Join(slots[..i])|, slots[i].value;
    assert Join(slots)[at..at + |d|] == Join(slots[..i + 1])[at..at + |d|];
  }

  lemma ChunkStands(n: nat, cs: seq<Chunk>, i: nat)
    requires DistinctIds(cs) && i < |cs| && cs[i].seqId < n
    ensures StandsAt(Join(Place(n, cs)), Ahead(cs, cs[i].seqId), cs[i].data)
  {
    var id := cs[i].seqId;
    PlaceIsData(n, cs, id);
    DataOfMember(cs, i);
    JoinedAhead(n, cs, id);
    SlotStands(Place(n, cs), id);
  }

  lemma InTurn(cs: seq<Chunk>, i: nat, id: nat)
    requires DistinctIds(cs) && i < |cs| && cs[i].seqId < id
    ensures Ahead(cs, cs[i].seqId) + |cs[i].data| <= Ahead(cs, id)
  {
    DataOfMember(cs, i);
    AheadNext(cs, cs[i].seqId);
    AheadGrows(cs, cs[i].seqId + 1, id);
  }

  // The chunk that a byte among the first `id` slots belongs to.
  lemma {:induction false} Owner(cs: seq<Chunk>, id: nat, k: nat) returns (i: nat)
    requires DistinctIds(cs) && k < Ahead(cs, id)
    ensures i < |cs| && Belongs(cs, i, k)
    decreases id
  {
    AheadOfFirst(cs);
    if k < Ahead(cs, id - 1) {
      i := Owner(cs, id - 1, k);
    } else {
      AheadNext(cs, id - 1);
      i := Holder(cs, id - 1);
    }
  }

  lemma Holder(cs: seq<Chunk>, id: nat) returns (i: nat)
    requires DistinctIds(cs) && DataOf(cs, id).Some?
    ensures i < |cs| && cs[i].seqId == id && cs[i].data == DataOf(cs, id).value
  {
    if forall j :: 0 <= j < |cs| ==> cs[j].seqId != id { DataOfNone(cs, id); }
    i :| i < |cs| && cs[i].seqId == id;
    DataOfMember(cs, i);
  }

  lemma JoinIsLaid(n: nat, nhits: nat, cs: seq<Chunk>)
    requires Delivery(n, nhits, cs)
    ensures Laid(Join(Place(n, cs)), cs)
  {
    var out := Join(Place(n, cs));
    forall i | 0 <= i < |cs| ensures StandsAt(out, Ahead(cs, cs[i].seqId), cs[i].data) { ChunkStands(n, cs, i); }
    forall i, j | 0 <= i < |cs| && 0 <= j < |cs| && cs[i].seqId < cs[j].seqId
      ensures Ahead(cs, cs[i].seqId) + |cs[i].data| <= Ahead(cs, cs[j].seqId)
    {
      InTurn(cs, i, cs[j].seqId);
    }
    JoinOwned(n, cs);
  }

  lemma JoinOwned(n: nat, cs: seq<Chunk>)
    requires DistinctIds(cs)
    ensures forall k: nat :: k < |Join(Place(n, cs))| ==> Owned(cs, k)
  {
    JoinedAhead(n, cs, n);
    assert Place(n, cs)[..n] == Place(n, cs);
    forall k: nat | k < |Join(Place(n, cs))| ensures Owned(cs, k) {
      var i := Owner(cs, n, k);
    }
  }

  // ---- What a finished fetch has done ----

  // All messages are in, and the wait loop cannot leave any more.
  predicate Settled(s: State, es: seq<Event>, nhits: nat) {
    Hits(Arrivals(es)) == nhits && Acks(es) == 1 && !Enabled(s, Observe)
  }

  /** A fetch ends with its data exactly when the result was not yet complete as the client left its first
      wait.  Otherwise it has given up, or it waits for a signal that has already been spent. */
  lemma FetchEndsExactly(n: nat, nhits: nat, user: bytes, es: seq<Event>)
    requires nhits > 0 && Run(Start(n, nhits, user), es).Some?
    requires Delivery(n, nhits, Arrivals(es)) && Acks(es) <= 1
    requires Settled(Run(Start(n, nhits, user), es).value, es, nhits)
    ensures var s := Run(Start(n, nhits, user), es).value;
            && (s.phase == Done <==> !Early(es, nhits))
            && (s.phase == Done ==>
                  && Laid(s.user, Arrivals(es))
                  && s.(phase := WaitAck, todo := 1, acked := false) == Start(n, nhits, s.user))
            && (s.phase != Done ==> s.phase == Failed || (s.phase == WaitData && s.todo == 1))
            && Signals(es, nhits) == 1
  {
    RunKeepsInv(n, nhits, user, es);
    SignalledOnce(n, nhits, es);
    JoinIsLaid(n, nhits, Arrivals(es));
  }

  /** Two fetches that end with the same chunks, in whatever order they arrived, give the user the same bytes. */
  lemma OrderDoesNotMatter(n: nat, nhits: nat, user: bytes, es: seq<Event>, fs: seq<Event>)
    requires nhits > 0 && Run(Start(n, nhits, user), es).Some? && Run(Start(n, nhits, user), fs).Some?
    requires Delivery(n, nhits, Arrivals(es)) && Delivery(n, nhits, Arrivals(fs)) && Acks(es) <= 1 && Acks(fs) <= 1
    requires multiset(Arrivals(es)) == multiset(Arrivals(fs))
    ensures var s, t := Run(Start(n, nhits, user), es).value, Run(Start(n, nhits, user), fs).value;
            s.phase == Done && t.phase == Done ==> s.user == t.user
  {
    RunKeepsInv(n, nhits, user, es);
    RunKeepsInv(n, nhits, user, fs);
    SamePlaces(n, nhits, Arrivals(es), Arrivals(fs));
  }

  /** The losing race, for any chunk that is the whole result: it arrives before the acknowledgement is
      looked at, and the client then waits for good, with the chunk in its slot. */
  lemma LateLookHangs(n: nat, c: Chunk)
    requires c.seqId < n && c.nhits > 0
    ensures var es := [Ack, Arrive(c), Observe];
            var r := Run(Start(n, c.nhits, []), es);
            r.Some? && r.value.phase == WaitData && r.value.todo == 1 && r.value.slots[c.seqId] == Option.Some(c.data)
  {
    var s := Start(n, c.nhits, []);
    var a, b, d: seq<Event> := [Ack], [Ack, Arrive(c)], [Ack, Arrive(c), Observe];
    assert a[..0] == [] && b[..1] == a && d[..2] == b;
    assert Run(s, []) == Option.Some(s);
    assert Run(s, a) == Option.Some(Step(s, Ack));
    assert Run(s, b) == Option.Some(Step(Step(s, Ack), Arrive(c)));
  }
}
