/** Merging the write requests of one dataset: neighbouring ranges become one, over one packed buffer. */
module RequestMerging {
  import opened Basics
  import opened Bytes
  import opened Options

  // Elements `lo` to below `hi` of a dataset, and the bytes to be written there.
  datatype Range = Range(lo: nat, hi: nat)

  datatype Write = Write(range: Range, data: bytes)

  // ---- An object is what has been put into it, the latest first ----

  datatype Put = Put(at: nat, data: bytes)

  function Value(log: seq<Put>, k: nat): Option<byte> {
    if log == [] then None
    else
      var p := log[|log| - 1];
      if p.at <= k < p.at + |p.data| then Some(p.data[k - p.at]) else Value(log[..|log| - 1], k)
  }

  ghost predicate SameContents(a: seq<Put>, b: seq<Put>) {
    forall k :: 0 <= k ==> Value(a, k) == Value(b, k)
  }

  lemma ValueAdd(log: seq<Put>, p: Put, k: nat)
    ensures Value(log + [p], k) == if p.at <= k < p.at + |p.data| then Some(p.data[k - p.at]) else Value(log, k)
  {
    assert (log + [p])[..|log|] == log;
  }

  // ---- What the requests mean: each written on its own, in order ----

  ghost predicate Sized(ws: seq<Write>, esize: nat) {
    forall i :: 0 <= i < |ws| ==>
      ws[i].range.lo <= ws[i].range.hi && |ws[i].data| == esize * (ws[i].range.hi - ws[i].range.lo)
  }

  // No request starts before the end of the one before it.
  ghost predicate InOrder(ws: seq<Write>) {
    forall i :: 0 <= i < |ws| - 1 ==> ws[i].range.hi <= ws[i + 1].range.lo
  }

  function Puts(ws: seq<Write>, esize: nat): (r: seq<Put>)
    ensures |r| == |ws|
  {
    if ws == [] then []
    else Puts(ws[..|ws| - 1], esize) + [Put(esize * ws[|ws| - 1].range.lo, ws[|ws| - 1].data)]
  }

  // ---- Merging ----

  // The first loop: every request that starts where the previous one ended saves a range.
  function Count(ws: seq<Write>): int {
    if |ws| <= 1 then |ws|
    else Count(ws[..|ws| - 1]) + if ws[|ws| - 2].range.hi == ws[|ws| - 1].range.lo then 0 else 1
  }

  // The second loop: a request that starts beyond the end of the previous one opens a range, any other
  // moves the end of the last range to its own.
  function Merged(ws: seq<Write>): (r: seq<Range>)
    ensures |r| > 0 <==> |ws| > 0
    ensures ws != [] ==> r[|r| - 1].hi == ws[|ws| - 1].range.hi
  {
    if ws == [] then []
    else if |ws| == 1 then [ws[0].range]
    else
      var r, w := Merged(ws[..|ws| - 1]), ws[|ws| - 1].range;
      if ws[|ws| - 2].range.hi < w.lo then r + [w] else r[..|r| - 1] + [Range(r[|r| - 1].lo, w.hi)]
  }

  function Packed(ws: seq<Write>): bytes {
    if ws == [] then [] else Packed(ws[..|ws| - 1]) + ws[|ws| - 1].data
  }

  lemma InOrderInit(ws: seq<Write>)
    requires ws != []
    ensures InOrder(ws) <==>
              InOrder(ws[..|ws| - 1]) && (|ws| > 1 ==> ws[|ws| - 2].range.hi <= ws[|ws| - 1].range.lo)
  {
    var n := |ws| - 1;
    if InOrder(ws[..n]) && (n > 0 ==> ws[n - 1].range.hi <= ws[n].range.lo) {
      forall i | 0 <= i < n ensures ws[i].range.hi <= ws[i + 1].range.lo {
        if i < n - 1 { assert ws[..n][i].range.hi <= ws[..n][i + 1].range.lo; }
      }
    }
  }

  /** The two loops agree on the number of ranges exactly when the requests come in order; otherwise the
      first counts ranges the second never fills. */
  lemma {:induction false} LoopsAgreeExactlyInOrder(ws: seq<Write>)
    ensures |Merged(ws)| <= Count(ws)
    ensures |Merged(ws)| == Count(ws) <==> InOrder(ws)
  {
    if ws == [] {
    } else {
      InOrderInit(ws);
      LoopsAgreeExactlyInOrder(ws[..|ws| - 1]);
    }
  }

  // A request that opens a range.
  predicate Opens(ws: seq<Write>, i: nat)
    requires i < |ws|
  {
    i == 0 || ws[i - 1].range.hi < ws[i].range.lo
  }

  // Where the stretch of requests ends that begins with opener `j`.
  function Until(ws: seq<Write>, starts: seq<nat>, j: nat): nat {
    if j + 1 < |starts| then starts[j + 1] else |ws|
  }

  // The openers, in order.
  ghost predicate Openers(ws: seq<Write>, starts: seq<nat>) {
    && (forall j, k :: 0 <= j < k < |starts| ==> starts[j] < starts[k])
    && (forall j :: 0 <= j < |starts| ==> starts[j] < |ws|)
    && forall i: nat :: i < |ws| ==> (Opens(ws, i) <==> i in starts)
  }

  // Range `j` reaches from the start of its opener to the end of the last request before the next one.
  ghost predicate Spans(ws: seq<Write>, starts: seq<nat>, r: seq<Range>, j: nat)
    requires j < |starts| && j < |r|
  {
    && starts[j] < Until(ws, starts, j) <= |ws|
    && r[j] == Range(ws[starts[j]].range.lo, ws[Until(ws, starts, j) - 1].range.hi)
  }

  ghost predicate Stretches(ws: seq<Write>, starts: seq<nat>, r: seq<Range>) {
    && Openers(ws, starts) && |r| == |starts|
    && forall j: nat :: j < |starts| ==> Spans(ws, starts, r, j)
  }

  lemma OpenersOn(ws: seq<Write>, starts: seq<nat>)
    requires ws != [] && Openers(ws[..|ws| - 1], starts)
    ensures Openers(ws, if Opens(ws, |ws| - 1) then starts + [|ws| - 1] else starts)
  {
    var n, init := |ws| - 1, ws[..|ws| - 1];
    var next := if Opens(ws, n) then starts + [n] else starts;
    forall i: nat | i < |ws| ensures Opens(ws, i) <==> i in next {
      if i < n { assert Opens(init, i) == Opens(ws, i); }
    }
  }

  lemma StretchesNew(ws: seq<Write>, starts: seq<nat>, r: seq<Range>)
    requires ws != [] && Stretches(ws[..|ws| - 1], starts, r) && Opens(ws, |ws| - 1)
    ensures Stretches(ws, starts + [|ws| - 1], r + [ws[|ws| - 1].range])
  {
    var n := |ws| - 1;
    OpenersOn(ws, starts);
    forall j: nat | j < |starts| ensures Spans(ws, starts + [n], r + [ws[n].range], j) {
      SpansStill(ws, starts, r, j);
    }
    assert Spans(ws, starts + [n], r + [ws[n].range], |starts|);
  }

  lemma SpansStill(ws: seq<Write>, starts: seq<nat>, r: seq<Range>, j: nat)
    requires ws != [] && |r| == |starts| && j < |starts| && Spans(ws[..|ws| - 1], starts, r, j)
    ensures Spans(ws, starts + [|ws| - 1], r + [ws[|ws| - 1].range], j)
  {
    var n := |ws| - 1;
    assert Until(ws, starts + [n], j) == Until(ws[..n], starts, j);
  }

  lemma StretchesOn(ws: seq<Write>, starts: seq<nat>, r: seq<Range>)
    requires |ws| > 1 && Stretches(ws[..|ws| - 1], starts, r) && !Opens(ws, |ws| - 1) && starts != []
    ensures Stretches(ws, starts, r[..|r| - 1] + [Range(r[|r| - 1].lo, ws[|ws| - 1].range.hi)])
  {
    var n := |ws| - 1;
    var next := r[..|r| - 1] + [Range(r[|r| - 1].lo, ws[n].range.hi)];
    OpenersOn(ws, starts);
    forall j: nat | j < |starts| ensures Spans(ws, starts, next, j) { assert Spans(ws[..n], starts, r, j); }
  }

  /** For all requests, in order or not: merging gives one range for each stretch of requests that do not leave a
      gap, from the start of the first to the end of the last. */
  lemma {:induction false} MergedIsStretches(ws: seq<Write>) returns (starts: seq<nat>)
    ensures Stretches(ws, starts, Merged(ws))
  {
    var n := |ws| - 1;
    if ws == [] {
      starts := [];
    } else {
      var before := MergedIsStretches(ws[..n]);
      if Opens(ws, n) {
        StretchesNew(ws, before, Merged(ws[..n]));
        starts := before + [n];
      } else {
        assert Opens(ws[..n], 0);
        StretchesOn(ws, before, Merged(ws[..n]));
        starts := before;
      }
    }
  }

  ghost function Joints(ws: seq<Write>): set<nat> {
    set i: nat | 0 < i < |ws| && ws[i - 1].range.hi == ws[i].range.lo
  }

  /** The first loop counts a range for each request, less the ones that start where the one before ended. */
  lemma {:induction false} CountIs(ws: seq<Write>)
    ensures Count(ws) == |ws| - |Joints(ws)|
  {
    if |ws| <= 1 {
      assert Joints(ws) == {};
    } else {
      var n := |ws| - 1;
      CountIs(ws[..n]);
      if ws[n - 1].range.hi == ws[n].range.lo {
        assert Joints(ws) == Joints(ws[..n]) + {n};
      } else {
        assert Joints(ws) == Joints(ws[..n]);
      }
    }
  }

  // ---- Writing the merged ranges ----

  function Length(rs: seq<Range>): int {
    if rs == [] then 0 else Length(rs[..|rs| - 1]) + rs[|rs| - 1].hi - rs[|rs| - 1].lo
  }

  // `n` bytes of a buffer, or zeros where it would be read beyond its end.
  function Peek(buf: bytes, at: int, n: int): bytes {
    if 0 <= at && 0 <= n && at + n <= |buf| then buf[at..at + n] else seq(if n < 0 then 0 else n, i => 0)
  }

  // The flush: elements are `unit` bytes in the object, and the pointer advances `walk` bytes an element.
  function FlushPuts(rs: seq<Range>, buf: bytes, unit: nat, walk: nat): (r: seq<Put>)
    ensures |r| == |rs|
  {
    if rs == [] then []
    else
      var before, r := rs[..|rs| - 1], rs[|rs| - 1];
      FlushPuts(before, buf, unit, walk)
      + [Put(unit * r.lo, Peek(buf, walk * Length(before), unit * (r.hi - r.lo)))]
  }

  // ---- Merging bytes: ranges in bytes, one byte an element ----

  // Bytes of the packed buffer for each range.
  function BytePuts(rs: seq<Range>, buf: bytes): (r: seq<Put>)
    ensures |r| == |rs|
  {
    if rs == [] then []
    else
      var before, r := rs[..|rs| - 1], rs[|rs| - 1];
      BytePuts(before, buf) + [Put(r.lo, Peek(buf, Length(before), r.hi - r.lo))]
  }

  ghost predicate Forward(rs: seq<Range>) {
    forall j :: 0 <= j < |rs| ==> rs[j].lo <= rs[j].hi
  }

  ghost predicate ByteSized(ws: seq<Write>) {
    forall i :: 0 <= i < |ws| ==> ws[i].range.lo <= ws[i].range.hi && |ws[i].data| == ws[i].range.hi - ws[i].range.lo
  }

  function ByteWrites(ws: seq<Write>): (r: seq<Put>)
    ensures |r| == |ws|
  {
    if ws == [] then [] else ByteWrites(ws[..|ws| - 1]) + [Put(ws[|ws| - 1].range.lo, ws[|ws| - 1].data)]
  }

  lemma LengthAdd(rs: seq<Range>, r: Range)
    ensures Length(rs + [r]) == Length(rs) + r.hi - r.lo
  {
    assert (rs + [r])[..|rs|] == rs;
  }

  lemma {:induction false} LengthNonneg(rs: seq<Range>)
    requires Forward(rs)
    ensures Length(rs) >= 0
  {
    if rs == [] {
    } else {
      LengthNonneg(rs[..|rs| - 1]);
    }
  }

  lemma BytePutsAdd(rs: seq<Range>, r: Range, buf: bytes)
    ensures BytePuts(rs + [r], buf) == BytePuts(rs, buf) + [Put(r.lo, Peek(buf, Length(rs), r.hi - r.lo))]
  {
    assert (rs + [r])[..|rs|] == rs;
  }

  lemma PeekPrefix(buf: bytes, more: bytes, at: int, n: int)
    requires at + n <= |buf| && 0 <= at && 0 <= n
    ensures Peek(buf + more, at, n) == Peek(buf, at, n)
  {
    assert (buf + more)[at..at + n] == buf[at..at + n];
  }

  // Ranges that fit in a buffer do not see what is added behind it.
  lemma {:induction false} BytePutsPrefix(rs: seq<Range>, buf: bytes, more: bytes)
    requires Forward(rs) && Length(rs) <= |buf|
    ensures BytePuts(rs, buf + more) == BytePuts(rs, buf)
  {
    if rs == [] {
    } else {
      var n := |rs| - 1;
      LengthNonneg(rs[..n]);
      BytePutsPrefix(rs[..n], buf, more);
      PeekPrefix(buf, more, Length(rs[..n]), rs[n].hi - rs[n].lo);
    }
  }

  // Each request adds its own length to the merged ranges, whether it opens one or extends the last.
  lemma {:induction false} MergedStep(ws: seq<Write>)
    requires |ws| > 1 && InOrder(ws) && ws[|ws| - 1].range.lo <= ws[|ws| - 1].range.hi
    requires Forward(Merged(ws[..|ws| - 1]))
    ensures Forward(Merged(ws))
    ensures Length(Merged(ws)) == Length(Merged(ws[..|ws| - 1])) + ws[|ws| - 1].range.hi - ws[|ws| - 1].range.lo
  {
    var n := |ws| - 1;
    var r, w := Merged(ws[..n]), ws[n].range;
    var m := |r| - 1;
    LengthAdd(r, w);
    LengthAdd(r[..m], Range(r[m].lo, w.hi));
  }

  lemma MergedOne(ws: seq<Write>)
    requires |ws| == 1
    ensures Merged(ws) == [] + [ws[0].range] && Length(Merged(ws)) == ws[0].range.hi - ws[0].range.lo
    ensures Packed(ws) == ws[0].data
  {
    LengthAdd([], ws[0].range);
    assert [] + [ws[0].range] == [ws[0].range];
    assert ws[..0] == [] && Packed([]) + ws[0].data == ws[0].data;
  }

  // Merged ranges of ordered requests run forward, and their lengths add up to the packed data.
  lemma {:induction false} MergedLength(ws: seq<Write>)
    requires InOrder(ws) && ByteSized(ws)
    ensures Forward(Merged(ws)) && |Packed(ws)| == Length(Merged(ws))
  {
    if |ws| == 1 {
      MergedOne(ws);
    } else if |ws| > 1 {
      InOrderInit(ws);
      MergedLength(ws[..|ws| - 1]);
      MergedStep(ws);
    }
  }

  // The same bytes, put as one stretch or as two.
  lemma OneStretch(log: seq<Put>, at: nat, a: bytes, b: bytes, k: nat)
    ensures Value(log + [Put(at, a + b)], k) == Value(log + [Put(at, a)] + [Put(at + |a|, b)], k)
  {
    ValueAdd(log, Put(at, a + b), k);
    ValueAdd(log, Put(at, a), k);
    ValueAdd(log + [Put(at, a)], Put(at + |a|, b), k);
  }

  // One more request that opens a range of its own.
  lemma NewRange(o: seq<Put>, r: seq<Range>, w: Write, buf: bytes)
    requires Forward(r) && Length(r) == |buf| && w.range.lo <= w.range.hi && |w.data| == w.range.hi - w.range.lo
    ensures o + BytePuts(r + [w.range], buf + w.data) == o + BytePuts(r, buf) + [Put(w.range.lo, w.data)]
  {
    BytePutsAdd(r, w.range, buf + w.data);
    BytePutsPrefix(r, buf, w.data);
    assert Peek(buf + w.data, |buf|, |w.data|) == w.data;
    Assoc(o, BytePuts(r, buf), [Put(w.range.lo, w.data)]);
  }

  // The last range, put from the end of the buffer.
  lemma LastPut(o: seq<Put>, before: seq<Range>, last: Range, buf: bytes)
    requires Forward(before) && last.lo <= last.hi && Length(before) + (last.hi - last.lo) == |buf|
    ensures 0 <= Length(before)
    ensures o + BytePuts(before + [last], buf) == o + BytePuts(before, buf) + [Put(last.lo, buf[Length(before)..])]
  {
    LengthNonneg(before);
    BytePutsAdd(before, last, buf);
    assert Peek(buf, Length(before), last.hi - last.lo) == buf[Length(before)..];
    Assoc(o, BytePuts(before, buf), [Put(last.lo, buf[Length(before)..])]);
  }

  // One more request that runs on from the last range.
  lemma RunOn(o: seq<Put>, before: seq<Range>, last: Range, w: Write, buf: bytes, k: nat)
    requires Forward(before) && last.lo <= last.hi && Length(before + [last]) == |buf|
    requires w.range.lo == last.hi <= w.range.hi && |w.data| == w.range.hi - w.range.lo
    ensures Value(o + BytePuts(before + [Range(last.lo, w.range.hi)], buf + w.data), k)
         == Value(o + BytePuts(before + [last], buf) + [Put(w.range.lo, w.data)], k)
  {
    LengthAdd(before, last);
    LastPut(o, before, last, buf);
    LastPut(o, before, Range(last.lo, w.range.hi), buf + w.data);
    BytePutsPrefix(before, buf, w.data);
    var a := buf[Length(before)..];
    assert (buf + w.data)[Length(before)..] == a + w.data;
    OneStretch(o + BytePuts(before, buf), last.lo, a, w.data, k);
  }

  // The value at an offset depends on what lies under the last put only through that value.
  lemma ValueUnder(a: seq<Put>, b: seq<Put>, p: Put, k: nat)
    requires Value(a, k) == Value(b, k)
    ensures Value(a + [p], k) == Value(b + [p], k)
  {
    ValueAdd(a, p, k);
    ValueAdd(b, p, k);
  }

  // The last request, merged, writes what it writes on its own after the others, merged.
  lemma LastRequest(o: seq<Put>, ws: seq<Write>, k: nat)
    requires ws != [] && InOrder(ws) && ByteSized(ws)
    ensures var n := |ws| - 1;
            Value(o + BytePuts(Merged(ws), Packed(ws)), k)
            == Value(o + BytePuts(Merged(ws[..n]), Packed(ws[..n])) + [Put(ws[n].range.lo, ws[n].data)], k)
  {
    var n := |ws| - 1;
    InOrderInit(ws);
    MergedLength(ws[..n]);
    var r, w, buf := Merged(ws[..n]), ws[n], Packed(ws[..n]);
    if n == 0 {
      MergedOne(ws);
      NewRange(o, r, w, buf);
    } else if ws[n - 1].range.hi < w.range.lo {
      NewRange(o, r, w, buf);
    } else {
      var m := |r| - 1;
      assert r == r[..m] + [r[m]];
      RunOn(o, r[..m], r[m], w, buf, k);
    }
  }

  lemma {:induction false} MergedBytesTheSame(o: seq<Put>, ws: seq<Write>, k: nat)
    requires InOrder(ws) && ByteSized(ws)
    ensures Value(o + BytePuts(Merged(ws), Packed(ws)), k) == Value(o + ByteWrites(ws), k)
  {
    if ws == [] {
    } else {
      var n := |ws| - 1;
      InOrderInit(ws);
      MergedBytesTheSame(o, ws[..n], k);
      LastRequest(o, ws, k);
      var p := Put(ws[n].range.lo, ws[n].data);
      ValueUnder(o + BytePuts(Merged(ws[..n]), Packed(ws[..n])), o + ByteWrites(ws[..n]), p, k);
      Assoc(o, ByteWrites(ws[..n]), [p]);
    }
  }

  // ---- Elements of `e` bytes ----

  function Scale(r: Range, e: nat): Range {
    Range(e * r.lo, e * r.hi)
  }

  function ScaleAll(rs: seq<Range>, e: nat): (r: seq<Range>)
    ensures |r| == |rs| && forall j :: 0 <= j < |rs| ==> r[j] == Scale(rs[j], e)
  {
    seq(|rs|, j requires 0 <= j < |rs| => Scale(rs[j], e))
  }

  function ScaleWrites(ws: seq<Write>, e: nat): (r: seq<Write>)
    ensures |r| == |ws| && forall i :: 0 <= i < |ws| ==> r[i] == Write(Scale(ws[i].range, e), ws[i].data)
  {
    seq(|ws|, i requires 0 <= i < |ws| => Write(Scale(ws[i].range, e), ws[i].data))
  }

  lemma Mono(e: nat, a: nat, b: nat)
    requires a <= b
    ensures e * b - e * a == e * (b - a) >= 0
    ensures e > 0 && a < b ==> e * a < e * b
  {
    assert e * b == e * a + e * (b - a);
    if e > 0 && a < b { Positive(e, b - a); }
  }

  lemma Positive(e: nat, d: nat)
    requires e > 0 && d > 0
    ensures e * d > 0
  {
  }

  lemma ScaledOrder(ws: seq<Write>, e: nat)
    requires InOrder(ws) && Sized(ws, e)
    ensures InOrder(ScaleWrites(ws, e)) && ByteSized(ScaleWrites(ws, e))
  {
    forall i | 0 <= i < |ws| - 1 ensures e * ws[i].range.hi <= e * ws[i + 1].range.lo {
      Mono(e, ws[i].range.hi, ws[i + 1].range.lo);
    }
    forall i | 0 <= i < |ws|
      ensures e * ws[i].range.lo <= e * ws[i].range.hi
      ensures |ws[i].data| == e * ws[i].range.hi - e * ws[i].range.lo
    {
      Mono(e, ws[i].range.lo, ws[i].range.hi);
    }
  }

  lemma ScaleInit(ws: seq<Write>, e: nat)
    requires ws != []
    ensures ScaleWrites(ws, e)[..|ws| - 1] == ScaleWrites(ws[..|ws| - 1], e)
  {
  }

  lemma {:induction false} ScaledPuts(ws: seq<Write>, e: nat)
    ensures ByteWrites(ScaleWrites(ws, e)) == Puts(ws, e) && Packed(ScaleWrites(ws, e)) == Packed(ws)
  {
    if ws == [] {
    } else {
      ScaleInit(ws, e);
      ScaledPuts(ws[..|ws| - 1], e);
    }
  }

  lemma ScaleLess(e: nat, a: nat, b: nat)
    requires e > 0
    ensures a < b <==> e * a < e * b
  {
    if a < b { Mono(e, a, b); } else { Mono(e, b, a); }
  }

  lemma ScaleAdd(rs: seq<Range>, r: Range, e: nat)
    ensures ScaleAll(rs + [r], e) == ScaleAll(rs, e) + [Scale(r, e)]
  {
  }

  lemma {:induction false} ScaledMerged(ws: seq<Write>, e: nat)
    requires e > 0
    ensures Merged(ScaleWrites(ws, e)) == ScaleAll(Merged(ws), e)
  {
    if |ws| > 1 {
      var n := |ws| - 1;
      ScaleInit(ws, e);
      ScaledMerged(ws[..n], e);
      ScaleLess(e, ws[n - 1].range.hi, ws[n].range.lo);
      var r, w := Merged(ws[..n]), ws[n].range;
      var m := |r| - 1;
      ScaleAdd(r, w, e);
      ScaleAdd(r[..m], Range(r[m].lo, w.hi), e);
      assert ScaleAll(r, e)[..m] == ScaleAll(r[..m], e);
    } else if |ws| == 1 {
      ScaleAdd([], ws[0].range, e);
    }
  }

  lemma ScaledFlushStep(rs: seq<Range>, r: Range, buf: bytes, e: nat)
    requires r.lo <= r.hi && Length(ScaleAll(rs, e)) == e * Length(rs)
    requires FlushPuts(rs, buf, e, e) == BytePuts(ScaleAll(rs, e), buf)
    ensures Length(ScaleAll(rs + [r], e)) == e * Length(rs + [r])
    ensures FlushPuts(rs + [r], buf, e, e) == BytePuts(ScaleAll(rs + [r], e), buf)
  {
    ScaleAdd(rs, r, e);
    LengthAdd(rs, r);
    LengthAdd(ScaleAll(rs, e), Scale(r, e));
    FlushAdd(rs, r, buf, e, e);
    BytePutsAdd(ScaleAll(rs, e), Scale(r, e), buf);
    Mono(e, r.lo, r.hi);
    Distribute(Length(rs), r.hi - r.lo, e);
  }

  lemma {:induction false} ScaledFlush(rs: seq<Range>, buf: bytes, e: nat)
    requires Forward(rs)
    ensures Length(ScaleAll(rs, e)) == e * Length(rs)
    ensures FlushPuts(rs, buf, e, e) == BytePuts(ScaleAll(rs, e), buf)
  {
    if rs == [] {
    } else {
      var n := |rs| - 1;
      ScaledFlush(rs[..n], buf, e);
      ScaledFlushStep(rs[..n], rs[n], buf, e);
      assert rs == rs[..n] + [rs[n]];
    }
  }

  lemma {:induction false} MergedForward(ws: seq<Write>, e: nat)
    requires InOrder(ws) && Sized(ws, e)
    ensures Forward(Merged(ws))
  {
    if |ws| <= 1 {
    } else {
      InOrderInit(ws);
      MergedForward(ws[..|ws| - 1], e);
      MergedStep(ws);
    }
  }

  /** Writing the merged ranges leaves the object as writing the requests one by one does. */
  lemma MergedWritesTheSame(o: seq<Put>, ws: seq<Write>, e: nat)
    requires e > 0 && InOrder(ws) && Sized(ws, e)
    ensures SameContents(o + FlushPuts(Merged(ws), Packed(ws), e, e), o + Puts(ws, e))
  {
    var bs := ScaleWrites(ws, e);
    ScaledOrder(ws, e);
    ScaledPuts(ws, e);
    ScaledMerged(ws, e);
    MergedForward(ws, e);
    ScaledFlush(Merged(ws), Packed(ws), e);
    forall k | 0 <= k ensures Value(o + BytePuts(Merged(bs), Packed(bs)), k) == Value(o + ByteWrites(bs), k) {
      MergedBytesTheSame(o, bs, k);
    }
  }

  // ---- Element types ----

  datatype MType = NativeChar | NativeULLong | OtherType(size: nat)

  // The size merging copies by, the size of an element of the object, and the step of the flush pointer.
  function ESize(m: MType): nat {
    match m case NativeChar => 1 case NativeULLong => 8 case OtherType(n) => n
  }

  function Unit(m: MType): nat {
    if m.NativeULLong? then 8 else 1
  }

  function Walk(m: MType): nat {
    if m.NativeChar? then 1 else 8
  }

  ghost predicate FlushRight(m: MType, o: seq<Put>, ws: seq<Write>) {
    SameContents(o + FlushPuts(Merged(ws), Packed(ws), Unit(m), Walk(m)), o + Puts(ws, ESize(m)))
  }

  lemma OnePut(d: bytes, k: nat)
    ensures Value([] + [Put(0, d)], k) == if k < |d| then Some(d[k]) else None
  {
    ValueAdd([], Put(0, d), k);
  }

  // One element of two or more bytes: only its first byte is written.
  lemma WideElement(n: nat) returns (ws: seq<Write>)
    requires n >= 2
    ensures InOrder(ws) && Sized(ws, n) && !FlushRight(OtherType(n), [], ws)
  {
    var data: bytes := seq(n, i => 7);
    var w := Write(Range(0, 1), data);
    ws := [w];
    MergedOne(ws);
    FlushAdd([], w.range, data, 1, 8);
    var first := Peek(data, 0, 1);
    assert [] + FlushPuts(Merged(ws), Packed(ws), 1, 8) == [] + [Put(0, first)];
    assert Puts(ws[..0], n) == [] && [] + Puts(ws, n) == [] + [Put(0, data)];
    OnePut(first, 1);
    OnePut(data, 1);
  }

  // Elements of one byte in three ranges: after the first the pointer has gone eight bytes, not one.
  lemma NarrowElements() returns (ws: seq<Write>)
    ensures InOrder(ws) && Sized(ws, 1) && !FlushRight(OtherType(1), [], ws)
  {
    var zeros: bytes := [0, 0, 0, 0, 0, 0, 0];
    var w0, w1, w2 := Write(Range(0, 1), [7]), Write(Range(2, 3), [7]), Write(Range(4, 11), zeros);
    ws := [w0, w1, w2];
    var r0, r1, r2 := w0.range, w1.range, w2.range;
    MergedApart(w0, w1, w2);
    var buf := Packed(ws);
    assert Peek(buf, 8, 1) == [0];
    var a, b := [] + FlushPuts([r0, r1], buf, 1, 8), [] + Puts([w0, w1], 1);
    FlushAdd([r0, r1], r2, buf, 1, 8);
    FlushAdd([r0], r1, buf, 1, 8);
    assert [r0, r1] + [r2] == [r0, r1, r2] && [r0] + [r1] == [r0, r1] && ws[..2] == [w0, w1];
    var p, q := Put(4, Peek(buf, 8 * Length([r0, r1]), 7)), Put(4, zeros);
    assert [] + FlushPuts(Merged(ws), buf, 1, 8) == a + [p] && [] + Puts(ws, 1) == b + [q];
    NarrowValues(a, b, p, q);
  }

  lemma FlushAdd(rs: seq<Range>, r: Range, buf: bytes, unit: nat, walk: nat)
    ensures FlushPuts(rs + [r], buf, unit, walk)
         == FlushPuts(rs, buf, unit, walk) + [Put(unit * r.lo, Peek(buf, walk * Length(rs), unit * (r.hi - r.lo)))]
  {
    assert (rs + [r])[..|rs|] == rs;
  }

  // Three requests apart from each other stay three ranges.
  lemma MergedApart(w0: Write, w1: Write, w2: Write)
    requires w0.range.hi < w1.range.lo && w1.range.hi < w2.range.lo
    ensures Merged([w0, w1, w2]) == [w0.range, w1.range, w2.range]
    ensures Packed([w0, w1, w2]) == w0.data + w1.data + w2.data
    ensures Length([w0.range]) == w0.range.hi - w0.range.lo
  {
    assert [w0, w1, w2][..2] == [w0, w1] && [w0, w1][..1] == [w0];
    MergedOne([w0]);
    assert Merged([w0, w1]) == [w0.range, w1.range];
    assert Packed([w0, w1]) == w0.data + w1.data;
  }

  lemma NarrowValues(a: seq<Put>, b: seq<Put>, p: Put, q: Put)
    requires |a| > 0 && a[|a| - 1] == Put(2, [0]) && |b| > 0 && b[|b| - 1] == Put(2, [7]) && p.at == q.at == 4
    ensures Value(a + [p], 2) != Value(b + [q], 2)
  {
    ValueAdd(a, p, 2);
    ValueAdd(b, q, 2);
  }

  /** Of all element types exactly the two the flush names are written right for every list of ordered requests. */
  lemma FlushRightExactlyForNamedTypes(m: MType)
    requires ESize(m) > 0
    ensures (forall o, ws :: InOrder(ws) && Sized(ws, ESize(m)) ==> FlushRight(m, o, ws)) <==> !m.OtherType?
  {
    if m.OtherType? {
      var ws;
      if m.size == 1 { ws := NarrowElements(); } else { ws := WideElement(m.size); }
    } else {
      forall o, ws | InOrder(ws) && Sized(ws, ESize(m)) ensures FlushRight(m, o, ws) {
        MergedWritesTheSame(o, ws, ESize(m));
      }
    }
  }

  // ---- The loops ----

  method CountRanges(ws: seq<Write>) returns (count: int)
    requires ws != []
    ensures count == Count(ws)
  {
    count := |ws|;
    var i := 1;
    while i < |ws|
      invariant 1 <= i <= |ws|
      invariant count == |ws| - i + Count(ws[..i])
    {
      assert ws[..i + 1][..i] == ws[..i];
      if ws[i - 1].range.hi == ws[i].range.lo { count := count - 1; }
      i := i + 1;
    }
    assert ws[..|ws|] == ws;
  }

  // Ranges `r`, followed by one more request, are ranges `next`.
  ghost predicate FillsOn(r: seq<Range>, opens: bool, w: Range, next: seq<Range>) {
    if opens then next == r + [w] else r != [] && next == r[..|r| - 1] + [Range(r[|r| - 1].lo, w.hi)]
  }

  lemma FillStep(ws: seq<Write>, i: nat)
    requires 0 < i < |ws|
    ensures Packed(ws[..i + 1]) == Packed(ws[..i]) + ws[i].data
    ensures |Merged(ws[..i + 1])| <= Count(ws)
    ensures FillsOn(Merged(ws[..i]), ws[i - 1].range.hi < ws[i].range.lo, ws[i].range, Merged(ws[..i + 1]))
  {
    assert ws[..i + 1][..i] == ws[..i];
    MergedPrefix(ws, i + 1);
  }

  method PlaceRange(ranges: array<Range>, index: nat, opens: bool, w: Range) returns (next: nat)
    requires index < ranges.Length && (opens ==> index + 1 < ranges.Length)
    modifies ranges
    ensures index <= next < ranges.Length
    ensures FillsOn(old(ranges[..index + 1]), opens, w, ranges[..next + 1])
  {
    next := index;
    if opens {
      next := index + 1;
      ranges[next] := Range(w.lo, ranges[next].hi);
    }
    ranges[next] := Range(ranges[next].lo, w.hi);
  }

  // The ranges `m` and the buffer `p` after each request.
  ghost predicate FillsNext(ws: seq<Write>, room: int, m: nat -> seq<Range>, p: nat -> bytes, i: nat)
    requires 0 < i < |ws|
  {
    && |m(i + 1)| <= room
    && FillsOn(m(i), ws[i - 1].range.hi < ws[i].range.lo, ws[i].range, m(i + 1))
    && p(i + 1) == p(i) + ws[i].data
  }

  ghost predicate Fills(ws: seq<Write>, room: int, m: nat -> seq<Range>, p: nat -> bytes) {
    && ws != [] && room > 0 && m(1) == [ws[0].range] && p(1) == ws[0].data
    && forall i :: 0 < i < |ws| ==> FillsNext(ws, room, m, p, i)
  }

  method FillRanges(ws: seq<Write>, ranges: array<Range>, ghost m: nat -> seq<Range>, ghost p: nat -> bytes)
    returns (buf: bytes)
    requires Fills(ws, ranges.Length, m, p)
    modifies ranges
    ensures |m(|ws|)| <= ranges.Length && ranges[..|m(|ws|)|] == m(|ws|)
    ensures buf == p(|ws|)
  {
    ranges[0] := ws[0].range;
    buf := ws[0].data;
    var index, i := 0, 1;
    while i < |ws|
      invariant 1 <= i <= |ws| && 0 <= index < ranges.Length
      invariant ranges[..index + 1] == m(i)
      invariant buf == p(i)
    {
      assert FillsNext(ws, ranges.Length, m, p, i);
      buf := buf + ws[i].data;
      index := PlaceRange(ranges, index, ws[i - 1].range.hi < ws[i].range.lo, ws[i].range);
      i := i + 1;
    }
  }

  ghost function MergedUpTo(ws: seq<Write>): nat -> seq<Range> {
    i => if 0 <= i <= |ws| then Merged(ws[..i]) else []
  }

  ghost function PackedUpTo(ws: seq<Write>): nat -> bytes {
    i => if 0 <= i <= |ws| then Packed(ws[..i]) else []
  }

  lemma FillsFirst(ws: seq<Write>)
    requires ws != []
    ensures MergedUpTo(ws)(1) == [ws[0].range] && PackedUpTo(ws)(1) == ws[0].data && Count(ws) > 0
  {
    MergedPrefix(ws, 1);
    MergedOne(ws[..1]);
  }

  lemma MergedFills(ws: seq<Write>)
    requires ws != []
    ensures Fills(ws, Count(ws), MergedUpTo(ws), PackedUpTo(ws))
  {
    var room, m, p := Count(ws), MergedUpTo(ws), PackedUpTo(ws);
    FillsFirst(ws);
    forall i | 0 < i < |ws| ensures FillsNext(ws, room, m, p, i) {
      FillStep(ws, i);
    }
  }

  // The requests as merging reads them: of each buffer, what elements of `e` bytes take up.
  function AsRead(ws: seq<Write>, e: nat): (r: seq<Write>)
    ensures |r| == |ws|
    ensures forall i :: 0 <= i < |ws| ==>
              r[i] == Write(ws[i].range, Peek(ws[i].data, 0, e * (ws[i].range.hi - ws[i].range.lo)))
  {
    seq(|ws|, i requires 0 <= i < |ws| =>
      Write(ws[i].range, Peek(ws[i].data, 0, e * (ws[i].range.hi - ws[i].range.lo))))
  }

  lemma {:induction false} AsReadMerges(ws: seq<Write>, e: nat)
    ensures Merged(AsRead(ws, e)) == Merged(ws) && Count(AsRead(ws, e)) == Count(ws)
  {
    if ws == [] {
    } else {
      assert AsRead(ws, e)[..|ws| - 1] == AsRead(ws[..|ws| - 1], e);
      AsReadMerges(ws[..|ws| - 1], e);
    }
  }

  lemma SizedAsRead(ws: seq<Write>, e: nat)
    requires Sized(ws, e)
    ensures AsRead(ws, e) == ws
  {
    forall i | 0 <= i < |ws| ensures AsRead(ws, e)[i] == ws[i] {
      assert ws[i].data[0..|ws[i].data|] == ws[i].data;
    }
  }

  /** Count the ranges, allocate them, then fill them and pack the data. */
  method MergeRequests(ws: seq<Write>, esize: nat) returns (ranges: array<Range>, buf: bytes)
    requires ws != []
    ensures fresh(ranges) && ranges.Length == Count(ws) >= |Merged(ws)|
    ensures ranges[..|Merged(ws)|] == Merged(ws)
    ensures buf == Packed(AsRead(ws, esize))
    ensures Sized(ws, esize) ==> buf == Packed(ws)
  {
    var count := CountRanges(ws);
    var read := AsRead(ws, esize);
    AsReadMerges(ws, esize);
    if Sized(ws, esize) { SizedAsRead(ws, esize); }
    MergedFills(read);
    ranges := new Range[count];
    buf := FillRanges(read, ranges, MergedUpTo(read), PackedUpTo(read));
    assert read[..|read|] == read;
  }

  // Earlier requests never need more ranges than all of them.
  lemma {:induction false} MergedPrefix(ws: seq<Write>, i: nat)
    requires i <= |ws|
    ensures |Merged(ws[..i])| <= |Merged(ws)| <= Count(ws)
    decreases |ws|
  {
    LoopsAgreeExactlyInOrder(ws);
    if i < |ws| {
      assert ws[..|ws| - 1][..i] == ws[..i];
      MergedPrefix(ws[..|ws| - 1], i);
    } else {
      assert ws[..i] == ws;
    }
  }

  lemma PointerNext(ranges: seq<Range>, j: nat, walk: nat)
    requires j < |ranges|
    ensures walk * Length(ranges[..j + 1]) == walk * Length(ranges[..j]) + walk * (ranges[j].hi - ranges[j].lo)
  {
    assert ranges[..j + 1] == ranges[..j] + [ranges[j]];
    LengthAdd(ranges[..j], ranges[j]);
    Distribute(Length(ranges[..j]), ranges[j].hi - ranges[j].lo, walk);
  }

  lemma FlushNext(ranges: seq<Range>, j: nat, buf: bytes, unit: nat, walk: nat, o: seq<Put>)
    requires j < |ranges|
    ensures var r := ranges[j];
            o + FlushPuts(ranges[..j + 1], buf, unit, walk)
            == o + FlushPuts(ranges[..j], buf, unit, walk)
               + [Put(unit * r.lo, Peek(buf, walk * Length(ranges[..j]), unit * (r.hi - r.lo)))]
  {
    var r := ranges[j];
    var p := Put(unit * r.lo, Peek(buf, walk * Length(ranges[..j]), unit * (r.hi - r.lo)));
    assert ranges[..j + 1] == ranges[..j] + [r];
    FlushAdd(ranges[..j], r, buf, unit, walk);
    Assoc(o, FlushPuts(ranges[..j], buf, unit, walk), [p]);
  }

  /** One write a range, the pointer walking through the packed buffer. */
  method FlushRanges(ranges: seq<Range>, buf: bytes, unit: nat, walk: nat, o: seq<Put>) returns (log: seq<Put>)
    ensures log == o + FlushPuts(ranges, buf, unit, walk)
  {
    log := o;
    var ptr := 0;
    var j := 0;
    while j < |ranges|
      invariant 0 <= j <= |ranges|
      invariant log == o + FlushPuts(ranges[..j], buf, unit, walk)
      invariant ptr == walk * Length(ranges[..j])
    {
      FlushNext(ranges, j, buf, unit, walk, o);
      PointerNext(ranges, j, walk);
      log := log + [Put(unit * ranges[j].lo, Peek(buf, ptr, unit * (ranges[j].hi - ranges[j].lo)))];
      ptr := ptr + walk * (ranges[j].hi - ranges[j].lo);
      j := j + 1;
    }
    assert ranges[..|ranges|] == ranges;
  }
}
