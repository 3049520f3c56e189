/** Copying objects into one shared-memory segment: each copy starts on a page of its own. */
module ShmLayout {
  import opened Bytes
  import opened Options

  const PAGE: nat := 4096

  // Objects without storage metadata, or of more than one dimension, are skipped.
  datatype Obj = Obj(data: bytes, copied: bool)

  function Padded(size: nat): (r: nat)
    ensures size <= r < size + PAGE && r % PAGE == 0
    ensures r == 0 <==> size == 0
  {
    if size % PAGE != 0 then size + (PAGE - size % PAGE) else size
  }

  // Room for all objects, and what those up to here take.
  function Room(objs: seq<Obj>): nat {
    if objs == [] then 0 else Room(objs[..|objs| - 1]) + Padded(|objs[|objs| - 1].data|)
  }

  function Taken(objs: seq<Obj>): nat {
    if objs == [] then 0
    else
      var o := objs[|objs| - 1];
      Taken(objs[..|objs| - 1]) + if o.copied then Padded(|o.data|) else 0
  }

  // Object `i` can be read back from its offset.
  ghost predicate At(objs: seq<Obj>, buf: bytes, offsets: seq<Option<nat>>, i: nat)
    requires i < |objs| && i < |offsets|
  {
    && (offsets[i].Some? <==> objs[i].copied)
    && (offsets[i].Some? ==>
          var o := offsets[i].value;
          o == Taken(objs[..i]) && o + |objs[i].data| <= |buf| && buf[o..o + |objs[i].data|] == objs[i].data)
  }

  lemma {:induction false} TakenGrows(objs: seq<Obj>, i: nat)
    requires i < |objs|
    ensures Taken(objs[..i]) + (if objs[i].copied then Padded(|objs[i].data|) else 0) <= Taken(objs)
  {
    if i < |objs| - 1 {
      assert objs[..|objs| - 1][..i] == objs[..i];
      TakenGrows(objs[..|objs| - 1], i);
    }
  }

  lemma {:induction false} TakenOnPage(objs: seq<Obj>)
    ensures Taken(objs) % PAGE == 0
  {
    if objs == [] {
    } else {
      TakenOnPage(objs[..|objs| - 1]);
    }
  }

  /** What is taken never exceeds the room, and fills it exactly when every skipped object is empty. */
  lemma {:induction false} RoomFilledExactly(objs: seq<Obj>)
    ensures Taken(objs) <= Room(objs)
    ensures Taken(objs) == Room(objs) <==> forall i :: 0 <= i < |objs| && !objs[i].copied ==> objs[i].data == []
  {
    if objs == [] {
    } else {
      var n := |objs| - 1;
      RoomFilledExactly(objs[..n]);
      assert objs == objs[..n] + [objs[n]];
    }
  }

  lemma {:induction false} RoomGrows(objs: seq<Obj>, i: nat)
    requires i <= |objs|
    ensures Room(objs[..i]) <= Room(objs)
    decreases |objs|
  {
    if i < |objs| {
      assert objs[..|objs| - 1][..i] == objs[..i];
      RoomGrows(objs[..|objs| - 1], i);
    } else {
      assert objs[..i] == objs;
    }
  }

  // ---- Where the copies stand ----

  ghost predicate NoneCopied(objs: seq<Obj>, a: nat, b: nat) {
    forall k :: a <= k < b && k < |objs| ==> !objs[k].copied
  }

  // The first copy is at the start, each other right behind the padded one before it, and `end` behind the last.
  ghost predicate OneAfterAnother(objs: seq<Obj>, offsets: seq<Option<nat>>, end: nat) {
    && |offsets| == |objs|
    && (forall i :: 0 <= i < |objs| && offsets[i].Some? && NoneCopied(objs, 0, i) ==> offsets[i].value == 0)
    && (forall i, j :: 0 <= i < j < |objs| && offsets[i].Some? && offsets[j].Some? && NoneCopied(objs, i + 1, j) ==>
          offsets[j].value == offsets[i].value + Padded(|objs[i].data|))
    && (forall i :: 0 <= i < |objs| && offsets[i].Some? && NoneCopied(objs, i + 1, |objs|) ==>
          end == offsets[i].value + Padded(|objs[i].data|))
  }

  lemma {:induction false} TakenSkips(objs: seq<Obj>, a: nat, b: nat)
    requires a <= b <= |objs| && NoneCopied(objs, a, b)
    ensures Taken(objs[..b]) == Taken(objs[..a])
  {
    if a == b {
    } else {
      TakenSkips(objs, a, b - 1);
      assert objs[..b][..b - 1] == objs[..b - 1];
    }
  }

  lemma TakenOn(objs: seq<Obj>, i: nat, j: nat)
    requires i < j <= |objs| && objs[i].copied && NoneCopied(objs, i + 1, j)
    ensures Taken(objs[..j]) == Taken(objs[..i]) + Padded(|objs[i].data|)
  {
    TakenSkips(objs, i + 1, j);
    assert objs[..i + 1][..i] == objs[..i];
  }

  lemma TakenInTurn(objs: seq<Obj>, buf: bytes, offsets: seq<Option<nat>>)
    requires |offsets| == |objs| && forall i: nat :: i < |objs| ==> At(objs, buf, offsets, i)
    ensures OneAfterAnother(objs, offsets, Taken(objs))
  {
    forall i | 0 <= i < |objs| && offsets[i].Some? && NoneCopied(objs, 0, i) ensures offsets[i].value == 0 {
      assert At(objs, buf, offsets, i);
      TakenSkips(objs, 0, i);
    }
    forall i, j | 0 <= i < j < |objs| && offsets[i].Some? && offsets[j].Some? && NoneCopied(objs, i + 1, j)
      ensures offsets[j].value == offsets[i].value + Padded(|objs[i].data|)
    {
      assert At(objs, buf, offsets, i) && At(objs, buf, offsets, j);
      TakenOn(objs, i, j);
    }
    forall i | 0 <= i < |objs| && offsets[i].Some? && NoneCopied(objs, i + 1, |objs|)
      ensures Taken(objs) == offsets[i].value + Padded(|objs[i].data|)
    {
      assert At(objs, buf, offsets, i);
      TakenOn(objs, i, |objs|);
      assert objs[..|objs|] == objs;
    }
  }

  ghost function AllCopied(objs: seq<Obj>): (r: seq<Obj>)
    ensures |r| == |objs| && forall i :: 0 <= i < |r| ==> r[i] == objs[i].(copied := true)
  {
    seq(|objs|, i requires 0 <= i < |objs| => objs[i].(copied := true))
  }

  /** The segment has the room that copying every object would take. */
  lemma {:induction false} RoomForAll(objs: seq<Obj>)
    ensures Room(objs) == Taken(AllCopied(objs))
  {
    if objs == [] {
    } else {
      var n := |objs| - 1;
      assert AllCopied(objs)[..n] == AllCopied(objs[..n]);
      RoomForAll(objs[..n]);
    }
  }

  method SegmentSize(objs: seq<Obj>) returns (total: nat)
    ensures total == Room(objs)
  {
    total := 0;
    for i := 0 to |objs|
      invariant total == Room(objs[..i])
    {
      assert objs[..i + 1][..i] == objs[..i];
      total := total + |objs[i].data|;
      if |objs[i].data| % PAGE != 0 { total := total + (PAGE - |objs[i].data| % PAGE); }
    }
    assert objs[..|objs|] == objs;
  }

  method CopyAt(buf: array<byte>, at: nat, data: bytes)
    requires at + |data| <= buf.Length
    modifies buf
    ensures buf[..at] == old(buf[..at]) && buf[at..at + |data|] == data
  {
    forall k | 0 <= k < |data| { buf[at + k] := data[k]; }
  }

  lemma StaysAt(objs: seq<Obj>, was: bytes, buf: bytes, offsets: seq<Option<nat>>, more: Option<nat>, i: nat, at: nat)
    requires i < |objs| && i < |offsets| && At(objs, was, offsets, i)
    requires Taken(objs[..i]) + (if objs[i].copied then |objs[i].data| else 0) <= at <= |was| == |buf|
    requires was[..at] == buf[..at]
    ensures At(objs, buf, offsets + [more], i)
  {
    if offsets[i].Some? {
      var o, n := offsets[i].value, |objs[i].data|;
      assert buf[o..o + n] == buf[..at][o..o + n] == was[..at][o..o + n] == was[o..o + n];
    }
  }

  /** Every object that is not skipped can be read back whole from its offset, which starts a page; copies
      do not run into each other. */
  method CopyToSegment(objs: seq<Obj>) returns (buf: array<byte>, offsets: seq<Option<nat>>, end: nat)
    ensures buf.Length == Room(objs) && |offsets| == |objs| && end == Taken(objs)
    ensures forall i: nat :: i < |objs| ==> At(objs, buf[..], offsets, i)
    ensures OneAfterAnother(objs, offsets, end)
  {
    var total := SegmentSize(objs);
    buf := new byte[total];
    offsets, end := [], 0;
    var n := 0;
    while n < |objs|
      invariant n == |offsets| <= |objs| && end == Taken(objs[..n]) && buf.Length == Room(objs) && fresh(buf)
      invariant forall i: nat :: i < n ==> At(objs, buf[..], offsets, i)
    {
      ghost var was, before := buf[..], offsets;
      Fits(objs, n);
      if objs[n].copied {
        CopyAt(buf, end, objs[n].data);
        offsets := offsets + [Some(end)];
        end := end + Padded(|objs[n].data|);
      } else {
        offsets := offsets + [None];
      }
      forall i: nat | i < n ensures At(objs, buf[..], offsets, i) {
        ClearOf(objs, i, n);
        StaysAt(objs, was, buf[..], before, offsets[n], i, Taken(objs[..n]));
      }
      n := n + 1;
    }
    assert objs[..|objs|] == objs;
    TakenInTurn(objs, buf[..], offsets);
  }

  lemma Fits(objs: seq<Obj>, n: nat)
    requires n < |objs|
    ensures Taken(objs[..n]) + Padded(|objs[n].data|) <= Room(objs)
    ensures Taken(objs[..n + 1]) == Taken(objs[..n]) + if objs[n].copied then Padded(|objs[n].data|) else 0
  {
    assert objs[..n + 1][..n] == objs[..n];
    RoomFilledExactly(objs[..n]);
    RoomGrows(objs, n + 1);
  }

  // Objects `i` and later ones keep clear of each other.
  lemma ClearOf(objs: seq<Obj>, i: nat, j: nat)
    requires i < j <= |objs|
    ensures Taken(objs[..i]) + (if objs[i].copied then Padded(|objs[i].data|) else 0) <= Taken(objs[..j])
    ensures Taken(objs[..i]) % PAGE == 0
  {
    assert objs[..j][..i] == objs[..i];
    TakenGrows(objs[..j], i);
    TakenOnPage(objs[..i]);
  }
}
