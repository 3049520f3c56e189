/** Collective gathers: every rank's block is placed at the sum of the lengths of the blocks before it. */
module Gather {
  function Flat<T>(parts: seq<seq<T>>): seq<T> {
    if parts == [] then [] else Flat(parts[..|parts| - 1]) + parts[|parts| - 1]
  }

  lemma FlatAdd<T>(parts: seq<seq<T>>, p: seq<T>)
    ensures Flat(parts + [p]) == Flat(parts) + p
  {
    assert (parts + [p])[..|parts|] == parts;
  }

  lemma {:induction false} FlatAppend<T>(a: seq<seq<T>>, b: seq<seq<T>>)
    ensures Flat(a + b) == Flat(a) + Flat(b)
  {
    if b == [] {
      assert a + b == a;
      assert Flat(a) + [] == Flat(a);
    } else {
      var n := |b| - 1;
      assert (a + b)[..|a + b| - 1] == a + b[..n];
      FlatAppend(a, b[..n]);
      assert Flat(a) + (Flat(b[..n]) + b[n]) == Flat(a) + Flat(b[..n]) + b[n];
    }
  }

  lemma FlatSplit<T>(s: seq<seq<T>>, a: nat, b: nat)
    requires a <= b <= |s|
    ensures Flat(s[..b]) == Flat(s[..a]) + Flat(s[a..b])
  {
    assert s[..a] + s[a..b] == s[..b];
    FlatAppend(s[..a], s[a..b]);
  }

  function Total<T>(parts: seq<seq<T>>): nat {
    |Flat(parts)|
  }

  lemma FlatSlice<T>(parts: seq<seq<T>>, r: nat)
    requires r < |parts|
    ensures Total(parts[..r]) + |parts[r]| <= Total(parts)
    ensures Flat(parts)[Total(parts[..r])..Total(parts[..r]) + |parts[r]|] == parts[r]
  {
    var a, p, b := Flat(parts[..r]), parts[r], Flat(parts[r + 1..]);
    assert parts[..r + 1] == parts[..r] + [p] && parts == parts[..r + 1] + parts[r + 1..];
    FlatAdd(parts[..r], p);
    FlatAppend(parts[..r + 1], parts[r + 1..]);
    Middle(a, p, b);
  }

  lemma Middle<T>(a: seq<T>, p: seq<T>, b: seq<T>)
    ensures (a + p + b)[|a|..|a| + |p|] == p
  {
  }

  ghost predicate Permutation(order: seq<nat>, n: nat) {
    |order| == n && (forall r :: 0 <= r < n ==> r in order) && forall i :: 0 <= i < |order| ==> order[i] < n
  }

  // Displacements: how many ids come from the ranks before each rank.
  method Displacements<T>(counts: seq<nat>, ghost parts: seq<seq<T>>) returns (disp: seq<nat>, total: nat)
    requires |counts| == |parts| && forall r :: 0 <= r < |parts| ==> counts[r] == |parts[r]|
    ensures |disp| == |parts| && forall r :: 0 <= r < |parts| ==> disp[r] == Total(parts[..r])
    ensures total == Total(parts)
  {
    disp, total := [], 0;
    for i := 0 to |counts|
      invariant |disp| == i && forall r :: 0 <= r < i ==> disp[r] == Total(parts[..r])
      invariant total == Total(parts[..i])
    {
      disp := disp + [total];
      assert parts[..i + 1] == parts[..i] + [parts[i]];
      FlatAdd(parts[..i], parts[i]);
      total := total + counts[i];
    }
    assert parts[..|counts|] == parts;
  }

  // Rank `r`'s block of `all` is in place.
  ghost predicate Placed<T>(parts: seq<seq<T>>, all: seq<T>, r: nat)
    requires r < |parts| && |all| == Total(parts)
  {
    FlatSlice(parts, r);
    forall k :: Total(parts[..r]) <= k < Total(parts[..r]) + |parts[r]| ==> all[k] == Flat(parts)[k]
  }

  /** The blocks are written at their displacements in whatever order they arrive. */
  method GatherBlocks<T>(parts: seq<seq<T>>, disp: seq<nat>, total: nat, order: seq<nat>, filler: T)
    returns (all: seq<T>)
    requires |disp| == |parts| && (forall r :: 0 <= r < |parts| ==> disp[r] == Total(parts[..r]))
    requires total == Total(parts) && Permutation(order, |parts|)
    ensures all == Flat(parts)
  {
    var a := new T[total](i => filler);
    var i := 0;
    while i < |order|
      invariant 0 <= i <= |order|
      invariant forall j :: 0 <= j < i ==> Placed(parts, a[..], order[j])
    {
      var r := order[i];
      var at, p := disp[r], parts[r];
      FlatSlice(parts, r);
      ghost var was := a[..];
      forall k | 0 <= k < |p| { a[at + k] := p[k]; }
      forall j | 0 <= j < i ensures Placed(parts, a[..], order[j]) {
        BlockKept(parts, was, a[..], order[j], r);
      }
      BlockPlaced(parts, a[..], r);
      i := i + 1;
    }
    all := a[..];
    forall k | 0 <= k < |all| ensures all[k] == Flat(parts)[k] {
      var r := BlockOf(parts, k);
      assert r in order;
      var j :| 0 <= j < |order| && order[j] == r;
      assert Placed(parts, all, order[j]);
    }
  }

  lemma BlockPlaced<T>(parts: seq<seq<T>>, all: seq<T>, r: nat)
    requires r < |parts| && |all| == Total(parts)
    requires forall k :: 0 <= k < |parts[r]| && Total(parts[..r]) + k < |all| ==>
               all[Total(parts[..r]) + k] == parts[r][k]
    ensures Placed(parts, all, r)
  {
    FlatSlice(parts, r);
    var at := Total(parts[..r]);
    forall k | at <= k < at + |parts[r]| ensures all[k] == Flat(parts)[k] {
      assert all[at + (k - at)] == parts[r][k - at];
      assert Flat(parts)[at..at + |parts[r]|][k - at] == Flat(parts)[k];
    }
  }

  // Writing the right values cannot spoil a block that is in place.
  lemma BlockKept<T>(parts: seq<seq<T>>, was: seq<T>, now: seq<T>, q: nat, r: nat)
    requires q < |parts| && r < |parts| && |was| == |now| == Total(parts)
    requires Placed(parts, was, q)
    requires var at := Total(parts[..r]); forall k :: 0 <= k < |now| ==>
               now[k] == if at <= k < at + |parts[r]| then parts[r][k - at] else was[k]
    ensures Placed(parts, now, q)
  {
    FlatSlice(parts, q);
    FlatSlice(parts, r);
    var at, bt := Total(parts[..r]), Total(parts[..q]);
    forall k | bt <= k < bt + |parts[q]| ensures now[k] == Flat(parts)[k] {
      if at <= k < at + |parts[r]| {
        assert Flat(parts)[at..at + |parts[r]|][k - at] == Flat(parts)[k];
      }
    }
  }

  lemma {:induction false} BlockOf<T>(parts: seq<seq<T>>, k: nat) returns (r: nat)
    requires k < Total(parts)
    ensures r < |parts| && Total(parts[..r]) <= k < Total(parts[..r]) + |parts[r]|
    decreases |parts|
  {
    var n := |parts| - 1;
    if k < Total(parts[..n]) {
      r := BlockOf(parts[..n], k);
      assert parts[..n][..r] == parts[..r];
    } else {
      r := n;
    }
  }

  /** The reverse: each rank is sent the stretch of `all` that lies where its block would be. */
  method ScatterBlocks<T, U>(all: seq<T>, counts: seq<nat>, ghost shape: seq<seq<U>>) returns (parts: seq<seq<T>>)
    requires |counts| == |shape| && forall r :: 0 <= r < |shape| ==> counts[r] == |shape[r]|
    requires |all| == Total(shape)
    ensures |parts| == |shape|
    ensures forall r :: 0 <= r < |shape| ==>
              && Total(shape[..r]) + |shape[r]| <= |all|
              && parts[r] == all[Total(shape[..r])..Total(shape[..r]) + |shape[r]|]
  {
    var disp, total := Displacements(counts, shape);
    parts := [];
    for r := 0 to |counts|
      invariant |parts| == r
      invariant forall q :: 0 <= q < r ==>
                  && Total(shape[..q]) + |shape[q]| <= |all|
                  && parts[q] == all[Total(shape[..q])..Total(shape[..q]) + |shape[q]|]
    {
      FlatSlice(shape, r);
      parts := parts + [all[disp[r]..disp[r] + counts[r]]];
    }
  }
}
