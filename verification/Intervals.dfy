/** Intervals of time in the server logs: coalescing them, adding them up, and finding the gaps between them. */
module Intervals {
  import opened Options
  import ListSort

  datatype Interval = Interval(lo: real, hi: real)

  // The instants of an interval: its start, and up to its end.
  predicate Has(x: Interval, t: real) {
    x.lo <= t < x.hi
  }

  ghost predicate Covered(s: seq<Interval>, t: real) {
    exists i :: 0 <= i < |s| && Has(s[i], t)
  }

  ghost predicate SameCover(a: seq<Interval>, b: seq<Interval>) {
    forall t: real :: Covered(a, t) <==> Covered(b, t)
  }

  ghost predicate Forward(s: seq<Interval>) {
    forall i :: 0 <= i < |s| ==> s[i].lo <= s[i].hi
  }

  ghost predicate ByStart(s: seq<Interval>) {
    forall i, j :: 0 <= i < j < |s| ==> s[i].lo <= s[j].lo
  }

  // Each interval ends before the next one starts, or there.
  ghost predicate Apart(s: seq<Interval>) {
    Forward(s) && forall i, j :: 0 <= i < j < |s| ==> s[i].hi <= s[j].lo
  }

  lemma CoveredAdd(s: seq<Interval>, x: Interval, t: real)
    ensures Covered(s + [x], t) <==> Covered(s, t) || Has(x, t)
  {
    var r := s + [x];
    if Has(x, t) { assert Has(r[|s|], t); }
    if Covered(s, t) {
      var i :| 0 <= i < |s| && Has(s[i], t);
      assert Has(r[i], t);
    }
  }

  // ---- Sorting by start ----

  predicate StartsFirst(x: Interval, y: Interval) {
    x.lo <= y.lo
  }

  ghost function Ordered(s: seq<Interval>): (r: seq<Interval>)
    ensures |r| == |s|
  {
    ListSort.StableSort(StartsFirst, s)
  }

  lemma OrderedIsSorted(s: seq<Interval>)
    ensures ByStart(Ordered(s)) && SameCover(Ordered(s), s)
    ensures forall x :: x in Ordered(s) <==> x in s
    ensures multiset(Ordered(s)) == multiset(s)
  {
    ListSort.SortSorts(StartsFirst, s);
    ListSort.SortPermutes(StartsFirst, s);
    forall t: real ensures Covered(Ordered(s), t) <==> Covered(s, t) {
      SameMembersCover(Ordered(s), s, t);
      SameMembersCover(s, Ordered(s), t);
    }
  }

  lemma SameMembersCover(a: seq<Interval>, b: seq<Interval>, t: real)
    requires forall x :: x in a ==> x in b
    ensures Covered(a, t) ==> Covered(b, t)
  {
    if Covered(a, t) {
      var i :| 0 <= i < |a| && Has(a[i], t);
      assert a[i] in b;
    }
  }

  method SortByStart(s: seq<Interval>) returns (r: seq<Interval>)
    ensures r == Ordered(s) && ByStart(r) && multiset(r) == multiset(s)
  {
    r := ListSort.Sort(s, StartsFirst);
    OrderedIsSorted(s);
  }

  // ---- Coalescing ----

  function Later(a: real, b: real): real {
    if a < b then b else a
  }

  // A sorted list, with every interval that starts inside the last one kept absorbed by it.
  ghost function Coalesced(s: seq<Interval>): (r: seq<Interval>)
    ensures |r| <= |s| && (s != [] ==> r != [])
  {
    if |s| <= 1 then s
    else
      var r, x := Coalesced(s[..|s| - 1]), s[|s| - 1];
      var last := r[|r| - 1];
      if x.lo < last.hi then r[..|r| - 1] + [Interval(last.lo, Later(last.hi, x.hi))] else r + [x]
  }

  // Intervals `r`, followed by one more, are intervals `next`.
  ghost predicate Takes(r: seq<Interval>, x: Interval, next: seq<Interval>) {
    && r != []
    && var last := r[|r| - 1];
       next == if x.lo < last.hi then r[..|r| - 1] + [Interval(last.lo, Later(last.hi, x.hi))] else r + [x]
  }

  ghost predicate TakesInTurn(s: seq<Interval>, c: nat -> seq<Interval>) {
    && (s != [] ==> c(1) == [s[0]])
    && forall i :: 0 < i < |s| ==> Takes(c(i), s[i], c(i + 1))
  }

  ghost function CoalescedUpTo(s: seq<Interval>): nat -> seq<Interval> {
    (i: nat) => if i <= |s| then Coalesced(s[..i]) else []
  }

  lemma CoalescedTakesInTurn(s: seq<Interval>)
    ensures TakesInTurn(s, CoalescedUpTo(s))
  {
    var c := CoalescedUpTo(s);
    forall i | 0 < i < |s| ensures Takes(c(i), s[i], c(i + 1)) { CoalescedTakes(s, i); }
  }

  lemma CoalescedTakes(s: seq<Interval>, i: nat)
    requires 0 < i < |s|
    ensures Takes(Coalesced(s[..i]), s[i], Coalesced(s[..i + 1]))
  {
    assert s[..i + 1][..i] == s[..i];
  }

  method TakeNext(a: array<Interval>, last: nat, i: nat) returns (next: nat)
    requires last < i < a.Length
    modifies a
    ensures last <= next <= i
    ensures Takes(old(a[..last + 1]), old(a[i]), a[..next + 1])
    ensures a[i + 1..] == old(a[i + 1..])
  {
    next := last;
    if a[i].lo < a[last].hi {
      a[last] := Interval(a[last].lo, Later(a[last].hi, a[i].hi));
    } else {
      next := last + 1;
      a[next] := a[i];
    }
  }

  method TakeAll(a: array<Interval>, ghost s: seq<Interval>, ghost c: nat -> seq<Interval>) returns (n: nat)
    requires a[..] == s && TakesInTurn(s, c)
    modifies a
    ensures n <= a.Length && (n == 0 <==> s == [])
    ensures s != [] ==> a[..n] == c(|s|)
  {
    if a.Length == 0 { return 0; }
    var previous, i := 0, 1;
    while i < a.Length
      invariant previous < i <= a.Length == |s|
      invariant a[..previous + 1] == c(i)
      invariant a[i..] == s[i..]
    {
      assert a[i] == a[i..][0] && a[i + 1..] == a[i..][1..];
      previous := TakeNext(a, previous, i);
      i := i + 1;
    }
    n := previous + 1;
  }

  /** Sort, then absorb or keep each interval in turn, in place; the first `n` entries are what is left. */
  method CoalesceIntervals(a: array<Interval>) returns (n: nat)
    modifies a
    ensures n <= a.Length && a[..n] == Coalesced(Ordered(old(a[..])))
  {
    var s := SortByStart(a[..]);
    CopyInto(s, a);
    CoalescedTakesInTurn(s);
    n := TakeAll(a, s, CoalescedUpTo(s));
    assert s[..|s|] == s;
  }

  method CopyInto(s: seq<Interval>, a: array<Interval>)
    requires |s| == a.Length
    modifies a
    ensures a[..] == s
  {
    forall i | 0 <= i < a.Length { a[i] := s[i]; }
  }

  // ---- Coalescing keeps the time covered ----

  lemma AbsorbCover(last: Interval, x: Interval, t: real)
    requires last.lo <= x.lo < last.hi
    ensures Has(Interval(last.lo, Later(last.hi, x.hi)), t) <==> Has(last, t) || Has(x, t)
  {
  }

  lemma TakesCover(r: seq<Interval>, x: Interval, next: seq<Interval>, t: real)
    requires Takes(r, x, next) && r[|r| - 1].lo <= x.lo
    ensures Covered(next, t) <==> Covered(r, t) || Has(x, t)
  {
    var n := |r| - 1;
    var last := r[n];
    CoveredAdd(r, x, t);
    if x.lo < last.hi {
      var init, both := r[..n], Interval(last.lo, Later(last.hi, x.hi));
      CoveredAdd(init, last, t);
      CoveredAdd(init, both, t);
      assert r == init + [last];
      AbsorbCover(last, x, t);
    }
  }

  // The last interval kept starts no later than the last one taken.
  lemma {:induction false} CoalescedLast(s: seq<Interval>)
    requires s != [] && ByStart(s)
    ensures var r := Coalesced(s); r[|r| - 1].lo <= s[|s| - 1].lo
  {
    if |s| <= 1 {
    } else {
      CoalescedLast(s[..|s| - 1]);
    }
  }

  lemma CoverStep(s: seq<Interval>, t: real)
    requires |s| > 1 && ByStart(s)
    ensures var n := |s| - 1;
            Covered(Coalesced(s), t) <==> Covered(Coalesced(s[..n]), t) || Has(s[n], t)
  {
    var n := |s| - 1;
    CoalescedLast(s[..n]);
    TakesCover(Coalesced(s[..n]), s[n], Coalesced(s), t);
  }

  lemma {:induction false} CoalescedCover(s: seq<Interval>, t: real)
    requires ByStart(s)
    ensures Covered(Coalesced(s), t) <==> Covered(s, t)
  {
    if |s| <= 1 {
    } else {
      var n := |s| - 1;
      CoalescedCover(s[..n], t);
      CoverStep(s, t);
      assert s == s[..n] + [s[n]];
      CoveredAdd(s[..n], s[n], t);
    }
  }

  /** Coalescing covers exactly the instants it was given, whatever the order and the shape of the intervals. */
  lemma CoalescingKeepsCover(s: seq<Interval>)
    ensures SameCover(Coalesced(Ordered(s)), s)
  {
    OrderedIsSorted(s);
    forall t: real ensures Covered(Coalesced(Ordered(s)), t) <==> Covered(s, t) {
      CoalescedCover(Ordered(s), t);
    }
  }

  // ---- Coalesced intervals do not overlap ----

  lemma ApartAdd(r: seq<Interval>, x: Interval)
    requires Apart(r) && x.lo <= x.hi && (r != [] ==> r[|r| - 1].hi <= x.lo)
    ensures Apart(r + [x])
  {
    forall i | 0 <= i < |r| ensures r[i].hi <= x.lo {
      if i < |r| - 1 { assert r[i].hi <= r[|r| - 1].lo; }
    }
  }

  lemma TakesApart(r: seq<Interval>, x: Interval, next: seq<Interval>)
    requires Takes(r, x, next) && Apart(r) && x.lo <= x.hi
    ensures Apart(next)
  {
    var n := |r| - 1;
    if x.lo < r[n].hi {
      ApartAdd(r[..n], Interval(r[n].lo, Later(r[n].hi, x.hi)));
    } else {
      ApartAdd(r, x);
    }
  }

  lemma {:induction false} CoalescedApart(s: seq<Interval>)
    requires Forward(s)
    ensures Apart(Coalesced(s))
  {
    if |s| <= 1 {
    } else {
      var n := |s| - 1;
      CoalescedApart(s[..n]);
      TakesApart(Coalesced(s[..n]), s[n], Coalesced(s));
    }
  }

  lemma {:induction false} CoalescedFixed(s: seq<Interval>)
    requires Apart(s)
    ensures Coalesced(s) == s
  {
    if |s| <= 1 {
    } else {
      CoalescedFixed(s[..|s| - 1]);
    }
  }

  lemma OrderedApart(s: seq<Interval>)
    requires Forward(s)
    ensures Apart(Coalesced(Ordered(s)))
  {
    OrderedForward(s);
    CoalescedApart(Ordered(s));
  }

  /** Coalescing a second time changes nothing. */
  lemma CoalescingTwice(s: seq<Interval>)
    requires Forward(s)
    ensures var r := Coalesced(Ordered(s)); Coalesced(Ordered(r)) == r
  {
    var r := Coalesced(Ordered(s));
    OrderedApart(s);
    forall i, j | 0 <= i < j < |r| ensures r[i].lo <= r[j].lo { assert r[i].lo <= r[i].hi; }
    ListSort.SortedFixed(StartsFirst, r);
    CoalescedFixed(r);
  }

  // ---- The total length ----

  function Total(s: seq<Interval>): real {
    if s == [] then 0.0 else Total(s[..|s| - 1]) + (s[|s| - 1].hi - s[|s| - 1].lo)
  }

  lemma TotalAdd(s: seq<Interval>, x: Interval)
    ensures Total(s + [x]) == Total(s) + (x.hi - x.lo)
  {
    assert (s + [x])[..|s|] == s;
  }

  method SumLengths(s: seq<Interval>) returns (sum: real)
    ensures sum == Total(s)
  {
    sum := 0.0;
    for i := 0 to |s|
      invariant sum == Total(s[..i])
    {
      assert s[..i + 1][..i] == s[..i];
      sum := sum + (s[i].hi - s[i].lo);
    }
    assert s[..|s|] == s;
  }

  // Non-empty intervals, none of which touches the next.
  ghost predicate Separate(s: seq<Interval>) {
    && (forall i :: 0 <= i < |s| ==> s[i].lo < s[i].hi)
    && forall i, j :: 0 <= i < j < |s| ==> s[i].hi < s[j].lo
  }

  // Intervals `r`, followed by one more: joined to the last if they touch, dropped if it is empty.
  ghost function Join(r: seq<Interval>, x: Interval): seq<Interval> {
    if x.lo == x.hi then r
    else if r != [] && r[|r| - 1].hi == x.lo then r[..|r| - 1] + [Interval(r[|r| - 1].lo, x.hi)]
    else r + [x]
  }

  ghost function Joined(s: seq<Interval>): seq<Interval> {
    if s == [] then [] else Join(Joined(s[..|s| - 1]), s[|s| - 1])
  }

  lemma SeparateAdd(r: seq<Interval>, x: Interval)
    requires Separate(r) && x.lo < x.hi && (r != [] ==> r[|r| - 1].hi < x.lo)
    ensures Separate(r + [x])
  {
    forall i | 0 <= i < |r| ensures r[i].hi < x.lo {
      if i < |r| - 1 { assert r[i].hi < r[|r| - 1].lo; }
    }
  }

  ghost predicate Follows(r: seq<Interval>, x: Interval) {
    Separate(r) && x.lo <= x.hi && (r != [] ==> r[|r| - 1].hi <= x.lo)
  }

  lemma JoinSeparate(r: seq<Interval>, x: Interval)
    requires Follows(r, x)
    ensures Separate(Join(r, x))
    ensures Join(r, x) != [] ==> Join(r, x)[|Join(r, x)| - 1].hi <= x.hi
  {
    if x.lo != x.hi {
      if r != [] && r[|r| - 1].hi == x.lo {
        SeparateAdd(r[..|r| - 1], Interval(r[|r| - 1].lo, x.hi));
      } else {
        SeparateAdd(r, x);
      }
    }
  }

  lemma JoinTotal(r: seq<Interval>, x: Interval)
    ensures Total(Join(r, x)) == Total(r) + (x.hi - x.lo)
  {
    if x.lo != x.hi && r != [] && r[|r| - 1].hi == x.lo {
      var n := |r| - 1;
      assert r == r[..n] + [r[n]];
      TotalAdd(r[..n], r[n]);
      TotalAdd(r[..n], Interval(r[n].lo, x.hi));
    } else {
      TotalAdd(r, x);
    }
  }

  lemma JoinCover(r: seq<Interval>, x: Interval, t: real)
    requires Follows(r, x)
    ensures Covered(Join(r, x), t) <==> Covered(r, t) || Has(x, t)
  {
    if x.lo != x.hi {
      if r != [] && r[|r| - 1].hi == x.lo {
        var n := |r| - 1;
        assert r == r[..n] + [r[n]];
        CoveredAdd(r[..n], r[n], t);
        CoveredAdd(r[..n], Interval(r[n].lo, x.hi), t);
      } else {
        CoveredAdd(r, x, t);
      }
    }
  }

  lemma ApartInit(s: seq<Interval>)
    requires Apart(s) && s != []
    ensures var n := |s| - 1;
            Apart(s[..n]) && s[n].lo <= s[n].hi && (n > 0 ==> s[n - 1].hi <= s[n].lo) && s == s[..n] + [s[n]]
  {
  }

  lemma {:induction false} JoinedSeparate(s: seq<Interval>)
    requires Apart(s)
    ensures Separate(Joined(s))
    ensures s != [] && Joined(s) != [] ==> Joined(s)[|Joined(s)| - 1].hi <= s[|s| - 1].hi
  {
    if s == [] {
    } else {
      ApartInit(s);
      JoinedSeparate(s[..|s| - 1]);
      JoinSeparate(Joined(s[..|s| - 1]), s[|s| - 1]);
    }
  }

  lemma {:induction false} JoinedTotal(s: seq<Interval>)
    ensures Total(Joined(s)) == Total(s)
  {
    if s == [] {
    } else {
      JoinedTotal(s[..|s| - 1]);
      JoinTotal(Joined(s[..|s| - 1]), s[|s| - 1]);
    }
  }

  lemma {:induction false} JoinedCover(s: seq<Interval>, t: real)
    requires Apart(s)
    ensures Covered(Joined(s), t) <==> Covered(s, t)
  {
    if s == [] {
    } else {
      var n := |s| - 1;
      ApartInit(s);
      JoinedCover(s[..n], t);
      JoinedSeparate(s[..n]);
      JoinCover(Joined(s[..n]), s[n], t);
      CoveredAdd(s[..n], s[n], t);
    }
  }

  // Nothing is covered from the end of the last interval on,
  lemma BeyondEnd(s: seq<Interval>, t: real)
    requires Separate(s) && s != [] && t >= s[|s| - 1].hi
    ensures !Covered(s, t)
  {
    var n := |s| - 1;
    forall i | 0 <= i < |s| ensures !Has(s[i], t) {
      if i < n { assert s[i].hi < s[n].lo; }
    }
  }

  // nor between the last two.
  lemma BetweenLast(s: seq<Interval>, t: real)
    requires Separate(s) && s != [] && t < s[|s| - 1].lo && (|s| > 1 ==> s[|s| - 2].hi <= t)
    ensures !Covered(s, t)
  {
    var n := |s| - 1;
    forall i | 0 <= i < |s| ensures !Has(s[i], t) {
      if i < n - 1 { assert s[i].hi < s[n - 1].lo; }
    }
  }

  lemma InitCovered(s: seq<Interval>, t: real)
    requires Separate(s) && s != []
    ensures Covered(s[..|s| - 1], t) <==> Covered(s, t) && t < s[|s| - 1].lo
  {
    var n := |s| - 1;
    assert s == s[..n] + [s[n]];
    CoveredAdd(s[..n], s[n], t);
    forall i | 0 <= i < n && Has(s[..n][i], t) ensures t < s[n].lo { assert s[i].hi < s[n].lo; }
  }

  lemma {:induction false} SeparateTotal(s: seq<Interval>)
    requires Separate(s)
    ensures Total(s) >= 0.0
  {
    if s == [] {
    } else {
      SeparateTotal(s[..|s| - 1]);
    }
  }

  // Intervals with the part of the last one from `at` on taken away.
  ghost function Cut(s: seq<Interval>, at: real): seq<Interval>
    requires s != []
  {
    var n := |s| - 1;
    if s[n].lo < at then s[..n] + [Interval(s[n].lo, at)] else s[..n]
  }

  ghost predicate InLast(s: seq<Interval>, at: real) {
    Separate(s) && s != [] && s[|s| - 1].lo <= at <= s[|s| - 1].hi
  }

  lemma CutIs(s: seq<Interval>, at: real)
    requires InLast(s, at)
    ensures Separate(Cut(s, at)) && Total(Cut(s, at)) == Total(s) - (s[|s| - 1].hi - at)
  {
    var n := |s| - 1;
    if s[n].lo < at {
      SeparateAdd(s[..n], Interval(s[n].lo, at));
      TotalAdd(s[..n], Interval(s[n].lo, at));
    }
  }

  lemma CutCovered(s: seq<Interval>, at: real, t: real)
    requires InLast(s, at)
    ensures Covered(Cut(s, at), t) <==> Covered(s, t) && t < at
  {
    var n := |s| - 1;
    InitCovered(s, t);
    assert s == s[..n] + [s[n]];
    CoveredAdd(s[..n], s[n], t);
    if s[n].lo < at { CoveredAdd(s[..n], Interval(s[n].lo, at), t); }
  }

  ghost predicate Within(a: seq<Interval>, b: seq<Interval>) {
    forall t: real :: Covered(a, t) ==> Covered(b, t)
  }

  lemma SomeWithin(a: seq<Interval>, b: seq<Interval>)
    requires Separate(a) && Within(a, b)
    ensures a != [] ==> b != []
  {
    if a != [] { assert Has(a[0], a[0].lo) && Covered(a, a[0].lo); }
  }

  // The last interval of what lies within another ends no later,
  lemma LastEnds(a: seq<Interval>, b: seq<Interval>)
    requires Separate(a) && Separate(b) && a != [] && b != [] && Within(a, b)
    ensures a[|a| - 1].hi <= b[|b| - 1].hi
  {
    var x, y := a[|a| - 1], b[|b| - 1];
    if y.hi < x.hi {
      var t := Later(x.lo, y.hi);
      assert Has(a[|a| - 1], t) && Covered(a, t);
      BeyondEnd(b, t);
    }
  }

  // and lies in the last interval of the other, or before it.
  lemma LastStarts(a: seq<Interval>, b: seq<Interval>)
    requires Separate(a) && Separate(b) && a != [] && b != [] && Within(a, b)
    requires b[|b| - 1].lo < a[|a| - 1].hi
    ensures b[|b| - 1].lo <= a[|a| - 1].lo
  {
    var x, y := a[|a| - 1], b[|b| - 1];
    if x.lo < y.lo {
      var t := if |b| > 1 then Later(x.lo, b[|b| - 2].hi) else x.lo;
      assert Has(a[|a| - 1], t) && Covered(a, t);
      BetweenLast(b, t);
    }
  }

  lemma WithinBefore(a: seq<Interval>, b: seq<Interval>)
    requires Separate(a) && Separate(b) && a != [] && b != [] && Within(a, b) && a[|a| - 1].hi <= b[|b| - 1].lo
    ensures Within(a, b[..|b| - 1])
  {
    var init := b[..|b| - 1];
    forall t: real | Covered(a, t) ensures Covered(init, t) {
      InitCovered(b, t);
      if t >= a[|a| - 1].hi { BeyondEnd(a, t); }
    }
  }

  lemma WithinCut(a: seq<Interval>, b: seq<Interval>)
    requires Separate(a) && a != [] && Within(a, b) && InLast(b, a[|a| - 1].lo)
    ensures Within(a[..|a| - 1], Cut(b, a[|a| - 1].lo))
  {
    var init, cut := a[..|a| - 1], Cut(b, a[|a| - 1].lo);
    forall t: real | Covered(init, t) ensures Covered(cut, t) {
      InitCovered(a, t);
      CutCovered(b, a[|a| - 1].lo, t);
    }
  }

  lemma {:induction false} SeparateWithin(a: seq<Interval>, b: seq<Interval>)
    requires Separate(a) && Separate(b) && Within(a, b)
    ensures Total(a) <= Total(b)
    decreases |a| + |b|
  {
    SomeWithin(a, b);
    if a == [] {
      SeparateTotal(b);
    } else if a[|a| - 1].hi <= b[|b| - 1].lo {
      WithinBefore(a, b);
      SeparateWithin(a, b[..|b| - 1]);
    } else {
      var at := a[|a| - 1].lo;
      LastEnds(a, b);
      LastStarts(a, b);
      WithinCut(a, b);
      CutIs(b, at);
      SeparateWithin(a[..|a| - 1], Cut(b, at));
    }
  }

  // `a` and `b` share no instant, and together are `c`.
  ghost predicate Splits(c: seq<Interval>, a: seq<Interval>, b: seq<Interval>) {
    && (forall t: real :: Covered(c, t) <==> Covered(a, t) || Covered(b, t))
    && forall t: real :: !(Covered(a, t) && Covered(b, t))
  }

  ghost predicate EndsLast(a: seq<Interval>, b: seq<Interval>) {
    a != [] && (b != [] ==> b[|b| - 1].hi <= a[|a| - 1].hi)
  }

  lemma SplitsLast(c: seq<Interval>, a: seq<Interval>, b: seq<Interval>)
    requires Separate(a) && Separate(b) && Separate(c) && Splits(c, a, b) && EndsLast(a, b)
    ensures InLast(c, a[|a| - 1].lo) && c[|c| - 1].hi == a[|a| - 1].hi
  {
    SomeWithin(a, c);
    LastEnds(a, c);
    var x, y := a[|a| - 1], c[|c| - 1];
    if x.hi < y.hi {
      var t := Later(y.lo, x.hi);
      assert Has(c[|c| - 1], t) && Covered(c, t);
      BeyondEnd(a, t);
      if b != [] { BeyondEnd(b, t); }
    }
    LastStarts(a, c);
  }

  // Everything in `b` comes before the last interval of `a`.
  lemma OtherBefore(a: seq<Interval>, b: seq<Interval>, t: real)
    requires Separate(a) && Separate(b) && EndsLast(a, b)
    requires Covered(b, t) && !Covered(a, t)
    ensures t < a[|a| - 1].lo
  {
    if t >= b[|b| - 1].hi { BeyondEnd(b, t); }
    assert !Has(a[|a| - 1], t);
  }

  lemma SplitsCut(c: seq<Interval>, a: seq<Interval>, b: seq<Interval>)
    requires Separate(a) && Separate(b) && Splits(c, a, b) && EndsLast(a, b) && InLast(c, a[|a| - 1].lo)
    ensures Splits(Cut(c, a[|a| - 1].lo), a[..|a| - 1], b)
  {
    var at := a[|a| - 1].lo;
    var init, cut := a[..|a| - 1], Cut(c, at);
    forall t: real
      ensures (Covered(cut, t) <==> Covered(init, t) || Covered(b, t)) && !(Covered(init, t) && Covered(b, t))
    {
      CutCovered(c, at, t);
      InitCovered(a, t);
      if Covered(b, t) { OtherBefore(a, b, t); }
    }
  }

  lemma SplitsStep(c: seq<Interval>, a: seq<Interval>, b: seq<Interval>) returns (rest: seq<Interval>)
    requires Separate(a) && Separate(b) && Separate(c) && Splits(c, a, b) && EndsLast(a, b)
    ensures var n := |a| - 1;
            && Separate(a[..n]) && Separate(rest) && Splits(rest, a[..n], b)
            && Total(c) - Total(rest) == Total(a) - Total(a[..n])
  {
    SplitsLast(c, a, b);
    SplitsCut(c, a, b);
    rest := Cut(c, a[|a| - 1].lo);
    CutIs(c, a[|a| - 1].lo);
    WithoutLast(a);
  }

  lemma WithoutLast(a: seq<Interval>)
    requires Separate(a) && a != []
    ensures var n := |a| - 1; Separate(a[..n]) && Total(a) - Total(a[..n]) == a[n].hi - a[n].lo
  {
  }

  lemma {:induction false} SeparateSplits(c: seq<Interval>, a: seq<Interval>, b: seq<Interval>)
    requires Separate(a) && Separate(b) && Separate(c) && Splits(c, a, b)
    ensures Total(c) == Total(a) + Total(b)
    decreases |a| + |b|, !EndsLast(a, b)
  {
    if EndsLast(a, b) {
      var rest := SplitsStep(c, a, b);
      SeparateSplits(rest, a[..|a| - 1], b);
    } else if b != [] {
      SeparateSplits(c, b, a);
    } else {
      SomeWithin(c, []);
    }
  }

  // The intervals a coalesced list leaves once touching ones are joined.
  lemma SeparateForm(s: seq<Interval>) returns (r: seq<Interval>)
    requires Forward(s)
    ensures Separate(r) && Total(r) == Total(Coalesced(Ordered(s))) && SameCover(r, s)
  {
    var c := Coalesced(Ordered(s));
    r := Joined(c);
    OrderedApart(s);
    CoalescingKeepsCover(s);
    JoinedTotal(c);
    JoinedSeparate(c);
    forall t: real ensures Covered(r, t) <==> Covered(s, t) { JoinedCover(c, t); }
  }

  /** The total after coalescing measures the time covered: it is monotone in it. */
  lemma TotalMonotone(a: seq<Interval>, b: seq<Interval>)
    requires Forward(a) && Forward(b) && Within(a, b)
    ensures Total(Coalesced(Ordered(a))) <= Total(Coalesced(Ordered(b)))
  {
    var x := SeparateForm(a);
    var y := SeparateForm(b);
    SeparateWithin(x, y);
  }

  /** Logs that cover the same instants, however they cut it up or repeat it, have the same total. */
  lemma TotalMeasuresCover(a: seq<Interval>, b: seq<Interval>)
    requires Forward(a) && Forward(b) && SameCover(a, b)
    ensures Total(Coalesced(Ordered(a))) == Total(Coalesced(Ordered(b)))
  {
    TotalMonotone(a, b);
    TotalMonotone(b, a);
  }

  /** The totals of logs that share no instant add up. */
  lemma TotalAdditive(a: seq<Interval>, b: seq<Interval>)
    requires Forward(a) && Forward(b) && forall t: real :: !(Covered(a, t) && Covered(b, t))
    ensures Total(Coalesced(Ordered(a + b))) == Total(Coalesced(Ordered(a))) + Total(Coalesced(Ordered(b)))
  {
    var x := SeparateForm(a);
    var y := SeparateForm(b);
    var z := SeparateForm(a + b);
    forall t: real ensures Covered(z, t) <==> Covered(x, t) || Covered(y, t) { CoveredBoth(a, b, t); }
    SeparateSplits(z, x, y);
  }

  lemma CoveredBoth(a: seq<Interval>, b: seq<Interval>, t: real)
    ensures Covered(a + b, t) <==> Covered(a, t) || Covered(b, t)
  {
    SameMembersCover(a, a + b, t);
    SameMembersCover(b, a + b, t);
    if Covered(a + b, t) {
      var i :| 0 <= i < |a + b| && Has((a + b)[i], t);
      if i < |a| { assert Has(a[i], t); } else { assert Has(b[i - |a|], t); }
    }
  }

  // ---- Overlaps ----

  // The test takes intervals with both their ends.
  predicate Overlap(x: Interval, y: Interval) {
    !(x.lo > y.hi || y.lo > x.hi)
  }

  // Two of the intervals overlap.
  ghost predicate SomeOverlap(s: seq<Interval>) {
    exists x, y :: multiset{x, y} <= multiset(s) && Overlap(x, y)
  }

  method CheckAllIntervals(input: seq<Interval>) returns (found: bool)
    ensures found <==> exists i :: 0 < i < |input| && Overlap(Ordered(input)[i - 1], Ordered(input)[i])
    ensures Forward(input) ==> (found <==> SomeOverlap(input))
  {
    var s := SortByStart(input);
    if Forward(input) { OverlapFoundExactly(input); }
    var i := 1;
    while i < |s|
      invariant 1 <= i
      invariant forall k :: 0 < k < i && k < |s| ==> !Overlap(s[k - 1], s[k])
    {
      if Overlap(s[i - 1], s[i]) { return true; }
      i := i + 1;
    }
    return false;
  }

  // When no neighbours overlap, every interval ends before all later ones start.
  lemma {:induction false} NeighboursDecide(s: seq<Interval>, i: nat, j: nat)
    requires ByStart(s) && Forward(s) && i < j < |s|
    requires forall k :: 0 < k < |s| ==> !Overlap(s[k - 1], s[k])
    ensures s[i].hi < s[j].lo
  {
    assert s[j - 1].lo <= s[j].lo && !Overlap(s[j - 1], s[j]);
    if i == j - 1 {
    } else {
      NeighboursDecide(s, i, j - 1);
    }
  }

  lemma TwoAt(s: seq<Interval>, i: nat, j: nat)
    requires i < j < |s|
    ensures multiset{s[i], s[j]} <= multiset(s)
  {
    assert s == s[..j] + [s[j]] + s[j + 1..];
    assert s[i] == s[..j][i];
  }

  lemma TwoOf(s: seq<Interval>, x: Interval, y: Interval) returns (i: nat, j: nat)
    requires multiset{x, y} <= multiset(s)
    ensures i < j < |s| && ((s[i] == x && s[j] == y) || (s[i] == y && s[j] == x))
  {
    assert x in multiset(s);
    var k: nat :| k < |s| && s[k] == x;
    var rest := s[..k] + s[k + 1..];
    ListSort.WithoutOne(s, k);
    assert y in multiset(rest);
    var m: nat :| m < |rest| && rest[m] == y;
    if m < k { return m, k; } else { return k, m + 1; }
  }

  lemma NeighboursDecideAll(s: seq<Interval>)
    requires ByStart(s) && Forward(s)
    ensures SomeOverlap(s) <==> exists k :: 0 < k < |s| && Overlap(s[k - 1], s[k])
  {
    if k :| 0 < k < |s| && Overlap(s[k - 1], s[k]) {
      TwoAt(s, k - 1, k);
    } else if SomeOverlap(s) {
      var x, y :| multiset{x, y} <= multiset(s) && Overlap(x, y);
      var i, j := TwoOf(s, x, y);
      NeighboursDecide(s, i, j);
    }
  }

  /** Testing neighbours in order of start finds an overlap exactly when some two intervals overlap. */
  lemma OverlapFoundExactly(input: seq<Interval>)
    requires Forward(input)
    ensures SomeOverlap(input) <==>
              exists k :: 0 < k < |input| && Overlap(Ordered(input)[k - 1], Ordered(input)[k])
  {
    OrderedForward(input);
    OrderedIsSorted(input);
    NeighboursDecideAll(Ordered(input));
  }

  lemma OrderedForward(s: seq<Interval>)
    requires Forward(s)
    ensures ByStart(Ordered(s)) && Forward(Ordered(s))
  {
    OrderedIsSorted(s);
    forall i | 0 <= i < |s| ensures Ordered(s)[i].lo <= Ordered(s)[i].hi {
      assert Ordered(s)[i] in s;
    }
  }

  // ---- Gaps ----

  ghost function Gaps(s: seq<Interval>): seq<Interval> {
    if |s| <= 1 then []
    else
      Gaps(s[..|s| - 1])
      + if s[|s| - 2].hi < s[|s| - 1].lo then [Interval(s[|s| - 2].hi, s[|s| - 1].lo)] else []
  }

  method CheckIntervalGaps(input: seq<Interval>) returns (gaps: Option<seq<Interval>>)
    ensures gaps == if input == [] then None else Some(Gaps(Ordered(input)))
    ensures gaps.Some? ==> forall x :: x in gaps.value ==> x.lo < x.hi
  {
    if input == [] { return None; }
    var s := SortByStart(input);
    var found: seq<Interval> := [];
    var previous := s[0].hi;
    for i := 1 to |s|
      invariant previous == s[i - 1].hi && found == Gaps(s[..i])
    {
      assert s[..i + 1][..i] == s[..i];
      if previous < s[i].lo { found := found + [Interval(previous, s[i].lo)]; }
      previous := s[i].hi;
    }
    assert s[..|s|] == s;
    GapsAreProper(s);
    return Some(found);
  }

  // No gap is empty.
  lemma {:induction false} GapsAreProper(s: seq<Interval>)
    ensures forall x :: x in Gaps(s) ==> x.lo < x.hi
  {
    if |s| <= 1 {
    } else {
      GapsAreProper(s[..|s| - 1]);
    }
  }

  // An instant after some start and before some end.
  ghost predicate InSpan(s: seq<Interval>, t: real) {
    (exists i :: 0 <= i < |s| && s[i].lo <= t) && (exists j :: 0 <= j < |s| && t < s[j].hi)
  }

  ghost predicate GapAfter(s: seq<Interval>, i: nat, t: real) {
    i < |s| - 1 && s[i].hi <= t < s[i + 1].lo
  }

  ghost predicate InGap(s: seq<Interval>, t: real) {
    exists i: nat :: GapAfter(s, i, t)
  }

  lemma {:induction false} GapsAreInGap(s: seq<Interval>, t: real)
    ensures Covered(Gaps(s), t) <==> InGap(s, t)
  {
    if |s| <= 1 {
    } else {
      var n := |s| - 1;
      GapsAreInGap(s[..n], t);
      InGapInit(s, t);
      CoveredAdd(Gaps(s[..n]), Interval(s[n - 1].hi, s[n].lo), t);
      assert Gaps(s[..n]) + [] == Gaps(s[..n]);
    }
  }

  lemma InGapInit(s: seq<Interval>, t: real)
    requires |s| > 1
    ensures var n := |s| - 1; InGap(s, t) <==> InGap(s[..n], t) || s[n - 1].hi <= t < s[n].lo
  {
    var n := |s| - 1;
    if i: nat :| GapAfter(s[..n], i, t) { assert GapAfter(s, i, t); }
    if i: nat :| GapAfter(s, i, t) && i < n - 1 { assert GapAfter(s[..n], i, t); }
    if s[n - 1].hi <= t < s[n].lo { assert GapAfter(s, n - 1, t); }
  }

  // Every uncovered instant of the span lies in a reported gap,
  lemma UncoveredIsInGap(s: seq<Interval>, t: real)
    requires ByStart(s) && InSpan(s, t) && !Covered(s, t)
    ensures InGap(s, t)
  {
    var j :| 0 <= j < |s| && t < s[j].hi;
    assert !Has(s[j], t);
    var i := j;
    while i > 0 && t < s[i - 1].lo
      invariant 0 <= i <= j && t < s[i].lo
    {
      i := i - 1;
    }
    if i > 0 { assert !Has(s[i - 1], t) && GapAfter(s, i - 1, t); }
  }

  // and a reported gap is uncovered unless an earlier interval reaches into it.
  ghost predicate Reaches(s: seq<Interval>, j: nat, i: nat) {
    j < i < |s| - 1 && s[i].hi < s[i + 1].lo && s[i].hi < s[j].hi
  }

  ghost predicate ReachedInto(s: seq<Interval>) {
    exists i: nat, j: nat :: Reaches(s, j, i)
  }

  lemma GapIsUncovered(s: seq<Interval>, t: real)
    requires ByStart(s) && Forward(s) && !ReachedInto(s) && InGap(s, t)
    ensures InSpan(s, t) && !Covered(s, t)
  {
    var i: nat :| GapAfter(s, i, t);
    assert s[i].lo <= t && t < s[i + 1].hi;
    forall j | 0 <= j < |s| ensures !Has(s[j], t) {
      if j < i {
        assert !Reaches(s, j, i);
      } else if j > i + 1 {
        assert s[i + 1].lo <= s[j].lo;
      }
    }
  }

  lemma ReachedGapIsCovered(s: seq<Interval>) returns (t: real)
    requires ByStart(s) && Forward(s) && ReachedInto(s)
    ensures InGap(s, t) && Covered(s, t)
  {
    var i: nat, j: nat :| Reaches(s, j, i);
    t := s[i].hi;
    assert GapAfter(s, i, t);
    assert s[j].lo <= s[i].lo;
    assert Has(s[j], t);
  }

  ghost predicate GapsRight(s: seq<Interval>) {
    forall t: real :: Covered(Gaps(s), t) <==> InSpan(s, t) && !Covered(s, t)
  }

  /** The gaps reported are the uncovered part of the span exactly when no interval reaches past the end
      of a later one that has a gap behind it. */
  lemma GapsRightExactly(input: seq<Interval>)
    requires Forward(input)
    ensures GapsRight(Ordered(input)) <==> !ReachedInto(Ordered(input))
  {
    var s := Ordered(input);
    OrderedForward(input);
    if ReachedInto(s) {
      var t := ReachedGapIsCovered(s);
      GapsAreInGap(s, t);
    } else {
      forall t: real ensures Covered(Gaps(s), t) <==> InSpan(s, t) && !Covered(s, t) {
        GapsAreInGap(s, t);
        if InGap(s, t) { GapIsUncovered(s, t); }
        if InSpan(s, t) && !Covered(s, t) { UncoveredIsInGap(s, t); }
      }
    }
  }

  // Two short intervals inside a long one: the time between them is reported as a gap.
  lemma GapInsideAnInterval() returns (input: seq<Interval>)
    ensures Forward(input) && !GapsRight(Ordered(input))
  {
    input := [Interval(0.0, 10.0), Interval(1.0, 2.0), Interval(3.0, 4.0)];
    ListSort.SortedFixed(StartsFirst, input);
    assert Reaches(input, 0, 1);
    GapsRightExactly(input);
  }

  lemma {:induction false} GapsFillSpan(s: seq<Interval>)
    requires Apart(s) && s != []
    ensures Total(s) + Total(Gaps(s)) == s[|s| - 1].hi - s[0].lo
  {
    var n := |s| - 1;
    if n > 0 {
      GapsFillSpan(s[..n]);
      TotalAdd(Gaps(s[..n]), Interval(s[n - 1].hi, s[n].lo));
      assert s[n - 1].hi <= s[n].lo;
      assert Gaps(s[..n]) + [] == Gaps(s[..n]);
    } else {
      assert Total(s[..0]) == 0.0;
    }
  }

  /** After coalescing the gaps are right, and intervals and gaps together are as long as the span. */
  lemma CoalescedGaps(input: seq<Interval>)
    requires Forward(input) && input != []
    ensures var s := Coalesced(Ordered(input));
            GapsRight(Ordered(s)) && Total(s) + Total(Gaps(Ordered(s))) == s[|s| - 1].hi - s[0].lo
  {
    var s := Coalesced(Ordered(input));
    OrderedApart(input);
    forall i, j | 0 <= i < j < |s| ensures s[i].lo <= s[j].lo && s[i].hi <= s[j].hi { assert s[i].hi <= s[j].lo; }
    ListSort.SortedFixed(StartsFirst, s);
    GapsRightExactly(s);
    GapsFillSpan(s);
  }
}
