/** The list sort that the server's linked-list macros provide: a bottom-up merge
    sort on runs of doubling length, taking the left element on a tie.  `leq(a, b)`
    stands for `cmp(a, b) <= 0`. */
module ListSort {
  import opened Basics

  ghost predicate PreorderOn<T(!new)>(leq: (T, T) -> bool, s: seq<T>) {
    && (forall x, y {:trigger leq(x, y)} :: x in s && y in s ==> leq(x, y) || leq(y, x))
    && (forall x, y, z {:trigger leq(x, y), leq(y, z)} ::
          x in s && y in s && z in s && leq(x, y) && leq(y, z) ==> leq(x, z))
  }

  ghost predicate Sorted<T>(leq: (T, T) -> bool, s: seq<T>) {
    forall i, j :: 0 <= i < j < |s| ==> leq(s[i], s[j])
  }

  // Reference definition: insert each element, from the last to the first, before its equals.
  ghost function Insert<T>(leq: (T, T) -> bool, x: T, s: seq<T>): (r: seq<T>)
    ensures |r| == |s| + 1
  {
    if s == [] || leq(x, s[0]) then [x] + s else [s[0]] + Insert(leq, x, s[1..])
  }

  ghost function StableSort<T>(leq: (T, T) -> bool, s: seq<T>): (r: seq<T>)
    ensures |r| == |s|
  {
    if s == [] then [] else Insert(leq, s[0], StableSort(leq, s[1..]))
  }

  ghost function Merge<T>(leq: (T, T) -> bool, a: seq<T>, b: seq<T>): (r: seq<T>)
    ensures |r| == |a| + |b|
  {
    if a == [] then b
    else if b == [] then a
    else if leq(a[0], b[0]) then [a[0]] + Merge(leq, a[1..], b)
    else [b[0]] + Merge(leq, a, b[1..])
  }

  lemma {:induction false} InsertPermutes<T>(leq: (T, T) -> bool, x: T, s: seq<T>)
    ensures multiset(Insert(leq, x, s)) == multiset{x} + multiset(s)
  {
    if s != [] && !leq(x, s[0]) {
      assert s == [s[0]] + s[1..];
      InsertPermutes(leq, x, s[1..]);
    }
  }

  lemma {:induction false} SortPermutes<T>(leq: (T, T) -> bool, s: seq<T>)
    ensures multiset(StableSort(leq, s)) == multiset(s)
    ensures forall y :: y in StableSort(leq, s) <==> y in s
  {
    if s != [] {
      assert s == [s[0]] + s[1..];
      SortPermutes(leq, s[1..]);
      InsertPermutes(leq, s[0], StableSort(leq, s[1..]));
    }
    SameMembers(StableSort(leq, s), s);
  }

  lemma {:induction false} MergePermutes<T>(leq: (T, T) -> bool, a: seq<T>, b: seq<T>)
    ensures multiset(Merge(leq, a, b)) == multiset(a) + multiset(b)
    decreases |a| + |b|
  {
    if a != [] && b != [] {
      assert a == [a[0]] + a[1..] && b == [b[0]] + b[1..];
      if leq(a[0], b[0]) { MergePermutes(leq, a[1..], b); } else { MergePermutes(leq, a, b[1..]); }
    }
  }

  // The elements of `s` that compare equal to `x`, in their order in `s`.
  ghost function Ties<T>(leq: (T, T) -> bool, x: T, s: seq<T>): seq<T> {
    if s == [] then []
    else (if leq(x, s[0]) && leq(s[0], x) then [s[0]] else []) + Ties(leq, x, s[1..])
  }

  // `a` is `b` rearranged: entry `i` comes from place `p[i]`, and every place is used once.
  ghost predicate From<T>(a: seq<T>, b: seq<T>, p: seq<nat>) {
    && |p| == |a| == |b| && Distinct(p)
    && forall i :: 0 <= i < |p| ==> p[i] < |b| && a[i] == b[p[i]]
  }

  // The places of a sequence with place `j` taken out.
  ghost function Around(p: seq<nat>, j: nat): (r: seq<nat>)
    ensures |r| == |p| && forall i :: 0 <= i < |p| ==> r[i] == if p[i] < j then p[i] else p[i] + 1
  {
    seq(|p|, i requires 0 <= i < |p| => if p[i] < j then p[i] else p[i] + 1)
  }

  lemma FromOneMore<T>(a: seq<T>, b: seq<T>, j: nat, p: seq<nat>)
    requires a != [] && j < |b| && b[j] == a[|a| - 1] && From(a[..|a| - 1], b[..j] + b[j + 1..], p)
    ensures From(a, b, Around(p, j) + [j])
  {
    var n, rest, r := |a| - 1, b[..j] + b[j + 1..], Around(p, j) + [j];
    forall i | 0 <= i < |r| ensures r[i] < |b| && a[i] == b[r[i]] {
      if i < n { assert a[i] == a[..n][i] == rest[p[i]]; }
    }
  }

  lemma WithoutOne<T>(s: seq<T>, j: nat)
    requires j < |s|
    ensures multiset(s[..j] + s[j + 1..]) == multiset(s) - multiset{s[j]}
  {
    assert s == s[..j] + [s[j]] + s[j + 1..];
  }

  /** Sequences with the same members equally often are rearrangements of each other. */
  lemma {:induction false} Rearrangement<T>(a: seq<T>, b: seq<T>) returns (p: seq<nat>)
    requires multiset(a) == multiset(b)
    ensures From(a, b, p)
  {
    if a == [] {
      assert |multiset(b)| == |multiset(a)|;
      p := [];
    } else {
      var n := |a| - 1;
      assert a[n] in multiset(b);
      var j :| 0 <= j < |b| && b[j] == a[n];
      WithoutOne(a, n);
      WithoutOne(b, j);
      assert a[..n] + a[n + 1..] == a[..n];
      p := Rearrangement(a[..n], b[..j] + b[j + 1..]);
      FromOneMore(a, b, j, p);
      p := Around(p, j) + [j];
    }
  }

  lemma SameMembers<T>(a: seq<T>, b: seq<T>)
    requires multiset(a) == multiset(b)
    ensures forall x :: x in a <==> x in b
  {
    forall x ensures x in a <==> x in b {
      assert x in a <==> x in multiset(a);
      assert x in b <==> x in multiset(b);
    }
  }

  lemma InsertMembers<T>(leq: (T, T) -> bool, x: T, s: seq<T>)
    ensures forall y :: y in Insert(leq, x, s) <==> y == x || y in s
  {
    InsertPermutes(leq, x, s);
    SameMembers(Insert(leq, x, s), [x] + s);
  }

  lemma SortedCons<T>(leq: (T, T) -> bool, x: T, s: seq<T>)
    requires Sorted(leq, s) && forall j :: 0 <= j < |s| ==> leq(x, s[j])
    ensures Sorted(leq, [x] + s)
  {
  }

  lemma LeqAll<T(!new)>(leq: (T, T) -> bool, x: T, s: seq<T>)
    requires PreorderOn(leq, [x] + s) && Sorted(leq, s) && s != [] && leq(x, s[0])
    ensures forall j :: 0 <= j < |s| ==> leq(x, s[j])
  {
    var all := [x] + s;
    assert x == all[0] && s[0] == all[1];
    forall j | 0 <= j < |s| ensures leq(x, s[j]) {
      assert s[j] == all[j + 1];
      if j > 0 { assert leq(s[0], s[j]); }
    }
  }

  lemma PreorderPart<T(!new)>(leq: (T, T) -> bool, a: seq<T>, b: seq<T>)
    requires PreorderOn(leq, b) && forall y :: y in a ==> y in b
    ensures PreorderOn(leq, a)
  {
  }

  // An element that belongs behind the first leaves the first in its place.
  lemma FirstStays<T(!new)>(leq: (T, T) -> bool, x: T, s: seq<T>)
    requires PreorderOn(leq, [x] + s) && Sorted(leq, s) && s != [] && !leq(x, s[0])
    ensures forall j :: 0 <= j < |s| ==> leq(s[0], Insert(leq, x, s[1..])[j])
  {
    var all, r := [x] + s, Insert(leq, x, s[1..]);
    assert x == all[0] && s[0] == all[1];
    InsertMembers(leq, x, s[1..]);
    forall j | 0 <= j < |r| ensures leq(s[0], r[j]) {
      assert r[j] in r;
      if r[j] != x {
        var i :| 0 <= i < |s[1..]| && s[1..][i] == r[j];
        assert s[i + 1] == r[j];
      }
    }
  }

  lemma {:induction false} InsertSorted<T(!new)>(leq: (T, T) -> bool, x: T, s: seq<T>)
    requires PreorderOn(leq, [x] + s) && Sorted(leq, s)
    ensures Sorted(leq, Insert(leq, x, s))
  {
    if s == [] {
    } else if leq(x, s[0]) {
      LeqAll(leq, x, s);
      SortedCons(leq, x, s);
    } else {
      PreorderPart(leq, [x] + s[1..], [x] + s);
      InsertSorted(leq, x, s[1..]);
      FirstStays(leq, x, s);
      SortedCons(leq, s[0], Insert(leq, x, s[1..]));
    }
  }

  lemma NotBothTie<T(!new)>(leq: (T, T) -> bool, k: T, x: T, y: T, all: seq<T>)
    requires PreorderOn(leq, all) && k in all && x in all && y in all && !leq(x, y)
    ensures !(leq(x, k) && leq(k, y))
  {
  }

  lemma TiesCons<T>(leq: (T, T) -> bool, k: T, x: T, s: seq<T>)
    ensures Ties(leq, k, [x] + s) == (if leq(k, x) && leq(x, k) then [x] else []) + Ties(leq, k, s)
  {
    assert ([x] + s)[1..] == s;
  }

  lemma {:induction false} InsertTies<T(!new)>(leq: (T, T) -> bool, x: T, s: seq<T>, k: T)
    requires PreorderOn(leq, [k, x] + s)
    ensures Ties(leq, k, Insert(leq, x, s)) == Ties(leq, k, [x] + s)
  {
    if s != [] && !leq(x, s[0]) {
      var all, t := [k, x] + s, s[1..];
      PreorderPart(leq, [k, x] + t, all);
      InsertTies(leq, x, t, k);
      assert k == all[0] && x == all[1] && s[0] == all[2];
      NotBothTie(leq, k, x, s[0], all);
      TiesCons(leq, k, s[0], Insert(leq, x, t));
      TiesCons(leq, k, x, t);
      TiesCons(leq, k, x, s);
      TiesCons(leq, k, s[0], t);
      assert s == [s[0]] + t;
    }
  }

  // Ties of an arbitrary probe survive sorting.
  lemma {:induction false} TiesAgree<T(!new)>(leq: (T, T) -> bool, k: T, s: seq<T>)
    requires PreorderOn(leq, [k] + s)
    ensures Ties(leq, k, StableSort(leq, s)) == Ties(leq, k, s)
  {
    if s == [] {
    } else {
      var t := s[1..];
      assert forall y :: y in [k] + t ==> y in [k] + s;
      TiesAgree(leq, k, t);
      SortPermutes(leq, t);
      assert forall y :: y in [k, s[0]] + StableSort(leq, t) ==> y in [k] + s;
      InsertTies(leq, s[0], StableSort(leq, t), k);
      assert ([s[0]] + StableSort(leq, t))[1..] == StableSort(leq, t);
    }
  }

  lemma {:induction false} SortSorts<T(!new)>(leq: (T, T) -> bool, s: seq<T>)
    requires PreorderOn(leq, s)
    ensures Sorted(leq, StableSort(leq, s))
  {
    if s == [] {
    } else {
      var t := s[1..];
      SortSorts(leq, t);
      SortPermutes(leq, t);
      assert forall y :: y in [s[0]] + StableSort(leq, t) ==> y in s;
      InsertSorted(leq, s[0], StableSort(leq, t));
    }
  }

  /** The reference sort sorts, permutes, and keeps tied elements in their order. */
  lemma StableSortIsStable<T(!new)>(leq: (T, T) -> bool, s: seq<T>)
    requires PreorderOn(leq, s)
    ensures Sorted(leq, StableSort(leq, s))
    ensures multiset(StableSort(leq, s)) == multiset(s)
    ensures forall k :: k in s ==> Ties(leq, k, StableSort(leq, s)) == Ties(leq, k, s)
  {
    SortSorts(leq, s);
    SortPermutes(leq, s);
    forall k | k in s ensures Ties(leq, k, StableSort(leq, s)) == Ties(leq, k, s) {
      assert forall y :: y in [k] + s ==> y in s;
      TiesAgree(leq, k, s);
    }
  }

  /** Sorting a sorted list changes nothing. */
  lemma {:induction false} SortedFixed<T>(leq: (T, T) -> bool, s: seq<T>)
    requires Sorted(leq, s)
    ensures StableSort(leq, s) == s
  {
    if s == [] {
    } else {
      SortedFixed(leq, s[1..]);
      assert |s| > 1 ==> s[1..][0] == s[1];
    }
  }

  // Inserting into the left run of a merge is inserting into the merge.
  lemma {:induction false} InsertMerge<T(!new)>(leq: (T, T) -> bool, x: T, a: seq<T>, b: seq<T>)
    requires PreorderOn(leq, [x] + a + b)
    ensures Merge(leq, Insert(leq, x, a), b) == Insert(leq, x, Merge(leq, a, b))
    decreases |a| + |b|
  {
    var all := [x] + a + b;
    assert x in all && (forall y :: y in a ==> y in all) && forall y :: y in b ==> y in all;
    if b == [] {
    } else if a != [] && !leq(x, a[0]) {
      var a' := a[1..];
      assert ([a[0]] + Insert(leq, x, a'))[1..] == Insert(leq, x, a');
      assert a[0] in all && b[0] in all;
      if leq(a[0], b[0]) {
        assert forall y :: y in [x] + a' + b ==> y in all;
        InsertMerge(leq, x, a', b);
        assert ([a[0]] + Merge(leq, a', b))[1..] == Merge(leq, a', b);
      } else {
        var b' := b[1..];
        assert forall y :: y in [x] + a + b' ==> y in all;
        InsertMerge(leq, x, a, b');
        assert ([b[0]] + Merge(leq, a, b'))[1..] == Merge(leq, a, b');
      }
    } else {
      assert Insert(leq, x, a) == [x] + a && ([x] + a)[1..] == a;
      assert b[0] in all;
      if leq(x, b[0]) {
        if a != [] { assert a[0] in all; }
      } else {
        var b' := b[1..];
        assert forall y :: y in [x] + a + b' ==> y in all;
        if a != [] { assert a[0] in all; assert !leq(a[0], b[0]); }
        InsertMerge(leq, x, a, b');
        assert ([b[0]] + Merge(leq, a, b'))[1..] == Merge(leq, a, b');
      }
    }
  }

  /** Merging two sorted runs sorts their concatenation. */
  lemma {:induction false} MergeSorts<T(!new)>(leq: (T, T) -> bool, a: seq<T>, b: seq<T>)
    requires PreorderOn(leq, a + b)
    ensures Merge(leq, StableSort(leq, a), StableSort(leq, b)) == StableSort(leq, a + b)
  {
    if a == [] {
      assert a + b == b;
    } else {
      var a' := a[1..];
      assert (a + b)[1..] == a' + b;
      assert forall y :: y in a' + b ==> y in a + b;
      MergeSorts(leq, a', b);
      SortPermutes(leq, a');
      SortPermutes(leq, b);
      assert forall y :: y in [a[0]] + StableSort(leq, a') + StableSort(leq, b) ==> y in a + b;
      InsertMerge(leq, a[0], StableSort(leq, a'), StableSort(leq, b));
    }
  }

  // One pass as a function: merge neighbouring runs of `k` elements, two by two.
  ghost function Pass<T>(leq: (T, T) -> bool, s: seq<T>, k: nat): (r: seq<T>)
    requires k > 0
    decreases |s|
  {
    if |s| <= k then s
    else if |s| <= 2 * k then Merge(leq, s[..k], s[k..])
    else Merge(leq, s[..k], s[k..2 * k]) + Pass(leq, s[2 * k..], k)
  }

  lemma {:induction false} PassPermutes<T>(leq: (T, T) -> bool, s: seq<T>, k: nat)
    requires k > 0
    ensures multiset(Pass(leq, s, k)) == multiset(s) && |Pass(leq, s, k)| == |s|
    decreases |s|
  {
    if k < |s| <= 2 * k {
      assert s == s[..k] + s[k..];
      MergePermutes(leq, s[..k], s[k..]);
    } else if 2 * k < |s| {
      assert s == s[..k] + s[k..2 * k] + s[2 * k..];
      MergePermutes(leq, s[..k], s[k..2 * k]);
      PassPermutes(leq, s[2 * k..], k);
    }
  }

  // Every run of `k` elements sorted on its own: the list between two passes.
  ghost function Runs<T>(leq: (T, T) -> bool, s: seq<T>, k: nat): seq<T>
    requires k > 0
    decreases |s|
  {
    if |s| <= k then StableSort(leq, s) else StableSort(leq, s[..k]) + Runs(leq, s[k..], k)
  }

  lemma {:induction false} RunsOfOne<T>(leq: (T, T) -> bool, s: seq<T>)
    ensures Runs(leq, s, 1) == s
  {
    if |s| == 1 {
      assert StableSort(leq, s[1..]) == [];
    } else if |s| > 1 {
      RunsOfOne(leq, s[1..]);
      assert s[..1][1..] == [];
      assert StableSort(leq, s[..1]) == [s[0]];
    }
  }

  lemma PassOne<T>(leq: (T, T) -> bool, a: seq<T>, b: seq<T>, k: nat)
    requires |a| == k > 0 && 0 < |b| <= k
    ensures Pass(leq, a + b, k) == Merge(leq, a, b)
  {
    assert (a + b)[..k] == a && (a + b)[k..] == b;
  }

  lemma PassTwo<T>(leq: (T, T) -> bool, a: seq<T>, b: seq<T>, c: seq<T>, k: nat)
    requires |a| == |b| == k > 0 && c != []
    ensures Pass(leq, a + (b + c), k) == Merge(leq, a, b) + Pass(leq, c, k)
  {
    var s := a + (b + c);
    assert s[..k] == a && s[k..2 * k] == b && s[2 * k..] == c;
  }

  // Two neighbouring runs of `k` elements, and the run of `2 * k` they merge into.
  lemma TwoRuns<T(!new)>(leq: (T, T) -> bool, s: seq<T>, k: nat)
    requires 0 < k && 2 * k < |s| && PreorderOn(leq, s)
    ensures Runs(leq, s, k) == StableSort(leq, s[..k]) + (StableSort(leq, s[k..2 * k]) + Runs(leq, s[2 * k..], k))
    ensures Merge(leq, StableSort(leq, s[..k]), StableSort(leq, s[k..2 * k])) == StableSort(leq, s[..2 * k])
  {
    assert s[k..][..k] == s[k..2 * k] && s[k..][k..] == s[2 * k..];
    assert s[..k] + s[k..2 * k] == s[..2 * k];
    MergeSorts(leq, s[..k], s[k..2 * k]);
  }

  lemma {:induction false} RunsNonempty<T>(leq: (T, T) -> bool, s: seq<T>, k: nat)
    requires k > 0
    ensures |Runs(leq, s, k)| == |s|
    decreases |s|
  {
    if |s| <= k {
    } else {
      RunsNonempty(leq, s[k..], k);
    }
  }

  lemma PreorderDrop<T(!new)>(leq: (T, T) -> bool, s: seq<T>, p: nat)
    requires p <= |s| && PreorderOn(leq, s)
    ensures PreorderOn(leq, s[p..])
  {
    assert forall y :: y in s[p..] ==> y in s;
  }

  /** A pass doubles the length of the sorted runs. */
  lemma {:induction false} PassDoubles<T(!new)>(leq: (T, T) -> bool, s: seq<T>, k: nat)
    requires k > 0 && PreorderOn(leq, s)
    ensures Pass(leq, Runs(leq, s, k), k) == Runs(leq, s, 2 * k)
    decreases |s|
  {
    if |s| <= k {
    } else if |s| <= 2 * k {
      PassOne(leq, StableSort(leq, s[..k]), StableSort(leq, s[k..]), k);
      assert s[..k] + s[k..] == s;
      MergeSorts(leq, s[..k], s[k..]);
    } else {
      var rest := s[2 * k..];
      TwoRuns(leq, s, k);
      RunsNonempty(leq, rest, k);
      PassTwo(leq, StableSort(leq, s[..k]), StableSort(leq, s[k..2 * k]), Runs(leq, rest, k), k);
      PreorderDrop(leq, s, 2 * k);
      PassDoubles(leq, rest, k);
    }
  }

  lemma TakeLeft<T>(leq: (T, T) -> bool, list: seq<T>, p: nat, run: nat, q: nat, e: nat)
    requires p < run <= q <= e <= |list| && (q == e || leq(list[p], list[q]))
    ensures Merge(leq, list[p..run], list[q..e]) == [list[p]] + Merge(leq, list[p + 1..run], list[q..e])
  {
    assert list[p..run][1..] == list[p + 1..run];
    if q == e { assert list[p..run] == [list[p]] + list[p + 1..run]; }
  }

  lemma TakeRight<T>(leq: (T, T) -> bool, list: seq<T>, p: nat, run: nat, q: nat, e: nat)
    requires p <= run <= q < e <= |list| && (p == run || !leq(list[p], list[q]))
    ensures Merge(leq, list[p..run], list[q..e]) == [list[q]] + Merge(leq, list[p..run], list[q + 1..e])
  {
    assert list[q..e][1..] == list[q + 1..e];
    if p == run { assert list[q..e] == [list[q]] + list[q + 1..e]; }
  }

  // `left(p, q)` is what the two runs still make from `p` and `q` on.
  ghost predicate TakesLeft<T>(list: seq<T>, left: (nat, nat) -> seq<T>, p: nat, q: nat)
    requires p < |list|
  {
    left(p, q) == [list[p]] + left(p + 1, q)
  }

  ghost predicate TakesRight<T>(list: seq<T>, left: (nat, nat) -> seq<T>, p: nat, q: nat)
    requires q < |list|
  {
    left(p, q) == [list[q]] + left(p, q + 1)
  }

  ghost predicate Merges<T>(leq: (T, T) -> bool, list: seq<T>, run: nat, e: nat, left: (nat, nat) -> seq<T>) {
    && run <= e <= |list| && left(run, e) == []
    && (forall p: nat, q: nat :: p < run <= q <= e && (q == e || leq(list[p], list[q])) ==> TakesLeft(list, left, p, q))
    && (forall p: nat, q: nat ::
          p <= run <= q < e && (p == run || !leq(list[p], list[q])) ==> TakesRight(list, left, p, q))
  }

  ghost function MergeFrom<T>(leq: (T, T) -> bool, list: seq<T>, run: nat, e: nat): (nat, nat) -> seq<T>
    requires run <= e <= |list|
  {
    (p: nat, q: nat) => if p <= run <= q <= e then Merge(leq, list[p..run], list[q..e]) else []
  }

  lemma MergeFromMerges<T>(leq: (T, T) -> bool, list: seq<T>, run: nat, e: nat)
    requires run <= e <= |list|
    ensures Merges(leq, list, run, e, MergeFrom(leq, list, run, e))
  {
    MergeFromLeft(leq, list, run, e);
    MergeFromRight(leq, list, run, e);
  }

  lemma MergeFromLeft<T>(leq: (T, T) -> bool, list: seq<T>, run: nat, e: nat)
    requires run <= e <= |list|
    ensures forall p: nat, q: nat :: p < run <= q <= e && (q == e || leq(list[p], list[q])) ==>
              TakesLeft(list, MergeFrom(leq, list, run, e), p, q)
  {
    forall p: nat, q: nat | p < run <= q <= e && (q == e || leq(list[p], list[q]))
      ensures TakesLeft(list, MergeFrom(leq, list, run, e), p, q)
    {
      TakeLeft(leq, list, p, run, q, e);
    }
  }

  lemma MergeFromRight<T>(leq: (T, T) -> bool, list: seq<T>, run: nat, e: nat)
    requires run <= e <= |list|
    ensures forall p: nat, q: nat :: p <= run <= q < e && (p == run || !leq(list[p], list[q])) ==>
              TakesRight(list, MergeFrom(leq, list, run, e), p, q)
  {
    forall p: nat, q: nat | p <= run <= q < e && (p == run || !leq(list[p], list[q]))
      ensures TakesRight(list, MergeFrom(leq, list, run, e), p, q)
    {
      TakeRight(leq, list, p, run, q, e);
    }
  }

  // The inner loop, on the list from `p` on: merge its first `run` elements with the at most
  // `insize` that follow, and leave `q` at what comes after both.
  method MergeLoop<T>(list: seq<T>, run: nat, insize: nat, leq: (T, T) -> bool, ghost e: nat,
                      ghost left: (nat, nat) -> seq<T>)
    returns (merged: seq<T>, rest: seq<T>)
    requires 0 < run <= |list| && e == (if run + insize <= |list| then run + insize else |list|)
    requires Merges(leq, list, run, e, left)
    ensures merged == left(0, run) && rest == list[e..]
  {
    var p, q, psize, qsize := 0, run, run, insize;
    merged := [];
    while psize > 0 || (qsize > 0 && q < |list|)
      invariant 0 <= p <= run <= q <= e
      invariant psize == run - p && qsize == run + insize - q
      invariant left(0, run) == merged + left(p, q)
      decreases psize + qsize
    {
      if psize == 0 || !(qsize == 0 || q == |list| || leq(list[p], list[q])) {
        assert TakesRight(list, left, p, q);
        Assoc(merged, [list[q]], left(p, q + 1));
        merged := merged + [list[q]];
        q, qsize := q + 1, qsize - 1;
      } else {
        assert TakesLeft(list, left, p, q);
        Assoc(merged, [list[p]], left(p + 1, q));
        merged := merged + [list[p]];
        p, psize := p + 1, psize - 1;
      }
    }
    rest := list[q..];
  }

  method MergeRuns<T>(list: seq<T>, run: nat, insize: nat, leq: (T, T) -> bool)
    returns (merged: seq<T>, rest: seq<T>)
    requires 0 < run <= |list|
    ensures var e := if run + insize <= |list| then run + insize else |list|;
            merged == Merge(leq, list[..run], list[run..e]) && rest == list[e..]
  {
    ghost var e := if run + insize <= |list| then run + insize else |list|;
    MergeFromMerges(leq, list, run, e);
    merged, rest := MergeLoop(list, run, insize, leq, e, MergeFrom(leq, list, run, e));
    assert list[0..run] == list[..run];
  }

  // Walk over a run of at most `insize` elements, stopping at the end of the list.
  method StepOver(n: nat, insize: nat) returns (psize: nat)
    requires 0 < n && 0 < insize
    ensures psize == if n <= insize then n else insize
  {
    psize := 0;
    for i := 0 to insize
      invariant psize == i < n
    {
      psize := psize + 1;
      if psize == n { break; }
    }
  }

  // One round of a pass.
  method MergeNext<T>(p: seq<T>, insize: nat, leq: (T, T) -> bool) returns (merged: seq<T>, q: seq<T>)
    requires 0 < insize && p != []
    ensures |q| == if |p| <= 2 * insize then 0 else |p| - 2 * insize
    ensures Pass(leq, p, insize) == merged + Pass(leq, q, insize)
  {
    var psize := StepOver(|p|, insize);
    merged, q := MergeRuns(p, psize, insize, leq);
    if |p| <= insize {
      assert p[..psize] == p && p[psize..|p|] == [];
    } else if |p| <= 2 * insize {
      assert p[psize..|p|] == p[psize..];
    }
  }

  // One pass over the list.
  method MergePass<T>(list: seq<T>, insize: nat, leq: (T, T) -> bool)
    returns (out: seq<T>, nmerges: nat)
    requires insize > 0
    ensures out == Pass(leq, list, insize)
    ensures nmerges <= 1 <==> |list| <= 2 * insize
  {
    var p := list;
    out, nmerges := [], 0;
    while p != []
      invariant nmerges == 0 ==> p == list
      invariant nmerges == 1 ==> |p| == if |list| <= 2 * insize then 0 else |list| - 2 * insize
      invariant nmerges >= 2 ==> |list| > 2 * insize
      invariant Pass(leq, list, insize) == out + Pass(leq, p, insize)
      decreases |p|
    {
      nmerges := nmerges + 1;
      var merged, q := MergeNext(p, insize, leq);
      Assoc(out, merged, Pass(leq, q, insize));
      out, p := out + merged, q;
    }
  }

  // Runs of `k` elements of the list, each sorted; one pass makes runs of twice as many.
  lemma OnePass<T(!new)>(leq: (T, T) -> bool, list: seq<T>, out: seq<T>, k: nat)
    requires k > 0 && (PreorderOn(leq, list) ==> out == Runs(leq, list, k))
    ensures PreorderOn(leq, list) ==> Pass(leq, out, k) == Runs(leq, list, 2 * k)
  {
    if PreorderOn(leq, list) { PassDoubles(leq, list, k); }
  }

  ghost predicate InRuns<T(!new)>(leq: (T, T) -> bool, list: seq<T>, out: seq<T>, k: nat)
    requires k > 0
  {
    multiset(out) == multiset(list) && |out| == |list| && (PreorderOn(leq, list) ==> out == Runs(leq, list, k))
  }

  // One pass, and whether there is to be another.
  method PassOver<T(!new)>(ghost list: seq<T>, out: seq<T>, insize: nat, leq: (T, T) -> bool)
    returns (next: seq<T>, looping: bool)
    requires insize > 0 && out != [] && InRuns(leq, list, out, insize)
    ensures InRuns(leq, list, next, 2 * insize)
    ensures looping <==> |list| > 2 * insize
  {
    var nmerges;
    OnePass(leq, list, out, insize);
    next, nmerges := MergePass(out, insize, leq);
    PassPermutes(leq, out, insize);
    looping := nmerges > 1;
  }

  /** The whole macro: passes with runs of 1, 2, 4, ... until one pass makes at most one merge. */
  method Sort<T(!new)>(list: seq<T>, leq: (T, T) -> bool) returns (out: seq<T>)
    ensures multiset(out) == multiset(list)
    ensures PreorderOn(leq, list) ==> out == StableSort(leq, list)
  {
    out := list;
    if list != [] {
      var insize, looping := 1, true;
      RunsOfOne(leq, list);
      while looping
        invariant insize > 0 && out != [] && InRuns(leq, list, out, insize)
        invariant !looping ==> |list| <= insize
        decreases looping, if |list| <= insize then 0 else |list| - insize
      {
        out, looping := PassOver(list, out, insize, leq);
        insize := insize * 2;
      }
    }
  }
}
