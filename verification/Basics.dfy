/** Facts about products, remainders, concatenation and distinct numbers that several modules use. */
module Basics {
  // How many values 64 bits have.
  const WORD: nat := 0x1_0000_0000_0000_0000

  lemma Assoc<T>(a: seq<T>, b: seq<T>, c: seq<T>)
    ensures a + (b + c) == a + b + c
  {
  }

  lemma Distribute(a: int, b: int, c: int)
    ensures (a + b) * c == a * c + b * c
    ensures c * (a + b) == c * a + c * b
  {
  }

  lemma Nonneg(a: nat, c: nat)
    ensures a * c >= 0
  {
  }

  // Products keep their distance.
  lemma Below(a: nat, b: nat, c: nat)
    requires a < b
    ensures a * c + c <= b * c
  {
    Distribute(a + 1, b - a - 1, c);
    Distribute(a, 1, c);
    Nonneg(b - a - 1, c);
  }

  lemma Remainder(x: nat, n: nat, q: nat, r: nat)
    requires r < n && x == n * q + r
    ensures x % n == r
  {
    var q', r' := x / n, x % n;
    assert n * q + r == n * q' + r';
    if q < q' { Below(q, q', n); }
    if q' < q { Below(q', q, n); }
  }

  predicate Distinct(s: seq<nat>) {
    forall i, j :: 0 <= i < j < |s| ==> s[i] != s[j]
  }

  /** Pigeonhole: there are at most `n` distinct numbers below `n`. */
  lemma {:induction false} AtMost(s: seq<nat>, n: nat)
    requires Distinct(s) && forall i :: 0 <= i < |s| ==> s[i] < n
    ensures |s| <= n
    decreases n
  {
    if s == [] {
    } else {
      assert s[0] < n;
      var m := n - 1;
      if k :| 0 <= k < |s| && s[k] == m {
        AtMost(s[..k] + s[k + 1..], m);
      } else {
        AtMost(s, m);
      }
    }
  }

  lemma RoomForOneMore(s: seq<nat>, n: nat, x: nat)
    requires Distinct(s) && (forall i :: 0 <= i < |s| ==> s[i] < n) && x < n && x !in s
    ensures |s| < n
  {
    AtMost(s + [x], n);
  }

  lemma LastOff<T>(a: seq<T>, b: seq<T>)
    requires b != []
    ensures var n := |b| - 1; b == b[..n] + [b[n]] && a + b == a + b[..n] + [b[n]]
  {
  }
}
