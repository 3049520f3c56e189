/** Finding the objects with a tag: one client asking every server, or all clients asking a share of the
    servers each and exchanging what they got.  `answers[i]` is what server `i` replies. */
module KvtagQuery {
  import opened Basics
  import opened Gather

  type Id = nat

  // ---- One client ----

  // The servers from `from` to below `to`; the first reply is taken over, later ones are copied behind it.
  method QueryRange(answers: seq<seq<Id>>, from: nat, to: nat) returns (ids: seq<Id>)
    requires from <= to <= |answers|
    ensures ids == Flat(answers[from..to])
  {
    ids := [];
    var i := from;
    while i < to
      invariant from <= i <= to && ids == Flat(answers[from..i])
    {
      var reply := answers[i];
      FlatNext(answers, from, i);
      if i == from {
        ids := reply;
      } else if |reply| > 0 {
        ids := ids + reply;
      }
      i := i + 1;
    }
  }

  lemma FlatNext(answers: seq<seq<Id>>, from: nat, i: nat)
    requires from <= i < |answers|
    ensures Flat(answers[from..i + 1]) == Flat(answers[from..i]) + answers[i]
    ensures i == from ==> Flat(answers[from..i + 1]) == answers[i]
  {
    assert answers[from..i + 1] == answers[from..i] + [answers[i]];
    FlatAdd(answers[from..i], answers[i]);
    if i == from {
      assert answers[from..i] == [];
      assert [] + answers[i] == answers[i];
    }
  }

  method QueryAll(answers: seq<seq<Id>>) returns (ids: seq<Id>)
    ensures ids == Flat(answers)
  {
    ids := QueryRange(answers, 0, |answers|);
    assert answers[0..|answers|] == answers;
  }

  // ---- The share of one of `nClient` clients ----

  method AssignServer(nServer: nat, nClient: nat, rank: nat) returns (start: int, end: int)
    requires rank < nClient
    ensures start >= 0
    ensures if Cut(nServer, nClient, rank) == Cut(nServer, nClient, rank + 1) then end <= start
            else start == Cut(nServer, nClient, rank) && end == Cut(nServer, nClient, rank + 1)
  {
    if nServer > nClient {
      var count := nServer / nClient;
      start := rank * count;
      end := start + count;
      ShareOfMany(nServer, nClient, rank);
      if rank == nClient - 1 { end := end + nServer % nClient; }
    } else {
      start := rank;
      end := start + 1;
      if rank >= nServer { end := 0; }
    }
  }

  // How many servers the clients below `rank` ask.
  function Cut(nServer: nat, nClient: nat, rank: nat): nat
    requires rank <= nClient && nClient > 0
  {
    if nServer > nClient then (if rank == nClient then nServer else rank * (nServer / nClient))
    else if rank < nServer then rank else nServer
  }

  lemma ShareOfMany(nServer: nat, nClient: nat, rank: nat)
    requires rank < nClient < nServer
    ensures nServer / nClient > 0
    ensures (rank + 1) * (nServer / nClient) == rank * (nServer / nClient) + nServer / nClient
    ensures (rank + 1) * (nServer / nClient) <= nServer
    ensures nClient * (nServer / nClient) + nServer % nClient == nServer
  {
    ShareFits(nServer / nClient, nServer % nClient, nServer, nClient, rank);
  }

  lemma ShareFits(c: nat, r: nat, nServer: nat, nClient: nat, rank: nat)
    requires rank < nClient < nServer && nClient * c + r == nServer && r < nClient
    ensures c > 0 && (rank + 1) * c == rank * c + c <= nServer
  {
    Distribute(rank, 1, c);
    Distribute(rank + 1, nClient - rank - 1, c);
    Nonneg(nClient - rank - 1, c);
    if c == 0 { Times0(nClient); }
  }

  lemma Times0(a: nat)
    ensures a * 0 == 0
  {
  }

  /** The shares follow one another from the first server to the last. */
  lemma SharesPartition(nServer: nat, nClient: nat, rank: nat)
    requires rank < nClient
    ensures Cut(nServer, nClient, 0) == 0 && Cut(nServer, nClient, nClient) == nServer
    ensures Cut(nServer, nClient, rank) <= Cut(nServer, nClient, rank + 1) <= nServer
  {
    if nServer > nClient { ShareOfMany(nServer, nClient, rank); }
  }

  /** With more servers than clients all clients but the last ask equally many, and the last also the remainder;
      otherwise one server each, as far as there are servers. */
  lemma SharesAre(nServer: nat, nClient: nat, rank: nat)
    requires rank < nClient
    ensures var share := Cut(nServer, nClient, rank + 1) - Cut(nServer, nClient, rank);
            if nServer > nClient then
              share == nServer / nClient + if rank == nClient - 1 then nServer % nClient else 0
            else share == if rank < nServer then 1 else 0
  {
    if nServer > nClient { ShareOfMany(nServer, nClient, rank); }
  }

  method QueryShare(answers: seq<seq<Id>>, nClient: nat, rank: nat) returns (ids: seq<Id>)
    requires rank < nClient
    ensures Cut(|answers|, nClient, rank) <= Cut(|answers|, nClient, rank + 1) <= |answers|
    ensures ids == Flat(answers[Cut(|answers|, nClient, rank)..Cut(|answers|, nClient, rank + 1)])
  {
    SharesPartition(|answers|, nClient, rank);
    var start, end := AssignServer(|answers|, nClient, rank);
    if end <= start {
      ids := [];
    } else {
      ids := QueryRange(answers, start, end);
    }
  }

  // ---- Exchanging the shares ----

  function Shares(answers: seq<seq<Id>>, nClient: nat, n: nat): (parts: seq<seq<Id>>)
    requires 0 < nClient && n <= nClient
    ensures |parts| == n
  {
    if n == 0 then []
    else
      SharesPartition(|answers|, nClient, n - 1);
      Shares(answers, nClient, n - 1)
      + [Flat(answers[Cut(|answers|, nClient, n - 1)..Cut(|answers|, nClient, n)])]
  }

  lemma {:induction false} SharesFlat(answers: seq<seq<Id>>, nClient: nat, n: nat)
    requires 0 < nClient && n <= nClient
    ensures Cut(|answers|, nClient, n) <= |answers|
    ensures Flat(Shares(answers, nClient, n)) == Flat(answers[..Cut(|answers|, nClient, n)])
  {
    if n == 0 {
    } else {
      SharesPartition(|answers|, nClient, n - 1);
      SharesFlat(answers, nClient, n - 1);
      var a, b := Cut(|answers|, nClient, n - 1), Cut(|answers|, nClient, n);
      FlatAdd(Shares(answers, nClient, n - 1), Flat(answers[a..b]));
      FlatSplit(answers, a, b);
    }
  }

  /** Putting the clients' shares together in rank order gives what one client would have got. */
  lemma SharesAreAll(answers: seq<seq<Id>>, nClient: nat)
    requires 0 < nClient
    ensures Flat(Shares(answers, nClient, nClient)) == Flat(answers)
  {
    SharesFlat(answers, nClient, nClient);
    assert answers[..|answers|] == answers;
  }

  // ---- Removing duplicates through a hash set, whose listing order is not known ----

  method Deduplicate(ids: seq<Id>) returns (out: seq<Id>)
    ensures forall x :: x in out <==> x in ids
    ensures forall i, j :: 0 <= i < j < |out| ==> out[i] != out[j]
  {
    var s: set<Id> := {};
    for i := 0 to |ids|
      invariant forall x :: x in s <==> x in ids[..i]
    {
      s := s + {ids[i]};
    }
    assert ids[..|ids|] == ids;
    out := [];
    ghost var all := s;
    while s != {}
      invariant forall x :: x in all <==> x in s || x in out
      invariant forall x :: x in out ==> x !in s
      invariant forall i, j :: 0 <= i < j < |out| ==> out[i] != out[j]
      decreases |s|
    {
      var x :| x in s;
      s, out := s - {x}, out + [x];
    }
  }

  /** All clients together.  For any number of clients, any number of servers and any arrival order, the
      gathered ids are the ids one client would have got, in the same order; with more than one client
      duplicates are then removed. */
  method QueryTogether(answers: seq<seq<Id>>, nClient: nat, order: seq<nat>)
    returns (gathered: seq<Id>, ids: seq<Id>)
    requires nClient > 0 && Permutation(order, nClient)
    ensures gathered == Flat(answers)
    ensures nClient == 1 ==> ids == gathered
    ensures forall x :: x in ids <==> x in gathered
    ensures nClient > 1 ==> forall i, j :: 0 <= i < j < |ids| ==> ids[i] != ids[j]
  {
    var parts, counts := [], [];
    for rank := 0 to nClient
      invariant parts == Shares(answers, nClient, rank) && |counts| == rank
      invariant forall r :: 0 <= r < rank ==> counts[r] == |parts[r]|
    {
      var share := QueryShare(answers, nClient, rank);
      parts, counts := parts + [share], counts + [|share|];
    }
    SharesAreAll(answers, nClient);
    if nClient == 1 {
      gathered := parts[0];
      assert parts == [] + [parts[0]];
      FlatAdd([], parts[0]);
      assert Flat([]) + parts[0] == parts[0];
      ids := gathered;
    } else {
      var disp, total := Displacements(counts, parts);
      gathered := GatherBlocks(parts, disp, total, order, 0);
      ids := Deduplicate(gathered);
    }
  }
}
