/** Names sorted by server, asked server by server, and the records put back where the names came from.
    `home[k]` is the server of name `k`, `visits` the order the servers are asked in; the results hold for
    every assignment and every order. */
module NameScatter {
  import opened Options
  import opened RequestList
  import TwoWaits

  // ---- Names by server, with the positions they came from ----

  function Positions(home: seq<nat>, s: nat, n: nat): (r: seq<nat>)
    requires n <= |home|
    ensures forall j :: 0 <= j < |r| ==> r[j] < n && home[r[j]] == s
    ensures forall i, j :: 0 <= i < j < |r| ==> r[i] < r[j]
  {
    if n == 0 then [] else Positions(home, s, n - 1) + if home[n - 1] == s then [n - 1] else []
  }

  lemma {:induction false} EveryNameHasAPosition(home: seq<nat>, n: nat, k: nat)
    requires k < n <= |home|
    ensures k in Positions(home, home[k], n)
  {
    if k == n - 1 {
    } else {
      EveryNameHasAPosition(home, n - 1, k);
    }
  }

  function Pick<T>(xs: seq<T>, at: seq<nat>): (r: seq<T>)
    requires forall j :: 0 <= j < |at| ==> at[j] < |xs|
    ensures |r| == |at| && forall j :: 0 <= j < |at| ==> r[j] == xs[at[j]]
  {
    seq(|at|, j requires 0 <= j < |at| => xs[at[j]])
  }

  function Bucket<N>(names: seq<N>, home: seq<nat>, s: nat): seq<N>
    requires |home| == |names|
  {
    Pick(names, Positions(home, s, |names|))
  }

  function Buckets<N>(names: seq<N>, home: seq<nat>, nServer: nat): (r: seq<seq<N>>)
    requires |home| == |names|
    ensures |r| == nServer && forall s :: 0 <= s < nServer ==> r[s] == Bucket(names, home, s)
  {
    seq(nServer, s requires 0 <= s < nServer => Bucket(names, home, s))
  }

  // The first `i` names are in their buckets, with their positions.
  ghost predicate Sorted<N>(names: seq<N>, home: seq<nat>, nServer: nat, i: nat, b: seq<seq<N>>, m: seq<seq<nat>>)
    requires |home| == |names| && i <= |names|
  {
    && |b| == |m| == nServer
    && (forall s :: 0 <= s < nServer ==> m[s] == Positions(home, s, i) && b[s] == Pick(names, Positions(home, s, i)))
  }

  lemma SortedStep<N>(names: seq<N>, home: seq<nat>, nServer: nat, i: nat, b: seq<seq<N>>, m: seq<seq<nat>>)
    requires |home| == |names| && i < |names| && home[i] < nServer && Sorted(names, home, nServer, i, b, m)
    ensures var s := home[i];
            Sorted(names, home, nServer, i + 1, b[s := b[s] + [names[i]]], m[s := m[s] + [i]])
  {
    var s := home[i];
    forall t | 0 <= t < nServer
      ensures Positions(home, t, i + 1) == if t == s then Positions(home, t, i) + [i] else Positions(home, t, i)
    {
    }
    assert Pick(names, Positions(home, s, i) + [i]) == Pick(names, Positions(home, s, i)) + [names[i]];
  }

  method AddTo<T>(a: array<seq<T>>, s: nat, x: T)
    requires s < a.Length
    modifies a
    ensures a[..] == old(a[..])[s := old(a[s]) + [x]]
  {
    a[s] := a[s] + [x];
  }

  method SortByServer<N>(names: seq<N>, home: seq<nat>, nServer: nat)
    returns (buckets: seq<seq<N>>, mapping: seq<seq<nat>>)
    requires |home| == |names| && forall k :: 0 <= k < |home| ==> home[k] < nServer
    ensures Sorted(names, home, nServer, |names|, buckets, mapping) && buckets == Buckets(names, home, nServer)
  {
    var b := new seq<N>[nServer](i => []);
    var m := new seq<nat>[nServer](i => []);
    for i := 0 to |names|
      invariant Sorted(names, home, nServer, i, b[..], m[..])
    {
      SortedStep(names, home, nServer, i, b[..], m[..]);
      AddTo(b, home[i], names[i]);
      AddTo<nat>(m, home[i], i);
    }
    buckets, mapping := b[..], m[..];
    SortedIsBuckets(names, home, nServer, buckets, mapping);
  }

  lemma SortedIsBuckets<N>(names: seq<N>, home: seq<nat>, nServer: nat, b: seq<seq<N>>, m: seq<seq<nat>>)
    requires |home| == |names| && Sorted(names, home, nServer, |names|, b, m)
    ensures b == Buckets(names, home, nServer)
  {
  }

  // ---- Asking ----

  // `turn[s]` is when server `s` is visited: each exactly once.
  ghost predicate Order(visits: seq<nat>, turn: seq<nat>) {
    && |visits| == |turn|
    && (forall i :: 0 <= i < |visits| ==> visits[i] < |turn|)
    && (forall s :: 0 <= s < |turn| ==> turn[s] < |visits|)
    && (forall i, s :: 0 <= i < |visits| && 0 <= s < |turn| ==> (visits[i] == s <==> turn[s] == i))
  }

  // How many servers with names to ask are visited in the first `i` turns.
  function Busy<N>(buckets: seq<seq<N>>, visits: seq<nat>, i: nat): nat
    requires i <= |visits| == |buckets| && forall j :: 0 <= j < |visits| ==> visits[j] < |buckets|
  {
    if i == 0 then 0 else Busy(buckets, visits, i - 1) + if buckets[visits[i - 1]] == [] then 0 else 1
  }

  // What server `s` replies; `directory(s, n)` is the record it holds for name `n`.
  function Replies<N, R>(names: seq<N>, s: nat, directory: (nat, N) -> R): (r: seq<R>)
    ensures |r| == |names| && forall j :: 0 <= j < |r| ==> r[j] == directory(s, names[j])
  {
    seq(|names|, j requires 0 <= j < |names| => directory(s, names[j]))
  }

  // Server `s` gets its request through before the request numbers run out.
  ghost predicate Heard<N>(buckets: seq<seq<N>>, visits: seq<nat>, turn: seq<nat>, c: int, s: nat)
    requires Order(visits, turn) && |buckets| == |turn| && s < |turn|
  {
    c + 2 * Busy(buckets, visits, turn[s]) <= LAST_ID
  }

  // What the request to server `s` holds in the end.
  ghost function Outcome<N, R>(buckets: seq<seq<N>>, visits: seq<nat>, turn: seq<nat>, c: int,
                               directory: (nat, N) -> R, s: nat): Option<seq<R>>
    requires Order(visits, turn) && |buckets| == |turn| && s < |turn|
  {
    if buckets[s] != [] && Heard(buckets, visits, turn, c, s) then Some(Replies(buckets[s], s, directory)) else None
  }

  // One order of events for each turn.
  type Schedule = seq<seq<TwoWaits.Event>>

  ghost predicate Scheduled(schedule: Schedule, visits: seq<nat>) {
    |schedule| == |visits| && forall i :: 0 <= i < |schedule| ==> TwoWaits.Complete(schedule[i])
  }

  // The client comes back from every server it asks in the first `n` turns.
  ghost predicate ComesBack<N>(buckets: seq<seq<N>>, visits: seq<nat>, schedule: Schedule, n: nat)
    requires n <= |visits| == |schedule| && forall j :: 0 <= j < |visits| ==> visits[j] < |buckets|
  {
    forall i :: 0 <= i < n && buckets[visits[i]] != [] ==> !TwoWaits.Together(schedule[i])
  }

  method Ask<R>(rs: Requests<R>, answer: seq<R>, es: seq<TwoWaits.Event>)
    returns (returned: bool, reply: Option<seq<R>>)
    requires rs.Valid() && TwoWaits.Complete(es)
    modifies rs
    ensures rs.Valid() && (returned <==> !TwoWaits.Together(es))
    ensures reply == if old(rs.nextId) <= LAST_ID then Some(answer) else None
    ensures rs.nextId == old(rs.nextId) + if old(rs.nextId) <= LAST_ID then 2 else 1
  {
    var r := new Request<R>();
    returned := Exchange(rs, r, answer, es);
    reply := r.reply;
  }

  method AskServers<N(!new, ==), R>(rs: Requests<R>, buckets: seq<seq<N>>, visits: seq<nat>, ghost turn: seq<nat>,
                                    directory: (nat, N) -> R, schedule: Schedule)
    returns (returned: bool, replies: seq<Option<seq<R>>>)
    requires rs.Valid() && Order(visits, turn) && |buckets| == |turn| && Scheduled(schedule, visits)
    modifies rs
    ensures rs.Valid() && |replies| == |buckets|
    ensures returned <==> ComesBack(buckets, visits, schedule, |visits|)
    ensures returned ==> rs.nextId == CounterAfter(old(rs.nextId), Busy(buckets, visits, |visits|))
    ensures returned ==> forall s :: 0 <= s < |buckets| ==>
              replies[s] == Outcome(buckets, visits, turn, old(rs.nextId), directory, s)
  {
    ghost var c := rs.nextId;
    var got := new Option<seq<R>>[|buckets|](i => None);
    for i := 0 to |visits|
      invariant rs.Valid() && rs.nextId == CounterAfter(c, Busy(buckets, visits, i))
      invariant ComesBack(buckets, visits, schedule, i)
      invariant forall s :: 0 <= s < |buckets| ==>
                  got[s] == if turn[s] < i then Outcome(buckets, visits, turn, c, directory, s) else None
    {
      var server := visits[i];
      if buckets[server] == [] { continue; }
      AnsweredExactly(c, Busy(buckets, visits, i));
      var reply;
      returned, reply := Ask(rs, Replies(buckets[server], server, directory), schedule[i]);
      if !returned { return false, got[..]; }
      got[server] := reply;
    }
    returned, replies := true, got[..];
  }

  // ---- Putting the records back ----

  method PutBack<R>(out: array<Option<R>>, at: seq<nat>, records: seq<R>)
    requires |at| == |records| && (forall j :: 0 <= j < |at| ==> at[j] < out.Length)
    requires forall i, j :: 0 <= i < j < |at| ==> at[i] < at[j]
    modifies out
    ensures forall j :: 0 <= j < |at| ==> out[at[j]] == Some(records[j])
    ensures forall k :: 0 <= k < out.Length && k !in at ==> out[k] == old(out[k])
  {
    for j := 0 to |records|
      invariant forall i :: 0 <= i < j ==> out[at[i]] == Some(records[i])
      invariant forall k :: 0 <= k < out.Length && k !in at ==> out[k] == old(out[k])
    {
      out[at[j]] := Some(records[j]);
    }
  }

  // The answer to name `k` of a query whose first request takes number `c`.
  ghost function Answer<N, R>(names: seq<N>, home: seq<nat>, visits: seq<nat>, turn: seq<nat>, c: int,
                              directory: (nat, N) -> R, k: nat): Option<R>
    requires |home| == |names| && Order(visits, turn) && k < |names| && home[k] < |turn|
  {
    if Heard(Buckets(names, home, |turn|), visits, turn, c, home[k]) then Some(directory(home[k], names[k])) else None
  }

  /** Every position gets the record its own server has of its own name, except that servers whose turn comes
      after the request numbers have run out leave the positions of their names empty. */
  method Scatter<N(!new, ==), R>(rs: Requests<R>, names: seq<N>, home: seq<nat>, visits: seq<nat>,
                                 ghost turn: seq<nat>, directory: (nat, N) -> R, schedule: Schedule)
    returns (returned: bool, all: seq<Option<R>>)
    requires rs.Valid() && Order(visits, turn) && Scheduled(schedule, visits)
    requires |home| == |names| && forall k :: 0 <= k < |home| ==> home[k] < |turn|
    modifies rs
    ensures rs.Valid() && |all| == |names|
    ensures returned <==> ComesBack(Buckets(names, home, |turn|), visits, schedule, |visits|)
    ensures returned ==>
              forall k :: 0 <= k < |names| ==> all[k] == Answer(names, home, visits, turn, old(rs.nextId), directory, k)
  {
    ghost var c := rs.nextId;
    var buckets, mapping := SortByServer(names, home, |visits|);
    var replies;
    returned, replies := AskServers(rs, buckets, visits, turn, directory, schedule);
    var out := new Option<R>[|names|](i => None);
    if returned { Reorganize(names, home, mapping, replies, visits, turn, c, directory, out); }
    all := out[..];
  }

  // The replies, server by server, to the positions of their names.
  method Reorganize<N(!new, ==), R>(names: seq<N>, home: seq<nat>, mapping: seq<seq<nat>>,
                                    replies: seq<Option<seq<R>>>, visits: seq<nat>, ghost turn: seq<nat>, ghost c: int,
                                    directory: (nat, N) -> R, out: array<Option<R>>)
    requires |home| == |names| && Order(visits, turn) && forall k :: 0 <= k < |home| ==> home[k] < |turn|
    requires out.Length == |names| && forall k :: 0 <= k < |names| ==> out[k] == None
    requires Sorted(names, home, |turn|, |names|, Buckets(names, home, |turn|), mapping)
    requires |replies| == |turn| && forall s :: 0 <= s < |turn| ==>
               replies[s] == Outcome(Buckets(names, home, |turn|), visits, turn, c, directory, s)
    modifies out
    ensures forall k :: 0 <= k < |names| ==> out[k] == Answer(names, home, visits, turn, c, directory, k)
  {
    for s := 0 to |visits|
      invariant forall k :: 0 <= k < |names| ==>
                  out[k] == if home[k] < s then Answer(names, home, visits, turn, c, directory, k) else None
    {
      forall k | 0 <= k < |names| && home[k] == s ensures k in mapping[s] {
        EveryNameHasAPosition(home, |names|, k);
      }
      if replies[s].Some? { PutBack(out, mapping[s], replies[s].value); }
    }
  }

  // ---- When a query is answered in full ----

  lemma {:induction false} BusyGrows<N>(buckets: seq<seq<N>>, visits: seq<nat>, a: nat, b: nat)
    requires a <= b <= |visits| == |buckets| && forall j :: 0 <= j < |visits| ==> visits[j] < |buckets|
    ensures Busy(buckets, visits, a) <= Busy(buckets, visits, b)
    decreases b
  {
    if a == b {
    } else {
      BusyGrows(buckets, visits, a, b - 1);
    }
  }

  lemma {:induction false} LastBusy<N>(buckets: seq<seq<N>>, visits: seq<nat>, n: nat) returns (t: nat)
    requires n <= |visits| == |buckets| && forall j :: 0 <= j < |visits| ==> visits[j] < |buckets|
    requires Busy(buckets, visits, n) > 0
    ensures t < n && buckets[visits[t]] != [] && Busy(buckets, visits, t) + 1 == Busy(buckets, visits, n)
  {
    if buckets[visits[n - 1]] != [] { t := n - 1; } else { t := LastBusy(buckets, visits, n - 1); }
  }

  // A name makes its server one that is asked.
  lemma NameMakesBusy<N>(names: seq<N>, home: seq<nat>, visits: seq<nat>, turn: seq<nat>, k: nat)
    requires |home| == |names| && Order(visits, turn) && k < |names| && home[k] < |turn|
    ensures var b := Buckets(names, home, |turn|);
            Busy(b, visits, turn[home[k]]) + 1 <= Busy(b, visits, |visits|)
  {
    var b, t := Buckets(names, home, |turn|), turn[home[k]];
    EveryNameHasAPosition(home, |names|, k);
    assert |b[home[k]]| == |Positions(home, home[k], |names|)| > 0;
    assert visits[t] == home[k];
    BusyTurn(b, visits, t);
  }

  lemma BusyTurn<N>(buckets: seq<seq<N>>, visits: seq<nat>, t: nat)
    requires t < |visits| == |buckets| && forall j :: 0 <= j < |visits| ==> visits[j] < |buckets|
    requires buckets[visits[t]] != []
    ensures Busy(buckets, visits, t) + 1 <= Busy(buckets, visits, |visits|)
  {
    BusyGrows(buckets, visits, t + 1, |visits|);
  }

  /** A query is answered in full exactly when the numbers last for all the servers it has to ask. */
  lemma AnsweredInFullExactly<N, R>(names: seq<N>, home: seq<nat>, visits: seq<nat>, turn: seq<nat>, c: int,
                                    directory: (nat, N) -> R)
    requires |home| == |names| > 0 && Order(visits, turn) && forall k :: 0 <= k < |home| ==> home[k] < |turn|
    ensures (forall k :: 0 <= k < |names| ==> Answer(names, home, visits, turn, c, directory, k).Some?)
            <==> c + 2 * (Busy(Buckets(names, home, |turn|), visits, |visits|) - 1) <= LAST_ID
  {
    var b := Buckets(names, home, |turn|);
    var most := c + 2 * (Busy(b, visits, |visits|) - 1);
    forall k | 0 <= k < |names|
      ensures most <= LAST_ID ==> Answer(names, home, visits, turn, c, directory, k).Some?
    {
      NameMakesBusy(names, home, visits, turn, k);
    }
    NameMakesBusy(names, home, visits, turn, 0);
    var t := LastBusy(b, visits, |visits|);
    var at := Positions(home, visits[t], |names|);
    assert |at| > 0 && home[at[0]] == visits[t];
    assert Answer(names, home, visits, turn, c, directory, at[0]).Some? <==> most <= LAST_ID;
  }
}

/** The query as clients issue it: names go to the server of their hash, servers are visited from the client's
    own rank on; and the node-wide form in which one client asks for all clients of its node. */
module NameQuery {
  import opened Basics
  import opened Options
  import opened Bytes
  import opened Gather
  import opened ServerMetadata
  import opened RequestList
  import opened NameScatter

  type Name = bytes

  function ServerByName(name: Name, nServer: nat): (s: nat)
    requires nServer > 0
    ensures s < nServer
  {
    HashByName(name) % nServer
  }

  function Homes(names: seq<Name>, nServer: nat): (r: seq<nat>)
    requires nServer > 0
    ensures |r| == |names|
    ensures forall k :: 0 <= k < |names| ==> r[k] == ServerByName(names[k], nServer) && r[k] < nServer
  {
    seq(|names|, k requires 0 <= k < |names| => ServerByName(names[k], nServer))
  }

  // ---- The rotation ----

  function Rotation(nServer: nat, rank: nat): (r: seq<nat>)
    requires nServer > 0
    ensures |r| == nServer && forall i :: 0 <= i < nServer ==> r[i] == (i + rank) % nServer
  {
    seq(nServer, i => (i + rank) % nServer)
  }

  function Turns(nServer: nat, rank: nat): (r: seq<nat>)
    requires nServer > 0
    ensures |r| == nServer && forall s :: 0 <= s < nServer ==>
              var m := rank % nServer; r[s] == if s >= m then s - m else s + nServer - m
  {
    var m := rank % nServer;
    seq(nServer, s => if s >= m then s - m else s + nServer - m)
  }

  lemma RotatedBy(nServer: nat, rank: nat, i: nat)
    requires i < nServer
    ensures var m := rank % nServer;
            (i + rank) % nServer == if i + m < nServer then i + m else i + m - nServer
  {
    var m, q := rank % nServer, rank / nServer;
    assert rank == nServer * q + m;
    if i + m < nServer {
      Remainder(i + rank, nServer, q, i + m);
    } else {
      assert nServer * (q + 1) == nServer * q + nServer;
      Remainder(i + rank, nServer, q + 1, i + m - nServer);
    }
  }

  /** The rotation visits every server exactly once. */
  lemma RotationIsOrder(nServer: nat, rank: nat)
    requires nServer > 0
    ensures Order(Rotation(nServer, rank), Turns(nServer, rank))
  {
    forall i | 0 <= i < nServer
      ensures var m := rank % nServer; Rotation(nServer, rank)[i] == if i + m < nServer then i + m else i + m - nServer
    {
      RotatedBy(nServer, rank, i);
    }
  }

  // Whether every name of a query from request number `c` on gets its record.
  ghost predicate InFull(names: seq<Name>, nServer: nat, rank: nat, c: int)
    requires nServer > 0
  {
    RotationIsOrder(nServer, rank);
    names == [] ||
    c + 2 * (Busy(Buckets(names, Homes(names, nServer), nServer), Rotation(nServer, rank), nServer) - 1) <= LAST_ID
  }

  // What a query from request number `c` on brings back: for each name its record, or nothing.
  ghost function Records<R>(names: seq<Name>, nServer: nat, rank: nat, c: int, directory: (nat, Name) -> R)
    : (all: seq<Option<R>>)
    requires nServer > 0
    ensures |all| == |names|
  {
    RotationIsOrder(nServer, rank);
    var home := Homes(names, nServer);
    seq(|names|, k requires 0 <= k < |names| =>
      Answer(names, home, Rotation(nServer, rank), Turns(nServer, rank), c, directory, k))
  }

  /** Every name has its own record or none, and all have theirs exactly when the numbers last. */
  lemma RecordsInFullExactly<R>(names: seq<Name>, nServer: nat, rank: nat, c: int, directory: (nat, Name) -> R)
    requires nServer > 0
    ensures var all := Records(names, nServer, rank, c, directory);
            && (forall k :: 0 <= k < |names| ==>
                  all[k] == None || all[k] == Some(directory(HashByName(names[k]) % nServer, names[k])))
            && (InFull(names, nServer, rank, c) <==> forall k :: 0 <= k < |names| ==> all[k].Some?)
  {
    RotationIsOrder(nServer, rank);
    if names != [] {
      var home, visits, turn := Homes(names, nServer), Rotation(nServer, rank), Turns(nServer, rank);
      AnsweredInFullExactly(names, home, visits, turn, c, directory);
      var all := Records(names, nServer, rank, c, directory);
      forall k | 0 <= k < |names| ensures all[k] == Answer(names, home, visits, turn, c, directory, k) {
      }
    }
  }

  // Whether the client comes back from all servers it asks.
  ghost predicate Returns(names: seq<Name>, nServer: nat, rank: nat, schedule: Schedule)
    requires nServer > 0 && |schedule| == nServer
  {
    names == [] ||
    ComesBack(Buckets(names, Homes(names, nServer), nServer), Rotation(nServer, rank), schedule, nServer)
  }

  method QueryMultiStorageInfo<R>(rs: Requests<R>, names: seq<Name>, nServer: nat, rank: nat,
                                  directory: (nat, Name) -> R, schedule: Schedule)
    returns (returned: bool, all: seq<Option<R>>)
    requires rs.Valid() && nServer > 0 && Scheduled(schedule, Rotation(nServer, rank))
    modifies rs
    ensures rs.Valid()
    ensures returned <==> Returns(names, nServer, rank, schedule)
    ensures returned ==> all == Records(names, nServer, rank, old(rs.nextId), directory)
  {
    RotationIsOrder(nServer, rank);
    if |names| == 0 { return true, []; }
    var home, visits := Homes(names, nServer), Rotation(nServer, rank);
    returned, all := Scatter(rs, names, home, visits, Turns(nServer, rank), directory, schedule);
  }

  // ---- One client of a node asking for all ----

  const NAME_SLOT: nat := 64

  // What a slot of 64 bytes keeps of a name.
  function Kept(name: Name): (r: Name)
    ensures r <= name
  {
    if |name| <= 63 then name else name[..63]
  }

  function Slot(name: Name): (s: bytes)
    ensures |s| == NAME_SLOT
  {
    Kept(name) + seq(NAME_SLOT - |Kept(name)|, i => 0)
  }

  function Pack(names: seq<Name>): (s: bytes)
    ensures |s| == NAME_SLOT * |names|
  {
    if names == [] then [] else Slot(names[0]) + Pack(names[1..])
  }

  function Unpack(s: bytes): seq<Name> {
    if |s| < NAME_SLOT then [] else [CString(s[..NAME_SLOT])] + Unpack(s[NAME_SLOT..])
  }

  function KeptAll(names: seq<Name>): (r: seq<Name>)
    ensures |r| == |names| && forall i :: 0 <= i < |names| ==> r[i] == Kept(names[i])
  {
    if names == [] then [] else [Kept(names[0])] + KeptAll(names[1..])
  }

  lemma {:induction false} CStringOfPadded(s: bytes, n: nat)
    requires 0 !in s && n > 0
    ensures CString(s + seq(n, i => 0)) == s
  {
    var z: bytes := seq(n, i => 0);
    if s != [] {
      assert (s + z)[1..] == s[1..] + z;
      CStringOfPadded(s[1..], n);
    } else {
      assert s + z == z;
    }
  }

  lemma SlotBack(name: Name)
    requires 0 !in name
    ensures CString(Slot(name)) == Kept(name)
  {
    CStringOfPadded(Kept(name), NAME_SLOT - |Kept(name)|);
  }

  lemma UnpackOne(slot: bytes, tail: bytes)
    requires |slot| == NAME_SLOT
    ensures Unpack(slot + tail) == [CString(slot)] + Unpack(tail)
  {
    assert (slot + tail)[..NAME_SLOT] == slot && (slot + tail)[NAME_SLOT..] == tail;
  }

  lemma {:induction false} UnpackPack(names: seq<Name>, tail: bytes)
    requires forall i :: 0 <= i < |names| ==> 0 !in names[i]
    ensures Unpack(Pack(names) + tail) == KeptAll(names) + Unpack(tail)
  {
    if names == [] {
      assert Pack(names) + tail == tail;
    } else {
      var rest := names[1..];
      Assoc(Slot(names[0]), Pack(rest), tail);
      UnpackOne(Slot(names[0]), Pack(rest) + tail);
      SlotBack(names[0]);
      UnpackPack(rest, tail);
      Assoc([Kept(names[0])], KeptAll(rest), Unpack(tail));
    }
  }

  // The packed names of every rank, and the names the leader reads from them.
  function Packs(ranks: seq<seq<Name>>): (r: seq<bytes>)
    ensures |r| == |ranks| && forall i :: 0 <= i < |r| ==> r[i] == Pack(ranks[i])
  {
    seq(|ranks|, i requires 0 <= i < |ranks| => Pack(ranks[i]))
  }

  function KeptRanks(ranks: seq<seq<Name>>): (r: seq<seq<Name>>)
    ensures |r| == |ranks| && forall i :: 0 <= i < |r| ==> r[i] == KeptAll(ranks[i])
  {
    seq(|ranks|, i requires 0 <= i < |ranks| => KeptAll(ranks[i]))
  }

  ghost predicate CNames(ranks: seq<seq<Name>>) {
    forall r, j :: 0 <= r < |ranks| && 0 <= j < |ranks[r]| ==> 0 !in ranks[r][j]
  }

  lemma {:induction false} LeaderReads(ranks: seq<seq<Name>>, tail: bytes)
    requires CNames(ranks)
    ensures Unpack(Flat(Packs(ranks)) + tail) == Flat(KeptRanks(ranks)) + Unpack(tail)
  {
    if ranks == [] {
      assert Flat(Packs(ranks)) + tail == tail;
    } else {
      var n := |ranks| - 1;
      var before, p := ranks[..n], Pack(ranks[n]);
      assert Packs(ranks)[..n] == Packs(before) && KeptRanks(ranks)[..n] == KeptRanks(before);
      Assoc(Flat(Packs(before)), p, tail);
      LeaderReads(before, p + tail);
      UnpackPack(ranks[n], tail);
      Assoc(Flat(KeptRanks(before)), KeptAll(ranks[n]), Unpack(tail));
    }
  }

  method ReadNames(s: bytes) returns (names: seq<Name>)
    ensures names == Unpack(s)
  {
    names := [];
    var rest := s;
    assert s == rest;
    while |rest| >= NAME_SLOT
      invariant Unpack(s) == names + Unpack(rest)
    {
      assert names + ([CString(rest[..NAME_SLOT])] + Unpack(rest[NAME_SLOT..]))
          == names + [CString(rest[..NAME_SLOT])] + Unpack(rest[NAME_SLOT..]);
      names, rest := names + [CString(rest[..NAME_SLOT])], rest[NAME_SLOT..];
    }
  }

  // The leader's list of all names of its node.
  method GatherNames(ranks: seq<seq<Name>>, order: seq<nat>) returns (all: seq<Name>)
    requires CNames(ranks) && Permutation(order, |ranks|)
    ensures all == Flat(KeptRanks(ranks))
  {
    var blocks := Packs(ranks);
    var sizes := seq(|ranks|, r requires 0 <= r < |ranks| => NAME_SLOT * |ranks[r]|);
    var displs, totalBytes := Displacements(sizes, blocks);
    var packed := GatherBlocks(blocks, displs, totalBytes, order, 0);
    LeaderReads(ranks, []);
    assert packed + [] == packed;
    assert Flat(KeptRanks(ranks)) + Unpack([]) == Flat(KeptRanks(ranks));
    all := ReadNames(packed);
  }

  // ---- What each rank gets ----

  // The records of rank `r`: its stretch of what the leader got.
  ghost function NodeRecords<R>(ranks: seq<seq<Name>>, nServer: nat, leader: nat, c: int,
                                directory: (nat, Name) -> R, r: nat)
    : (all: seq<Option<R>>)
    requires nServer > 0 && r < |ranks|
    ensures |all| == |ranks[r]|
  {
    var kept := KeptRanks(ranks);
    Stretch(kept, Records(Flat(kept), nServer, leader, c, directory), r)
  }

  // Of as many values as the blocks hold, those that stand where block `r` does.
  function Stretch<T, U>(blocks: seq<seq<T>>, all: seq<U>, r: nat): (s: seq<U>)
    requires r < |blocks| && |all| == Total(blocks)
    ensures |s| == |blocks[r]|
  {
    FlatSlice(blocks, r);
    all[Total(blocks[..r])..Total(blocks[..r]) + |blocks[r]|]
  }

  // Every name has the record that the server of its hash holds.
  ghost predicate Full<R>(names: seq<Name>, nServer: nat, all: seq<Option<R>>, directory: (nat, Name) -> R)
    requires nServer > 0
  {
    |all| == |names| &&
    forall k :: 0 <= k < |names| ==> all[k] == Some(directory(HashByName(names[k]) % nServer, names[k]))
  }

  lemma SliceFull<R>(names: seq<Name>, nServer: nat, all: seq<Option<R>>, directory: (nat, Name) -> R, at: nat, n: nat)
    requires nServer > 0 && at + n <= |names| && Full(names, nServer, all, directory)
    ensures Full(names[at..at + n], nServer, all[at..at + n], directory)
  {
  }

  lemma StretchFull<R>(blocks: seq<seq<Name>>, nServer: nat, all: seq<Option<R>>, directory: (nat, Name) -> R, r: nat)
    requires nServer > 0 && r < |blocks| && Full(Flat(blocks), nServer, all, directory)
    ensures Full(blocks[r], nServer, Stretch(blocks, all, r), directory)
  {
    FlatSlice(blocks, r);
    SliceFull(Flat(blocks), nServer, all, directory, Total(blocks[..r]), |blocks[r]|);
  }

  // Every name has the record of its first 63 characters, from the server of their hash.
  ghost predicate OfFirst63<R>(names: seq<Name>, nServer: nat, all: seq<Option<R>>, directory: (nat, Name) -> R)
    requires nServer > 0
  {
    |all| == |names| && forall k :: 0 <= k < |names| ==>
      var first := names[k][..if |names[k]| < 63 then |names[k]| else 63];
      all[k] == Some(directory(HashByName(first) % nServer, first))
  }

  datatype Outcome<R> = Answered(results: seq<seq<Option<R>>>) | WaitsForGood | MissingRecord

  method AnyMissing<R>(all: seq<Option<R>>) returns (missing: bool)
    ensures missing <==> exists k :: 0 <= k < |all| && all[k].None?
  {
    for k := 0 to |all|
      invariant forall j :: 0 <= j < k ==> all[j].Some?
    {
      if all[k].None? { return true; }
    }
    return false;
  }

  /** Names are gathered at the leader, asked for once, and each rank is sent its share of the records, whatever
      order the blocks arrive in.  The node goes without if the leader waits for good, or if a record is
      missing, which the source copies from a null pointer. */
  method QueryForNode<R>(rs: Requests<R>, ranks: seq<seq<Name>>, nServer: nat, leader: nat, directory: (nat, Name) -> R,
                         order: seq<nat>, schedule: Schedule)
    returns (o: Outcome<R>)
    requires rs.Valid() && nServer > 0 && CNames(ranks) && Permutation(order, |ranks|)
    requires Scheduled(schedule, Rotation(nServer, leader))
    modifies rs
    ensures rs.Valid()
    ensures var all := Flat(KeptRanks(ranks));
            && (o.WaitsForGood? <==> !Returns(all, nServer, leader, schedule))
            && (o.Answered? <==>
                  Returns(all, nServer, leader, schedule) && InFull(all, nServer, leader, old(rs.nextId)))
    ensures o.Answered? ==>
              && |o.results| == |ranks|
              && forall r :: 0 <= r < |ranks| ==>
                   && o.results[r] == NodeRecords(ranks, nServer, leader, old(rs.nextId), directory, r)
                   && OfFirst63(ranks[r], nServer, o.results[r], directory)
  {
    ghost var kept, c := KeptRanks(ranks), rs.nextId;
    var all := GatherNames(ranks, order);
    var returned, records := QueryMultiStorageInfo(rs, all, nServer, leader, directory, schedule);
    if !returned { return WaitsForGood; }
    RecordsInFullExactly(all, nServer, leader, c, directory);
    var missing := AnyMissing(records);
    if missing { return MissingRecord; }
    var results := SendBack(records, ranks);
    ResultsOfFirst63(ranks, nServer, leader, c, directory, results);
    return Answered(results);
  }

  lemma ResultsOfFirst63<R>(ranks: seq<seq<Name>>, nServer: nat, leader: nat, c: int, directory: (nat, Name) -> R,
                            results: seq<seq<Option<R>>>)
    requires nServer > 0 && InFull(Flat(KeptRanks(ranks)), nServer, leader, c) && |results| == |ranks|
    requires forall r :: 0 <= r < |ranks| ==> results[r] == NodeRecords(ranks, nServer, leader, c, directory, r)
    ensures forall r :: 0 <= r < |ranks| ==> OfFirst63(ranks[r], nServer, results[r], directory)
  {
    forall r | 0 <= r < |ranks| ensures OfFirst63(ranks[r], nServer, results[r], directory) {
      NodeRecordsAre(ranks, nServer, leader, c, directory, r);
      FullOfFirst63(ranks[r], nServer, results[r], directory);
    }
  }

  lemma FullOfFirst63<R>(names: seq<Name>, nServer: nat, all: seq<Option<R>>, directory: (nat, Name) -> R)
    requires nServer > 0 && Full(KeptAll(names), nServer, all, directory)
    ensures OfFirst63(names, nServer, all, directory)
  {
    assert forall k :: 0 <= k < |names| ==>
             KeptAll(names)[k] == names[k][..if |names[k]| < 63 then |names[k]| else 63];
  }

  method SendBack<R>(records: seq<R>, ranks: seq<seq<Name>>) returns (results: seq<seq<R>>)
    requires |records| == Total(KeptRanks(ranks))
    ensures |results| == |ranks|
    ensures forall r :: 0 <= r < |ranks| ==> results[r] == Stretch(KeptRanks(ranks), records, r)
  {
    var counts := seq(|ranks|, r requires 0 <= r < |ranks| => |ranks[r]|);
    results := ScatterBlocks(records, counts, KeptRanks(ranks));
  }

  lemma InFullIsFull<R>(names: seq<Name>, nServer: nat, rank: nat, c: int, directory: (nat, Name) -> R)
    requires nServer > 0 && InFull(names, nServer, rank, c)
    ensures Full(names, nServer, Records(names, nServer, rank, c, directory), directory)
  {
    RecordsInFullExactly(names, nServer, rank, c, directory);
  }

  // A rank's records are those of its own names, as far as the slots keep them.
  lemma NodeRecordsAre<R>(ranks: seq<seq<Name>>, nServer: nat, leader: nat, c: int, directory: (nat, Name) -> R, r: nat)
    requires nServer > 0 && r < |ranks| && InFull(Flat(KeptRanks(ranks)), nServer, leader, c)
    ensures Full(KeptAll(ranks[r]), nServer, NodeRecords(ranks, nServer, leader, c, directory, r), directory)
  {
    var kept := KeptRanks(ranks);
    InFullIsFull(Flat(kept), nServer, leader, c, directory);
    StretchFull(kept, nServer, Records(Flat(kept), nServer, leader, c, directory), directory, r);
  }

  // Queries answered in full bring back the same for the same names, from wherever they are asked.
  lemma SameWhenKept<R>(ranks: seq<seq<Name>>, nServer: nat, leader: nat, c: int, directory: (nat, Name) -> R,
                        r: nat, own: nat, c': int)
    requires nServer > 0 && r < |ranks|
    requires InFull(Flat(KeptRanks(ranks)), nServer, leader, c) && InFull(ranks[r], nServer, own, c')
    requires forall j :: 0 <= j < |ranks[r]| ==> Kept(ranks[r][j]) == ranks[r][j]
    ensures NodeRecords(ranks, nServer, leader, c, directory, r) == Records(ranks[r], nServer, own, c', directory)
  {
    var a, b := NodeRecords(ranks, nServer, leader, c, directory, r), Records(ranks[r], nServer, own, c', directory);
    NodeRecordsAre(ranks, nServer, leader, c, directory, r);
    InFullIsFull(ranks[r], nServer, own, c', directory);
    assert KeptAll(ranks[r]) == ranks[r];
  }

  lemma FullDiffer(kept: seq<Name>, names: seq<Name>, nServer: nat, a: seq<Option<int>>, b: seq<Option<int>>, j: nat)
    requires nServer > 0 && |kept| == |names| && j < |names| && |kept[j]| != |names[j]|
    requires Full(kept, nServer, a, (s, n) => |n|) && Full(names, nServer, b, (s, n) => |n|)
    ensures a != b
  {
    assert a[j] == Some(|kept[j]|) && b[j] == Some(|names[j]|);
  }

  // A directory that knows how long a name is tells a cut name from the name.
  lemma LongNameDiffers(ranks: seq<seq<Name>>, nServer: nat, leader: nat, c: int, r: nat, own: nat, c': int, j: nat)
    returns (directory: (nat, Name) -> int)
    requires nServer > 0 && r < |ranks| && j < |ranks[r]| && |ranks[r][j]| > 63
    requires InFull(Flat(KeptRanks(ranks)), nServer, leader, c) && InFull(ranks[r], nServer, own, c')
    ensures NodeRecords(ranks, nServer, leader, c, directory, r) != Records(ranks[r], nServer, own, c', directory)
  {
    directory := (s, n) => |n|;
    NodeRecordsAre(ranks, nServer, leader, c, directory, r);
    InFullIsFull(ranks[r], nServer, own, c', directory);
    FullDiffer(KeptAll(ranks[r]), ranks[r], nServer, NodeRecords(ranks, nServer, leader, c, directory, r),
               Records(ranks[r], nServer, own, c', directory), j);
  }

  /** For every rank of a node: what it gets through the leader is what it gets by asking itself, from its own
      request number and in its own rotation, for every directory, exactly when none of its names has more
      than 63 characters. */
  lemma SameAsAskingOneselfExactly(ranks: seq<seq<Name>>, nServer: nat, leader: nat, c: int, r: nat, own: nat, c': int)
    requires nServer > 0 && r < |ranks|
    requires InFull(Flat(KeptRanks(ranks)), nServer, leader, c) && InFull(ranks[r], nServer, own, c')
    ensures (forall directory: (nat, Name) -> int ::
               NodeRecords(ranks, nServer, leader, c, directory, r) == Records(ranks[r], nServer, own, c', directory))
            <==> forall j :: 0 <= j < |ranks[r]| ==> |ranks[r][j]| <= 63
  {
    if j :| 0 <= j < |ranks[r]| && |ranks[r][j]| > 63 {
      var directory := LongNameDiffers(ranks, nServer, leader, c, r, own, c', j);
    } else {
      forall directory: (nat, Name) -> int
        ensures NodeRecords(ranks, nServer, leader, c, directory, r) == Records(ranks[r], nServer, own, c', directory)
      {
        SameWhenKept(ranks, nServer, leader, c, directory, r, own, c');
      }
    }
  }

  /** The two ways of asking, run one after the other: rank `r` holds the same records both times, whenever both
      ways bring them all and its names fit their slots. */
  method AskBothWays<R>(rs: Requests<R>, rs': Requests<R>, ranks: seq<seq<Name>>, r: nat, nServer: nat, leader: nat,
                        own: nat, directory: (nat, Name) -> R, order: seq<nat>, schedule: Schedule, schedule': Schedule)
    returns (o: Outcome<R>, returned: bool, all: seq<Option<R>>)
    requires rs != rs' && rs.Valid() && rs'.Valid()
    requires nServer > 0 && CNames(ranks) && Permutation(order, |ranks|) && r < |ranks|
    requires Scheduled(schedule, Rotation(nServer, leader)) && Scheduled(schedule', Rotation(nServer, own))
    modifies rs, rs'
    ensures o.Answered? && returned && InFull(ranks[r], nServer, own, old(rs'.nextId)) ==>
              && |o.results| == |ranks|
              && ((forall j :: 0 <= j < |ranks[r]| ==> |ranks[r][j]| <= 63) ==> o.results[r] == all)
  {
    ghost var c, c' := rs.nextId, rs'.nextId;
    returned, all := QueryMultiStorageInfo(rs', ranks[r], nServer, own, directory, schedule');
    o := QueryForNode(rs, ranks, nServer, leader, directory, order, schedule);
    if o.Answered? && returned && InFull(ranks[r], nServer, own, c')
       && forall j :: 0 <= j < |ranks[r]| ==> |ranks[r][j]| <= 63 {
      SameWhenKept(ranks, nServer, leader, c, directory, r, own, c');
    }
  }
}
