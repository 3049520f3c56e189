/** Object ids: each server numbers its objects from its own base, which the id gives back. */
module ObjectIds {
  import opened Basics

  const INTERVAL: nat := 1_000_000_000

  // A server creates an object, or is started again: the counter is not part of the checkpoint.
  datatype Event = Create(server: nat) | Restart(server: nat)

  // Object number `k` of a server, counting from its last start.
  datatype Made = Made(server: nat, k: nat)

  function Id(m: Made): nat {
    INTERVAL * (m.server + 1) + m.k
  }

  ghost function Next(evs: seq<Event>, s: nat): nat {
    if evs == [] then 0
    else
      var n, e := Next(evs[..|evs| - 1], s), evs[|evs| - 1];
      if e == Create(s) then n + 1 else if e == Restart(s) then 0 else n
  }

  ghost function Log(evs: seq<Event>): seq<Made> {
    if evs == [] then []
    else
      var before, e := evs[..|evs| - 1], evs[|evs| - 1];
      if e.Create? then Log(before) + [Made(e.server, Next(before, e.server))] else Log(before)
  }

  /** The counters of all servers. */
  class Counters {
    var next: seq<nat>
    ghost var evs: seq<Event>

    ghost predicate Valid()
      reads this
    {
      forall s :: 0 <= s < |next| ==> next[s] == INTERVAL * (s + 1) + Next(evs, s)
    }

    constructor (n: nat)
      ensures Valid() && |next| == n && evs == []
    {
      next := seq(n, s => INTERVAL * (s + 1));
      evs := [];
    }

    method GenObjId(s: nat) returns (id: nat)
      requires Valid() && s < |next|
      modifies this
      ensures Valid() && |next| == old(|next|) && evs == old(evs) + [Create(s)]
      ensures Log(evs) != [] && Log(evs)[..|Log(evs)| - 1] == old(Log(evs)) && id == Id(Log(evs)[|Log(evs)| - 1])
    {
      id := next[s];
      next := next[s := next[s] + 1];
      assert (evs + [Create(s)])[..|evs|] == evs;
      evs := evs + [Create(s)];
    }

    method Start(s: nat)
      requires Valid() && s < |next|
      modifies this
      ensures Valid() && |next| == old(|next|) && evs == old(evs) + [Restart(s)] && Log(evs) == old(Log(evs))
    {
      next := next[s := INTERVAL * (s + 1)];
      assert (evs + [Restart(s)])[..|evs|] == evs;
      evs := evs + [Restart(s)];
    }
  }

  // ---- The server of an id ----

  // As the clients compute it, and as the servers do.
  function ServerOfId(id: nat, n: nat): nat
    requires n > 0
  {
    (if id < INTERVAL then 0xFFFF_FFFF_FFFF_FFFF else id / INTERVAL - 1) % n
  }

  function ServerByObjId(id: nat, n: nat): (s: nat)
    requires n > 0
    ensures s < n
  {
    var q := id / INTERVAL % 0x1_0000_0000;
    (if q == 0 then 0xFFFF_FFFF else q - 1) % n
  }

  // Where an object of this name and time step is created.
  function Route(hash: nat, timeStep: nat, n: nat): (s: nat)
    requires n > 0
    ensures s < n
  {
    (hash + timeStep) % 0x1_0000_0000 % n
  }

  lemma IdQuotient(m: Made)
    ensures Id(m) / INTERVAL == m.server + 1 + m.k / INTERVAL
  {
  }

  lemma Wraps(s: nat, q: nat, n: nat)
    requires s < n
    ensures (s + q) % n == s <==> q % n == 0
  {
    var r := q % n;
    assert q == n * (q / n) + r;
    Cycles(s + r, q / n, n);
    assert s + q == s + r + n * (q / n);
    if s + r < n {
      Small(s + r, n);
    } else {
      Cycles(s + r - n, 1, n);
      Small(s + r - n, n);
    }
  }

  lemma Small(x: nat, n: nat)
    requires x < n
    ensures x % n == x
  {
  }

  lemma {:induction false} Cycles(x: nat, q: nat, n: nat)
    requires n > 0
    ensures (x + n * q) % n == x % n
  {
    if q == 0 {
    } else {
      Cycles(x, q - 1, n);
      assert x + n * q == x + n * (q - 1) + n;
      OneCycle(x + n * (q - 1), n);
    }
  }

  lemma OneCycle(x: nat, n: nat)
    requires n > 0
    ensures (x + n) % n == x % n
  {
    assert x == n * (x / n) + x % n;
    assert n * (x / n + 1) == n * (x / n) + n;
    Remainder(x + n, n, x / n + 1, x % n);
  }

  /** An id leads back to the server that made it exactly when the whole intervals that server had filled
      are a multiple of the number of servers; and both computations agree. */
  lemma IdLeadsBackExactly(m: Made, n: nat)
    requires m.server < n && m.server + 1 + m.k / INTERVAL < 0x1_0000_0000
    ensures ServerOfId(Id(m), n) == m.server <==> (m.k / INTERVAL) % n == 0
    ensures ServerByObjId(Id(m), n) == ServerOfId(Id(m), n)
  {
    IdQuotient(m);
    Wraps(m.server, m.k / INTERVAL, n);
  }

  // ---- When ids are distinct ----

  ghost predicate Distinct(log: seq<Made>) {
    forall p, q :: 0 <= p < q < |log| ==> Id(log[p]) != Id(log[q])
  }

  ghost function Count(evs: seq<Event>, s: nat): nat {
    if evs == [] then 0 else Count(evs[..|evs| - 1], s) + if evs[|evs| - 1] == Create(s) then 1 else 0
  }

  // The server has been started again after it had made objects.
  ghost predicate StartedAgain(evs: seq<Event>, s: nat) {
    evs != [] &&
    (StartedAgain(evs[..|evs| - 1], s) || (evs[|evs| - 1] == Restart(s) && Create(s) in evs[..|evs| - 1]))
  }

  // Some server makes an object after that.
  ghost predicate CreatesAgain(evs: seq<Event>) {
    evs != [] &&
    (CreatesAgain(evs[..|evs| - 1])
     || (evs[|evs| - 1].Create? && StartedAgain(evs[..|evs| - 1], evs[|evs| - 1].server)))
  }

  // One server has run into the interval of another that has made objects.
  ghost predicate RunsInto(evs: seq<Event>, s: nat, t: nat) {
    s < t && Count(evs, t) > 0 && Count(evs, s) > INTERVAL * (t - s)
  }

  ghost predicate SomeRunsInto(evs: seq<Event>) {
    exists s: nat, t: nat :: RunsInto(evs, s, t)
  }

  lemma {:induction false} CountZero(evs: seq<Event>, s: nat)
    ensures Count(evs, s) > 0 <==> Create(s) in evs
  {
    if evs == [] {
    } else {
      CountZero(evs[..|evs| - 1], s);
      assert evs == evs[..|evs| - 1] + [evs[|evs| - 1]];
    }
  }

  lemma {:induction false} NextIsCount(evs: seq<Event>, s: nat)
    ensures StartedAgain(evs, s) || Next(evs, s) == Count(evs, s)
  {
    if evs == [] {
    } else {
      NextIsCount(evs[..|evs| - 1], s);
      CountZero(evs[..|evs| - 1], s);
    }
  }

  // Without creating again, each server's objects are numbered from 0 on, each number once.
  lemma {:induction false} LogIsCounted(evs: seq<Event>, p: nat)
    requires !CreatesAgain(evs) && p < |Log(evs)|
    ensures Log(evs)[p].k < Count(evs, Log(evs)[p].server)
  {
    var n := |evs| - 1;
    var before, e := evs[..n], evs[n];
    if p < |Log(before)| {
      LogIsCounted(before, p);
    } else {
      NextIsCount(before, e.server);
    }
  }

  lemma {:induction false} LogHasNoRepeats(evs: seq<Event>, p: nat, q: nat)
    requires !CreatesAgain(evs) && p < q < |Log(evs)|
    ensures Log(evs)[p] != Log(evs)[q]
  {
    var n := |evs| - 1;
    var before, e := evs[..n], evs[n];
    if q < |Log(before)| {
      LogHasNoRepeats(before, p, q);
    } else {
      NextIsCount(before, e.server);
      LogIsCounted(before, p);
    }
  }

  lemma {:induction false} LogHasAll(evs: seq<Event>, s: nat, k: nat)
    requires !CreatesAgain(evs) && k < Count(evs, s)
    ensures Made(s, k) in Log(evs)
  {
    var n := |evs| - 1;
    var before, e := evs[..n], evs[n];
    if k < Count(before, s) {
      LogHasAll(before, s, k);
    } else {
      NextIsCount(before, s);
    }
  }

  lemma SameIdRunsInto(evs: seq<Event>, p: nat, q: nat)
    requires !CreatesAgain(evs) && p < q < |Log(evs)| && Id(Log(evs)[p]) == Id(Log(evs)[q])
    ensures SomeRunsInto(evs)
  {
    var x, y := Log(evs)[p], Log(evs)[q];
    LogHasNoRepeats(evs, p, q);
    LogIsCounted(evs, p);
    LogIsCounted(evs, q);
    assert RunsInto(evs, x.server, y.server) || RunsInto(evs, y.server, x.server);
  }

  lemma RunsIntoSameId(evs: seq<Event>)
    requires !CreatesAgain(evs) && SomeRunsInto(evs)
    ensures !Distinct(Log(evs))
  {
    var s: nat, t: nat :| RunsInto(evs, s, t);
    var x, y := Made(s, INTERVAL * (t - s)), Made(t, 0);
    LogHasAll(evs, s, x.k);
    LogHasAll(evs, t, 0);
    var p :| 0 <= p < |Log(evs)| && Log(evs)[p] == x;
    var q :| 0 <= q < |Log(evs)| && Log(evs)[q] == y;
    assert Id(x) == Id(y);
  }

  // ---- Creating again repeats an id ----

  // Objects made before the last start of a server.
  ghost function Earlier(evs: seq<Event>, s: nat): nat {
    if evs == [] then 0
    else if evs[|evs| - 1] == Restart(s) then |Log(evs[..|evs| - 1])| else Earlier(evs[..|evs| - 1], s)
  }

  lemma {:induction false} EarlierBound(evs: seq<Event>, s: nat)
    ensures Earlier(evs, s) <= |Log(evs)|
  {
    if evs == [] {
    } else {
      EarlierBound(evs[..|evs| - 1], s);
    }
  }

  lemma {:induction false} FirstSinceStart(evs: seq<Event>, s: nat)
    requires Next(evs, s) > 0
    ensures exists p :: Earlier(evs, s) <= p < |Log(evs)| && Log(evs)[p] == Made(s, 0)
  {
    var n := |evs| - 1;
    var before := evs[..n];
    EarlierBound(before, s);
    if Next(before, s) > 0 && evs[n] != Restart(s) {
      FirstSinceStart(before, s);
      var p :| Earlier(before, s) <= p < |Log(before)| && Log(before)[p] == Made(s, 0);
      assert Log(evs)[p] == Made(s, 0);
    } else {
      assert Log(evs)[|Log(before)|] == Made(s, 0);
    }
  }

  lemma {:induction false} FirstBeforeStart(evs: seq<Event>, s: nat)
    requires StartedAgain(evs, s)
    ensures exists p :: 0 <= p < Earlier(evs, s) <= |Log(evs)| && Log(evs)[p] == Made(s, 0)
  {
    var n := |evs| - 1;
    var before := evs[..n];
    EarlierBound(before, s);
    if StartedAgain(before, s) {
      FirstBeforeStart(before, s);
      var p :| 0 <= p < Earlier(before, s) <= |Log(before)| && Log(before)[p] == Made(s, 0);
      assert Log(evs)[p] == Made(s, 0);
    } else {
      CountZero(before, s);
      NextIsCount(before, s);
      FirstSinceStart(before, s);
      var p :| Earlier(before, s) <= p < |Log(before)| && Log(before)[p] == Made(s, 0);
      assert Log(evs)[p] == Made(s, 0);
    }
  }

  lemma {:induction false} CreatesAgainRepeats(evs: seq<Event>)
    requires CreatesAgain(evs)
    ensures !Distinct(Log(evs))
  {
    var n := |evs| - 1;
    var before, e := evs[..n], evs[n];
    if CreatesAgain(before) {
      CreatesAgainRepeats(before);
      var p, q :| 0 <= p < q < |Log(before)| && Id(Log(before)[p]) == Id(Log(before)[q]);
      assert Id(Log(evs)[p]) == Id(Log(evs)[q]);
    } else {
      FirstBeforeStart(evs, e.server);
      FirstSinceStart(evs, e.server);
      var p :| 0 <= p < Earlier(evs, e.server) <= |Log(evs)| && Log(evs)[p] == Made(e.server, 0);
      var q :| Earlier(evs, e.server) <= q < |Log(evs)| && Log(evs)[q] == Made(e.server, 0);
      assert Id(Log(evs)[p]) == Id(Log(evs)[q]);
    }
  }

  /** Over every run, all ids are distinct exactly when no server that had made objects makes more after
      being started again, and no server fills its intervals up to one that has made objects. */
  lemma IdsDistinctExactly(evs: seq<Event>)
    ensures Distinct(Log(evs)) <==> !CreatesAgain(evs) && !SomeRunsInto(evs)
  {
    if CreatesAgain(evs) {
      CreatesAgainRepeats(evs);
    } else if SomeRunsInto(evs) {
      RunsIntoSameId(evs);
    } else {
      forall p, q | 0 <= p < q < |Log(evs)| ensures Id(Log(evs)[p]) != Id(Log(evs)[q]) {
        if Id(Log(evs)[p]) == Id(Log(evs)[q]) { SameIdRunsInto(evs, p, q); }
      }
    }
  }

  // ---- Creation requests routed by name and time step ----

  datatype Request = Request(hash: nat, timeStep: nat)

  ghost function Routed(reqs: seq<Request>, n: nat): (r: seq<Event>)
    requires n > 0
    ensures |r| == |reqs|
    ensures forall i :: 0 <= i < |reqs| ==> r[i] == Create(Route(reqs[i].hash, reqs[i].timeStep, n))
  {
    seq(|reqs|, i requires 0 <= i < |reqs| => Create(Route(reqs[i].hash, reqs[i].timeStep, n)))
  }

  lemma {:induction false} LogOfCreates(evs: seq<Event>)
    requires forall i :: 0 <= i < |evs| ==> evs[i].Create?
    ensures !CreatesAgain(evs) && |Log(evs)| == |evs|
    ensures forall i :: 0 <= i < |evs| ==> Log(evs)[i].server == evs[i].server
    ensures forall s: nat :: !StartedAgain(evs, s)
  {
    if evs == [] {
    } else {
      LogOfCreates(evs[..|evs| - 1]);
    }
  }

  /** While no server makes more than an interval of objects, all ids are distinct and each leads back to
      the server its name and time step were routed to. */
  lemma IdFindsItsServer(reqs: seq<Request>, n: nat, p: nat)
    requires 0 < n < 0xFFFF_FFFF && p < |reqs|
    requires forall s: nat :: Count(Routed(reqs, n), s) <= INTERVAL
    ensures var log := Log(Routed(reqs, n));
            && |log| == |reqs| && Distinct(log)
            && ServerOfId(Id(log[p]), n) == ServerByObjId(Id(log[p]), n)
            && ServerOfId(Id(log[p]), n) == (reqs[p].hash + reqs[p].timeStep) % 0x1_0000_0000 % n
  {
    var evs := Routed(reqs, n);
    LogOfCreates(evs);
    forall s: nat, t: nat ensures !RunsInto(evs, s, t) { assert Count(evs, s) <= INTERVAL; }
    IdsDistinctExactly(evs);
    var m := Log(evs)[p];
    LogIsCounted(evs, p);
    assert m.k / INTERVAL == 0;
    Small(0, n);
    IdLeadsBackExactly(m, n);
  }
}
