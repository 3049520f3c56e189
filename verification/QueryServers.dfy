/** Which servers a query goes to, and the chain the client links them in. */
module QueryServers {
  import opened Basics
  import opened QueryTree
  import opened QueryWire
  import ObjectIds

  // ---- Collecting the distinct servers of the leaves ----

  // A leaf without a constraint would be read through a null pointer.
  predicate LeavesHold(q: Query) {
    q.Null? || (if Leaf(q) then q.constraint.Some? else LeavesHold(q.left) && LeavesHold(q.right))
  }

  function LeafServers(q: Query, nServer: nat): (r: seq<nat>)
    requires nServer > 0 && LeavesHold(q)
    ensures forall s :: s in r ==> s < nServer
  {
    if q.Null? then []
    else if Leaf(q) then [ObjectIds.ServerByObjId(q.constraint.value.objId, nServer)]
    else LeafServers(q.left, nServer) + LeafServers(q.right, nServer)
  }

  // The server that the object of constraint `i` lies on.
  function ServerOf(cs: seq<Constraint>, i: nat, nServer: nat): nat
    requires nServer > 0 && i < |cs|
  {
    ObjectIds.ServerByObjId(cs[i].objId, nServer)
  }

  /** One server for each constraint sent, that of its object. */
  lemma {:induction false} LeafServersExactly(q: Query, nServer: nat)
    requires nServer > 0 && LeavesHold(q)
    ensures |LeafServers(q, nServer)| == |Constraints(q)|
    ensures forall i :: 0 <= i < |Constraints(q)| ==> LeafServers(q, nServer)[i] == ServerOf(Constraints(q), i, nServer)
  {
    if q.Null? || Leaf(q) {
    } else {
      LeafServersExactly(q.left, nServer);
      LeafServersExactly(q.right, nServer);
    }
  }

  // First occurrences: `acc` extended by the elements of `s` it does not have yet, in order.
  function Firsts(acc: seq<nat>, s: seq<nat>): (r: seq<nat>)
    ensures acc <= r
    ensures forall x :: x in r <==> x in acc || x in s
    ensures Distinct(acc) ==> Distinct(r)
    decreases |s|
  {
    if s == [] then acc
    else Firsts(if s[0] in acc then acc else acc + [s[0]], s[1..])
  }

  lemma {:induction false} FirstsAppend(acc: seq<nat>, s: seq<nat>, t: seq<nat>)
    ensures Firsts(acc, s + t) == Firsts(Firsts(acc, s), t)
    decreases |s|
  {
    if s == [] {
      assert s + t == t;
    } else {
      assert (s + t)[1..] == s[1..] + t;
      FirstsAppend(if s[0] in acc then acc else acc + [s[0]], s[1..], t);
    }
  }

  /** Each element is placed by its first occurrence: what is new in the result comes in the order in
      which it first appears. */
  lemma {:induction false} FirstsInOrder(acc: seq<nat>, s: seq<nat>, k: nat)
    requires k < |s| && s[k] !in s[..k] && s[k] !in acc
    ensures Firsts(acc, s[..k]) + [s[k]] <= Firsts(acc, s)
  {
    assert s == s[..k] + s[k..] && s[k..][0] == s[k];
    FirstsAppend(acc, s[..k], s[k..]);
    var f := Firsts(acc, s[..k]);
    assert s[k] !in f;
    assert f + [s[k]] <= Firsts(f, s[k..]);
  }

  lemma FirstsOfOne(s: seq<nat>, id: nat)
    ensures Firsts(s, [id]) == if id in s then s else s + [id]
  {
    assert [id][1..] == [];
  }

  // Each target with the constraint that names it first, in order.
  ghost predicate FirstNamed(targets: seq<nat>, at: seq<nat>, cs: seq<Constraint>, nServer: nat)
    requires nServer > 0
  {
    && |at| == |targets|
    && (forall j :: 0 <= j < |at| ==> at[j] < |cs| && ServerOf(cs, at[j], nServer) == targets[j])
    && (forall j, i :: 0 <= j < |at| && 0 <= i < at[j] && i < |cs| ==> ServerOf(cs, i, nServer) != targets[j])
    && forall j, k :: 0 <= j < k < |at| ==> at[j] < at[k]
  }

  // The first occurrences in `s`, with their places.
  ghost predicate Occurs(r: seq<nat>, at: seq<nat>, s: seq<nat>) {
    && |at| == |r|
    && (forall j :: 0 <= j < |at| ==> at[j] < |s| && s[at[j]] == r[j])
    && (forall j, i :: 0 <= j < |at| && 0 <= i < at[j] && i < |s| ==> s[i] != r[j])
    && forall j, k :: 0 <= j < k < |at| ==> at[j] < at[k]
  }

  lemma FirstsLast(s: seq<nat>)
    requires s != []
    ensures var n := |s| - 1;
            Firsts([], s) == Firsts([], s[..n]) + if s[n] in s[..n] then [] else [s[n]]
  {
    var n := |s| - 1;
    assert s == s[..n] + [s[n]];
    FirstsAppend([], s[..n], [s[n]]);
    FirstsOfOne(Firsts([], s[..n]), s[n]);
  }

  lemma OccursStill(r: seq<nat>, at: seq<nat>, s: seq<nat>)
    requires s != [] && Occurs(r, at, s[..|s| - 1])
    ensures Occurs(r, at, s)
  {
    var init := s[..|s| - 1];
    forall j, i | 0 <= j < |at| && 0 <= i < at[j] ensures s[i] != r[j] { assert init[i] != r[j]; }
  }

  lemma OccursNew(r: seq<nat>, at: seq<nat>, s: seq<nat>)
    requires s != [] && Occurs(r, at, s) && s[|s| - 1] !in s[..|s| - 1]
    requires forall j :: 0 <= j < |at| ==> at[j] < |s| - 1
    ensures Occurs(r + [s[|s| - 1]], at + [|s| - 1], s)
  {
    var n := |s| - 1;
    forall i | 0 <= i < n ensures s[i] != s[n] { assert s[i] == s[..n][i]; }
  }

  lemma {:induction false} FirstsOccur(s: seq<nat>) returns (at: seq<nat>)
    ensures Occurs(Firsts([], s), at, s)
  {
    if s == [] {
      at := [];
    } else {
      var n := |s| - 1;
      var before := FirstsOccur(s[..n]);
      FirstsLast(s);
      OccursStill(Firsts([], s[..n]), before, s);
      if s[n] in s[..n] {
        at := before;
      } else {
        OccursNew(Firsts([], s[..n]), before, s);
        at := before + [n];
      }
    }
  }

  // One server, unless it is there already.
  method AddServer(id: nat, servers: array<nat>, n: nat, nServer: nat) returns (n': nat)
    requires id < nServer == servers.Length && n <= nServer
    requires Distinct(servers[..n]) && forall i :: 0 <= i < n ==> servers[i] < nServer
    modifies servers
    ensures n <= n' <= nServer
    ensures servers[..n'] == Firsts(old(servers[..n]), [id])
    ensures Distinct(servers[..n']) && forall i :: 0 <= i < n' ==> servers[i] < nServer
    ensures servers[n'..] == old(servers[..])[n'..]
  {
    ghost var was := servers[..n];
    FirstsOfOne(was, id);
    var i := 0;
    while i < n
      invariant 0 <= i <= n && id !in servers[..i]
    {
      if servers[i] == id { break; }
      i := i + 1;
    }
    if i < n {
      assert was[i] == id;
      return n;
    }
    RoomForOneMore(was, nServer, id);
    servers[n] := id;
    assert servers[..n + 1] == was + [id];
    return n + 1;
  }

  /** The recursive walk over the tree, appending to the caller's array.  With one entry for each
      server the array is never overrun. */
  method GetServers(q: Query, servers: array<nat>, n: nat, nServer: nat) returns (n': nat)
    requires nServer > 0 && LeavesHold(q) && servers.Length == nServer && n <= nServer
    requires Distinct(servers[..n]) && forall i :: 0 <= i < n ==> servers[i] < nServer
    modifies servers
    ensures n <= n' <= nServer
    ensures servers[..n'] == Firsts(old(servers[..n]), LeafServers(q, nServer))
    ensures Distinct(servers[..n']) && forall i :: 0 <= i < n' ==> servers[i] < nServer
    ensures servers[n'..] == old(servers[..])[n'..]
    decreases q
  {
    ghost var was := servers[..n];
    if q.Null? { return n; }
    if Leaf(q) {
      n' := AddServer(ObjectIds.ServerByObjId(q.constraint.value.objId, nServer), servers, n, nServer);
      return;
    }
    FirstsAppend(was, LeafServers(q.left, nServer), LeafServers(q.right, nServer));
    n' := GetServers(q.left, servers, n, nServer);
    n' := GetServers(q.right, servers, n', nServer);
  }

  /** The target servers of a query: a server is a target exactly when the object of some constraint lies on it,
      and targets come in the order of the constraints that name them first. */
  method TargetServers(q: Query, nServer: nat) returns (targets: seq<nat>, ghost at: seq<nat>)
    requires nServer > 0 && LeavesHold(q)
    ensures Distinct(targets) && |targets| <= nServer
    ensures forall s :: s in targets <==>
              exists i :: 0 <= i < |Constraints(q)| && ServerOf(Constraints(q), i, nServer) == s
    ensures FirstNamed(targets, at, Constraints(q), nServer)
  {
    var servers := new nat[nServer](i => 0);
    var n := GetServers(q, servers, 0, nServer);
    targets := servers[..n];
    at := FirstsOccur(LeafServers(q, nServer));
    LeafServersExactly(q, nServer);
  }

  // ---- The chain ----

  datatype Link = Link(next: int, prev: int)

  // The position of `s` in `targets`, or past its end.
  function Find(targets: seq<nat>, s: nat): (i: nat)
    ensures i <= |targets| && s !in targets[..i] && (i < |targets| ==> targets[i] == s)
  {
    if targets == [] || targets[0] == s then 0
    else
      assert targets == [targets[0]] + targets[1..];
      1 + Find(targets[1..], s)
  }

  // The links sent to server `s`: what its position sets, on top of what the previous server left.
  function LinkOf(targets: seq<nat>, s: nat): Link {
    var left := if s == 0 then Link(0, 0) else LinkOf(targets, s - 1);
    var i := Find(targets, s);
    if |targets| == 0 then left
    else if i == |targets| then Link(-1, -1)
    else
      Link(if i < |targets| - 1 then targets[i + 1] else if i == 0 then left.next else -1,
           if i > 0 then targets[i - 1] else left.prev)
  }

  /** The loop over all servers, with both link variables carried from one to the next. */
  method SendLinks(targets: seq<nat>, nServer: nat) returns (sent: seq<Link>)
    ensures |sent| == nServer && forall s :: 0 <= s < nServer ==> sent[s] == LinkOf(targets, s)
  {
    sent := [];
    var next: int, prev: int := 0, 0;
    for server := 0 to nServer
      invariant |sent| == server && forall s :: 0 <= s < server ==> sent[s] == LinkOf(targets, s)
      invariant Link(next, prev) == if server == 0 then Link(0, 0) else LinkOf(targets, server - 1)
    {
      ghost var left := Link(next, prev);
      var i := 0;
      while i < |targets|
        invariant 0 <= i <= |targets| && server !in targets[..i]
        invariant Link(next, prev) == if i == 0 then left else Link(-1, -1)
      {
        if server == targets[i] {
          if i > 0 { prev := targets[i - 1]; }
          if i < |targets| - 1 { next := targets[i + 1]; }
          break;
        }
        next, prev := -1, -1;
        i := i + 1;
      }
      FindIs(targets, server, i);
      sent := sent + [Link(next, prev)];
    }
  }

  lemma {:induction false} FindIs(targets: seq<nat>, s: nat, i: nat)
    requires i <= |targets| && s !in targets[..i] && (i < |targets| ==> targets[i] == s)
    ensures Find(targets, s) == i
  {
    if i == 0 {
    } else {
      assert targets[..i][0] == targets[0];
      assert forall x :: x in targets[1..][..i - 1] ==> x in targets[..i];
      FindIs(targets[1..], s, i - 1);
    }
  }

  lemma FindTarget(targets: seq<nat>, i: nat)
    requires Distinct(targets) && i < |targets|
    ensures Find(targets, targets[i]) == i
  {
    FindIs(targets, targets[i], i);
  }

  /** With two targets or more every target but the last points to the next, the last to none, every target
      but the first back to the one before it, and every other server nowhere. */
  lemma LinksAreRight(targets: seq<nat>, i: nat)
    requires Distinct(targets) && |targets| >= 2 && i < |targets|
    ensures LinkOf(targets, targets[i]).next == if i < |targets| - 1 then targets[i + 1] else -1
    ensures i > 0 ==> LinkOf(targets, targets[i]).prev == targets[i - 1]
  {
    FindTarget(targets, i);
  }

  lemma OthersUnlinked(targets: seq<nat>, s: nat)
    requires targets != [] && s !in targets
    ensures LinkOf(targets, s) == Link(-1, -1)
  {
    FindIs(targets, s, |targets|);
  }

  // Following the links from server `s` for at most `steps` steps.
  function Follow(targets: seq<nat>, s: int, steps: nat): seq<int>
    decreases steps
  {
    if s < 0 || steps == 0 then [] else [s] + Follow(targets, LinkOf(targets, s).next, steps - 1)
  }

  lemma {:induction false} FollowFrom(targets: seq<nat>, i: nat, steps: nat)
    requires Distinct(targets) && |targets| >= 2 && i < |targets| && steps >= |targets| - i
    ensures Follow(targets, targets[i], steps) == targets[i..]
    decreases steps
  {
    LinksAreRight(targets, i);
    if i == |targets| - 1 {
    } else {
      FollowFrom(targets, i + 1, steps - 1);
    }
  }

  /** Followed from the manager, the links visit every target once, in order, and stop: however many steps
      are allowed beyond that, none is taken. */
  lemma ChainVisitsAll(targets: seq<nat>, steps: nat)
    requires Distinct(targets) && |targets| >= 2 && steps >= |targets|
    ensures Follow(targets, targets[0], steps) == targets
  {
    FollowFrom(targets, 0, steps);
    assert targets[0..] == targets;
  }

  /** The first target's back link is what the server before it was sent.  It says "none" exactly when
      there is such a server and it is not a target. */
  lemma HeadPrevExactly(targets: seq<nat>)
    requires Distinct(targets) && |targets| >= 2
    ensures LinkOf(targets, targets[0]).prev == -1 <==> targets[0] > 0 && targets[0] - 1 !in targets
  {
    var h := targets[0];
    HeadPrevIsLeft(targets);
    if h > 0 {
      if h - 1 in targets {
        var i :| 0 <= i < |targets| && targets[i] == h - 1;
        LinksAreRight(targets, i);
      } else {
        OthersUnlinked(targets, h - 1);
      }
    }
  }

  // The head is sent the back link of the server before it.
  lemma HeadPrevIsLeft(targets: seq<nat>)
    requires Distinct(targets) && |targets| >= 2
    ensures LinkOf(targets, targets[0]).prev == if targets[0] == 0 then 0 else LinkOf(targets, targets[0] - 1).prev
  {
    FindTarget(targets, 0);
  }

  /** A single target is sent the links the server before it was sent: the chain ends there exactly when the
      target is not server 0, which is told to go on to itself. */
  lemma SingleTargetExactly(t: nat)
    ensures LinkOf([t], t).next == -1 <==> t != 0
    ensures LinkOf([0], 0).next == 0
  {
    FindTarget([t], 0);
    FindTarget([0], 0);
    if t > 0 { OthersUnlinked([t], t - 1); }
  }
}
