/** The client's list of outstanding requests and the sequence numbers it finds them by. */
module RequestList {
  import opened Options
  import opened TwoWaits

  const FIRST_ID: int := 1000
  const LAST_ID: int := 99999

  class Request<R> {
    var seqId: int
    var reply: Option<seq<R>>

    constructor ()
      ensures reply == None
    {
      seqId, reply := 0, None;
    }
  }

  class Requests<R> {
    var list: seq<Request<R>>
    var nextId: int

    constructor ()
      ensures Valid() && list == [] && nextId == FIRST_ID
    {
      list, nextId := [], FIRST_ID;
    }

    /** Live requests are distinct objects with distinct numbers, all of them handed out before. */
    ghost predicate Valid()
      reads this, list
    {
      && nextId >= FIRST_ID
      && (forall i :: 0 <= i < |list| ==> FIRST_ID <= list[i].seqId < nextId)
      && (forall i, j :: 0 <= i < j < |list| ==> list[i] != list[j] && list[i].seqId != list[j].seqId)
    }

    method Add(r: Request<R>)
      requires Valid() && r !in list
      modifies this, r`seqId
      ensures Valid()
      ensures list == [r] + old(list) && r.seqId == old(nextId) && nextId == old(nextId) + 1
    {
      r.seqId := nextId;
      nextId := nextId + 1;
      list := [r] + list;
    }

    /** The request takes a new number on its way out; the numbers of those that stay are untouched. */
    method Delete(r: Request<R>, ghost k: nat)
      requires Valid() && k < |list| && list[k] == r
      modifies this, r`seqId
      ensures Valid()
      ensures list == old(list)[..k] + old(list)[k + 1..]
      ensures r.seqId == old(nextId) && nextId == old(nextId) + 1
    {
      r.seqId := nextId;
      nextId := nextId + 1;
      var i := 0;
      while list[i] != r
        invariant 0 <= i <= k
        decreases k - i
      {
        i := i + 1;
      }
      list := list[..i] + list[i + 1..];
    }

    /** Numbers outside the accepted range find nothing; any other finds the live request that has it. */
    method Find(id: int) returns (r: Request?<R>)
      requires Valid()
      ensures r != null ==> r in list && r.seqId == id
      ensures r == null <==> !(FIRST_ID <= id <= LAST_ID) || forall q :: q in list ==> q.seqId != id
    {
      r := null;
      if id < FIRST_ID || id > LAST_ID { return; }
      for i := 0 to |list|
        invariant r != null ==> r in list[..i] && r.seqId == id
        invariant r == null ==> forall q :: q in list[..i] ==> q.seqId != id
      {
        if list[i].seqId == id { r := list[i]; }
      }
      assert list[..|list|] == list;
    }
  }

  // ---- How many requests can be answered before the numbers run out ----

  // The next number after `m` requests in turn, each answered before the next is sent: an answered request
  // takes two numbers, one that is no longer found takes one and stays in the list.
  function CounterAfter(c: int, m: nat): int {
    if m == 0 then c
    else var p := CounterAfter(c, m - 1); if FIRST_ID <= p <= LAST_ID then p + 2 else p + 1
  }

  /** Of the requests sent from number `c` on, number `m` is answered exactly when `c + 2 * m` is still found. */
  lemma {:induction false} AnsweredExactly(c: int, m: nat)
    requires c >= FIRST_ID
    ensures CounterAfter(c, m) >= c
    ensures CounterAfter(c, m) <= LAST_ID <==> c + 2 * m <= LAST_ID
    ensures CounterAfter(c, m) <= LAST_ID ==> CounterAfter(c, m) == c + 2 * m
    ensures CounterAfter(c, m) > LAST_ID ==> CounterAfter(c, m) <= c + 2 * m
  {
    if m == 0 {
    } else {
      AnsweredExactly(c, m - 1);
    }
  }

  // The callback of a reply: the request is found by its number, given the reply and removed.
  method OnReply<R>(rs: Requests<R>, ghost r: Request<R>, id: int, reply: seq<R>)
    requires rs.Valid() && rs.list != [] && rs.list[0] == r && r.seqId == id && r.reply == None
    modifies rs, r
    ensures rs.Valid() && r.reply == if id <= LAST_ID then Some(reply) else None
    ensures id <= LAST_ID ==> rs.list == old(rs.list)[1..] && rs.nextId == old(rs.nextId) + 1
    ensures id > LAST_ID ==> rs.list == old(rs.list) && rs.nextId == old(rs.nextId)
  {
    var found := rs.Find(id);
    if found != null {
      assert found == r;
      found.reply := Some(reply);
      rs.Delete(found, 0);
      assert rs.list == old(rs.list)[1..];
    }
  }

  /** One exchange, with its callbacks and its looks at the counter in the order `es`: the client comes back
      unless both callbacks run before it first looks, and the request has its reply if its number is found. */
  method Exchange<R>(rs: Requests<R>, r: Request<R>, reply: seq<R>, es: seq<Event>) returns (returned: bool)
    requires rs.Valid() && r !in rs.list && r.reply == None && Complete(es)
    modifies rs, r
    ensures returned <==> !Together(es)
    ensures rs.Valid()
    ensures r.reply == if old(rs.nextId) <= LAST_ID then Some(reply) else None
    ensures old(rs.nextId) <= LAST_ID ==> rs.list == old(rs.list) && rs.nextId == old(rs.nextId) + 2
    ensures old(rs.nextId) > LAST_ID ==> rs.list == [r] + old(rs.list) && rs.nextId == old(rs.nextId) + 1
  {
    ghost var list, c := rs.list, rs.nextId;
    rs.Add(r);
    var id, s, i := r.seqId, START, 0;
    while i < |es|
      invariant 0 <= i <= |es| && id == c && rs.Valid()
      invariant Run(es[..i]) == Some(s)
      invariant !s.replied ==> rs.list == [r] + list && r.seqId == id && r.reply == None && rs.nextId == c + 1
      invariant s.replied ==>
                  && r.reply == (if c <= LAST_ID then Some(reply) else None)
                  && rs.list == (if c <= LAST_ID then list else [r] + list)
                  && rs.nextId == if c <= LAST_ID then c + 2 else c + 1
    {
      NextEvent(es, i);
      if es[i] == Reply { OnReply(rs, r, id, reply); }
      s := Step(s, es[i]);
      i := i + 1;
    }
    assert es[..|es|] == es;
    ReturnsExactly(es);
    returned := s.phase == Returned;
  }

  // Every event of a complete run was enabled.
  lemma {:induction false} NextEvent(es: seq<Event>, i: nat)
    requires i < |es| && Run(es).Some?
    ensures Run(es[..i]).Some? && Enabled(Run(es[..i]).value, es[i])
    ensures Run(es[..i + 1]) == Some(Step(Run(es[..i]).value, es[i]))
    decreases |es|
  {
    if i == |es| - 1 {
      assert es[..i + 1] == es;
    } else {
      var before := es[..|es| - 1];
      assert before[..i] == es[..i] && before[..i + 1] == es[..i + 1];
      NextEvent(before, i);
    }
  }
}
