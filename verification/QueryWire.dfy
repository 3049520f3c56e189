/** Sending a query: the tree in preorder with -1 for absent children, and the leaves' constraints
    in order; and the tree that a server builds from the two. */
module QueryWire {
  import opened Options
  import opened QueryTree
  import opened QueryValues

  // ---- Sizes ----

  function NodeCount(q: Query): nat {
    match q
    case Null => 0
    case Node(_, _, l, r) => 1 + NodeCount(l) + NodeCount(r)
  }

  method LeafCount(q: Query, n: nat) returns (n': nat)
    ensures n' == n + |Constraints(q)|
  {
    if q.Null? { return n; }
    if Leaf(q) { return n + 1; }
    n' := LeafCount(q.left, n);
    n' := LeafCount(q.right, n');
  }

  // ---- The flat form ----

  const NO_CONSTRAINT := Constraint(0, OpNone, 0, 0.0, false, OpNone, 0.0)

  function Held(q: Query): Constraint
    requires q.Node?
  {
    if q.constraint.Some? then q.constraint.value else NO_CONSTRAINT
  }

  function Ops(q: Query): seq<int> {
    match q
    case Null => [-1]
    case Node(op, _, l, r) => [op] + Ops(l) + Ops(r)
  }

  function Constraints(q: Query): seq<Constraint> {
    if q.Null? then [] else if Leaf(q) then [Held(q)] else Constraints(q.left) + Constraints(q.right)
  }

  /** The operator array is allocated with exactly the room its tree needs. */
  lemma {:induction false} OpsFit(q: Query)
    ensures |Ops(q)| == 2 * NodeCount(q) + 1
  {
    if q.Node? {
      OpsFit(q.left);
      OpsFit(q.right);
    }
  }

  ghost predicate Put<T>(was: seq<T>, now: seq<T>, at: nat, d: seq<T>)
    requires at + |d| <= |was|
  {
    now == was[..at] + d + was[at + |d|..]
  }

  lemma PutTwice<T>(was: seq<T>, mid: seq<T>, now: seq<T>, at: nat, d: seq<T>, e: seq<T>)
    requires at + |d| + |e| <= |was|
    requires Put(was, mid, at, d) && Put(mid, now, at + |d|, e)
    ensures Put(was, now, at, d + e)
  {
    assert mid[..at + |d|] == was[..at] + d;
    assert mid[at + |d| + |e|..] == was[at + |d| + |e|..];
    assert was[..at] + d + e == was[..at] + (d + e);
  }

  lemma PutOne<T>(was: seq<T>, at: nat, x: T)
    requires at < |was|
    ensures Put(was, was[at := x], at, [x])
  {
  }

  /** The recursive walk fills both arrays from the counters on and moves the counters past what it wrote. */
  method Serialize(root: Query, ops: array<int>, cnt: nat, cs: array<Constraint>, ccnt: nat)
    returns (cnt': nat, ccnt': nat)
    requires cnt + |Ops(root)| <= ops.Length && ccnt + |Constraints(root)| <= cs.Length
    modifies ops, cs
    ensures cnt' == cnt + |Ops(root)| && ccnt' == ccnt + |Constraints(root)|
    ensures Put(old(ops[..]), ops[..], cnt, Ops(root))
    ensures Put(old(cs[..]), cs[..], ccnt, Constraints(root))
    decreases root
  {
    ghost var ops0, cs0 := ops[..], cs[..];
    if root.Null? {
      ops[cnt] := -1;
      PutOne(ops0, cnt, -1);
      assert ops[..] == ops0[cnt := -1];
      return cnt + 1, ccnt;
    }
    NodeAndChildren(root);
    ccnt' := SerializeNode(root, ops, cnt, cs, ccnt);
    ghost var ops1, cs1 := ops[..], cs[..];
    cnt', ccnt' := SerializeChildren(root, ops, cnt + 1, cs, ccnt');
    PutTwice(ops0, ops1, ops[..], cnt, [root.combineOp], Ops(root.left) + Ops(root.right));
    PutTwice(cs0, cs1, cs[..], ccnt, Own(root), Constraints(root.left) + Constraints(root.right));
  }

  // The constraint a node holds itself.
  function Own(q: Query): seq<Constraint>
    requires q.Node?
  {
    if Leaf(q) then [Held(q)] else []
  }

  lemma NodeAndChildren(q: Query)
    requires q.Node?
    ensures Ops(q) == [q.combineOp] + (Ops(q.left) + Ops(q.right))
    ensures Constraints(q) == Own(q) + (Constraints(q.left) + Constraints(q.right))
  {
  }

  method SerializeNode(root: Query, ops: array<int>, cnt: nat, cs: array<Constraint>, ccnt: nat) returns (ccnt': nat)
    requires root.Node? && cnt < ops.Length && ccnt + |Own(root)| <= cs.Length
    modifies ops, cs
    ensures ccnt' == ccnt + |Own(root)|
    ensures Put(old(ops[..]), ops[..], cnt, [root.combineOp]) && Put(old(cs[..]), cs[..], ccnt, Own(root))
  {
    ghost var ops0, cs0 := ops[..], cs[..];
    ccnt' := ccnt;
    if Leaf(root) {
      cs[ccnt] := Held(root);
      PutOne(cs0, ccnt, Held(root));
      assert cs[..] == cs0[ccnt := Held(root)];
      ccnt' := ccnt + 1;
    }
    ops[cnt] := root.combineOp;
    PutOne(ops0, cnt, root.combineOp);
    assert ops[..] == ops0[cnt := root.combineOp];
  }

  method SerializeChildren(root: Query, ops: array<int>, cnt: nat, cs: array<Constraint>, ccnt: nat)
    returns (cnt': nat, ccnt': nat)
    requires root.Node?
    requires cnt + |Ops(root.left)| + |Ops(root.right)| <= ops.Length
    requires ccnt + |Constraints(root.left)| + |Constraints(root.right)| <= cs.Length
    modifies ops, cs
    ensures cnt' == cnt + |Ops(root.left)| + |Ops(root.right)|
    ensures ccnt' == ccnt + |Constraints(root.left)| + |Constraints(root.right)|
    ensures Put(old(ops[..]), ops[..], cnt, Ops(root.left) + Ops(root.right))
    ensures Put(old(cs[..]), cs[..], ccnt, Constraints(root.left) + Constraints(root.right))
    decreases root, 0
  {
    ghost var ops0, cs0 := ops[..], cs[..];
    cnt', ccnt' := Serialize(root.left, ops, cnt, cs, ccnt);
    ghost var ops1, cs1 := ops[..], cs[..];
    cnt', ccnt' := Serialize(root.right, ops, cnt', cs, ccnt');
    PutTwice(ops0, ops1, ops[..], cnt, Ops(root.left), Ops(root.right));
    PutTwice(cs0, cs1, cs[..], ccnt, Constraints(root.left), Constraints(root.right));
  }

  /** Serializing a whole query fills both arrays completely. */
  method SerializeQuery(q: Query) returns (ops: seq<int>, cs: seq<Constraint>)
    ensures ops == Ops(q) && cs == Constraints(q)
  {
    var nnode := NodeCount(q);
    var nleaf := LeafCount(q, 0);
    OpsFit(q);
    var opsArray := new int[nnode * 2 + 1](i => 0);
    var csArray := new Constraint[nleaf](i => NO_CONSTRAINT);
    ghost var ops0, cs0 := opsArray[..], csArray[..];
    var cnt, ccnt := Serialize(q, opsArray, 0, csArray, 0);
    ops, cs := opsArray[..], csArray[..];
  }

  // ---- Reading the flat form ----

  // `Outside`: an index ran past its array, where the source would read whatever follows.
  datatype Read = Outside | Got(q: Query, i: nat, ci: nat)

  function Deserialize(ops: seq<int>, i: nat, cs: seq<Constraint>, ci: nat): (r: Read)
    ensures r.Got? ==> i < r.i <= |ops| && ci <= r.ci
    decreases |ops| - i
  {
    if i >= |ops| then Outside
    else if ops[i] == -1 then Got(Null, i + 1, ci)
    else if ops[i] == PDC_QUERY_NONE && ci >= |cs| then Outside
    else
      var c := if ops[i] == PDC_QUERY_NONE then Option.Some(cs[ci]) else Option.None;
      var cj := if ops[i] == PDC_QUERY_NONE then ci + 1 else ci;
      var l := Deserialize(ops, i + 1, cs, cj);
      if l.Outside? then Outside
      else
        var r := Deserialize(ops, l.i, cs, l.ci);
        if r.Outside? then Outside else Got(Node(ops[i], c, l.q, r.q), r.i, r.ci)
  }

  // `d` stands in `s` at `at`.
  ghost predicate Stands<T>(s: seq<T>, at: nat, d: seq<T>) {
    at + |d| <= |s| && s[at..at + |d|] == d
  }

  lemma StandsApart<T>(s: seq<T>, at: nat, d: seq<T>, e: seq<T>)
    requires Stands(s, at, d + e)
    ensures Stands(s, at, d) && Stands(s, at + |d|, e)
  {
    assert s[at..at + |d|] == (d + e)[..|d|];
    assert s[at + |d|..at + |d| + |e|] == (d + e)[|d|..];
  }

  lemma StandsInThree<T>(s: seq<T>, at: nat, x: T, d: seq<T>, e: seq<T>)
    requires Stands(s, at, [x] + d + e)
    ensures at < |s| && s[at] == x && Stands(s, at + 1, d) && Stands(s, at + 1 + |d|, e)
  {
    assert [x] + d + e == [x] + (d + e);
    StandsApart(s, at, [x], d + e);
    StandsApart(s, at + 1, d, e);
    assert s[at..at + 1][0] == s[at];
  }

  // A leaf holds a constraint and an inner node none, as the client builds them.
  predicate Shaped(q: Query) {
    q.Node? ==> (Leaf(q) <==> q.constraint.Some?) && Shaped(q.left) && Shaped(q.right)
  }

  /** What a receiver can tell apart: exactly the leaves carry the operator NONE, and no node the mark of
      an absent one. */
  predicate Readable(q: Query) {
    q.Node? ==>
      && q.combineOp != -1 && (q.combineOp == PDC_QUERY_NONE <==> Leaf(q))
      && Readable(q.left) && Readable(q.right)
  }

  lemma ReadBackLeaf(q: Query, ops: seq<int>, i: nat, cs: seq<Constraint>, ci: nat)
    requires Leaf(q) && q.constraint.Some? && q.combineOp == PDC_QUERY_NONE
    requires Stands(ops, i, Ops(q)) && Stands(cs, ci, Constraints(q))
    ensures Deserialize(ops, i, cs, ci) == Got(q, i + |Ops(q)|, ci + |Constraints(q)|)
  {
    assert Ops(q) == [q.combineOp, -1, -1];
    var o := ops[i..i + 3];
    assert o[0] == ops[i] && o[1] == ops[i + 1] && o[2] == ops[i + 2];
    assert cs[ci..ci + 1][0] == cs[ci];
    assert Deserialize(ops, i + 1, cs, ci + 1) == Got(Null, i + 2, ci + 1);
    assert Deserialize(ops, i + 2, cs, ci + 1) == Got(Null, i + 3, ci + 1);
  }

  // Reading an inner node is reading its children one after the other.
  lemma ReadInner(ops: seq<int>, i: nat, cs: seq<Constraint>, ci: nat, l: Read, r: Read)
    requires i < |ops| && ops[i] != -1 && ops[i] != PDC_QUERY_NONE && l.Got? && r.Got?
    requires Deserialize(ops, i + 1, cs, ci) == l && Deserialize(ops, l.i, cs, l.ci) == r
    ensures Deserialize(ops, i, cs, ci) == Got(Node(ops[i], Option.None, l.q, r.q), r.i, r.ci)
  {
  }

  // The flat form of an inner node holds those of its children.
  lemma ChildOpsStand(q: Query, ops: seq<int>, i: nat)
    requires q.Node? && Stands(ops, i, Ops(q))
    ensures i < |ops| && ops[i] == q.combineOp
    ensures Stands(ops, i + 1, Ops(q.left)) && Stands(ops, i + 1 + |Ops(q.left)|, Ops(q.right))
    ensures |Ops(q)| == 1 + |Ops(q.left)| + |Ops(q.right)|
  {
    StandsInThree(ops, i, q.combineOp, Ops(q.left), Ops(q.right));
  }

  lemma ChildConstraintsStand(q: Query, cs: seq<Constraint>, ci: nat)
    requires q.Node? && !Leaf(q) && Stands(cs, ci, Constraints(q))
    ensures Stands(cs, ci, Constraints(q.left)) && Stands(cs, ci + |Constraints(q.left)|, Constraints(q.right))
    ensures |Constraints(q)| == |Constraints(q.left)| + |Constraints(q.right)|
  {
    StandsApart(cs, ci, Constraints(q.left), Constraints(q.right));
  }

  lemma {:induction false} ReadBack(q: Query, ops: seq<int>, i: nat, cs: seq<Constraint>, ci: nat, i': nat, ci': nat)
    requires Shaped(q) && Readable(q) && Stands(ops, i, Ops(q)) && Stands(cs, ci, Constraints(q))
    requires i' == i + |Ops(q)| && ci' == ci + |Constraints(q)|
    ensures Deserialize(ops, i, cs, ci) == Got(q, i', ci')
    decreases q
  {
    if Leaf(q) {
      ReadBackLeaf(q, ops, i, cs, ci);
    } else if q.Node? {
      ChildOpsStand(q, ops, i);
      ChildConstraintsStand(q, cs, ci);
      var j, cj := i + 1 + |Ops(q.left)|, ci + |Constraints(q.left)|;
      ReadBack(q.left, ops, i + 1, cs, ci, j, cj);
      ReadBack(q.right, ops, j, cs, cj, i', ci');
      ReadInner(ops, i, cs, ci, Got(q.left, j, cj), Got(q.right, i', ci'));
    } else {
      assert ops[i..i + 1][0] == ops[i];
    }
  }

  // Whatever is read has a constraint exactly where the operator is NONE, and no operator -1.
  predicate AsRead(q: Query) {
    q.Node? ==>
      && q.combineOp != -1 && (q.combineOp == PDC_QUERY_NONE <==> q.constraint.Some?)
      && AsRead(q.left) && AsRead(q.right)
  }

  lemma {:induction false} ReadIsAsRead(ops: seq<int>, i: nat, cs: seq<Constraint>, ci: nat)
    ensures var r := Deserialize(ops, i, cs, ci); r.Got? ==> AsRead(r.q)
    decreases |ops| - i
  {
    var r := Deserialize(ops, i, cs, ci);
    if r.Got? && ops[i] != -1 {
      var cj := if ops[i] == PDC_QUERY_NONE then ci + 1 else ci;
      ReadIsAsRead(ops, i + 1, cs, cj);
      var l := Deserialize(ops, i + 1, cs, cj);
      ReadIsAsRead(ops, l.i, cs, l.ci);
    }
  }

  lemma {:induction false} AsReadIsReadable(q: Query)
    requires Shaped(q) && AsRead(q)
    ensures Readable(q)
  {
    if q.Node? {
      AsReadIsReadable(q.left);
      AsReadIsReadable(q.right);
    }
  }

  lemma {:induction false} BuiltIsReadable(q: Query)
    requires Built(q)
    ensures Shaped(q) && Readable(q)
  {
    if !Leaf(q) {
      BuiltIsReadable(q.left);
      BuiltIsReadable(q.right);
    }
  }

  /** Sending and receiving a query gives it back exactly when its operators are readable ... */
  lemma RoundTripExactlyWhenReadable(q: Query)
    requires Shaped(q)
    ensures Deserialize(Ops(q), 0, Constraints(q), 0) == Got(q, |Ops(q)|, |Constraints(q)|) <==> Readable(q)
  {
    if Readable(q) {
      ReadBack(q, Ops(q), 0, Constraints(q), 0, |Ops(q)|, |Constraints(q)|);
    }
    ReadIsAsRead(Ops(q), 0, Constraints(q), 0);
    if AsRead(q) { AsReadIsReadable(q); }
  }

  /** ... and so for every query the client can build. */
  lemma BuiltRoundTrip(q: Query)
    requires Built(q)
    ensures Deserialize(Ops(q), 0, Constraints(q), 0) == Got(q, |Ops(q)|, |Constraints(q)|)
  {
    BuiltIsReadable(q);
    RoundTripExactlyWhenReadable(q);
  }
}
