/** Evaluating a query on a server.  One selection is kept for the whole tree: its leaves are visited from left
    to right, and each is merged into the selection with the operator handed down to it. */
module QueryEvaluation {
  import opened Options
  import opened QueryValues
  import opened QueryTree
  import opened Basics
  import ListSort

  // ---- Shapes of trees ----

  function Leaves(q: Query): set<Constraint> {
    if q.Null? then {}
    else (if q.constraint.Some? then {q.constraint.value} else {}) + Leaves(q.left) + Leaves(q.right)
  }

  ghost predicate Apart(a: set<Constraint>, b: set<Constraint>) {
    forall c, d :: c in a && d in b ==> c.objId != d.objId
  }

  // No two leaves are on the same object.
  ghost predicate OwnObjects(q: Query) {
    q.Node? ==> Apart(Leaves(q.left), Leaves(q.right)) && OwnObjects(q.left) && OwnObjects(q.right)
  }

  // No constraint is in two leaves.
  ghost predicate OwnLeaves(q: Query) {
    q.Node? ==> Leaves(q.left) !! Leaves(q.right) && OwnLeaves(q.left) && OwnLeaves(q.right)
  }

  lemma {:induction false} OwnObjectsOwnLeaves(q: Query)
    requires OwnObjects(q)
    ensures OwnLeaves(q)
  {
    if q.Null? {
    } else {
      OwnObjectsOwnLeaves(q.left);
      OwnObjectsOwnLeaves(q.right);
    }
  }

  // A leaf, or a tree with one operator only.
  predicate OnlyOp(q: Query, op: int) {
    Leaf(q) || (q.Node? && q.combineOp == op && OnlyOp(q.left, op) && OnlyOp(q.right, op))
  }

  // Every right operand is a leaf or is built with its parent's operator alone.
  predicate PlainRight(q: Query) {
    q.Node? && !Leaf(q) ==> OnlyOp(q.right, q.combineOp) && PlainRight(q.left)
  }

  // The left operand of every OR is a leaf.
  predicate OrsFromLeaves(q: Query) {
    q.Node? && !Leaf(q) ==>
      (q.combineOp == PDC_QUERY_OR ==> Leaf(q.left)) && OrsFromLeaves(q.left) && OrsFromLeaves(q.right)
  }

  // ---- One element: whether it is selected, leaf after leaf ----

  predicate Fold(q: Query, op: int, acc: bool, t: Constraint -> bool) {
    if q.Null? then acc
    else if Leaf(q) then
      var m := q.constraint.Some? && t(q.constraint.value);
      if op == PDC_QUERY_AND then acc && m else acc || m
    else Fold(q.right, q.combineOp, Fold(q.left, op, acc, t), t)
  }

  predicate Meaning(q: Query, t: Constraint -> bool) {
    if q.Null? then false
    else if Leaf(q) then q.constraint.Some? && t(q.constraint.value)
    else if q.combineOp == PDC_QUERY_AND then Meaning(q.left, t) && Meaning(q.right, t)
    else Meaning(q.left, t) || Meaning(q.right, t)
  }

  function Always(b: bool): Constraint -> bool {
    c => b
  }

  // All leaves alike.
  lemma {:induction false} AllAlike(q: Query, b: bool, op: int)
    requires Built(q)
    ensures Meaning(q, Always(b)) == b && Fold(q, PDC_QUERY_NONE, false, Always(b)) == b
    ensures Fold(q, op, b, Always(b)) == b
  {
    if Leaf(q) {
    } else {
      AllAlike(q.left, b, op);
      AllAlike(q.right, b, q.combineOp);
    }
  }

  lemma {:induction false} OneOperator(q: Query, op: int, acc: bool, t: Constraint -> bool)
    requires Built(q) && OnlyOp(q, op) && (op == PDC_QUERY_AND || op == PDC_QUERY_OR)
    ensures Fold(q, op, acc, t) == if op == PDC_QUERY_AND then acc && Meaning(q, t) else acc || Meaning(q, t)
  {
    if Leaf(q) {
    } else {
      OneOperator(q.left, op, acc, t);
      OneOperator(q.right, op, Fold(q.left, op, acc, t), t);
    }
  }

  // Leaves that leave the selection alone under one operator decide it if the other is among them.
  lemma {:induction false} OtherOperator(q: Query, op: int, acc: bool)
    requires Built(q) && (op == PDC_QUERY_AND || op == PDC_QUERY_OR)
    ensures var b := op == PDC_QUERY_AND;
            && Fold(q, op, acc, Always(b)) == (if OnlyOp(q, op) then acc else b)
            && Fold(q, if b then PDC_QUERY_OR else PDC_QUERY_AND, acc, Always(b)) == b
  {
    var b := op == PDC_QUERY_AND;
    if Leaf(q) {
    } else {
      OtherOperator(q.left, op, acc);
      OtherOperator(q.right, op, Fold(q.left, op, acc, Always(b)));
      OtherOperator(q.right, op, b);
      AllAlike(q.right, b, q.combineOp);
    }
  }

  // What a tree is worth depends on its own leaves only.
  lemma {:induction false} Local(q: Query, op: int, acc: bool, t: Constraint -> bool, t': Constraint -> bool)
    requires forall c :: c in Leaves(q) ==> t(c) == t'(c)
    ensures Fold(q, op, acc, t) == Fold(q, op, acc, t') && Meaning(q, t) == Meaning(q, t')
  {
    if q.Null? || Leaf(q) {
    } else {
      Local(q.left, op, acc, t, t');
      Local(q.right, q.combineOp, Fold(q.left, op, acc, t), t, t');
    }
  }

  lemma {:induction false} PlainIsRight(q: Query, t: Constraint -> bool)
    requires Built(q) && PlainRight(q)
    ensures Fold(q, PDC_QUERY_NONE, false, t) == Meaning(q, t)
  {
    if Leaf(q) {
    } else {
      PlainIsRight(q.left, t);
      OneOperator(q.right, q.combineOp, Fold(q.left, PDC_QUERY_NONE, false, t), t);
    }
  }

  // Truth values for the leaves of the left operand, and for all others.
  function Split(left: Query, t: Constraint -> bool, u: Constraint -> bool): Constraint -> bool {
    (c: Constraint) => if c in Leaves(left) then t(c) else u(c)
  }

  lemma SplitIs(q: Query, op: int, t: Constraint -> bool, u: Constraint -> bool, acc: bool)
    requires q.Node? && OwnLeaves(q)
    ensures Fold(q.left, op, false, Split(q.left, t, u)) == Fold(q.left, op, false, t)
    ensures Meaning(q.left, Split(q.left, t, u)) == Meaning(q.left, t)
    ensures Fold(q.right, q.combineOp, acc, Split(q.left, t, u)) == Fold(q.right, q.combineOp, acc, u)
    ensures Meaning(q.right, Split(q.left, t, u)) == Meaning(q.right, u)
  {
    Local(q.left, op, false, Split(q.left, t, u), t);
    Local(q.right, q.combineOp, acc, Split(q.left, t, u), u);
  }

  lemma {:induction false} NotPlainIsWrong(q: Query) returns (t: Constraint -> bool)
    requires Built(q) && OwnLeaves(q) && !PlainRight(q)
    ensures Fold(q, PDC_QUERY_NONE, false, t) != Meaning(q, t)
  {
    var b := q.combineOp == PDC_QUERY_AND;
    AllAlike(q.left, !b, q.combineOp);
    AllAlike(q.right, b, q.combineOp);
    if !OnlyOp(q.right, q.combineOp) {
      t := Split(q.left, Always(!b), Always(b));
      SplitIs(q, PDC_QUERY_NONE, Always(!b), Always(b), !b);
      OtherOperator(q.right, q.combineOp, !b);
    } else {
      var tl := NotPlainIsWrong(q.left);
      var x := Fold(q.left, PDC_QUERY_NONE, false, tl);
      t := Split(q.left, tl, Always(b));
      SplitIs(q, PDC_QUERY_NONE, tl, Always(b), x);
      OtherOperator(q.right, q.combineOp, x);
    }
  }

  /** Over all trees whose leaves have different constraints: visiting the leaves from left to right gives the
      tree's meaning for all truth values of the leaves exactly when every right operand is a leaf or is built
      with its parent's operator alone. */
  lemma FoldIsMeaningExactly(q: Query)
    requires Built(q) && OwnLeaves(q)
    ensures (forall t: Constraint -> bool :: Fold(q, PDC_QUERY_NONE, false, t) == Meaning(q, t)) <==> PlainRight(q)
  {
    if PlainRight(q) {
      forall t: Constraint -> bool ensures Fold(q, PDC_QUERY_NONE, false, t) == Meaning(q, t) {
        PlainIsRight(q, t);
      }
    } else {
      var t := NotPlainIsWrong(q);
    }
  }

  // A or (B and C) is evaluated as (A or B) and C.
  lemma NestedRightIsWrong(a: Constraint, b: Constraint, c: Constraint, t: Constraint -> bool)
    ensures var q := Inner(PDC_QUERY_OR, Holding(a), Inner(PDC_QUERY_AND, Holding(b), Holding(c)));
            && Fold(q, PDC_QUERY_NONE, false, t) == ((t(a) || t(b)) && t(c))
            && Meaning(q, t) == (t(a) || (t(b) && t(c)))
            && (t(a) && !t(c) ==> Meaning(q, t) && !Fold(q, PDC_QUERY_NONE, false, t))
  {
    var and := Inner(PDC_QUERY_AND, Holding(b), Holding(c));
    var q := Inner(PDC_QUERY_OR, Holding(a), and);
    assert !Leaf(q) && !Leaf(and);
    assert Fold(and, PDC_QUERY_OR, t(a), t) == ((t(a) || t(b)) && t(c));
    assert Fold(q, PDC_QUERY_NONE, false, t) == Fold(and, PDC_QUERY_OR, Fold(Holding(a), PDC_QUERY_NONE, false, t), t);
    assert Meaning(and, t) == (t(b) && t(c));
  }

  function Holding(c: Constraint): Query {
    Node(PDC_QUERY_NONE, Option.Some(c), Null, Null)
  }

  function Inner(op: int, l: Query, r: Query): Query {
    Node(op, Option.None, l, r)
  }

  // ---- All elements: the selection ----

  // The numbers below `n` with a property, in order.
  function Among(n: nat, p: nat -> bool): (s: seq<nat>)
    ensures forall i :: 0 <= i < |s| ==> s[i] < n
    ensures forall i, j :: 0 <= i < j < |s| ==> s[i] < s[j]
    ensures forall k: nat :: k in s <==> k < n && p(k)
  {
    if n == 0 then []
    else if p(n - 1) then Among(n - 1, p) + [n - 1]
    else Among(n - 1, p)
  }

  function Filter(s: seq<nat>, p: nat -> bool): seq<nat> {
    if s == [] then []
    else if p(s[0]) then [s[0]] + Filter(s[1..], p) else Filter(s[1..], p)
  }

  lemma {:induction false} FilterHas(s: seq<nat>, p: nat -> bool, k: nat)
    ensures k in Filter(s, p) <==> k in s && p(k)
  {
    if s == [] {
    } else {
      FilterHas(s[1..], p, k);
      assert s == [s[0]] + s[1..];
    }
  }

  function Lets(c: Constraint, m: (Constraint, nat) -> bool): nat -> bool {
    (k: nat) => m(c, k)
  }

  function Member(s: seq<nat>): nat -> bool {
    (k: nat) => k in s
  }

  // After an OR duplicates are removed unless the left operand is on the same object: if that is no leaf it has
  // no constraint to look at, and the server goes down.
  function MergeHits(c: Constraint, left: Query, op: int, sel: seq<nat>, hits: seq<nat>, n: nat): Option<seq<nat>> {
    var all := sel + hits;
    if op != PDC_QUERY_OR || |all| <= 1 then Some(all)
    else if left.Null? || left.constraint.None? then None
    else if left.constraint.value.objId == c.objId then Some(all)
    else Some(Among(n, Member(all)))
  }

  /** One leaf, on objects of `n` elements; `m` says which elements its constraint lets through.  The selection
      is left alone when it cannot change. */
  function EvaluateLeaf(c: Constraint, left: Query, op: int, sel: seq<nat>, n: nat, m: (Constraint, nat) -> bool)
    : Option<seq<nat>>
  {
    if (op == PDC_QUERY_OR && |sel| == n) || (op == PDC_QUERY_AND && sel == []) then Some(sel)
    else if op == PDC_QUERY_AND then Some(Filter(sel, Lets(c, m)))
    else MergeHits(c, left, op, sel, Among(n, Lets(c, m)), n)
  }

  function Visit(q: Query, left: Query, op: int, sel: seq<nat>, n: nat, m: (Constraint, nat) -> bool)
    : Option<seq<nat>>
    decreases q
  {
    if q.Null? then Some(sel)
    else if Leaf(q) then
      if q.constraint.None? then None else EvaluateLeaf(q.constraint.value, left, op, sel, n, m)
    else
      match Visit(q.left, left, op, sel, n, m)
      case None => None
      case Some(s) => Visit(q.right, q.left, q.combineOp, s, n, m)
  }

  ghost predicate Within(s: seq<nat>, n: nat) {
    forall k :: k in s ==> k < n
  }

  // Truth of the constraints at one element.
  function At(m: (Constraint, nat) -> bool, k: nat): Constraint -> bool {
    (c: Constraint) => m(c, k)
  }

  lemma {:induction false} FilterKeeps(s: seq<nat>, p: nat -> bool)
    requires Distinct(s)
    ensures Distinct(Filter(s, p))
  {
    if s == [] {
    } else {
      FilterKeeps(s[1..], p);
      var rest := Filter(s[1..], p);
      forall i | 0 <= i < |rest| ensures rest[i] != s[0] {
        assert rest[i] in rest;
        FilterHas(s[1..], p, rest[i]);
      }
    }
  }

  // An OR is merged behind a leaf.
  ghost predicate Behind(left: Query, op: int) {
    op == PDC_QUERY_OR ==> Leaf(left) && left.constraint.Some?
  }

  // The operator a tree is visited with, and the selection it is merged into.
  ghost predicate Entered(op: int, sel: seq<nat>) {
    op == PDC_QUERY_AND || op == PDC_QUERY_OR || (op == PDC_QUERY_NONE && sel == [])
  }

  ghost predicate SelectedAs(r: Option<seq<nat>>, q: Query, op: int, sel: seq<nat>, n: nat,
                             m: (Constraint, nat) -> bool) {
    && r.Some? && Within(r.value, n)
    && forall k: nat :: k < n ==> (k in r.value <==> Fold(q, op, k in sel, At(m, k)))
  }

  // Everything is selected when as many are as there are, each once.
  lemma FullSelection(s: seq<nat>, n: nat)
    requires Within(s, n) && Distinct(s) && |s| == n
    ensures forall k: nat :: k < n ==> k in s
  {
    forall i | 0 <= i < |s| ensures s[i] < n { assert s[i] in s; }
    forall k: nat | k < n ensures k in s {
      if k !in s { RoomForOneMore(s, n, k); }
    }
  }

  // ---- Leaves that share an object ----

  // What is selected is what was, or matches.
  ghost predicate AddsMatches(r: Option<seq<nat>>, c: Constraint, sel: seq<nat>, n: nat, m: (Constraint, nat) -> bool) {
    && r.Some? && Within(r.value, n)
    && forall k: nat :: k < n ==> (k in r.value <==> k in sel || m(c, k))
  }

  /** An OR behind a leaf, on the same object or another, adds exactly what matches, unless the selection has as
      many entries as there are elements without having all of them, and one of the missing ones matches.  Without
      duplicates that cannot be. */
  lemma OrAddsExactly(c: Constraint, left: Query, sel: seq<nat>, n: nat, m: (Constraint, nat) -> bool)
    requires Behind(left, PDC_QUERY_OR) && Within(sel, n)
    ensures AddsMatches(EvaluateLeaf(c, left, PDC_QUERY_OR, sel, n, m), c, sel, n, m)
            <==> !(|sel| == n && exists k: nat :: k < n && k !in sel && m(c, k))
    ensures Distinct(sel) ==> AddsMatches(EvaluateLeaf(c, left, PDC_QUERY_OR, sel, n, m), c, sel, n, m)
  {
    if |sel| == n {
      if Distinct(sel) { FullSelection(sel, n); }
    } else {
      var hits := Among(n, Lets(c, m));
      assert forall k :: k in sel + hits <==> k in sel || k in hits;
    }
  }

  // Two entries: in the selection already, or new.
  ghost predicate TwoEntries(c: Constraint, sel: seq<nat>, n: nat, m: (Constraint, nat) -> bool) {
    || |sel| >= 2
    || (|sel| == 1 && exists k: nat :: k < n && m(c, k))
    || exists j: nat, k: nat :: j < k < n && m(c, j) && m(c, k)
  }

  /** The server goes down exactly when an OR whose left operand holds no constraint finds the selection short of
      as many entries as there are elements, and makes it two or more. */
  lemma DownExactly(c: Constraint, left: Query, op: int, sel: seq<nat>, n: nat, m: (Constraint, nat) -> bool)
    ensures EvaluateLeaf(c, left, op, sel, n, m).None?
            <==> op == PDC_QUERY_OR && (left.Null? || left.constraint.None?) && |sel| != n && TwoEntries(c, sel, n, m)
  {
    var hits := Among(n, Lets(c, m));
    if |hits| >= 1 { assert hits[0] in hits && m(c, hits[0]); }
    if |hits| >= 2 { assert hits[1] in hits && hits[0] < hits[1] && m(c, hits[1]); }
    if k: nat :| k < n && m(c, k) { assert k in hits; }
    if j: nat, k: nat :| j < k < n && m(c, j) && m(c, k) { assert j in hits && k in hits; }
  }

  // Duplicates come from an OR on the object of the leaf it is merged behind.
  predicate SharedOr(q: Query, left: Query, op: int) {
    q.Node? &&
    if Leaf(q) then
      && op == PDC_QUERY_OR && q.constraint.Some? && left.Node? && left.constraint.Some?
      && left.constraint.value.objId == q.constraint.value.objId
    else SharedOr(q.left, left, op) || SharedOr(q.right, q.left, q.combineOp)
  }

  // Some leaf is merged by OR.
  predicate HasOr(q: Query, op: int) {
    q.Node? && if Leaf(q) then op == PDC_QUERY_OR else HasOr(q.left, op) || HasOr(q.right, q.combineOp)
  }

  // After an OR on a shared object no other OR is merged.
  predicate SharedLast(q: Query, left: Query, op: int) {
    q.Node? && !Leaf(q) ==>
      && SharedLast(q.left, left, op) && SharedLast(q.right, q.left, q.combineOp)
      && !(SharedOr(q.left, left, op) && HasOr(q.right, q.combineOp))
  }

  lemma {:induction false} NoOrNoneShared(q: Query, left: Query, op: int)
    requires !HasOr(q, op)
    ensures !SharedOr(q, left, op) && SharedLast(q, left, op)
    decreases q
  {
    if q.Null? || Leaf(q) {
    } else {
      NoOrNoneShared(q.left, left, op);
      NoOrNoneShared(q.right, q.left, q.combineOp);
    }
  }

  // Leaves on objects of their own share none.
  lemma {:induction false} OwnObjectsNoneShared(q: Query, left: Query, op: int)
    requires Built(q) && OwnObjects(q)
    requires left.Node? && left.constraint.Some? ==> Apart({left.constraint.value}, Leaves(q))
    ensures !SharedOr(q, left, op) && SharedLast(q, left, op)
    decreases q
  {
    if Leaf(q) {
    } else {
      OwnObjectsNoneShared(q.left, left, op);
      if q.left.constraint.Some? { assert q.left.constraint.value in Leaves(q.left); }
      OwnObjectsNoneShared(q.right, q.left, q.combineOp);
    }
  }

  lemma LeafSelects(q: Query, left: Query, op: int, sel: seq<nat>, n: nat, m: (Constraint, nat) -> bool)
    requires Leaf(q) && q.constraint.Some? && Within(sel, n) && Behind(left, op) && Entered(op, sel)
    requires op == PDC_QUERY_OR ==> Distinct(sel)
    ensures var r := EvaluateLeaf(q.constraint.value, left, op, sel, n, m);
            SelectedAs(r, q, op, sel, n, m) && (Distinct(sel) && !SharedOr(q, left, op) ==> Distinct(r.value))
  {
    var c := q.constraint.value;
    if op == PDC_QUERY_OR {
      OrAddsExactly(c, left, sel, n, m);
      if sel == [] { assert sel + Among(n, Lets(c, m)) == Among(n, Lets(c, m)); }
    } else if op == PDC_QUERY_AND {
      forall k: nat ensures k in Filter(sel, Lets(c, m)) <==> k in sel && m(c, k) { FilterHas(sel, Lets(c, m), k); }
      if Distinct(sel) { FilterKeeps(sel, Lets(c, m)); }
    } else {
      assert sel + Among(n, Lets(c, m)) == Among(n, Lets(c, m));
    }
  }

  /** The visit selects each element exactly as the fold over the leaves does, and none twice unless leaves share an
      object, for every tree in which an OR has a leaf on its left and none follows an OR on a shared object. */
  lemma {:induction false} VisitIsFold(q: Query, left: Query, op: int, sel: seq<nat>, n: nat,
                                       m: (Constraint, nat) -> bool)
    requires Built(q) && OrsFromLeaves(q) && SharedLast(q, left, op)
    requires Within(sel, n) && Behind(left, op) && Entered(op, sel) && (HasOr(q, op) ==> Distinct(sel))
    ensures var r := Visit(q, left, op, sel, n, m);
            SelectedAs(r, q, op, sel, n, m) && (Distinct(sel) && !SharedOr(q, left, op) ==> Distinct(r.value))
    decreases q
  {
    if Leaf(q) {
      LeafSelects(q, left, op, sel, n, m);
    } else {
      VisitIsFold(q.left, left, op, sel, n, m);
      var s := Visit(q.left, left, op, sel, n, m).value;
      VisitIsFold(q.right, q.left, q.combineOp, s, n, m);
      FoldsOn(q, left, op, sel, n, m);
    }
  }

  lemma FoldsOn(q: Query, left: Query, op: int, sel: seq<nat>, n: nat, m: (Constraint, nat) -> bool)
    requires q.Node? && !Leaf(q) && SelectedAs(Visit(q.left, left, op, sel, n, m), q.left, op, sel, n, m)
    requires var s := Visit(q.left, left, op, sel, n, m).value;
             SelectedAs(Visit(q.right, q.left, q.combineOp, s, n, m), q.right, q.combineOp, s, n, m)
    ensures SelectedAs(Visit(q, left, op, sel, n, m), q, op, sel, n, m)
  {
    var s := Visit(q.left, left, op, sel, n, m).value;
    var r := Visit(q.right, q.left, q.combineOp, s, n, m).value;
    forall k: nat | k < n ensures k in r <==> Fold(q, op, k in sel, At(m, k)) {
      assert k in s <==> Fold(q.left, op, k in sel, At(m, k));
      assert k in r <==> Fold(q.right, q.combineOp, k in s, At(m, k));
    }
  }

  lemma LeafOne(c: Constraint, left: Query, op: int, sel: seq<nat>, m: (Constraint, nat) -> bool)
    requires Behind(left, op) && Entered(op, sel) && (sel == [] || sel == [0])
    ensures var hit := if op == PDC_QUERY_AND then sel == [0] && m(c, 0) else sel == [0] || m(c, 0);
            EvaluateLeaf(c, left, op, sel, 1, m) == Some(if hit then [0] else [])
  {
    var p: nat -> bool, hits: seq<nat> := Lets(c, m), if m(c, 0) then [0] else [];
    assert Among(0, p) == [] && Among(1, p) == hits && [] + hits == hits;
    if op == PDC_QUERY_AND && sel == [0] {
      assert sel[1..] == [] && Filter(sel[1..], p) == [];
      assert Filter(sel, p) == hits;
    }
  }

  // A single element is never counted twice.
  lemma {:induction false} VisitOne(q: Query, left: Query, op: int, sel: seq<nat>, m: (Constraint, nat) -> bool)
    requires Built(q) && OrsFromLeaves(q) && Behind(left, op) && Entered(op, sel) && (sel == [] || sel == [0])
    ensures var r := Visit(q, left, op, sel, 1, m);
            SelectedAs(r, q, op, sel, 1, m) && (r.value == [] || r.value == [0])
    decreases q
  {
    if Leaf(q) {
      LeafOne(q.constraint.value, left, op, sel, m);
    } else {
      VisitOne(q.left, left, op, sel, m);
      VisitOne(q.right, q.left, q.combineOp, Visit(q.left, left, op, sel, 1, m).value, m);
      FoldsOn(q, left, op, sel, 1, m);
    }
  }

  // ---- When the server goes down ----

  // The first two of three elements match everywhere.
  function TwoOfThree(): (Constraint, nat) -> bool {
    (c: Constraint, k: nat) => k < 2
  }

  // The two of them, equally often.
  ghost predicate Twos(s: seq<nat>) {
    |s| % 2 == 0 && 0 in s && 1 in s && Within(s, 2)
  }

  lemma {:induction false} FilterAll(s: seq<nat>, p: nat -> bool)
    requires forall k :: k in s ==> p(k)
    ensures Filter(s, p) == s
  {
    if s == [] {
    } else {
      assert s[0] in s && forall k :: k in s[1..] ==> k in s;
      FilterAll(s[1..], p);
    }
  }

  lemma FirstTwo(p: nat -> bool)
    requires p(0) && p(1) && !p(2)
    ensures Among(3, p) == [0, 1]
  {
    AmongNext(0, p, []);
    AmongNext(1, p, [0]);
    AmongNext(2, p, [0, 1]);
  }

  lemma AmongNext(n: nat, p: nat -> bool, s: seq<nat>)
    requires Among(n, p) == s
    ensures Among(n + 1, p) == if p(n) then s + [n] else s
  {
  }

  lemma TwoOfThreeLeaf(c: Constraint, left: Query, op: int, sel: seq<nat>)
    requires (op == PDC_QUERY_NONE && sel == []) || ((op == PDC_QUERY_AND || op == PDC_QUERY_OR) && Twos(sel))
    requires op == PDC_QUERY_OR ==> left.Node?
    ensures var r := EvaluateLeaf(c, left, op, sel, 3, TwoOfThree());
            if op == PDC_QUERY_OR && left.constraint.None? then r.None? else r.Some? && Twos(r.value)
  {
    var p := Lets(c, TwoOfThree());
    if op == PDC_QUERY_AND {
      FilterAll(sel, p);
    } else {
      var all := sel + [0, 1];
      TwosMore(sel);
      FirstTwo(p);
      FirstTwo(Member(all));
    }
  }

  lemma TwosMore(s: seq<nat>)
    requires s == [] || Twos(s)
    ensures Twos(s + [0, 1]) && 2 !in s + [0, 1] && Twos([0, 1])
  {
    var all: seq<nat> := s + [0, 1];
    assert all[|s|] == 0 && all[|s| + 1] == 1;
    assert [0, 1][0] == 0 && [0, 1][1] == 1;
  }

  lemma {:induction false} TwoOfThreeVisit(q: Query, left: Query, op: int, sel: seq<nat>)
    requires Built(q) && (op == PDC_QUERY_OR ==> left.Node?)
    requires (op == PDC_QUERY_NONE && sel == []) || ((op == PDC_QUERY_AND || op == PDC_QUERY_OR) && Twos(sel))
    ensures var r := Visit(q, left, op, sel, 3, TwoOfThree());
            if OrsFromLeaves(q) && !(op == PDC_QUERY_OR && left.constraint.None?) then r.Some? && Twos(r.value)
            else r.None?
    decreases q
  {
    if Leaf(q) {
      TwoOfThreeLeaf(q.constraint.value, left, op, sel);
    } else {
      TwoOfThreeVisit(q.left, left, op, sel);
      var r := Visit(q.left, left, op, sel, 3, TwoOfThree());
      if r.Some? { TwoOfThreeVisit(q.right, q.left, q.combineOp, r.value); }
    }
  }

  // ---- When duplicates hide an element ----

  // Of two elements, the first matches everywhere and the second as `t` says.
  function Second(t: Constraint -> bool): (Constraint, nat) -> bool {
    (c: Constraint, k: nat) => k == 0 || (k == 1 && t(c))
  }

  // The selection before a visit, with the first element in it twice or not.
  function Entry(op: int, twice: bool): seq<nat> {
    if op == PDC_QUERY_NONE then [] else if twice then [0, 0] else [0]
  }

  lemma QuietFirst(c: Constraint, left: Query, t: Constraint -> bool)
    requires !t(c)
    ensures EvaluateLeaf(c, left, PDC_QUERY_NONE, [], 2, Second(t)) == Some([0])
  {
    FirstOnly(Lets(c, Second(t)));
    assert [] + [0] == [0];
  }

  lemma QuietAnd(c: Constraint, left: Query, t: Constraint -> bool, sel: seq<nat>)
    requires forall k :: k in sel ==> k == 0
    ensures EvaluateLeaf(c, left, PDC_QUERY_AND, sel, 2, Second(t)) == Some(sel)
  {
    FilterAll(sel, Lets(c, Second(t)));
  }

  lemma QuietOr(c: Constraint, left: Query, t: Constraint -> bool)
    requires Behind(left, PDC_QUERY_OR) && !t(c)
    ensures EvaluateLeaf(c, left, PDC_QUERY_OR, [0], 2, Second(t))
         == Some(if left.constraint.value.objId == c.objId then [0, 0] else [0])
  {
    FirstOnly(Lets(c, Second(t)));
    TwiceMerged(c, left);
  }

  lemma TwiceMerged(c: Constraint, left: Query)
    requires Behind(left, PDC_QUERY_OR)
    ensures MergeHits(c, left, PDC_QUERY_OR, [0], [0], 2)
         == Some(if left.constraint.value.objId == c.objId then [0, 0] else [0])
  {
    var all: seq<nat> := [0] + [0];
    assert all == [0, 0];
    FirstOnly(Member(all));
  }

  lemma FirstOnly(p: nat -> bool)
    requires p(0) && !p(1)
    ensures Among(2, p) == [0]
  {
    AmongNext(0, p, []);
    AmongNext(1, p, [0]);
  }

  // Leaves that do not match the second element leave the first, once or twice.
  lemma {:induction false} QuietVisit(q: Query, left: Query, op: int, twice: bool, t: Constraint -> bool)
    requires Built(q) && OrsFromLeaves(q) && SharedLast(q, left, op) && Behind(left, op)
    requires (forall c :: c in Leaves(q) ==> !t(c)) && (op in [PDC_QUERY_NONE, PDC_QUERY_AND, PDC_QUERY_OR])
    requires twice ==> !HasOr(q, op) && op != PDC_QUERY_NONE
    ensures Visit(q, left, op, Entry(op, twice), 2, Second(t))
         == Some(if twice || SharedOr(q, left, op) then [0, 0] else [0])
    decreases q
  {
    if Leaf(q) {
      var c := q.constraint.value;
      assert c in Leaves(q);
      if op == PDC_QUERY_NONE {
        QuietFirst(c, left, t);
      } else if op == PDC_QUERY_AND {
        QuietAnd(c, left, t, Entry(op, twice));
      } else {
        QuietOr(c, left, t);
      }
    } else {
      assert forall c :: c in Leaves(q) <==> c in Leaves(q.left) || c in Leaves(q.right);
      QuietVisit(q.left, left, op, twice, t);
      QuietVisit(q.right, q.left, q.combineOp, twice || SharedOr(q.left, left, op), t);
    }
  }

  lemma {:induction false} FoldGrows(q: Query, op: int, a: bool, b: bool, t: Constraint -> bool)
    requires a ==> b
    ensures Fold(q, op, a, t) ==> Fold(q, op, b, t)
    decreases q
  {
    if q.Null? || Leaf(q) {
    } else {
      FoldGrows(q.left, op, a, b, t);
      FoldGrows(q.right, q.combineOp, Fold(q.left, op, a, t), Fold(q.left, op, b, t), t);
    }
  }

  lemma LeafWithin(c: Constraint, left: Query, op: int, sel: seq<nat>, n: nat, m: (Constraint, nat) -> bool)
    requires Within(sel, n) && Behind(left, op) && Entered(op, sel)
    ensures var r := EvaluateLeaf(c, left, op, sel, n, m);
            && r.Some? && Within(r.value, n)
            && forall k: nat :: k in r.value ==>
                 if op == PDC_QUERY_AND then k in sel && m(c, k) else k in sel || m(c, k)
  {
    if op == PDC_QUERY_AND {
      forall k: nat ensures k in Filter(sel, Lets(c, m)) <==> k in sel && m(c, k) { FilterHas(sel, Lets(c, m), k); }
    } else {
      var hits := Among(n, Lets(c, m));
      assert forall k :: k in sel + hits <==> k in sel || k in hits;
    }
  }

  // With a leaf on the left of every OR the server stays up, and selects nothing that the fold does not.
  lemma {:induction false} VisitWithin(q: Query, left: Query, op: int, sel: seq<nat>, n: nat,
                                       m: (Constraint, nat) -> bool, k: nat)
    requires Built(q) && OrsFromLeaves(q) && Within(sel, n) && Behind(left, op) && Entered(op, sel)
    ensures var r := Visit(q, left, op, sel, n, m);
            r.Some? && Within(r.value, n) && (k in r.value ==> Fold(q, op, k in sel, At(m, k)))
    decreases q
  {
    if Leaf(q) {
      LeafWithin(q.constraint.value, left, op, sel, n, m);
    } else {
      VisitWithin(q.left, left, op, sel, n, m, k);
      var s := Visit(q.left, left, op, sel, n, m).value;
      VisitWithin(q.right, q.left, q.combineOp, s, n, m, k);
      FoldGrows(q.right, q.combineOp, k in s, Fold(q.left, op, k in sel, At(m, k)), At(m, k));
    }
  }

  // The constraints merged by AND.
  function AndLeaves(q: Query, op: int): (r: set<Constraint>)
    ensures r <= Leaves(q)
  {
    if q.Null? then {}
    else if Leaf(q) then (if op == PDC_QUERY_AND && q.constraint.Some? then {q.constraint.value} else {})
    else AndLeaves(q.left, op) + AndLeaves(q.right, q.combineOp)
  }

  // Truth values that leave everything as it is.
  function Neutral(q: Query, op: int): Constraint -> bool {
    (c: Constraint) => c in AndLeaves(q, op)
  }

  lemma {:induction false} NeutralFold(q: Query, op: int, acc: bool)
    requires Built(q) && OwnLeaves(q) && (op == PDC_QUERY_AND || op == PDC_QUERY_OR)
    ensures Fold(q, op, acc, Neutral(q, op)) == acc
    decreases q
  {
    if Leaf(q) {
    } else {
      NeutralFold(q.left, op, acc);
      NeutralFold(q.right, q.combineOp, acc);
      Local(q.left, op, acc, Neutral(q, op), Neutral(q.left, op));
      Local(q.right, q.combineOp, acc, Neutral(q, op), Neutral(q.right, q.combineOp));
    }
  }

  // The second element is in the fold and not in the selection.
  ghost predicate Loses(q: Query, left: Query, op: int, sel: seq<nat>, t: Constraint -> bool) {
    var r := Visit(q, left, op, sel, 2, Second(t));
    r.Some? && Within(r.value, 2) && 1 !in r.value && Fold(q, op, false, t)
  }

  lemma SplitVisits(q: Query, left: Query, op: int, sel: seq<nat>, t: Constraint -> bool, u: Constraint -> bool)
    requires Built(q) && !Leaf(q) && OwnLeaves(q)
    ensures var m := Second(Split(q.left, t, u));
            && Visit(q.left, left, op, sel, 2, m) == Visit(q.left, left, op, sel, 2, Second(t))
            && forall s: seq<nat> :: Visit(q.right, q.left, q.combineOp, s, 2, m)
                                  == Visit(q.right, q.left, q.combineOp, s, 2, Second(u))
  {
    var m := Second(Split(q.left, t, u));
    VisitSame(q.left, left, op, sel, 2, m, Second(t));
    forall s: seq<nat> ensures Visit(q.right, q.left, q.combineOp, s, 2, m)
                            == Visit(q.right, q.left, q.combineOp, s, 2, Second(u)) {
      VisitSame(q.right, q.left, q.combineOp, s, 2, m, Second(u));
    }
  }

  // What the left operand loses stays lost if the right one leaves the second element as it is.
  lemma LosesLeft(q: Query, left: Query, op: int, sel: seq<nat>, t: Constraint -> bool)
    requires Built(q) && !Leaf(q) && OwnLeaves(q) && OrsFromLeaves(q) && Loses(q.left, left, op, sel, t)
    ensures Loses(q, left, op, sel, Split(q.left, t, Neutral(q.right, q.combineOp)))
  {
    var u := Neutral(q.right, q.combineOp);
    var s := Visit(q.left, left, op, sel, 2, Second(t)).value;
    SplitVisits(q, left, op, sel, t, u);
    SplitIs(q, op, t, u, true);
    NeutralFold(q.right, q.combineOp, true);
    NeutralFold(q.right, q.combineOp, false);
    VisitWithin(q.right, q.left, q.combineOp, s, 2, Second(u), 1);
    Local(q.right, q.combineOp, false, At(Second(u), 1), u);
  }

  // What the right operand loses, behind a left one that does not match.
  lemma LosesRight(q: Query, left: Query, op: int, sel: seq<nat>, s: seq<nat>, t: Constraint -> bool)
    requires Built(q) && !Leaf(q) && OwnLeaves(q)
    requires Visit(q.left, left, op, sel, 2, Second(Always(false))) == Some(s)
    requires Loses(q.right, q.left, q.combineOp, s, t)
    ensures Loses(q, left, op, sel, Split(q.left, Always(false), t))
  {
    SplitVisits(q, left, op, sel, Always(false), t);
    SplitIs(q, op, Always(false), t, false);
    AllAlike(q.left, false, op);
  }

  // An OR that meets duplicates, or a tree in which one can, loses an element.
  lemma {:induction false} SomeLost(q: Query, left: Query, op: int, twice: bool) returns (t: Constraint -> bool)
    requires Built(q) && OwnLeaves(q) && OrsFromLeaves(q) && Behind(left, op)
    requires op in [PDC_QUERY_NONE, PDC_QUERY_AND, PDC_QUERY_OR]
    requires if twice then HasOr(q, op) && op != PDC_QUERY_NONE else !SharedLast(q, left, op)
    ensures Loses(q, left, op, Entry(op, twice), t)
    decreases q
  {
    var sel := Entry(op, twice);
    if Leaf(q) {
      t := Always(true);
    } else if if twice then HasOr(q.left, op) else !SharedLast(q.left, left, op) {
      var tl := SomeLost(q.left, left, op, twice);
      LosesLeft(q, left, op, sel, tl);
      t := Split(q.left, tl, Neutral(q.right, q.combineOp));
    } else {
      if twice { NoOrNoneShared(q.left, left, op); }
      if !HasOr(q.right, q.combineOp) { NoOrNoneShared(q.right, q.left, q.combineOp); }
      QuietVisit(q.left, left, op, twice, Always(false));
      var now := twice || SharedOr(q.left, left, op);
      var tr := SomeLost(q.right, q.left, q.combineOp, now);
      LosesRight(q, left, op, sel, Entry(q.combineOp, now), tr);
      t := Split(q.left, Always(false), tr);
    }
  }

  /** Over all trees whose leaves have different constraints and in which every OR has a leaf on its left: the visit
      selects as the fold over the leaves says, whatever the leaves match, exactly when no OR follows an OR on a
      shared object. */
  lemma VisitIsFoldExactly(q: Query)
    requires Built(q) && OwnLeaves(q) && OrsFromLeaves(q)
    ensures (forall n: nat, m: (Constraint, nat) -> bool ::
               SelectedAs(Visit(q, Null, PDC_QUERY_NONE, [], n, m), q, PDC_QUERY_NONE, [], n, m))
            <==> SharedLast(q, Null, PDC_QUERY_NONE)
  {
    if SharedLast(q, Null, PDC_QUERY_NONE) {
      forall n: nat, m: (Constraint, nat) -> bool
        ensures SelectedAs(Visit(q, Null, PDC_QUERY_NONE, [], n, m), q, PDC_QUERY_NONE, [], n, m)
      {
        VisitIsFold(q, Null, PDC_QUERY_NONE, [], n, m);
      }
    } else {
      var t := SomeLost(q, Null, PDC_QUERY_NONE, false);
      Local(q, PDC_QUERY_NONE, false, At(Second(t), 1), t);
      assert !SelectedAs(Visit(q, Null, PDC_QUERY_NONE, [], 2, Second(t)), q, PDC_QUERY_NONE, [], 2, Second(t));
    }
  }

  // What the visit finds is what the tree means.
  ghost predicate Finds(q: Query, n: nat, m: (Constraint, nat) -> bool) {
    var r := Visit(q, Null, PDC_QUERY_NONE, [], n, m);
    r.Some? && forall k: nat :: k < n ==> (k in r.value <==> Meaning(q, At(m, k)))
  }

  lemma PlainFinds(q: Query, n: nat, m: (Constraint, nat) -> bool)
    requires Built(q) && PlainRight(q) && OrsFromLeaves(q) && SharedLast(q, Null, PDC_QUERY_NONE)
    ensures Finds(q, n, m)
  {
    VisitIsFold(q, Null, PDC_QUERY_NONE, [], n, m);
    forall k: nat | k < n ensures k in Visit(q, Null, PDC_QUERY_NONE, [], n, m).value <==> Meaning(q, At(m, k)) {
      PlainIsRight(q, At(m, k));
    }
  }

  lemma PlainLost(q: Query, t: Constraint -> bool)
    requires Built(q) && PlainRight(q) && Loses(q, Null, PDC_QUERY_NONE, [], t)
    ensures !Finds(q, 2, Second(t))
  {
    PlainIsRight(q, t);
    Local(q, PDC_QUERY_NONE, false, At(Second(t), 1), t);
  }

  /** Over all trees whose leaves have different constraints: the server stays up and finds exactly the elements
      the tree means, whatever its leaves match, exactly when every right operand is a leaf or is built with its
      parent's operator alone, the left operand of every OR is a leaf, and no OR follows an OR on a shared
      object. */
  lemma FindsExactly(q: Query)
    requires Built(q) && OwnLeaves(q)
    ensures (forall n: nat, m: (Constraint, nat) -> bool :: Finds(q, n, m))
            <==> PlainRight(q) && OrsFromLeaves(q) && SharedLast(q, Null, PDC_QUERY_NONE)
  {
    if !OrsFromLeaves(q) {
      TwoOfThreeVisit(q, Null, PDC_QUERY_NONE, []);
      assert !Finds(q, 3, TwoOfThree());
    } else if !PlainRight(q) {
      var t := NotPlainIsWrong(q);
      var m: (Constraint, nat) -> bool := (c: Constraint, k: nat) => t(c);
      VisitOne(q, Null, PDC_QUERY_NONE, [], m);
      Local(q, PDC_QUERY_NONE, false, At(m, 0), t);
      assert !Finds(q, 1, m);
    } else if !SharedLast(q, Null, PDC_QUERY_NONE) {
      var t := SomeLost(q, Null, PDC_QUERY_NONE, false);
      PlainLost(q, t);
    } else {
      forall n: nat, m: (Constraint, nat) -> bool ensures Finds(q, n, m) { PlainFinds(q, n, m); }
    }
  }

  // Two leaves on one object joined by OR: what both match is selected twice.
  lemma SameObjectSelectsTwice(c: Constraint, d: Constraint)
    requires c.objId == d.objId
    ensures EvaluateLeaf(d, Holding(c), PDC_QUERY_OR, [0], 2, (x: Constraint, k: nat) => k == 0) == Some([0, 0])
  {
    var m: (Constraint, nat) -> bool := (x: Constraint, k: nat) => k == 0;
    assert Among(1, Lets(d, m)) == [0] && Among(2, Lets(d, m)) == [0];
    assert [0] + [0] == [0, 0];
  }

  // ---- What a visit depends on ----

  lemma {:induction false} AmongSame(n: nat, p: nat -> bool, p': nat -> bool)
    requires forall k: nat :: p(k) == p'(k)
    ensures Among(n, p) == Among(n, p')
  {
    if n == 0 {
    } else {
      AmongSame(n - 1, p, p');
    }
  }

  lemma {:induction false} FilterSame(s: seq<nat>, p: nat -> bool, p': nat -> bool)
    requires forall k: nat :: p(k) == p'(k)
    ensures Filter(s, p) == Filter(s, p')
  {
    if s == [] {
    } else {
      FilterSame(s[1..], p, p');
    }
  }

  lemma {:induction false} VisitSame(q: Query, left: Query, op: int, sel: seq<nat>, n: nat,
                                     m: (Constraint, nat) -> bool, m': (Constraint, nat) -> bool)
    requires forall c, k: nat :: c in Leaves(q) ==> m(c, k) == m'(c, k)
    ensures Visit(q, left, op, sel, n, m) == Visit(q, left, op, sel, n, m')
    decreases q
  {
    if q.Null? {
    } else if Leaf(q) {
      if q.constraint.Some? {
        var c := q.constraint.value;
        assert c in Leaves(q);
        AmongSame(n, Lets(c, m), Lets(c, m'));
        FilterSame(sel, Lets(c, m), Lets(c, m'));
      }
    } else {
      VisitSame(q.left, left, op, sel, n, m, m');
      var r := Visit(q.left, left, op, sel, n, m);
      if r.Some? { VisitSame(q.right, q.left, q.combineOp, r.value, n, m, m'); }
    }
  }

  // ---- The server's loops ----

  // A coordinate that has been taken out.
  const MARK: nat := WORD - 1

  lemma {:induction false} FilterAdd(s: seq<nat>, x: nat, p: nat -> bool)
    ensures Filter(s + [x], p) == Filter(s, p) + if p(x) then [x] else []
  {
    if s == [] {
      assert s + [x] == [x] && [x][1..] == [];
    } else {
      assert (s + [x])[0] == s[0] && (s + [x])[1..] == s[1..] + [x];
      FilterAdd(s[1..], x, p);
    }
  }

  lemma FilterNext(s: seq<nat>, i: nat, p: nat -> bool)
    requires i < |s|
    ensures Filter(s[..i + 1], p) == if p(s[i]) then Filter(s[..i], p) + [s[i]] else Filter(s[..i], p)
  {
    assert s[..i + 1] == s[..i] + [s[i]];
    FilterAdd(s[..i], s[i], p);
  }

  function Unmarked(): nat -> bool {
    (k: nat) => k != MARK
  }

  // Close the gaps that marked coordinates leave, in place.
  method Compact(a: array<nat>) returns (n: nat)
    modifies a
    ensures n <= a.Length && a[..n] == Filter(old(a[..]), Unmarked())
  {
    ghost var was := a[..];
    var idx, marked, to := 0, 0, 0;
    while idx < a.Length
      invariant idx <= a.Length && to == idx - marked && 0 <= to <= idx
      invariant a[..to] == Filter(was[..idx], Unmarked()) && a[idx..] == was[idx..]
    {
      assert a[idx] == a[idx..][0] && was[idx] == was[idx..][0] && a[idx + 1..] == a[idx..][1..];
      FilterNext(was, idx, Unmarked());
      if a[idx] == MARK {
        marked := marked + 1;
      } else {
        if idx != to { a[to] := a[idx]; }
        to := to + 1;
      }
      idx := idx + 1;
    }
    assert was[..a.Length] == was;
    n := a.Length - marked;
  }

  // Mark what does not match, then close the gaps.
  method FilterScan(sel: seq<nat>, p: nat -> bool) returns (r: seq<nat>)
    requires forall k :: k in sel ==> k < MARK
    ensures r == Filter(sel, p)
  {
    var a := new nat[|sel|];
    var i := 0;
    while i < |sel|
      invariant 0 <= i <= |sel| && Filter(a[..i], Unmarked()) == Filter(sel[..i], p)
    {
      assert sel[i] in sel;
      FilterNext(sel, i, p);
      ghost var before := a[..i];
      a[i] := if p(sel[i]) then sel[i] else MARK;
      assert a[..i + 1] == before + [a[i]];
      FilterAdd(before, a[i], Unmarked());
      i := i + 1;
    }
    assert a[..|sel|] == a[..] && sel[..|sel|] == sel;
    var n := Compact(a);
    r := a[..n];
  }

  method MatchScan(n: nat, p: nat -> bool) returns (hits: seq<nat>)
    ensures hits == Among(n, p)
  {
    hits := [];
    for k := 0 to n
      invariant hits == Among(k, p)
    {
      if p(k) { hits := hits + [k]; }
    }
  }

  ghost predicate Ascending(s: seq<nat>) {
    forall i, j :: 0 <= i < j < |s| ==> s[i] < s[j]
  }

  // Ascending lists are determined by their members.
  lemma {:induction false} AscendingSame(a: seq<nat>, b: seq<nat>)
    requires Ascending(a) && Ascending(b) && forall k: nat :: k in a <==> k in b
    ensures a == b
  {
    NotEmpty(a, b);
    NotEmpty(b, a);
    if a == [] {
    } else {
      var n, m := |a| - 1, |b| - 1;
      SameTop(a, b);
      forall k: nat ensures k in a[..n] <==> k in b[..m] {
        assert k in a <==> k in a[..n] || k == a[n] by { assert a == a[..n] + [a[n]]; }
        assert k in b <==> k in b[..m] || k == b[m] by { assert b == b[..m] + [b[m]]; }
      }
      AscendingSame(a[..n], b[..m]);
      assert a == a[..n] + [a[n]] && b == b[..m] + [b[m]];
    }
  }

  lemma NotEmpty(a: seq<nat>, b: seq<nat>)
    requires forall k: nat :: k in a <==> k in b
    ensures a != [] ==> b != []
  {
    if a != [] { assert a[0] in a; }
  }

  lemma SameTop(a: seq<nat>, b: seq<nat>)
    requires Ascending(a) && Ascending(b) && a != [] && b != [] && forall k: nat :: k in a <==> k in b
    ensures a[|a| - 1] == b[|b| - 1]
    ensures a[|a| - 1] !in a[..|a| - 1] && b[|b| - 1] !in b[..|b| - 1]
  {
    assert a[|a| - 1] in b && b[|b| - 1] in a;
  }

  predicate AtMostAs(x: nat, y: nat) {
    x <= y
  }

  // What has been kept of a sorted list up to `i`: each number below the next one, once.
  ghost predicate KeptOnce(s: seq<nat>, i: nat, r: seq<nat>)
    requires i < |s|
  {
    && Ascending(r) && (forall j :: 0 <= j < |r| ==> r[j] < s[i])
    && (forall k: nat :: k in r ==> k in s[..i]) && forall j :: 0 <= j < i ==> s[j] in r || s[j] == s[i]
  }

  lemma KeepNext(s: seq<nat>, i: nat, r: seq<nat>)
    requires i + 1 < |s| && s[i] <= s[i + 1] && KeptOnce(s, i, r)
    ensures KeptOnce(s, i + 1, if s[i] != s[i + 1] then r + [s[i]] else r)
  {
    assert s[..i + 1] == s[..i] + [s[i]];
    if s[i] != s[i + 1] { assert s[i] in r + [s[i]]; }
  }

  lemma KeepLast(s: seq<nat>, r: seq<nat>)
    requires s != [] && KeptOnce(s, |s| - 1, r)
    ensures Ascending(r + [s[|s| - 1]]) && forall k: nat :: k in r + [s[|s| - 1]] <==> k in s
  {
    var n := |s| - 1;
    forall k: nat ensures k in r + [s[n]] <==> k in s {
      if k in r { assert k in s[..n]; }
      if k in s {
        var j :| 0 <= j < |s| && s[j] == k;
      }
    }
  }

  // Of a sorted list, the last of each run of equals.
  method OnceEachRun(s: seq<nat>) returns (r: seq<nat>)
    requires s != [] && forall i :: 0 <= i < |s| - 1 ==> s[i] <= s[i + 1]
    ensures Ascending(r) && forall k: nat :: k in r <==> k in s
  {
    r := [];
    var i := 0;
    while i < |s| - 1
      invariant 0 <= i <= |s| - 1 && KeptOnce(s, i, r)
    {
      KeepNext(s, i, r);
      if s[i] != s[i + 1] { r := r + [s[i]]; }
      i := i + 1;
    }
    KeepLast(s, r);
    r := r + [s[i]];
  }

  method Unique(all: seq<nat>, ghost n: nat) returns (r: seq<nat>)
    requires all != [] && forall k :: k in all ==> k < n
    ensures r == Among(n, Member(all))
  {
    var s := ListSort.Sort(all, AtMostAs);
    ListSort.StableSortIsStable(AtMostAs, all);
    ListSort.SameMembers(s, all);
    forall i | 0 <= i < |s| - 1 ensures s[i] <= s[i + 1] { assert AtMostAs(s[i], s[i + 1]); }
    r := OnceEachRun(s);
    AscendingSame(r, Among(n, Member(all)));
  }

  // The scans of one leaf: matching elements are added, or the selection is filtered; then duplicates go.
  method EvaluateScan(c: Constraint, left: Query, op: int, sel: seq<nat>, n: nat, m: (Constraint, nat) -> bool)
    returns (r: Option<seq<nat>>)
    requires n < MARK && forall k :: k in sel ==> k < n
    ensures r == EvaluateLeaf(c, left, op, sel, n, m)
    ensures r.Some? ==> forall k :: k in r.value ==> k < n
  {
    if (op == PDC_QUERY_OR && |sel| == n) || (op == PDC_QUERY_AND && sel == []) { return Some(sel); }
    if op == PDC_QUERY_AND {
      var kept := FilterScan(sel, Lets(c, m));
      forall k | k in kept ensures k < n { FilterHas(sel, Lets(c, m), k); }
      return Some(kept);
    }
    var hits := MatchScan(n, Lets(c, m));
    var all := sel + hits;
    if op != PDC_QUERY_OR || |all| <= 1 { return Some(all); }
    if left.Null? || left.constraint.None? { return None; }
    if left.constraint.value.objId == c.objId { return Some(all); }
    var once := Unique(all, n);
    return Some(once);
  }

  /** The recursive visit: the left operand with what was handed down, the right one with the node's own operator. */
  method VisitQuery(q: Query, left: Query, op: int, sel: seq<nat>, n: nat, m: (Constraint, nat) -> bool)
    returns (r: Option<seq<nat>>)
    requires n < MARK && forall k :: k in sel ==> k < n
    ensures r == Visit(q, left, op, sel, n, m)
    ensures r.Some? ==> forall k :: k in r.value ==> k < n
    decreases q
  {
    if q.Null? { return Some(sel); }
    if Leaf(q) {
      if q.constraint.None? { return None; }
      r := EvaluateScan(q.constraint.value, left, op, sel, n, m);
    } else {
      r := VisitQuery(q.left, left, op, sel, n, m);
      if r.Some? { r := VisitQuery(q.right, q.left, q.combineOp, r.value, n, m); }
    }
  }
}
