/** From the calls that build a query to the elements a server selects for it. */
module QuerySelection {
  import opened Options
  import opened QueryValues
  import opened QueryTree
  import opened QueryEvaluation

  // ---- Values of the objects ----

  function Truth(w: nat -> real, odd: int -> int): Constraint -> bool {
    (c: Constraint) => Reads(c, w(c.objId), odd)
  }

  // Every object has a value of the type its leaf has.
  ghost predicate Valued(q: Query, w: nat -> real) {
    forall c :: c in Leaves(q) ==> InDomain(c.ty, w(c.objId))
  }

  // One element: the leaves of a tree as read, one after the other, against what the expression means.
  ghost predicate FoldsTo(q: Query, e: Expr, odd: int -> int) {
    forall w :: Valued(q, w) ==> (Fold(q, PDC_QUERY_NONE, false, Truth(w, odd)) <==> Means(e, w))
  }

  // `data(k)` gives the value of every object at element `k`.
  function Matches(data: nat -> nat -> real, odd: int -> int): (Constraint, nat) -> bool {
    (c: Constraint, k: nat) => Reads(c, data(k)(c.objId), odd)
  }

  ghost predicate Selects(q: Query, e: Expr, odd: int -> int, n: nat, data: nat -> nat -> real) {
    var r := Visit(q, Null, PDC_QUERY_NONE, [], n, Matches(data, odd));
    r.Some? && forall k: nat :: k < n ==> (k in r.value <==> Means(e, data(k)))
  }

  ghost predicate AllValued(q: Query, n: nat, data: nat -> nat -> real) {
    forall k: nat :: k < n ==> Valued(q, data(k))
  }

  /** For all data, the server stays up and selects exactly the elements the expression means. */
  ghost predicate SelectsRight(q: Query, e: Expr, odd: int -> int) {
    forall n: nat, data: nat -> nat -> real :: AllValued(q, n, data) ==> Selects(q, e, odd, n, data)
  }

  ghost predicate RightAt(e: Expr, odd: int -> int)
    requires Build(e, odd).Some?
  {
    FoldsTo(Build(e, odd).value, e, odd)
  }

  ghost predicate Right(e: Expr, odd: int -> int)
    requires Build(e, odd).Some?
  {
    SelectsRight(Build(e, odd).value, e, odd)
  }

  // ---- Values that make all leaves true, or false ----

  ghost predicate Satisfiable(c: Constraint, odd: int -> int) {
    exists v :: InDomain(c.ty, v) && Reads(c, v, odd)
  }

  ghost predicate Selectable(q: Query, odd: int -> int) {
    forall c :: c in Leaves(q) ==> Satisfiable(c, odd)
  }

  lemma Missed(c: Constraint, odd: int -> int) returns (v: real)
    requires Formed(c)
    ensures InDomain(c.ty, v) && !Reads(c, v, odd)
  {
    var bound := if c.isRange then Cast(c.ty, c.value, odd) else c.value;
    CastInDomain(c.ty, c.value, odd);
    NextWhole(bound.Floor as real, bound.Floor as real);
    v := if Lower(c.op) then (bound.Floor - 1) as real else (bound.Floor + 2) as real;
    assert (bound.Floor + 2) as real == bound.Floor as real + 2.0;
    assert (bound.Floor - 1) as real == bound.Floor as real - 1.0;
  }

  // Values for the leaves of a tree at which all of them are read as `b`.
  lemma {:induction false} AllRead(q: Query, odd: int -> int, b: bool) returns (w: nat -> real)
    requires Built(q) && AllFormed(q) && OwnObjects(q) && (b ==> Selectable(q, odd))
    ensures Valued(q, w) && forall c :: c in Leaves(q) ==> Reads(c, w(c.objId), odd) == b
  {
    if Leaf(q) {
      var c := q.constraint.value;
      var v: real;
      if b {
        assert c in Leaves(q);
        v :| InDomain(c.ty, v) && Reads(c, v, odd);
      } else {
        v := Missed(c, odd);
      }
      w := o => v;
    } else {
      assert forall c :: c in Leaves(q) <==> c in Leaves(q.left) || c in Leaves(q.right);
      var l := AllRead(q.left, odd, b);
      var r := AllRead(q.right, odd, b);
      w := Joined(q.left, l, r);
      JoinedIs(q, l, r);
    }
  }

  // The values of the left operand's objects from `l`, all others from `r`.
  ghost function Joined(left: Query, l: nat -> real, r: nat -> real): nat -> real {
    (o: nat) => if exists c :: c in Leaves(left) && c.objId == o then l(o) else r(o)
  }

  lemma JoinedIs(q: Query, l: nat -> real, r: nat -> real)
    requires q.Node? && OwnObjects(q)
    ensures forall c :: c in Leaves(q.left) ==> Joined(q.left, l, r)(c.objId) == l(c.objId)
    ensures forall c :: c in Leaves(q.right) ==> Joined(q.left, l, r)(c.objId) == r(c.objId)
  {
  }

  // ---- From one element to all ----

  lemma SelectsAt(q: Query, e: Expr, odd: int -> int, n: nat, data: nat -> nat -> real)
    requires Built(q) && OrsFromLeaves(q) && SharedLast(q, Null, PDC_QUERY_NONE)
    requires FoldsTo(q, e, odd) && AllValued(q, n, data)
    ensures Selects(q, e, odd, n, data)
  {
    var m := Matches(data, odd);
    VisitIsFold(q, Null, PDC_QUERY_NONE, [], n, m);
    forall k: nat | k < n
      ensures k in Visit(q, Null, PDC_QUERY_NONE, [], n, m).value <==> Means(e, data(k))
    {
      Local(q, PDC_QUERY_NONE, false, At(m, k), Truth(data(k), odd));
      assert Valued(q, data(k));
    }
  }

  lemma SelectsAll(q: Query, e: Expr, odd: int -> int)
    requires Built(q) && OrsFromLeaves(q) && SharedLast(q, Null, PDC_QUERY_NONE) && FoldsTo(q, e, odd)
    ensures SelectsRight(q, e, odd)
  {
    forall n: nat, data: nat -> nat -> real | AllValued(q, n, data) ensures Selects(q, e, odd, n, data) {
      SelectsAt(q, e, odd, n, data);
    }
  }

  // A single element is never the second hit, so it shows what the fold gives.
  lemma OneElement(q: Query, e: Expr, odd: int -> int, w: nat -> real)
    requires Built(q) && OrsFromLeaves(q) && SelectsRight(q, e, odd) && Valued(q, w)
    ensures Fold(q, PDC_QUERY_NONE, false, Truth(w, odd)) <==> Means(e, w)
  {
    var data: nat -> nat -> real := (k: nat) => w;
    var m := Matches(data, odd);
    VisitOne(q, Null, PDC_QUERY_NONE, [], m);
    Local(q, PDC_QUERY_NONE, false, At(m, 0), Truth(w, odd));
    assert AllValued(q, 1, data);
    assert Selects(q, e, odd, 1, data);
  }

  lemma GoesDown(q: Query, e: Expr, odd: int -> int)
    requires Built(q) && AllFormed(q) && OwnObjects(q) && Selectable(q, odd) && !OrsFromLeaves(q)
    ensures !SelectsRight(q, e, odd)
  {
    var yes := AllRead(q, odd, true);
    var no := AllRead(q, odd, false);
    var data: nat -> nat -> real := (k: nat) => if k < 2 then yes else no;
    VisitSame(q, Null, PDC_QUERY_NONE, [], 3, Matches(data, odd), TwoOfThree());
    TwoOfThreeVisit(q, Null, PDC_QUERY_NONE, []);
    assert AllValued(q, 3, data) && !Selects(q, e, odd, 3, data);
  }

  lemma SelectsRightExactly(q: Query, e: Expr, odd: int -> int)
    requires Built(q) && AllFormed(q) && OwnObjects(q) && (Leaf(q) || Selectable(q, odd))
    ensures SelectsRight(q, e, odd) <==> FoldsTo(q, e, odd) && OrsFromLeaves(q)
  {
    if !OrsFromLeaves(q) {
      GoesDown(q, e, odd);
    } else if FoldsTo(q, e, odd) {
      OwnObjectsNoneShared(q, Null, PDC_QUERY_NONE);
      SelectsAll(q, e, odd);
    } else if SelectsRight(q, e, odd) {
      forall w | Valued(q, w) ensures Fold(q, PDC_QUERY_NONE, false, Truth(w, odd)) <==> Means(e, w) {
        OneElement(q, e, odd, w);
      }
    }
  }

  lemma RightIsRightAt(e: Expr, odd: int -> int)
    requires WellTyped(e) && Build(e, odd).Some? && OwnObjects(Build(e, odd).value)
    requires Leaf(Build(e, odd).value) || Selectable(Build(e, odd).value, odd)
    ensures Right(e, odd) <==> RightAt(e, odd) && OrsFromLeaves(Build(e, odd).value)
  {
    Builds(e, odd);
    SelectsRightExactly(Build(e, odd).value, e, odd);
  }

  // ---- One operator, with both operands right ----

  // All leaves of the left operand read as `!b`, all of the right operand as `b`.
  lemma Opposed(q: Query, odd: int -> int, b: bool) returns (w: nat -> real)
    requires Built(q) && !Leaf(q) && AllFormed(q) && OwnObjects(q) && Selectable(q, odd)
    ensures Valued(q, w)
    ensures Fold(q.left, PDC_QUERY_NONE, false, Truth(w, odd)) == !b
    ensures Fold(q.right, PDC_QUERY_NONE, false, Truth(w, odd)) == b
    ensures forall acc :: Fold(q.right, q.combineOp, acc, Truth(w, odd)) == Fold(q.right, q.combineOp, acc, Always(b))
  {
    assert forall c :: c in Leaves(q) <==> c in Leaves(q.left) || c in Leaves(q.right);
    var l := AllRead(q.left, odd, !b);
    var r := AllRead(q.right, odd, b);
    w := Joined(q.left, l, r);
    JoinedIs(q, l, r);
    var t := Truth(w, odd);
    Local(q.left, PDC_QUERY_NONE, false, t, Always(!b));
    Local(q.right, PDC_QUERY_NONE, false, t, Always(b));
    AllAlike(q.left, !b, PDC_QUERY_NONE);
    AllAlike(q.right, b, PDC_QUERY_NONE);
    forall acc ensures Fold(q.right, q.combineOp, acc, t) == Fold(q.right, q.combineOp, acc, Always(b)) {
      Local(q.right, q.combineOp, acc, t, Always(b));
    }
  }

  function Combine(op: int, a: bool, b: bool): bool {
    if op == PDC_QUERY_AND then a && b else a || b
  }

  // The two operands folded apart and combined are the whole, for all values, exactly when the right operand
  // is a leaf or has its parent's operator alone.
  lemma CombinedExactly(q: Query, odd: int -> int)
    requires Built(q) && !Leaf(q) && AllFormed(q) && OwnObjects(q) && Selectable(q, odd)
    ensures (forall w :: Valued(q, w) ==> Folds(q, odd, w)) <==> OnlyOp(q.right, q.combineOp)
  {
    if OnlyOp(q.right, q.combineOp) {
      forall w | Valued(q, w) ensures Folds(q, odd, w) { PlainFolds(q, odd, w); }
    } else {
      var b := q.combineOp == PDC_QUERY_AND;
      var w := Opposed(q, odd, b);
      OtherOperator(q.right, q.combineOp, !b);
      assert Valued(q, w) && !Folds(q, odd, w);
    }
  }

  lemma PlainFolds(q: Query, odd: int -> int, w: nat -> real)
    requires Built(q) && !Leaf(q) && OnlyOp(q.right, q.combineOp)
    ensures Folds(q, odd, w)
  {
    var t := Truth(w, odd);
    OneOperator(q.right, q.combineOp, Fold(q.left, PDC_QUERY_NONE, false, t), t);
    OnlyOpIsPlain(q.right, q.combineOp);
    PlainIsRight(q.right, t);
  }

  lemma {:induction false} OnlyOpIsPlain(q: Query, op: int)
    requires OnlyOp(q, op)
    ensures PlainRight(q)
  {
    if Leaf(q) {
    } else {
      OnlyOpIsPlain(q.left, op);
    }
  }

  ghost predicate Folds(q: Query, odd: int -> int, w: nat -> real)
    requires q.Node?
  {
    var t := Truth(w, odd);
    Fold(q, PDC_QUERY_NONE, false, t)
    == Combine(q.combineOp, Fold(q.left, PDC_QUERY_NONE, false, t), Fold(q.right, PDC_QUERY_NONE, false, t))
  }

  // ---- Expressions ----

  // The query of the expression, and of each of its parts, is right.
  ghost predicate RightThroughout(e: Expr, odd: int -> int)
    requires Build(e, odd).Some?
  {
    Right(e, odd) && (!e.Compare? ==> RightThroughout(e.l, odd) && RightThroughout(e.r, odd))
  }

  // Two operands fused into a range that is read right, or joined with a right operand of AND alone.
  predicate AndSound(a: Query, b: Query, odd: int -> int) {
    match Pair(a, b)
    case Some((lo, hi)) => if Fits(lo, hi, odd) then ReadRight(lo, hi, odd) else OnlyOp(b, PDC_QUERY_AND)
    case None => OnlyOp(b, PDC_QUERY_AND)
  }

  /** Every range in the expression is read right, every right operand is a leaf or is built with its parent's
      operator alone, and the left operand of every OR is a leaf. */
  predicate Sound(e: Expr, odd: int -> int)
    requires Build(e, odd).Some?
  {
    match e
    case Compare(_, _, _, _) => true
    case Both(l, r) => Sound(l, odd) && Sound(r, odd) && AndSound(Build(l, odd).value, Build(r, odd).value, odd)
    case Either(l, r) =>
      Sound(l, odd) && Sound(r, odd) && OnlyOp(Build(r, odd).value, PDC_QUERY_OR) && Leaf(Build(l, odd).value)
  }

  lemma CompareIsRight(e: Expr, odd: int -> int)
    requires WellTyped(e) && e.Compare?
    ensures Build(e, odd).Some? && Right(e, odd)
  {
    Builds(e, odd);
    RightIsRightAt(e, odd);
  }

  // A leaf and its value.
  lemma LeafIs(q: Query, odd: int -> int, w: nat -> real)
    requires Built(q) && Leaf(q)
    ensures Leaves(q) == {q.constraint.value} && OwnObjects(q) && OrsFromLeaves(q)
    ensures Fold(q, PDC_QUERY_NONE, false, Truth(w, odd))
       <==> Reads(q.constraint.value, w(q.constraint.value.objId), odd)
    ensures Valued(q, w) <==> InDomain(q.constraint.value.ty, w(q.constraint.value.objId))
  {
  }

  lemma FusedIs(l: Expr, r: Expr, odd: int -> int)
    requires WellTyped(l) && WellTyped(r) && Build(Both(l, r), odd).Some? && Leaf(Build(Both(l, r), odd).value)
    ensures Build(l, odd).Some? && Build(r, odd).Some?
    ensures var a, b := Build(l, odd).value, Build(r, odd).value;
            && Leaf(a) && Leaf(b) && Pair(a, b).Some?
            && var (lo, hi) := Pair(a, b).value;
               && {lo, hi} == {a.constraint.value, b.constraint.value} && Fusible(lo, hi) && Fits(lo, hi, odd)
               && Build(Both(l, r), odd).value.constraint == Option.Some(Fused(lo, hi))
  {
    Builds(l, odd);
    Builds(r, odd);
    var a, b := Build(l, odd).value, Build(r, odd).value;
    assert Build(Both(l, r), odd) == And(a, b, odd);
  }

  ghost predicate FusedExpr(l: Expr, r: Expr, odd: int -> int) {
    && WellTyped(l) && WellTyped(r) && Build(Both(l, r), odd).Some? && Leaf(Build(Both(l, r), odd).value)
    && Build(l, odd).Some? && Build(r, odd).Some? && RightAt(l, odd) && RightAt(r, odd)
  }

  lemma FusedAt(l: Expr, r: Expr, odd: int -> int, lo: Constraint, hi: Constraint, w: nat -> real)
    requires FusedExpr(l, r, odd) && Pair(Build(l, odd).value, Build(r, odd).value) == Option.Some((lo, hi))
    ensures var q := Build(Both(l, r), odd).value;
            && (Valued(q, w) <==> InDomain(lo.ty, w(lo.objId)))
            && (Fold(q, PDC_QUERY_NONE, false, Truth(w, odd)) <==> Reads(Fused(lo, hi), w(lo.objId), odd))
    ensures InDomain(lo.ty, w(lo.objId)) ==>
              (Means(Both(l, r), w) <==> Reads(lo, w(lo.objId), odd) && Reads(hi, w(lo.objId), odd))
  {
    FusedIs(l, r, odd);
    LeafIs(Build(Both(l, r), odd).value, odd, w);
    PartsAt(l, r, odd, lo, hi, w);
  }

  lemma PartsAt(l: Expr, r: Expr, odd: int -> int, lo: Constraint, hi: Constraint, w: nat -> real)
    requires FusedExpr(l, r, odd) && Pair(Build(l, odd).value, Build(r, odd).value) == Option.Some((lo, hi))
    ensures InDomain(lo.ty, w(lo.objId)) ==>
              (Means(l, w) && Means(r, w) <==> Reads(lo, w(lo.objId), odd) && Reads(hi, w(lo.objId), odd))
  {
    FusedIs(l, r, odd);
    var a, b := Build(l, odd).value, Build(r, odd).value;
    LeafIs(a, odd, w);
    LeafIs(b, odd, w);
    if InDomain(lo.ty, w(lo.objId)) {
      assert Valued(a, w) && Valued(b, w);
    }
  }

  // With both of its comparisons right, a fused leaf is right exactly when its range is read right.
  lemma FusedPart(l: Expr, r: Expr, odd: int -> int)
    requires FusedExpr(l, r, odd)
    ensures RightAt(Both(l, r), odd) <==> AndSound(Build(l, odd).value, Build(r, odd).value, odd)
  {
    FusedIs(l, r, odd);
    var (lo, hi) := Pair(Build(l, odd).value, Build(r, odd).value).value;
    FusedRightExactly(lo, hi, odd);
    if RightAt(Both(l, r), odd) {
      forall v | InDomain(lo.ty, v)
        ensures Reads(Fused(lo, hi), v, odd) <==> Reads(lo, v, odd) && Reads(hi, v, odd)
      {
        FusedAt(l, r, odd, lo, hi, o => v);
      }
    } else if ReadRight(lo, hi, odd) {
      FusedRight(l, r, odd, lo, hi);
    }
  }

  lemma FusedRight(l: Expr, r: Expr, odd: int -> int, lo: Constraint, hi: Constraint)
    requires FusedExpr(l, r, odd) && Pair(Build(l, odd).value, Build(r, odd).value) == Option.Some((lo, hi))
    requires forall v :: InDomain(lo.ty, v) ==>
               (Reads(Fused(lo, hi), v, odd) <==> Reads(lo, v, odd) && Reads(hi, v, odd))
    ensures RightAt(Both(l, r), odd)
  {
    forall w | Valued(Build(Both(l, r), odd).value, w)
      ensures Fold(Build(Both(l, r), odd).value, PDC_QUERY_NONE, false, Truth(w, odd)) <==> Means(Both(l, r), w)
    {
      FusedAt(l, r, odd, lo, hi, w);
    }
  }

  lemma {:induction false} LeafParts(e: Expr, odd: int -> int)
    requires WellTyped(e) && Build(e, odd).Some? && Leaf(Build(e, odd).value)
    ensures RightThroughout(e, odd) <==> Sound(e, odd)
  {
    if e.Compare? {
      CompareIsRight(e, odd);
    } else {
      assert e.Both?;
      FusedIs(e.l, e.r, odd);
      LeafParts(e.l, odd);
      LeafParts(e.r, odd);
      LeafRight(e, odd);
      LeafRight(e.l, odd);
      LeafRight(e.r, odd);
      if RightAt(e.l, odd) && RightAt(e.r, odd) { FusedPart(e.l, e.r, odd); }
    }
  }

  lemma LeafRight(e: Expr, odd: int -> int)
    requires WellTyped(e) && Build(e, odd).Some? && Leaf(Build(e, odd).value)
    ensures Right(e, odd) <==> RightAt(e, odd)
  {
    LeafIs(Build(e, odd).value, odd, o => 0.0);
    RightIsRightAt(e, odd);
  }

  // A conjunction that is not fused, on objects of its own, keeps its operands as they are.
  lemma AndNotFused(a: Query, b: Query, odd: int -> int)
    requires Built(a) && Built(b) && And(a, b, odd).Some? && !Leaf(And(a, b, odd).value)
    requires OwnObjects(And(a, b, odd).value)
    ensures And(a, b, odd).value == Inner(PDC_QUERY_AND, a, b) && Pair(a, b).None?
  {
    var q := And(a, b, odd).value;
    assert q == Inner(PDC_QUERY_AND, a, b) || q == Inner(PDC_QUERY_AND, b, a);
  }

  // Both operands right: the whole is right at every element exactly when they combine.
  lemma RightWhenFolds(e: Expr, odd: int -> int)
    requires !e.Compare? && Build(e, odd).Some? && Build(e.l, odd).Some? && Build(e.r, odd).Some?
    requires var op := if e.Both? then PDC_QUERY_AND else PDC_QUERY_OR;
             Build(e, odd).value == Inner(op, Build(e.l, odd).value, Build(e.r, odd).value)
    requires RightAt(e.l, odd) && RightAt(e.r, odd)
    ensures RightAt(e, odd) <==> forall w :: Valued(Build(e, odd).value, w) ==> Folds(Build(e, odd).value, odd, w)
  {
    var q, a, b := Build(e, odd).value, Build(e.l, odd).value, Build(e.r, odd).value;
    forall w | Valued(q, w)
      ensures Means(e, w)
           == Combine(q.combineOp, Fold(a, PDC_QUERY_NONE, false, Truth(w, odd)),
                      Fold(b, PDC_QUERY_NONE, false, Truth(w, odd)))
    {
      assert Leaves(q) == Leaves(a) + Leaves(b);
      assert Valued(a, w) && Valued(b, w);
    }
  }

  // One step of the theorem: an inner node over parts that are right.
  lemma InnerStep(e: Expr, odd: int -> int)
    requires !e.Compare? && WellTyped(e) && Build(e, odd).Some? && Build(e.l, odd).Some? && Build(e.r, odd).Some?
    requires var op := if e.Both? then PDC_QUERY_AND else PDC_QUERY_OR;
             Build(e, odd).value == Inner(op, Build(e.l, odd).value, Build(e.r, odd).value)
    requires OwnObjects(Build(e, odd).value) && Selectable(Build(e, odd).value, odd)
    requires RightAt(e.l, odd) && RightAt(e.r, odd)
    requires OrsFromLeaves(Build(e.l, odd).value) && OrsFromLeaves(Build(e.r, odd).value)
    ensures var op := if e.Both? then PDC_QUERY_AND else PDC_QUERY_OR;
            Right(e, odd) <==> OnlyOp(Build(e.r, odd).value, op) && (e.Either? ==> Leaf(Build(e.l, odd).value))
  {
    var q := Build(e, odd).value;
    Builds(e, odd);
    assert !Leaf(q);
    RightIsRightAt(e, odd);
    RightWhenFolds(e, odd);
    CombinedExactly(q, odd);
  }

  ghost predicate Served(e: Expr, odd: int -> int) {
    && WellTyped(e) && Build(e, odd).Some? && OwnObjects(Build(e, odd).value)
    && (Leaf(Build(e, odd).value) || Selectable(Build(e, odd).value, odd))
  }

  // The operands of an inner node are served as it is.
  lemma PartsServed(e: Expr, odd: int -> int)
    requires Served(e, odd) && !Leaf(Build(e, odd).value)
    ensures !e.Compare? && Served(e.l, odd) && Served(e.r, odd)
    ensures var op := if e.Both? then PDC_QUERY_AND else PDC_QUERY_OR;
            Build(e, odd).value == Inner(op, Build(e.l, odd).value, Build(e.r, odd).value)
    ensures e.Both? ==> Pair(Build(e.l, odd).value, Build(e.r, odd).value).None?
  {
    var a, b := Build(e.l, odd).value, Build(e.r, odd).value;
    if e.Both? { AndNotFused(a, b, odd); }
    assert Leaves(Build(e, odd).value) == Leaves(a) + Leaves(b);
  }

  /** For every expression of create, and and or calls whose leaves are on objects of their own and can be met:
      the server selects exactly what the expression means, for the expression and each of its parts and for all
      data, exactly when every range in it is read right, every right operand is a leaf or is built with its
      parent's operator alone, and the left operand of every OR is a leaf. */
  lemma {:induction false} RightExactlyWhenSound(e: Expr, odd: int -> int)
    requires Served(e, odd)
    ensures RightThroughout(e, odd) <==> Sound(e, odd)
  {
    if Leaf(Build(e, odd).value) {
      LeafParts(e, odd);
    } else {
      PartsServed(e, odd);
      RightExactlyWhenSound(e.l, odd);
      RightExactlyWhenSound(e.r, odd);
      RightIsRightAt(e.l, odd);
      RightIsRightAt(e.r, odd);
      if Sound(e.l, odd) && Sound(e.r, odd) { InnerStep(e, odd); }
    }
  }

  // ---- Leaves that share objects ----

  // Two operands joined by one operator, in either order, with a plain right operand.
  lemma JoinedFolds(q: Query, a: Query, l: Expr, b: Query, r: Expr, e: Expr, odd: int -> int)
    requires Built(a) && Built(b) && FoldsTo(a, l, odd) && FoldsTo(b, r, odd)
    requires e == Both(l, r) || e == Both(r, l) || e == Either(l, r)
    requires q == Inner(if e.Both? then PDC_QUERY_AND else PDC_QUERY_OR, a, b) && OnlyOp(b, q.combineOp)
    ensures FoldsTo(q, e, odd)
  {
    assert Built(q) && !Leaf(q) && Leaves(q) == Leaves(a) + Leaves(b);
    forall w | Valued(q, w) ensures Fold(q, PDC_QUERY_NONE, false, Truth(w, odd)) <==> Means(e, w) {
      assert Valued(a, w) && Valued(b, w);
      PlainFolds(q, odd, w);
    }
  }

  // A conjunction of two queries is a leaf or joins them, the other way round only if both are leaves.
  lemma AndIs(a: Query, b: Query, odd: int -> int)
    requires Built(a) && Built(b) && And(a, b, odd).Some?
    ensures var q := And(a, b, odd).value;
            && (Pair(a, b).Some? ==> Leaf(a) && Leaf(b))
            && (!Leaf(q) ==> q == Inner(PDC_QUERY_AND, a, b) || (Leaf(a) && Leaf(b) && q == Inner(PDC_QUERY_AND, b, a)))
            && (Leaf(q) <==> Pair(a, b).Some? && Fits(Pair(a, b).value.0, Pair(a, b).value.1, odd))
  {
  }

  lemma SoundBoth(l: Expr, r: Expr, odd: int -> int)
    requires WellTyped(l) && WellTyped(r) && Build(Both(l, r), odd).Some? && Build(l, odd).Some? && Build(r, odd).Some?
    requires RightAt(l, odd) && RightAt(r, odd) && AndSound(Build(l, odd).value, Build(r, odd).value, odd)
    requires OrsFromLeaves(Build(l, odd).value) && OrsFromLeaves(Build(r, odd).value)
    ensures RightAt(Both(l, r), odd) && OrsFromLeaves(Build(Both(l, r), odd).value)
  {
    Builds(l, odd);
    Builds(r, odd);
    var a, b, q := Build(l, odd).value, Build(r, odd).value, Build(Both(l, r), odd).value;
    AndIs(a, b, odd);
    if Leaf(q) {
      FusedPart(l, r, odd);
    } else if q == Inner(PDC_QUERY_AND, a, b) {
      JoinedFolds(q, a, l, b, r, Both(l, r), odd);
    } else {
      JoinedFolds(q, b, r, a, l, Both(l, r), odd);
    }
  }

  lemma {:induction false} SoundFolds(e: Expr, odd: int -> int)
    requires WellTyped(e) && Build(e, odd).Some? && Sound(e, odd)
    ensures RightAt(e, odd) && OrsFromLeaves(Build(e, odd).value)
  {
    match e
    case Compare(_, _, _, _) =>
      CompareIsRight(e, odd);
      LeafRight(e, odd);
    case Both(l, r) =>
      SoundFolds(l, odd);
      SoundFolds(r, odd);
      SoundBoth(l, r, odd);
    case Either(l, r) =>
      SoundFolds(l, odd);
      SoundFolds(r, odd);
      Builds(l, odd);
      Builds(r, odd);
      JoinedFolds(Build(e, odd).value, Build(l, odd).value, l, Build(r, odd).value, r, e, odd);
  }

  /** Whatever objects its leaves are on and whether they can be met: an expression that is sound in this sense, and
      in which no OR follows an OR on a shared object, makes the server select exactly what it means. */
  lemma SoundIsRight(e: Expr, odd: int -> int)
    requires WellTyped(e) && Build(e, odd).Some? && Sound(e, odd)
    requires SharedLast(Build(e, odd).value, Null, PDC_QUERY_NONE)
    ensures Right(e, odd)
  {
    Builds(e, odd);
    SoundFolds(e, odd);
    SelectsAll(Build(e, odd).value, e, odd);
  }

  // ---- Two queries that go wrong ----

  // Energies from 3.75 to 4, as floats.
  function EnergyRange(energy: nat): Expr {
    Both(Compare(energy, GTE, PDC_FLOAT, 3.75), Compare(energy, LTE, PDC_FLOAT, 4.0))
  }

  lemma EnergyRangeIsWrong(energy: nat, odd: int -> int)
    requires energy != 0
    ensures Build(EnergyRange(energy), odd).Some? && !Right(EnergyRange(energy), odd)
  {
    var e := EnergyRange(energy);
    Builds(e, odd);
    FloatRangeIsMisread(energy, odd, 0.0);
    CompareIsRight(e.l, odd);
    CompareIsRight(e.r, odd);
    LeafRight(e.l, odd);
    LeafRight(e.r, odd);
    LeafRight(e, odd);
    FusedPart(e.l, e.r, odd);
  }

  // A or (B and C) on three objects.
  function Nested(): Expr {
    Either(Compare(1, GT, PDC_DOUBLE, 0.0), Both(Compare(2, GT, PDC_DOUBLE, 0.0), Compare(3, GT, PDC_DOUBLE, 0.0)))
  }

  lemma NestedIsWrong(odd: int -> int)
    ensures Build(Nested(), odd).Some? && !Right(Nested(), odd)
  {
    var w: nat -> real := o => if o == 1 then 1.0 else 0.0;
    NestedBuild(odd);
    NestedTree(w);
    NestedRightIsWrong(Above(1), Above(2), Above(3), Truth(w, odd));
    if Right(Nested(), odd) { OneElement(NestedQuery(), Nested(), odd, w); }
  }

  function Above(objId: nat): Constraint {
    Single(objId, GT, PDC_DOUBLE, 0.0)
  }

  function NestedQuery(): Query {
    Inner(PDC_QUERY_OR, Holding(Above(1)), Inner(PDC_QUERY_AND, Holding(Above(2)), Holding(Above(3))))
  }

  lemma NestedBuild(odd: int -> int)
    ensures Build(Nested(), odd) == Option.Some(NestedQuery())
  {
    assert Build(Nested().r, odd) == Option.Some(NestedQuery().right);
  }

  lemma NestedTree(w: nat -> real)
    ensures OrsFromLeaves(NestedQuery()) && OwnObjects(NestedQuery()) && Valued(NestedQuery(), w)
  {
    var r := NestedQuery().right;
    assert Leaves(r) == {Above(2), Above(3)};
    assert Leaves(NestedQuery()) == {Above(1), Above(2), Above(3)};
  }
}
