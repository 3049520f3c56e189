/** Value queries: trees of comparisons under AND and OR, how a client builds them, and how their bounds are read. */
module QueryTree {
  import opened Options
  import opened QueryValues

  datatype Constraint = Constraint(objId: nat, op: Op, ty: int, value: real, isRange: bool, op2: Op, value2: real)

  // The numbers the combine operators are sent as; -1 stands for an absent node.
  const PDC_QUERY_NONE := 0
  const PDC_QUERY_AND := 1
  const PDC_QUERY_OR := 2

  datatype Query = Null | Node(combineOp: int, constraint: Option<Constraint>, left: Query, right: Query)

  predicate Leaf(q: Query) {
    q.Node? && q.left.Null? && q.right.Null?
  }

  // ---- Queries as the client builds them ----

  /** A leaf holds a constraint and no operator, an inner node an operator, two operands and no constraint. */
  predicate Built(q: Query) {
    q.Node? &&
    if Leaf(q) then q.combineOp == PDC_QUERY_NONE && q.constraint.Some?
    else
      && (q.combineOp == PDC_QUERY_AND || q.combineOp == PDC_QUERY_OR) && q.constraint.None?
      && Built(q.left) && Built(q.right)
  }

  function Create(objId: nat, op: Op, ty: int, value: real): (r: Option<Query>)
    ensures r.Some? <==> objId != 0 && op != OpNone
    ensures r.Some? ==> Built(r.value)
  {
    if objId == 0 || op == OpNone then None
    else
      Some(Node(PDC_QUERY_NONE, Option.Some(Single(objId, op, ty, value)), Null, Null))
  }

  function Or(q1: Query, q2: Query): (r: Option<Query>)
    ensures r.Some? <==> q1.Node? && q2.Node?
    ensures Built(q1) && Built(q2) ==> r.Some? && Built(r.value)
  {
    if q1.Null? || q2.Null? then None else Some(Node(PDC_QUERY_OR, Option.None, q1, q2))
  }

  // Two constraints on one object and of one type.
  predicate OneObject(q1: Query, q2: Query) {
    && q1.Node? && q2.Node? && q1.constraint.Some? && q2.constraint.Some?
    && q1.constraint.value.objId == q2.constraint.value.objId && q1.constraint.value.ty == q2.constraint.value.ty
  }

  // The operands, with a lower bound before an upper bound on the same object.
  function Swapped(q1: Query, q2: Query): (Query, Query) {
    if OneObject(q1, q2) && Lower(q2.constraint.value.op) && Upper(q1.constraint.value.op) then (q2, q1) else (q1, q2)
  }

  // The two constraints of a range, the lower bound first, if the operands are such.
  function Pair(q1: Query, q2: Query): (r: Option<(Constraint, Constraint)>)
    ensures r.Some? ==> Lower(r.value.0.op) && Upper(r.value.1.op) && r.value.0.objId == r.value.1.objId
  {
    var (a, b) := Swapped(q1, q2);
    if OneObject(a, b) && Lower(a.constraint.value.op) && Upper(b.constraint.value.op)
    then Some((a.constraint.value, b.constraint.value)) else None
  }

  /** Conjunction.  A lower and an upper bound on one object are fused into one range when the bounds, converted
      to their type, are in order; the range takes its upper bound from the second constraint. */
  function And(q1: Query, q2: Query, odd: int -> int): (r: Option<Query>)
    ensures r.Some? <==> q1.Node? && q2.Node? && (Pair(q1, q2).Some? ==> Comparable(Pair(q1, q2).value.0.ty))
    ensures Built(q1) && Built(q2) && r.Some? ==> Built(r.value)
  {
    var (a, b) := Swapped(q1, q2);
    if q1.Null? || q2.Null? then None
    else
      match Pair(q1, q2)
      case Some((lo, hi)) =>
        if !Comparable(lo.ty) then None
        else if Fits(lo, hi, odd) then Some(Node(PDC_QUERY_NONE, Option.Some(Fused(lo, hi)), Null, Null))
        else Some(Node(PDC_QUERY_AND, Option.None, a, b))
      case None => Some(Node(PDC_QUERY_AND, Option.None, a, b))
  }

  predicate Fits(lo: Constraint, hi: Constraint, odd: int -> int) {
    Cast(lo.ty, lo.value, odd) <= Cast(hi.ty, hi.value, odd)
  }

  function Fused(lo: Constraint, hi: Constraint): Constraint {
    lo.(isRange := true, op2 := hi.op, value2 := hi.value)
  }

  // ---- Constraints as the server reads them ----

  predicate Reads(c: Constraint, v: real, odd: int -> int) {
    if c.isRange then Holds(c.op, v, Cast(c.ty, c.value, odd)) && Holds(c.op2, v, Cast(c.ty, c.value2, odd))
    else Holds(c.op, v, c.value)
  }

  // A constraint as create and and make them.
  ghost predicate Formed(c: Constraint) {
    && Comparable(c.ty) && c.op != OpNone && InDomain(c.ty, c.value)
    && (c.isRange ==> Lower(c.op) && Upper(c.op2) && InDomain(c.ty, c.value2))
  }

  // Two bounds that And fuses.
  ghost predicate Fusible(lo: Constraint, hi: Constraint) {
    && Formed(lo) && Formed(hi) && Lower(lo.op) && Upper(hi.op) && lo.objId == hi.objId && lo.ty == hi.ty
  }

  // What the fused range is read as, and what the two constraints are read as together.
  function ReadAs(lo: Constraint, hi: Constraint, odd: int -> int): Range {
    Range(Cast(lo.ty, lo.value, odd), lo.op == GTE, Cast(lo.ty, hi.value, odd), hi.op == LTE)
  }

  function Meant(lo: Constraint, hi: Constraint, odd: int -> int): Range {
    if !lo.isRange then Range(lo.value, lo.op == GTE, hi.value, hi.op == LTE)
    else
      var from, to := Cast(lo.ty, lo.value, odd), Cast(lo.ty, lo.value2, odd);
      if to < hi.value || (to == hi.value && lo.op2 == LT) then Range(from, lo.op == GTE, to, lo.op2 == LTE)
      else Range(from, lo.op == GTE, hi.value, hi.op == LTE)
  }

  lemma ReadsAsRanges(lo: Constraint, hi: Constraint, odd: int -> int, v: real)
    requires Fusible(lo, hi)
    ensures Reads(Fused(lo, hi), v, odd) <==> Has(ReadAs(lo, hi, odd), v)
    ensures Reads(lo, v, odd) && Reads(hi, v, odd) <==> Has(Meant(lo, hi, odd), v)
    ensures Formed(Fused(lo, hi))
  {
  }

  // The bounds of the fused range survive being converted.
  predicate ReadRight(lo: Constraint, hi: Constraint, odd: int -> int) {
    SameRange(lo.ty, ReadAs(lo, hi, odd), Meant(lo, hi, odd))
  }

  /** A fused range is read as both of its constraints together, for all values of its type, exactly when its
      converted bounds let the same values through. */
  lemma FusedRightExactly(lo: Constraint, hi: Constraint, odd: int -> int)
    requires Fusible(lo, hi)
    ensures (forall v :: InDomain(lo.ty, v) ==>
               (Reads(Fused(lo, hi), v, odd) <==> Reads(lo, v, odd) && Reads(hi, v, odd)))
            <==> ReadRight(lo, hi, odd)
  {
    var a, b := ReadAs(lo, hi, odd), Meant(lo, hi, odd);
    CastInDomain(lo.ty, lo.value, odd);
    CastInDomain(lo.ty, hi.value, odd);
    CastInDomain(lo.ty, lo.value2, odd);
    SameRangeExactly(lo.ty, a, b);
    forall v
      ensures Reads(Fused(lo, hi), v, odd) <==> Has(a, v)
      ensures Reads(lo, v, odd) && Reads(hi, v, odd) <==> Has(b, v)
    {
      ReadsAsRanges(lo, hi, odd, v);
    }
  }

  /** Doubles: two single bounds are always read right. */
  lemma DoublesReadRight(lo: Constraint, hi: Constraint, odd: int -> int)
    requires Fusible(lo, hi) && lo.ty == PDC_DOUBLE && !lo.isRange
    ensures ReadRight(lo, hi, odd)
  {
  }

  /** Four-byte types: two single bounds are read right exactly when both are zero and included, or there is
      no value between them while one of them is left out. */
  lemma FourBytesReadRightExactly(lo: Constraint, hi: Constraint, odd: int -> int)
    requires Fusible(lo, hi) && FourBytes(lo.ty) && !lo.isRange
    ensures Fits(lo, hi, odd)
    ensures ReadRight(lo, hi, odd) <==>
              if lo.op == GTE && hi.op == LTE then lo.value == 0.0 && hi.value == 0.0
              else Empty(Settled(lo.ty, Meant(lo, hi, odd)))
  {
  }

  // Energies between 3.75 and 4, as floats: only the energy 0 is selected.
  lemma FloatRangeIsMisread(energy: nat, odd: int -> int, v: real)
    ensures var lo, hi := Single(energy, GTE, PDC_FLOAT, 3.75), Single(energy, LTE, PDC_FLOAT, 4.0);
            && Fusible(lo, hi) && Fits(lo, hi, odd) && !ReadRight(lo, hi, odd)
            && (Reads(Fused(lo, hi), v, odd) <==> v == 0.0)
  {
  }

  function Single(objId: nat, op: Op, ty: int, value: real): Constraint {
    Constraint(objId, op, ty, value, false, OpNone, 0.0)
  }

  // ---- Expressions of calls ----

  datatype Expr = Compare(objId: nat, op: Op, ty: int, value: real) | Both(l: Expr, r: Expr) | Either(l: Expr, r: Expr)

  predicate Means(e: Expr, at: nat -> real) {
    match e
    case Compare(o, op, _, value) => Holds(op, at(o), value)
    case Both(l, r) => Means(l, at) && Means(r, at)
    case Either(l, r) => Means(l, at) || Means(r, at)
  }

  function Build(e: Expr, odd: int -> int): (q: Option<Query>)
    ensures q.Some? ==> Built(q.value)
  {
    match e
    case Compare(o, op, ty, value) => Create(o, op, ty, value)
    case Both(l, r) =>
      var a, b := Build(l, odd), Build(r, odd);
      if a.Some? && b.Some? then And(a.value, b.value, odd) else None
    case Either(l, r) =>
      var a, b := Build(l, odd), Build(r, odd);
      if a.Some? && b.Some? then Or(a.value, b.value) else None
  }

  ghost predicate WellTyped(e: Expr) {
    match e
    case Compare(o, op, ty, value) => o != 0 && op != OpNone && Comparable(ty) && InDomain(ty, value)
    case Both(l, r) => WellTyped(l) && WellTyped(r)
    case Either(l, r) => WellTyped(l) && WellTyped(r)
  }

  ghost predicate AllFormed(q: Query) {
    q.Node? ==> (q.constraint.Some? ==> Formed(q.constraint.value)) && AllFormed(q.left) && AllFormed(q.right)
  }

  /** Every expression over objects, operators, comparable types and values of those types can be built. */
  lemma {:induction false} Builds(e: Expr, odd: int -> int)
    requires WellTyped(e)
    ensures Build(e, odd).Some? && AllFormed(Build(e, odd).value)
  {
    match e
    case Compare(o, op, ty, value) =>
    case Both(l, r) =>
      Builds(l, odd);
      Builds(r, odd);
    case Either(l, r) =>
      Builds(l, odd);
      Builds(r, odd);
  }
}
