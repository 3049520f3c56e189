/** The values of a query's bounds.  A client copies the bytes of a typed value into a double that is zero
    otherwise.  The server reads the bound of a single comparison back by its bytes, and the bounds of a range
    by converting the double to the type. */
module QueryValues {
  import opened Basics

  datatype Op = OpNone | GT | LT | GTE | LTE | EQ

  // The value types that ranges are made of and that the server evaluates.
  const PDC_INT := 2
  const PDC_UINT := 3
  const PDC_INT64 := 11
  const PDC_UINT64 := 12
  const PDC_FLOAT := 13
  const PDC_DOUBLE := 14

  predicate Comparable(ty: int) {
    ty in [PDC_INT, PDC_UINT, PDC_INT64, PDC_UINT64, PDC_FLOAT, PDC_DOUBLE]
  }

  predicate Integral(ty: int) {
    ty in [PDC_INT, PDC_UINT, PDC_INT64, PDC_UINT64]
  }

  predicate FourBytes(ty: int) {
    ty in [PDC_INT, PDC_UINT, PDC_FLOAT]
  }

  predicate InDomain(ty: int, v: real) {
    Integral(ty) ==> v == v.Floor as real
  }

  const MANTISSA: nat := 0x10_0000_0000_0000

  function Pow2(n: nat): nat {
    if n == 0 then 1 else 2 * Pow2(n - 1)
  }

  // The double with the bits of an eight-byte integer, without its fraction.  Where the language leaves the
  // conversion undefined the result is whatever `odd` says.
  function Truncated(v: int, signed: bool, odd: int -> int): int {
    var bits := v % WORD;
    var exponent, mantissa, negative := bits / MANTISSA % 2048, bits % MANTISSA, bits >= WORD / 2;
    if exponent < 1023 then 0
    else if exponent >= (if signed then 1086 else 1087) || (negative && !signed) then odd(v)
    else
      var size := (MANTISSA + mantissa) * Pow2(exponent - 1023) / MANTISSA;
      if negative then -size else size
  }

  /** What a converted bound is read as.  The double of a four-byte value has its upper half zero, which makes
      it smaller than any positive value of those types: it is read as zero. */
  function Cast(ty: int, v: real, odd: int -> int): real {
    if FourBytes(ty) then 0.0
    else if ty == PDC_DOUBLE then v
    else Truncated(v.Floor, ty == PDC_INT64, odd) as real
  }

  lemma CastInDomain(ty: int, v: real, odd: int -> int)
    requires Comparable(ty)
    ensures InDomain(ty, Cast(ty, v, odd))
  {
  }

  lemma {:induction false} Pow2Add(a: nat, b: nat)
    ensures Pow2(a + b) == Pow2(a) * Pow2(b)
  {
    if a == 0 {
    } else {
      Pow2Add(a - 1, b);
      assert 2 * (Pow2(a - 1) * Pow2(b)) == 2 * Pow2(a - 1) * Pow2(b);
    }
  }

  lemma Pow2Mantissa(e: nat)
    requires e <= 52
    ensures Pow2(e) * Pow2(52 - e) == MANTISSA && Pow2(e) > 0 && Pow2(52 - e) > 0
  {
    Pow2Add(e, 52 - e);
    Pow2Is();
    Pow2Positive(e);
    Pow2Positive(52 - e);
  }

  lemma Pow2Is()
    ensures Pow2(52) == MANTISSA
  {
    assert Pow2(13) == 8192;
    Pow2Add(13, 13);
    Pow2Add(26, 26);
  }

  lemma {:induction false} Pow2Positive(n: nat)
    ensures Pow2(n) > 0
  {
    if n == 0 {
    } else {
      Pow2Positive(n - 1);
    }
  }

  // The bits of the double that holds the whole number `k`, between two powers of two.
  function DoubleBits(k: nat, e: nat, negative: bool): int
    requires e <= 52 && Pow2(e) <= k < Pow2(e + 1)
  {
    (1023 + e) * MANTISSA + (k - Pow2(e)) * Pow2(52 - e) + if negative then WORD / 2 else 0
  }

  lemma Fraction(k: nat, e: nat)
    requires e <= 52 && Pow2(e) <= k < Pow2(e + 1)
    ensures var f := (k - Pow2(e)) * Pow2(52 - e); 0 <= f < MANTISSA && (MANTISSA + f) * Pow2(e) == k * MANTISSA
  {
    Pow2Mantissa(e);
    Regrouped(k, Pow2(e), Pow2(52 - e));
  }

  lemma Regrouped(k: nat, p: nat, q: nat)
    requires p <= k < 2 * p && q > 0
    ensures 0 <= (k - p) * q < p * q && (p * q + (k - p) * q) * p == k * (p * q)
  {
    Nonneg(k - p, q);
    Below(k - p, p, q);
    Distribute(p, k - p, q);
    assert k * q * p == k * (p * q);
  }

  lemma Fields(e: nat, f: nat, negative: bool)
    requires e <= 1024 && f < MANTISSA
    ensures var bits := (1023 + e) * MANTISSA + f + if negative then WORD / 2 else 0;
            && bits % WORD == bits && bits / MANTISSA % 2048 == 1023 + e && bits % MANTISSA == f
            && (bits >= WORD / 2 <==> negative)
  {
  }

  lemma Quotient(k: nat, n: nat)
    requires k == n * MANTISSA
    ensures k / MANTISSA == n
  {
  }

  /** The bits of a double that holds a whole number are read as that number. */
  lemma WholeDoublesAreRead(k: nat, e: nat, negative: bool, signed: bool, odd: int -> int)
    requires e <= 52 && Pow2(e) <= k < Pow2(e + 1) && (negative ==> signed)
    ensures var n: int := k; Truncated(DoubleBits(k, e, negative), signed, odd) == if negative then -n else n
  {
    var f := (k - Pow2(e)) * Pow2(52 - e);
    Fraction(k, e);
    Fields(e, f, negative);
    Quotient((MANTISSA + f) * Pow2(e), k);
  }

  /** Larger doubles, which are whole, are read as what they hold up to the end of the type, and beyond it as the
      conversion leaves them. */
  lemma LargeDoublesAreRead(f: nat, e: nat, negative: bool, signed: bool, odd: int -> int)
    requires 52 < e <= 1024 && f < MANTISSA && (negative ==> signed)
    ensures var bits := (1023 + e) * MANTISSA + f + if negative then WORD / 2 else 0;
            var n: int := (MANTISSA + f) * Pow2(e - 52);
            Truncated(bits, signed, odd)
            == if e < (if signed then 63 else 64) then (if negative then -n else n) else odd(bits)
  {
    Fields(e, f, negative);
    Pow2Add(e - 52, 52);
    Pow2Is();
    Regroup(MANTISSA + f, Pow2(e - 52));
    Quotient((MANTISSA + f) * Pow2(e), (MANTISSA + f) * Pow2(e - 52));
  }

  lemma Regroup(a: nat, p: nat)
    ensures a * (p * MANTISSA) == a * p * MANTISSA
  {
  }

  /** Eight-byte integers that are not negative and below the bits of 1.0 are read as zero too. */
  lemma EightBytesReadAsZero(v: int, signed: bool, odd: int -> int)
    requires 0 <= v < 1023 * MANTISSA
    ensures Truncated(v, signed, odd) == 0
  {
    assert v % WORD == v && v / MANTISSA < 1023;
  }

  predicate Holds(op: Op, v: real, bound: real) {
    match op
    case OpNone => true
    case GT => v > bound
    case LT => v < bound
    case GTE => v >= bound
    case LTE => v <= bound
    case EQ => v == bound
  }

  predicate Lower(op: Op) {
    op == GT || op == GTE
  }

  predicate Upper(op: Op) {
    op == LT || op == LTE
  }

  // ---- Ranges of values ----

  datatype Range = Range(lo: real, loIn: bool, hi: real, hiIn: bool)

  predicate Has(r: Range, v: real) {
    (if r.loIn then r.lo <= v else r.lo < v) && (if r.hiIn then v <= r.hi else v < r.hi)
  }

  // Among integers every bound can be moved to the first value it lets through.
  function Settled(ty: int, r: Range): Range {
    if Integral(ty) then Range(if r.loIn then r.lo else r.lo + 1.0, true, if r.hiIn then r.hi else r.hi - 1.0, true)
    else r
  }

  predicate Empty(r: Range) {
    r.lo > r.hi || (r.lo == r.hi && !(r.loIn && r.hiIn))
  }

  // Ranges with the same values of a type.
  predicate SameRange(ty: int, a: Range, b: Range) {
    var x, y := Settled(ty, a), Settled(ty, b);
    (Empty(x) && Empty(y)) || x == y
  }

  ghost predicate Whole(ty: int, r: Range) {
    InDomain(ty, r.lo) && InDomain(ty, r.hi)
  }

  // Whole numbers: the next one is one further.
  lemma NextWhole(a: real, b: real)
    requires a == a.Floor as real && b == b.Floor as real
    ensures a < b <==> a + 1.0 <= b
    ensures (a + 1.0).Floor as real == a + 1.0 && (b - 1.0).Floor as real == b - 1.0
  {
    var i, j := a.Floor, b.Floor;
    assert (i + 1) as real == a + 1.0 && (j - 1) as real == b - 1.0;
    assert a < b <==> i < j;
  }

  lemma SettledHas(ty: int, r: Range, v: real)
    requires Whole(ty, r) && InDomain(ty, v)
    ensures Has(Settled(ty, r), v) <==> Has(r, v)
    ensures Whole(ty, Settled(ty, r))
  {
    if Integral(ty) {
      NextWhole(r.lo, v);
      NextWhole(v, r.hi);
    }
  }

  lemma EmptyHasNothing(r: Range, v: real)
    requires Empty(r)
    ensures !Has(r, v)
  {
  }

  // A value of a settled range that is not empty; among integers, its ends are such values.
  lemma SomeValue(ty: int, r: Range) returns (v: real)
    requires Whole(ty, r) && !Empty(r) && (Integral(ty) ==> r.loIn && r.hiIn)
    ensures InDomain(ty, v) && Has(r, v)
  {
    v := if Integral(ty) || r.lo == r.hi then r.lo else (r.lo + r.hi) / 2.0;
  }

  // Two ranges that are not empty and start differently are told apart by some value.
  lemma LowerTellsApart(ty: int, a: Range, b: Range) returns (v: real)
    requires Whole(ty, a) && Whole(ty, b) && !Empty(a) && !Empty(b)
    requires Integral(ty) ==> a.loIn && a.hiIn && b.loIn && b.hiIn
    requires a.lo < b.lo || (a.lo == b.lo && a.loIn && !b.loIn)
    ensures InDomain(ty, v) && Has(a, v) != Has(b, v)
  {
    if Integral(ty) || a.loIn {
      v := a.lo;
    } else {
      var m := if b.lo < a.hi then b.lo else a.hi;
      v := (a.lo + m) / 2.0;
    }
  }

  lemma UpperTellsApart(ty: int, a: Range, b: Range) returns (v: real)
    requires Whole(ty, a) && Whole(ty, b) && !Empty(a) && !Empty(b)
    requires Integral(ty) ==> a.loIn && a.hiIn && b.loIn && b.hiIn
    requires a.hi > b.hi || (a.hi == b.hi && a.hiIn && !b.hiIn)
    ensures InDomain(ty, v) && Has(a, v) != Has(b, v)
  {
    if Integral(ty) || a.hiIn {
      v := a.hi;
    } else {
      var m := if b.hi > a.lo then b.hi else a.lo;
      v := (m + a.hi) / 2.0;
    }
  }

  lemma DifferentTellApart(ty: int, a: Range, b: Range) returns (v: real)
    requires Whole(ty, a) && Whole(ty, b) && a != b && !(Empty(a) && Empty(b))
    requires Integral(ty) ==> a.loIn && a.hiIn && b.loIn && b.hiIn
    ensures InDomain(ty, v) && Has(a, v) != Has(b, v)
  {
    if Empty(b) {
      v := SomeValue(ty, a);
      EmptyHasNothing(b, v);
    } else if Empty(a) {
      v := SomeValue(ty, b);
      EmptyHasNothing(a, v);
    } else if a.lo < b.lo || (a.lo == b.lo && a.loIn && !b.loIn) {
      v := LowerTellsApart(ty, a, b);
    } else if b.lo < a.lo || (a.lo == b.lo && b.loIn && !a.loIn) {
      v := LowerTellsApart(ty, b, a);
    } else if a.hi > b.hi || (a.hi == b.hi && a.hiIn && !b.hiIn) {
      v := UpperTellsApart(ty, a, b);
    } else {
      v := UpperTellsApart(ty, b, a);
    }
  }

  /** Two ranges let the same values of a type through exactly when, with their bounds settled, they are equal
      or both empty. */
  lemma SameRangeExactly(ty: int, a: Range, b: Range)
    requires Whole(ty, a) && Whole(ty, b)
    ensures (forall v :: InDomain(ty, v) ==> (Has(a, v) <==> Has(b, v))) <==> SameRange(ty, a, b)
  {
    var x, y := Settled(ty, a), Settled(ty, b);
    SettledHas(ty, a, 0.0);
    SettledHas(ty, b, 0.0);
    if SameRange(ty, a, b) {
      forall v | InDomain(ty, v) ensures Has(a, v) <==> Has(b, v) {
        SettledHas(ty, a, v);
        SettledHas(ty, b, v);
        if Empty(x) && Empty(y) {
          EmptyHasNothing(x, v);
          EmptyHasNothing(y, v);
        }
      }
    } else {
      var v := DifferentTellApart(ty, x, y);
      SettledHas(ty, a, v);
      SettledHas(ty, b, v);
    }
  }
}
