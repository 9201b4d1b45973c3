/** Properties relating the FiniteFieldElement operators to each other and to
    the integer-polynomial reading of their coefficients. */
module ElementProperties {
  import opened CSharpInt
  import opened Polynomial
  import opened FiniteFieldElement
  import LongDivision

  // ---------------------------------------------------------------------------
  // Construction and equality

  /** A coefficient sequence of base-p digits is recovered from the scalar the
      constructor computes, which lies in [0, p^n). */
  lemma ScalarViewRoundTrip(poly: seq<int>, field: Field)
    requires Reduced(poly, field.characteristic)
    ensures 0 <= FromPoly(poly, field).element < Pow(field.characteristic, |poly|)
    ensures Digits(FromPoly(poly, field).element, field.characteristic, |poly|) == poly
  {
    DigitsOfHorner(poly, field.characteristic);
  }

  /** Equality looks only at fields and coefficients: every scalar-constructed
      element of a field equals every other, whatever integers they hold. */
  lemma EqualityIgnoresScalar(x: int, y: int, field: Field, e: Element)
    ensures Equals(FromScalar(x, field), FromScalar(y, field))
    ensures Equals(e, e.(element := y))
    ensures Equals(FromScalar(x, field), e) <==> e.poly == [] && e.field == field
  {
  }

  /** `Equals` is an equivalence relation. */
  lemma EqualsIsEquivalence(a: Element, b: Element, c: Element)
    ensures Equals(a, a)
    ensures Equals(a, b) ==> Equals(b, a)
    ensures Equals(a, b) && Equals(b, c) ==> Equals(a, c)
  {
  }

  // ---------------------------------------------------------------------------
  // Addition

  /** The coefficients of a + b and b + a are the same; the scalar differs only
      on a length tie, where each order returns its second operand's scalar. */
  lemma AddCommutesOnCoefficients(a: Element, b: Element)
    requires a.field == b.field
    ensures Add(a, b).Ok? && Add(b, a).Ok?
    ensures Equals(Add(a, b).value, Add(b, a).value)
    ensures |a.poly| != |b.poly| ==> Add(a, b) == Add(b, a)
  {
    var r, s := Add(a, b).value, Add(b, a).value;
    assert |r.poly| == |s.poly|;
    forall i | 0 <= i < |r.poly|
      ensures r.poly[i] == s.poly[i]
    {
    }
  }

  /** One coefficient of a sum: u + v reduced when both operands have the slot,
      and taken as it is (the absent operand counting 0) when at most one does. */
  function Slot(u: int, v: int, hasU: bool, hasV: bool, p: int): int
    requires p > 0
  {
    if hasU && hasV then (u + v) % p else u + v
  }

  lemma SlotAssociative(x: int, y: int, z: int, hasX: bool, hasY: bool, hasZ: bool, p: int)
    requires p > 0
    requires (!hasX ==> x == 0) && (!hasY ==> y == 0) && (!hasZ ==> z == 0)
    ensures Slot(Slot(x, y, hasX, hasY, p), z, hasX || hasY, hasZ, p)
         == Slot(x, Slot(y, z, hasY, hasZ, p), hasX, hasY || hasZ, p)
  {
    var l := Slot(Slot(x, y, hasX, hasY, p), z, hasX || hasY, hasZ, p);
    var r := Slot(x, Slot(y, z, hasY, hasZ, p), hasX, hasY || hasZ, p);
    if hasX && hasY && hasZ {
      assert l == ((x + y) % p + z) % p && r == (x + (y + z) % p) % p;
      ModAddLeft(x + y, z, p);
      ModAddRight(x, y + z, p);
    } else if hasX && hasY {
      assert l == (x + y) % p + z && r == (x + (y + z)) % p;
    } else if hasX && hasZ {
      assert l == (x + y + z) % p && r == (x + (y + z)) % p;
    } else if hasY && hasZ {
      assert l == (x + y + z) % p && r == x + (y + z) % p;
    } else {
      assert l == x + y + z && r == x + (y + z);
    }
  }

  /** Coefficient i of a + b, read with zero padding, is a Slot. */
  lemma AddSlot(a: Element, b: Element, i: nat)
    requires a.field == b.field
    ensures CoeffAt(Add(a, b).value.poly, i)
         == Slot(CoeffAt(a.poly, i), CoeffAt(b.poly, i), i < |a.poly|, i < |b.poly|, a.field.characteristic)
  {
  }

  /** (a + b) + c and a + (b + c) have the same coefficients: a slot is reduced
      exactly when at least two operands have it. */
  lemma AddAssociativeOnCoefficients(a: Element, b: Element, c: Element)
    requires a.field == b.field == c.field
    ensures Add(a, b).Ok? && Add(b, c).Ok?
    ensures Add(Add(a, b).value, c).Ok? && Add(a, Add(b, c).value).Ok?
    ensures Add(Add(a, b).value, c).value.poly == Add(a, Add(b, c).value).value.poly
  {
    var p := a.field.characteristic;
    var ab, bc := Add(a, b).value, Add(b, c).value;
    var l, r := Add(ab, c).value, Add(a, bc).value;
    assert |l.poly| == |r.poly|;
    forall i | 0 <= i < |l.poly|
      ensures l.poly[i] == r.poly[i]
    {
      AddSlot(a, b, i);
      AddSlot(b, c, i);
      AddSlot(ab, c, i);
      AddSlot(a, bc, i);
      SlotAssociative(CoeffAt(a.poly, i), CoeffAt(b.poly, i), CoeffAt(c.poly, i),
                      i < |a.poly|, i < |b.poly|, i < |c.poly|, p);
    }
  }

  // ---------------------------------------------------------------------------
  // Subtraction

  /** In a prime field the scalar difference is a residue: it depends only on
      the operands' scalars modulo p, and it is zero exactly when they are
      congruent. */
  lemma PrimeSubtractionOnResidues(a: Element, b: Element, a': Element, b': Element)
    requires a.field == b.field == a'.field == b'.field && a.field.isPrimeField
    requires a.element % a.field.characteristic == a'.element % a.field.characteristic
    requires b.element % a.field.characteristic == b'.element % a.field.characteristic
    ensures Sub(a, b).Ok? && Sub(a', b').Ok?
    ensures Sub(a, b).value.element == Sub(a', b').value.element
    ensures Sub(a, b).value.element == 0 <==> a.element % a.field.characteristic == b.element % a.field.characteristic
  {
    var p := a.field.characteristic;
    SubResidue(a.element, b.element, p);
    SubResidue(a'.element, b'.element, p);
    ResidueZeroIff(a.element, b.element, p);
  }

  /** u - v is 0 modulo p exactly when u and v have the same residue. */
  lemma ResidueZeroIff(u: int, v: int, p: int)
    requires p > 0
    ensures (u - v) % p == 0 <==> u % p == v % p
  {
    SubResidue(u, v, p);
    var t := u % p - v % p;
    if t < 0 {
      EuclideanUnique(t, p, -1, t + p);
    } else {
      EuclideanUnique(t, p, 0, t);
    }
  }

  /** The residue of u - v is fixed by the residues of u and v. */
  lemma SubResidue(u: int, v: int, p: int)
    requires p > 0
    ensures (u - v) % p == (u % p - v % p) % p
  {
    ModSubRight(u, v, p);
    ModAddLeft(u, -(v % p), p);
  }

  /** Outside prime fields an element minus itself is all zeros, of its own
      length. */
  lemma SubtractSelf(a: Element)
    requires !a.field.isPrimeField
    ensures Sub(a, a).Ok?
    ensures Sub(a, a).value.poly == Zeros(|a.poly|)
  {
  }

  /** Outside prime fields, subtracting b undoes adding b: the coefficients of a
      come back reduced modulo p where b overlapped them, zero where b reached
      past a's end, and untouched elsewhere. */
  lemma AddThenSubtract(a: Element, b: Element)
    requires a.field == b.field && !a.field.isPrimeField
    ensures Add(a, b).Ok? && Sub(Add(a, b).value, b).Ok?
    ensures var r := Sub(Add(a, b).value, b).value;
      var p := a.field.characteristic;
      && |r.poly| == (if |a.poly| > |b.poly| then |a.poly| else |b.poly|)
      && forall i :: 0 <= i < |r.poly| ==>
           r.poly[i] == if i < |b.poly| then CoeffAt(a.poly, i) % p else a.poly[i]
  {
    var s := Add(a, b).value;
    assert |s.poly| >= |b.poly|;
    forall i | 0 <= i < |s.poly|
      ensures Sub(s, b).value.poly[i]
           == if i < |b.poly| then CoeffAt(a.poly, i) % a.field.characteristic else a.poly[i]
    {
      AddThenSubtractAt(a, b, i);
    }
  }

  lemma AddThenSubtractAt(a: Element, b: Element, i: nat)
    requires a.field == b.field && !a.field.isPrimeField
    requires i < |Add(a, b).value.poly|
    ensures Sub(Add(a, b).value, b).Ok?
    ensures var r := Sub(Add(a, b).value, b).value;
      r.poly[i] == if i < |b.poly| then CoeffAt(a.poly, i) % a.field.characteristic else a.poly[i]
  {
    var p := a.field.characteristic;
    var s := Add(a, b).value;
    AddSlot(a, b, i);
    SubSlot(s, b, i);
    if i < |b.poly| {
      if i < |a.poly| {
        AddSubCancel(a.poly[i], b.poly[i], p);
      } else {
        assert (b.poly[i] - b.poly[i]) % p == 0;
      }
    }
  }

  lemma AddSubCancel(u: int, v: int, p: int)
    requires p > 0
    ensures ((u + v) % p - v) % p == u % p
  {
    ModAddLeft(u + v, -v, p);
  }

  /** The round trip for reduced coefficients: (a + b) - b equals a whenever a
      has at least as many coefficients as b. */
  lemma AddThenSubtractRestores(a: Element, b: Element)
    requires a.field == b.field && !a.field.isPrimeField
    requires Reduced(a.poly, a.field.characteristic) && |a.poly| >= |b.poly|
    ensures Add(a, b).Ok? && Sub(Add(a, b).value, b).Ok?
    ensures Equals(Sub(Add(a, b).value, b).value, a)
  {
    AddThenSubtract(a, b);
    var p := a.field.characteristic;
    var r := Sub(Add(a, b).value, b).value;
    forall i | 0 <= i < |b.poly|
      ensures a.poly[i] % p == a.poly[i]
    {
      EuclideanUnique(a.poly[i], p, 0, a.poly[i]);
    }
    assert r.poly == a.poly;
  }

  /** Outside prime fields, adding b back after subtracting it restores a's
      coefficients modulo p. */
  lemma SubtractThenAdd(a: Element, b: Element)
    requires a.field == b.field && !a.field.isPrimeField && |a.poly| >= |b.poly|
    ensures Sub(a, b).Ok? && Add(Sub(a, b).value, b).Ok?
    ensures var r := Add(Sub(a, b).value, b).value;
      var p := a.field.characteristic;
      && |r.poly| == |a.poly|
      && forall i :: 0 <= i < |r.poly| ==>
           r.poly[i] == if i < |b.poly| then a.poly[i] % p else a.poly[i]
  {
    forall i | 0 <= i < |a.poly|
      ensures Add(Sub(a, b).value, b).value.poly[i]
           == if i < |b.poly| then a.poly[i] % a.field.characteristic else a.poly[i]
    {
      SubtractThenAddAt(a, b, i);
    }
  }

  lemma SubtractThenAddAt(a: Element, b: Element, i: nat)
    requires a.field == b.field && !a.field.isPrimeField && |a.poly| >= |b.poly| && i < |a.poly|
    ensures Sub(a, b).Ok? && Add(Sub(a, b).value, b).Ok?
    ensures var r := Add(Sub(a, b).value, b).value;
      |r.poly| == |a.poly| &&
      r.poly[i] == if i < |b.poly| then a.poly[i] % a.field.characteristic else a.poly[i]
  {
    var p := a.field.characteristic;
    SubSlot(a, b, i);
    var d := Sub(a, b).value;
    AddSlot(d, b, i);
    if i < |b.poly| {
      ModAddLeft(a.poly[i] - b.poly[i], b.poly[i], p);
    }
  }

  /** Slot i of a - b outside prime fields, when el1 is at least as long. */
  lemma SubSlot(a: Element, b: Element, i: nat)
    requires a.field == b.field && !a.field.isPrimeField && |a.poly| >= |b.poly| && i < |a.poly|
    ensures Sub(a, b).Ok? && Sub(a, b).value.field == a.field
    ensures |Sub(a, b).value.poly| == |a.poly|
    ensures Sub(a, b).value.poly[i]
         == if i < |b.poly| then (a.poly[i] - b.poly[i]) % a.field.characteristic else a.poly[i]
  {
  }

  // ---------------------------------------------------------------------------
  // Multiplication and remainder

  /** The scalar of a product is the product of the operands' polynomials
      evaluated at p; for operands whose scalars are still current, it is the
      product of their scalars. */
  lemma MulScalarView(a: Element, b: Element)
    requires Mul(a, b).Ok?
    ensures var p := a.field.characteristic;
      Mul(a, b).value.element == Horner(a.poly, p) * Horner(b.poly, p)
    ensures Fresh(a) && Fresh(b) ==> Mul(a, b).value.element == a.element * b.element
  {
    var p := a.field.characteristic;
    assert Mul(a, b).value.poly == Conv(a.poly, b.poly);
    ConvHomomorphism(a.poly, b.poly, p);
  }

  /** For a divisor whose leading coefficient is 1 or -1, the remainder and the
      discarded quotient satisfy dividend(x) == quotient(x) * divisor(x) +
      remainder(x) at every x: the remainder is the dividend reduced modulo the
      divisor as an integer polynomial. */
  lemma RemainderIdentity(a: Element, d: Element, x: int)
    requires a.field == d.field && |a.poly| >= |d.poly| >= 1
    requires Abs(d.poly[|d.poly| - 1]) == 1
    ensures Rem(a, d).Ok?
    ensures Horner(a.poly, x)
         == Horner(Quotient(a.poly, d.poly), x) * Horner(d.poly, x) + Horner(Rem(a, d).value.poly, x)
  {
    LongDivision.MonicDivision(a.poly, d.poly, x);
  }

  /** A remainder is already reduced: taking it modulo the same divisor again
      returns it unchanged. */
  lemma RemIdempotent(a: Element, d: Element)
    requires Rem(a, d).Ok? && |a.poly| >= |d.poly|
    ensures Rem(Rem(a, d).value, d) == Rem(a, d)
  {
  }
}
