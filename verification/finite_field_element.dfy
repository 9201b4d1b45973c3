/** FiniteFieldElement: an element of a finite field, held both as a coefficient
    sequence `poly` (index 0 the constant term) and as an integer `element`, the
    "scalar" view. The C# `+` and `-` mutate and return one of their operands;
    here they are pure functions returning that operand's state afterwards. `*`
    and `%` build a new element (or `%` returns its dividend as it is), and `/`
    returns null. Exceptions the C# code raises become `Err` results. */
module FiniteFieldElement {
  import opened CSharpInt
  import opened Polynomial
  import LongDivision

  /** A field characteristic. The FiniteField class is not part of this model;
      its characteristic is assumed to exceed 1. */
  type Characteristic = p: int | p > 1 witness 2

  /** The FiniteField an element refers to. Structural equality of this datatype
      stands for `FiniteField.Equals`. */
  datatype Field = Field(characteristic: Characteristic, isPrimeField: bool)

  datatype Element = Element(poly: seq<int>, element: int, field: Field)

  /** The exceptions the operators can raise. */
  datatype Exception =
    | InvalidOperation   // operands from different fields
    | IndexOutOfRange    // an array read past its end
    | Overflow           // `new int[-1]`
    | DivideByZero       // integer `/` by zero

  datatype Result<T> = Ok(value: T) | Err(error: Exception)

  /** A reference that may be null. */
  datatype Option<T> = None | Some(value: T)

  // ---------------------------------------------------------------------------
  // Construction

  /** The scalar constructor: no coefficients, and the integer stored as given,
      even outside [0, p). */
  function FromScalar(element: int, field: Field): (e: Element)
    ensures e.poly == [] && e.element == element && e.field == field
  {
    Element([], element, field)
  }

  /** The constructor's loop: element += Poly[i] * p^i for i from the top index
      down to 0, starting at 0. */
  method PositionalValue(poly: seq<int>, p: int) returns (element: int)
    ensures element == Horner(poly, p)
  {
    element := 0;
    var i := |poly| - 1;
    assert poly[..i + 1] == poly;
    while i >= 0
      invariant -1 <= i < |poly|
      invariant element + Weighted(poly[..i + 1], p) == Weighted(poly, p)
    {
      assert poly[..i + 1][..i] == poly[..i];
      element := element + poly[i] * Pow(p, i);
      i := i - 1;
    }
    WeightedIsHorner(poly, p);
  }

  /** The coefficient constructor: keeps the sequence and sets `element` to its
      value read as base-p digits, least significant first. */
  function FromPoly(poly: seq<int>, field: Field): (e: Element)
    ensures e.poly == poly && e.field == field
    ensures e.element == Horner(poly, field.characteristic)
  {
    WeightedIsHorner(poly, field.characteristic);
    Element(poly, Weighted(poly, field.characteristic), field)
  }

  /** True when `element` still agrees with the coefficients, as it does right
      after the coefficient constructor. */
  predicate Fresh(e: Element)
  {
    e.element == Horner(e.poly, e.field.characteristic)
  }

  // ---------------------------------------------------------------------------
  // Equality

  /** The coefficient scan of `Equals`: s and t agree from index i on. */
  function AgreeFrom(s: seq<int>, t: seq<int>, i: nat): (b: bool)
    requires |s| == |t| && i <= |s|
    ensures b <==> s[i..] == t[i..]
    decreases |s| - i
  {
    if i == |s| then true
    else if t[i] != s[i] then false
    else
      var b := AgreeFrom(s, t, i + 1);
      assert s[i..] == [s[i]] + s[i + 1..] && t[i..] == [t[i]] + t[i + 1..];
      b
  }

  /** `Equals`: same number of coefficients, same field, same coefficients. The
      scalar `element` plays no part. */
  function Equals(self: Element, other: Element): (b: bool)
    ensures b <==> self.poly == other.poly && self.field == other.field
  {
    if |other.poly| != |self.poly| then false
    else if other.field != self.field then false
    else
      var b := AgreeFrom(self.poly, other.poly, 0);
      assert self.poly[0..] == self.poly && other.poly[0..] == other.poly;
      b
  }

  // ---------------------------------------------------------------------------
  // Addition

  /** The addition loop from `index` on: coefficients index .. |short| - 1 of
      `long` become mod(long[i] + short[i], p), the rest are left as they were. */
  function AddFrom(long: seq<int>, short: seq<int>, p: Characteristic, index: nat): (r: seq<int>)
    requires |short| <= |long| && index <= |short|
    ensures |r| == |long|
    ensures forall i :: 0 <= i < |r| ==>
      r[i] == if index <= i < |short| then (long[i] + short[i]) % p else long[i]
    decreases |short| - index
  {
    if index == |short| then long
    else
      ModIsEuclidean(long[index] + short[index], p);
      AddFrom(long[index := Mod(long[index] + short[index], p)], short, p, index + 1)
  }

  /** `operator +`. The longer operand (el2 on a tie) is the one mutated and
      returned: its low coefficients become the reduced sums, its coefficients
      beyond the shorter operand keep their raw values, and its `element` is
      not recomputed. */
  function Add(el1: Element, el2: Element): (r: Result<Element>)
    ensures el1.field != el2.field ==> r == Err(InvalidOperation)
    ensures el1.field == el2.field ==> r.Ok?
    ensures r.Ok? ==>
      var longer := if |el1.poly| > |el2.poly| then el1 else el2;
      var p := el1.field.characteristic;
      && r.value.field == el1.field
      && r.value.element == longer.element
      && |r.value.poly| == |longer.poly|
      && forall i :: 0 <= i < |r.value.poly| ==>
           r.value.poly[i] == if i < |el1.poly| && i < |el2.poly|
                              then (el1.poly[i] + el2.poly[i]) % p
                              else CoeffAt(el1.poly, i) + CoeffAt(el2.poly, i)
  {
    if el1.field != el2.field then Err(InvalidOperation)
    else
      var maxDegree := if |el1.poly| > |el2.poly| then el1 else el2;
      var minDegree := if Equals(el1, maxDegree) then el2 else el1;
      Ok(maxDegree.(poly := AddFrom(maxDegree.poly, minDegree.poly, el1.field.characteristic, 0)))
  }

  // ---------------------------------------------------------------------------
  // Subtraction

  /** SubstractionPrimeFieldElements: only el1's scalar changes, to
      mod(el1.element - el2.element, p). */
  function SubtractPrime(el1: Element, el2: Element): (r: Element)
    ensures r.poly == el1.poly && r.field == el1.field
    ensures r.element == (el1.element - el2.element) % el1.field.characteristic
  {
    var p := el1.field.characteristic;
    ModIsEuclidean(el1.element - el2.element, p);
    el1.(element := Mod(el1.element - el2.element, p))
  }

  /** The subtraction loop from i on: coefficients i .. |b| - 1 of a become
      mod(a[i] - b[i], p). */
  function SubFrom(a: seq<int>, b: seq<int>, p: Characteristic, i: nat): (r: seq<int>)
    requires |b| <= |a| && i <= |b|
    ensures |r| == |a|
    ensures forall k :: 0 <= k < |r| ==>
      r[k] == if i <= k < |b| then (a[k] - b[k]) % p else a[k]
    decreases |b| - i
  {
    if i == |b| then a
    else
      ModIsEuclidean(a[i] - b[i], p);
      SubFrom(a[i := Mod(a[i] - b[i], p)], b, p, i + 1)
  }

  /** The first loop of the widening: slots lo .. hi - 1 of the new array set
      to zero. */
  function FillZeros(w: seq<int>, lo: nat, hi: nat): (r: seq<int>)
    requires lo <= hi <= |w|
    ensures |r| == |w|
    ensures forall k :: 0 <= k < |r| ==> r[k] == if lo <= k < hi then 0 else w[k]
    decreases hi - lo
  {
    if lo == hi then w else FillZeros(w[lo := 0], lo + 1, hi)
  }

  /** The second loop of the widening: w[i] := a[i] for i from `i` up to |w| - 1,
      where reading a[i] past a's end raises IndexOutOfRange. */
  function CopyFrom(a: seq<int>, w: seq<int>, i: nat): (r: Result<seq<int>>)
    requires i <= |w|
    ensures r.Ok? <==> i == |w| || |w| <= |a|
    ensures r.Err? ==> r.error == IndexOutOfRange
    ensures r.Ok? ==>
      && |r.value| == |w|
      && forall k :: 0 <= k < |w| ==> r.value[k] == if k < i then w[k] else a[k]
    decreases |w| - i
  {
    if i == |w| then Ok(w)
    else if i >= |a| then Err(IndexOutOfRange)
    else CopyFrom(a, w[i := a[i]], i + 1)
  }

  /** The widening of el1's coefficients to n entries: a new zeroed array, zeros
      written to its first n - |a| slots, then a[i] copied for i from n - |a| up
      to n - 1. The copy reads past a's end unless it reads nothing, that is,
      unless a is empty. */
  function Widen(a: seq<int>, n: int): (r: Result<seq<int>>)
    requires |a| < n
    ensures r.Ok? <==> |a| == 0
    ensures r.Ok? ==> r.value == Zeros(n)
    ensures r.Err? ==> r.error == IndexOutOfRange
  {
    var difference := n - |a|;
    var zeroed := FillZeros(Zeros(n), 0, difference);
    assert zeroed == Zeros(n);
    CopyFrom(a, zeroed, difference)
  }

  /** SubstractionNoPrimeFieldElements: el1's coefficients, widened when el2 has
      more, are replaced by mod(el1[i] - el2[i], p) below |el2|; `element` is
      not recomputed. */
  function SubtractNonPrime(el1: Element, el2: Element): (r: Result<Element>)
    requires el1.field == el2.field
    ensures 0 < |el1.poly| < |el2.poly| <==> r.Err?
    ensures r.Err? ==> r.error == IndexOutOfRange
    ensures r.Ok? ==>
      var p := el1.field.characteristic;
      && r.value.field == el1.field
      && r.value.element == el1.element
      && |r.value.poly| == (if |el1.poly| == 0 then |el2.poly| else |el1.poly|)
      && forall i :: 0 <= i < |r.value.poly| ==>
           r.value.poly[i] == if i < |el2.poly| then (CoeffAt(el1.poly, i) - el2.poly[i]) % p
                              else el1.poly[i]
  {
    var p := el1.field.characteristic;
    if |el1.poly| < |el2.poly| then
      match Widen(el1.poly, |el2.poly|)
      case Err(e) => Err(e)
      case Ok(widened) => Ok(el1.(poly := SubFrom(widened, el2.poly, p, 0)))
    else
      Ok(el1.(poly := SubFrom(el1.poly, el2.poly, p, 0)))
  }

  /** `operator -`: fields must match; then the field's primality picks the
      scalar or the coefficient version, both of which mutate and return el1. */
  function Sub(el1: Element, el2: Element): (r: Result<Element>)
    ensures el1.field != el2.field ==> r == Err(InvalidOperation)
    ensures el1.field == el2.field && el1.field.isPrimeField ==>
      r.Ok? && r.value.poly == el1.poly && r.value.field == el1.field
      && r.value.element == (el1.element - el2.element) % el1.field.characteristic
    ensures el1.field == el2.field && !el1.field.isPrimeField ==>
      (r.Err? <==> 0 < |el1.poly| < |el2.poly|) && r == SubtractNonPrime(el1, el2)
  {
    if el1.field != el2.field then Err(InvalidOperation)
    else if el1.field.isPrimeField then Ok(SubtractPrime(el1, el2))
    else SubtractNonPrime(el1, el2)
  }

  // ---------------------------------------------------------------------------
  // Division, multiplication, remainder

  /** `operator /`: a stub that checks the fields and returns null. */
  function Div(el1: Element, el2: Element): (r: Result<Option<Element>>)
    ensures r.Err? <==> el1.field != el2.field
    ensures r.Err? ==> r.error == InvalidOperation
    ensures r.Ok? ==> r.value.None?
  {
    if el1.field != el2.field then Err(InvalidOperation) else Ok(None)
  }

  /** `operator *`: the raw convolution of the coefficient sequences, with no
      reduction, passed to the coefficient constructor. Neither operand is
      changed. Two empty operands ask for an array of length -1. */
  function Mul(el1: Element, el2: Element): (r: Result<Element>)
    ensures el1.field != el2.field ==> r == Err(InvalidOperation)
    ensures el1.field == el2.field && |el1.poly| + |el2.poly| == 0 ==> r == Err(Overflow)
    ensures el1.field == el2.field && |el1.poly| + |el2.poly| >= 1 ==> r.Ok?
    ensures r.Ok? ==>
      && r.value.field == el1.field
      && |r.value.poly| == |el1.poly| + |el2.poly| - 1
      && (forall k :: 0 <= k < |r.value.poly| ==> r.value.poly[k] == ConvCoeff(el1.poly, el2.poly, k))
      && Fresh(r.value)
  {
    if el1.field != el2.field then Err(InvalidOperation)
    else if |el1.poly| + |el2.poly| - 1 < 0 then Err(Overflow)
    else Ok(FromPoly(Conv(el1.poly, el2.poly), el1.field))
  }

  /** `operator %`: when the dividend has fewer coefficients than the divisor it
      is returned as it is; otherwise long division runs and the remainder array,
      cut to |divisor| - 1 entries, goes to the coefficient constructor. An empty
      divisor reads index -1; a zero leading divisor coefficient divides by
      zero. */
  function Rem(el1: Element, el2: Element): (r: Result<Element>)
    ensures el1.field != el2.field ==> r == Err(InvalidOperation)
    ensures el1.field == el2.field && |el1.poly| < |el2.poly| ==> r == Ok(el1)
    ensures el1.field == el2.field && |el1.poly| >= |el2.poly| ==>
      && (|el2.poly| == 0 ==> r == Err(IndexOutOfRange))
      && (|el2.poly| > 0 && el2.poly[|el2.poly| - 1] == 0 ==> r == Err(DivideByZero))
      && (|el2.poly| > 0 && el2.poly[|el2.poly| - 1] != 0 ==>
            r.Ok? && |r.value.poly| == |el2.poly| - 1 && r.value.field == el1.field && Fresh(r.value))
    ensures el1.field == el2.field && |el1.poly| >= |el2.poly| >= 1 && el2.poly[|el2.poly| - 1] != 0 ==>
      forall k :: 0 <= k < |el2.poly| - 1 ==>
        el1.poly[k] == ConvCoeff(Quotient(el1.poly, el2.poly), el2.poly, k) + r.value.poly[k]
  {
    if el1.field != el2.field then Err(InvalidOperation)
    else
      var dividend, divisor := el1.poly, el2.poly;
      var dividendDegree, divisorDegree := |dividend| - 1, |divisor| - 1;
      if dividendDegree < divisorDegree then Ok(el1)
      else if divisorDegree < 0 then Err(IndexOutOfRange)
      else if divisor[divisorDegree] == 0 then Err(DivideByZero)
      else
        var (quotient, remainder) := LongDivision.Divide(dividend, divisor);
        LongDivision.DivideIdentity(dividend, divisor);
        Ok(FromPoly(remainder[..divisorDegree], el1.field))
  }

  /** The quotient that `operator %` computes and discards: together with the
      remainder array it gives back the dividend, coefficient by coefficient. */
  function Quotient(dividend: seq<int>, divisor: seq<int>): (q: seq<int>)
    requires |divisor| >= 1 && divisor[|divisor| - 1] != 0 && |dividend| >= |divisor|
    ensures |q| == |dividend| - |divisor| + 1
    ensures var rem := LongDivision.Divide(dividend, divisor).1;
      forall k :: 0 <= k < |dividend| ==> dividend[k] == ConvCoeff(q, divisor, k) + rem[k]
  {
    LongDivision.DivideIdentity(dividend, divisor);
    LongDivision.Divide(dividend, divisor).0
  }
}
