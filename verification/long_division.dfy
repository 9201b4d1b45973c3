/** The long division inside `operator %` of FiniteFieldElement: integer
    polynomial division with C#'s truncating `/` for each quotient coefficient
    and no reduction modulo the characteristic. */
module LongDivision {
  import opened CSharpInt
  import opened Polynomial

  /** The inner loop for quotient position i: remainder[j] -= c * divisor[j - i]
      for j from `j` down to i. */
  function SubtractFrom(rem: seq<int>, d: seq<int>, c: int, i: nat, j: int): (r: seq<int>)
    requires i + |d| <= |rem| && i - 1 <= j < i + |d|
    ensures |r| == |rem|
    ensures forall k :: 0 <= k < |r| ==>
      r[k] == (if i <= k <= j then rem[k] - c * d[k - i] else rem[k])
    decreases j - i + 1
  {
    if j < i then rem else SubtractFrom(rem[j := rem[j] - c * d[j - i]], d, c, i, j - 1)
  }

  /** The outer loop for quotient positions i down to 0: quotient[i] is the top
      live remainder coefficient divided (truncating) by the divisor's leading
      coefficient, and quotient[i] times the shifted divisor is subtracted. */
  function DivideFrom(quot: seq<int>, rem: seq<int>, d: seq<int>, i: int): (res: (seq<int>, seq<int>))
    requires |d| >= 1 && d[|d| - 1] != 0
    requires -1 <= i && i + |d| <= |rem| && |quot| == |rem| - |d| + 1
    ensures |res.0| == |quot| && |res.1| == |rem|
    decreases i + 1
  {
    if i < 0 then (quot, rem)
    else
      var c := TruncDiv(rem[i + |d| - 1], d[|d| - 1]);
      DivideFrom(quot[i := c], SubtractFrom(rem, d, c, i, i + |d| - 1), d, i - 1)
  }

  /** The setup and outer loop of `operator %`: a zeroed quotient, the dividend
      copied into the remainder array, then quotient positions from the top
      down. Gives the quotient and the remainder array before truncation. */
  function Divide(dividend: seq<int>, divisor: seq<int>): (res: (seq<int>, seq<int>))
    requires |divisor| >= 1 && divisor[|divisor| - 1] != 0 && |dividend| >= |divisor|
    ensures |res.0| == |dividend| - |divisor| + 1 && |res.1| == |dividend|
  {
    DivideFrom(Zeros(|dividend| - |divisor| + 1), dividend, divisor, |dividend| - |divisor|)
  }

  /** Raising quotient coefficient i by c adds c times the divisor shifted by i
      to the product. */
  lemma {:induction false} ConvCoeffBump(q: seq<int>, d: seq<int>, i: nat, c: int, k: int)
    requires i < |q|
    ensures ConvCoeff(q[i := q[i] + c], d, k) == ConvCoeff(q, d, k) + c * CoeffAt(d, k - i)
    decreases i
  {
    var q' := q[i := q[i] + c];
    if i == 0 {
      assert q'[1..] == q[1..];
    } else {
      assert q'[1..] == q[1..][i - 1 := q[1..][i - 1] + c];
      ConvCoeffBump(q[1..], d, i - 1, c, k - 1);
    }
  }

  /** What the outer loop keeps true with quotient positions i down to 0 still to
      do: the dividend is quotient * divisor + remainder coefficient by
      coefficient, the open quotient positions are still zero, and every
      remainder slot above the open window is already smaller than the leading
      divisor coefficient in magnitude. */
  ghost predicate Invariant(dividend: seq<int>, quot: seq<int>, rem: seq<int>, d: seq<int>, i: int)
    requires |d| >= 1 && |rem| == |dividend| && -1 <= i < |quot|
  {
    && (forall k :: 0 <= k < |dividend| ==> dividend[k] == ConvCoeff(quot, d, k) + rem[k])
    && (forall t :: 0 <= t <= i ==> quot[t] == 0)
    && (forall k :: i + |d| <= k < |rem| ==> Abs(rem[k]) < Abs(d[|d| - 1]))
  }

  /** One pass of the outer loop keeps the invariant, one position lower. */
  lemma DivideStepKeepsInvariant(dividend: seq<int>, quot: seq<int>, rem: seq<int>, d: seq<int>, i: nat)
    requires |d| >= 1 && d[|d| - 1] != 0
    requires i + |d| <= |rem| && |quot| == |rem| - |d| + 1 && |rem| == |dividend|
    requires Invariant(dividend, quot, rem, d, i)
    ensures var c := TruncDiv(rem[i + |d| - 1], d[|d| - 1]);
      Invariant(dividend, quot[i := c], SubtractFrom(rem, d, c, i, i + |d| - 1), d, i - 1)
  {
    var c := TruncDiv(rem[i + |d| - 1], d[|d| - 1]);
    DivideStepIdentity(dividend, quot, rem, d, i, c);
    DivideStepBound(rem, d, i);
  }

  /** Setting quotient[i] to c and subtracting c times the shifted divisor keeps
      dividend == quotient * divisor + remainder. */
  lemma DivideStepIdentity(dividend: seq<int>, quot: seq<int>, rem: seq<int>, d: seq<int>, i: nat, c: int)
    requires |d| >= 1 && i + |d| <= |rem| && i < |quot| && quot[i] == 0 && |rem| == |dividend|
    requires forall k :: 0 <= k < |dividend| ==> dividend[k] == ConvCoeff(quot, d, k) + rem[k]
    ensures var rem' := SubtractFrom(rem, d, c, i, i + |d| - 1);
      forall k :: 0 <= k < |dividend| ==> dividend[k] == ConvCoeff(quot[i := c], d, k) + rem'[k]
  {
    var quot' := quot[i := c];
    var rem' := SubtractFrom(rem, d, c, i, i + |d| - 1);
    assert quot' == quot[i := quot[i] + c];
    forall k | 0 <= k < |dividend|
      ensures dividend[k] == ConvCoeff(quot', d, k) + rem'[k]
    {
      ConvCoeffBump(quot, d, i, c, k);
      assert rem'[k] == rem[k] - c * CoeffAt(d, k - i);
    }
  }

  /** The pass leaves the slot it divided smaller than the leading divisor
      coefficient, and the slots above it untouched. */
  lemma DivideStepBound(rem: seq<int>, d: seq<int>, i: nat)
    requires |d| >= 1 && d[|d| - 1] != 0 && i + |d| <= |rem|
    requires forall k :: i + |d| <= k < |rem| ==> Abs(rem[k]) < Abs(d[|d| - 1])
    ensures var c := TruncDiv(rem[i + |d| - 1], d[|d| - 1]);
      var rem' := SubtractFrom(rem, d, c, i, i + |d| - 1);
      forall k :: i - 1 + |d| <= k < |rem'| ==> Abs(rem'[k]) < Abs(d[|d| - 1])
  {
    var m := |d|;
    var lead := d[m - 1];
    var c := TruncDiv(rem[i + m - 1], lead);
    var rem' := SubtractFrom(rem, d, c, i, i + m - 1);
    assert rem'[i + m - 1] == rem[i + m - 1] - c * lead;
    assert rem'[i + m - 1] == TruncRem(rem[i + m - 1], lead);
    forall k | i - 1 + m <= k < |rem'|
      ensures Abs(rem'[k]) < Abs(lead)
    {
      if k >= i + m {
        assert rem'[k] == rem[k];
      }
    }
  }

  lemma {:induction false} DivideFromKeepsInvariant(dividend: seq<int>, quot: seq<int>, rem: seq<int>, d: seq<int>, i: int)
    requires |d| >= 1 && d[|d| - 1] != 0
    requires -1 <= i && i + |d| <= |rem| && |quot| == |rem| - |d| + 1 && |rem| == |dividend|
    requires Invariant(dividend, quot, rem, d, i)
    ensures Invariant(dividend, DivideFrom(quot, rem, d, i).0, DivideFrom(quot, rem, d, i).1, d, -1)
    decreases i + 1
  {
    if i >= 0 {
      var c := TruncDiv(rem[i + |d| - 1], d[|d| - 1]);
      DivideStepKeepsInvariant(dividend, quot, rem, d, i);
      DivideFromKeepsInvariant(dividend, quot[i := c], SubtractFrom(rem, d, c, i, i + |d| - 1), d, i - 1);
    }
  }

  /** Long division keeps dividend == quotient * divisor + remainder as integer
      polynomials, and leaves every remainder slot from |divisor| - 1 up smaller
      than the divisor's leading coefficient in magnitude. */
  lemma DivideIdentity(dividend: seq<int>, divisor: seq<int>)
    requires |divisor| >= 1 && divisor[|divisor| - 1] != 0 && |dividend| >= |divisor|
    ensures var q, r := Divide(dividend, divisor).0, Divide(dividend, divisor).1;
      && (forall k :: 0 <= k < |dividend| ==> dividend[k] == ConvCoeff(q, divisor, k) + r[k])
      && (forall k :: |divisor| - 1 <= k < |dividend| ==> Abs(r[k]) < Abs(divisor[|divisor| - 1]))
  {
    var z := Zeros(|dividend| - |divisor| + 1);
    forall k | 0 <= k < |dividend|
      ensures ConvCoeff(z, divisor, k) == 0
    {
      ConvCoeffOfZeros(z, divisor, k);
    }
    DivideFromKeepsInvariant(dividend, z, dividend, divisor, |dividend| - |divisor|);
  }

  lemma {:induction false} ConvCoeffOfZeros(z: seq<int>, d: seq<int>, k: int)
    requires forall t :: 0 <= t < |z| ==> z[t] == 0
    ensures ConvCoeff(z, d, k) == 0
    decreases |z|
  {
    if |z| > 0 {
      ConvCoeffOfZeros(z[1..], d, k - 1);
    }
  }

  /** With a leading divisor coefficient of magnitude 1 (a monic divisor, say),
      the slots the source drops are zero, and the kept low part r satisfies
      dividend(x) == quotient(x) * divisor(x) + r(x) at every x. */
  lemma MonicDivision(dividend: seq<int>, divisor: seq<int>, x: int)
    requires |divisor| >= 1 && Abs(divisor[|divisor| - 1]) == 1 && |dividend| >= |divisor|
    ensures var q, r := Divide(dividend, divisor).0, Divide(dividend, divisor).1;
      && (forall k :: |divisor| - 1 <= k < |dividend| ==> r[k] == 0)
      && Horner(dividend, x) == Horner(q, x) * Horner(divisor, x) + Horner(r[..|divisor| - 1], x)
  {
    var (q, r) := Divide(dividend, divisor);
    DivideIdentity(dividend, divisor);
    var low := r[..|divisor| - 1];
    var prod := Conv(q, divisor);
    forall k | 0 <= k < |dividend|
      ensures dividend[k] == prod[k] + CoeffAt(low, k)
    {
    }
    HornerSumPadded(dividend, prod, low, x);
    ConvHomomorphism(q, divisor, x);
  }
}
