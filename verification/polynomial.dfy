/** Integer polynomials as coefficient sequences, index 0 the constant term (the
    order FiniteFieldElement uses: its constructor weights Poly[i] by p^i).
    Nothing here reduces modulo the characteristic. */
module Polynomial {
  import opened CSharpInt

  /** Coefficient j of s, zero outside the sequence. */
  function CoeffAt(s: seq<int>, j: int): int
  {
    if 0 <= j < |s| then s[j] else 0
  }

  function Zeros(n: nat): (z: seq<int>)
    ensures |z| == n
    ensures forall i :: 0 <= i < n ==> z[i] == 0
  {
    if n == 0 then [] else Zeros(n - 1) + [0]
  }

  /** True when every coefficient lies in [0, p): a base-p digit string. */
  predicate Reduced(s: seq<int>, p: int)
  {
    forall i :: 0 <= i < |s| ==> 0 <= s[i] < p
  }

  // ---------------------------------------------------------------------------
  // Positional evaluation

  /** The positional sum of s[i] * x^i over every index, with index 0 least
      significant. */
  function Weighted(s: seq<int>, x: int): int
  {
    if |s| == 0 then 0 else Weighted(s[..|s| - 1], x) + s[|s| - 1] * Pow(x, |s| - 1)
  }

  /** Horner evaluation: s[0] + x * (s[1] + x * (...)). An independent reading of
      the same value. */
  function Horner(s: seq<int>, x: int): int
  {
    if |s| == 0 then 0 else s[0] + x * Horner(s[1..], x)
  }

  /** Appending a top coefficient c adds c * x^|t|. */
  lemma {:induction false} HornerSnoc(t: seq<int>, c: int, x: int)
    ensures Horner(t + [c], x) == Horner(t, x) + c * Pow(x, |t|)
    decreases |t|
  {
    if |t| == 0 {
      assert (t + [c])[1..] == [];
    } else {
      assert (t + [c])[1..] == t[1..] + [c];
      HornerSnoc(t[1..], c, x);
      var h := Horner(t[1..], x);
      var q := Pow(x, |t| - 1);
      assert Horner(t + [c], x) == t[0] + x * (h + c * q);
      assert x * (h + c * q) == x * h + c * (x * q);
    }
  }

  /** The constructor's sum and Horner's rule agree on every sequence. */
  lemma {:induction false} WeightedIsHorner(s: seq<int>, x: int)
    ensures Weighted(s, x) == Horner(s, x)
    decreases |s|
  {
    if |s| > 0 {
      var t := s[..|s| - 1];
      WeightedIsHorner(t, x);
      assert s == t + [s[|s| - 1]];
      HornerSnoc(t, s[|s| - 1], x);
    }
  }

  /** Base-p digits of v, least significant first: the inverse of positional
      evaluation on reduced sequences. */
  function Digits(v: int, p: int, n: nat): (d: seq<int>)
    requires p > 1
    ensures |d| == n
    decreases n
  {
    if n == 0 then [] else [v % p] + Digits(v / p, p, n - 1)
  }

  /** One base-p digit step: s0 + p*h with 0 <= s0 < p and 0 <= h < P has
      residue s0, quotient h, and lies in [0, p*P). */
  lemma DigitStep(s0: int, h: int, p: int, bound: int)
    requires p > 1 && 0 <= s0 < p && 0 <= h < bound
    ensures 0 <= s0 + p * h < p * bound
    ensures (s0 + p * h) % p == s0 && (s0 + p * h) / p == h
  {
    var v := s0 + p * h;
    assert v == h * p + s0;
    EuclideanUnique(v, p, h, s0);
    MulMonotone(p, h, bound - 1);
    assert p * (bound - 1) == p * bound - p;
  }

  lemma MulMonotone(p: int, h: int, k: int)
    requires p > 0 && h <= k
    ensures p * h <= p * k
  {
    assert p * k - p * h == p * (k - h);
  }

  /** A reduced coefficient sequence of length n evaluates into [0, p^n), and its
      base-p digits give the sequence back: the scalar view loses nothing. */
  lemma {:induction false} DigitsOfHorner(s: seq<int>, p: int)
    requires p > 1 && Reduced(s, p)
    ensures 0 <= Horner(s, p) < Pow(p, |s|)
    ensures Digits(Horner(s, p), p, |s|) == s
    decreases |s|
  {
    if |s| > 0 {
      var h := Horner(s[1..], p);
      DigitsOfHorner(s[1..], p);
      DigitStep(s[0], h, p, Pow(p, |s| - 1));
      var v := Horner(s, p);
      assert v == s[0] + p * h;
      assert Digits(v, p, |s|) == [s[0]] + Digits(h, p, |s| - 1);
      assert s == [s[0]] + s[1..];
    }
  }

  // ---------------------------------------------------------------------------
  // Convolution

  /** Sum over i + j == k of a[i] * b[j]: coefficient k of the product a * b. */
  function ConvCoeff(a: seq<int>, b: seq<int>, k: int): int
    decreases |a|
  {
    if |a| == 0 then 0 else a[0] * CoeffAt(b, k) + ConvCoeff(a[1..], b, k - 1)
  }

  /** Coefficients k0, k0+1, ..., k0+n-1 of a * b. */
  function ConvFrom(a: seq<int>, b: seq<int>, k0: int, n: nat): (c: seq<int>)
    ensures |c| == n
    ensures forall t :: 0 <= t < n ==> c[t] == ConvCoeff(a, b, k0 + t)
    decreases n
  {
    if n == 0 then [] else [ConvCoeff(a, b, k0)] + ConvFrom(a, b, k0 + 1, n - 1)
  }

  /** The product a * b as integer polynomials, of length |a| + |b| - 1. */
  function Conv(a: seq<int>, b: seq<int>): seq<int>
    requires |a| + |b| >= 1
  {
    ConvFrom(a, b, 0, |a| + |b| - 1)
  }

  /** Coefficients of a * b vanish outside 0 .. |a| + |b| - 2. */
  lemma {:induction false} ConvCoeffOutside(a: seq<int>, b: seq<int>, k: int)
    requires k < 0 || k >= |a| + |b| - 1
    ensures ConvCoeff(a, b, k) == 0
    decreases |a|
  {
    if |a| > 0 {
      ConvCoeffOutside(a[1..], b, k - 1);
    }
  }

  /** Coefficients k0, ..., k0+n-1 of b, padded with zeros. */
  function CoeffsFrom(b: seq<int>, k0: int, n: nat): (c: seq<int>)
    ensures |c| == n
    decreases n
  {
    if n == 0 then [] else [CoeffAt(b, k0)] + CoeffsFrom(b, k0 + 1, n - 1)
  }

  lemma {:induction false} HornerZeroTail(b: seq<int>, k0: int, n: nat, x: int)
    requires k0 >= |b|
    ensures Horner(CoeffsFrom(b, k0, n), x) == 0
    decreases n
  {
    if n > 0 {
      HornerZeroTail(b, k0 + 1, n - 1, x);
    }
  }

  /** Reading b from k0 on, padded past its end, evaluates like b[k0..]. */
  lemma {:induction false} HornerCoeffsFrom(b: seq<int>, k0: nat, n: nat, x: int)
    requires k0 <= |b| && k0 + n >= |b|
    ensures Horner(CoeffsFrom(b, k0, n), x) == Horner(b[k0..], x)
    decreases n
  {
    if n > 0 {
      if k0 < |b| {
        HornerCoeffsFrom(b, k0 + 1, n - 1, x);
        assert b[k0..][1..] == b[k0 + 1..];
      } else {
        HornerZeroTail(b, k0 + 1, n - 1, x);
      }
    }
  }

  /** Splitting off a's constant term: a * b == a[0] * b + x * (a[1..] * b). */
  lemma {:induction false} HornerConvSplit(a: seq<int>, b: seq<int>, k0: int, n: nat, x: int)
    requires |a| > 0
    ensures Horner(ConvFrom(a, b, k0, n), x)
         == a[0] * Horner(CoeffsFrom(b, k0, n), x) + Horner(ConvFrom(a[1..], b, k0 - 1, n), x)
    decreases n
  {
    if n > 0 {
      HornerConvSplit(a, b, k0 + 1, n - 1, x);
      var hb := Horner(CoeffsFrom(b, k0 + 1, n - 1), x);
      var hc := Horner(ConvFrom(a[1..], b, k0, n - 1), x);
      var c, rest := CoeffAt(b, k0), ConvCoeff(a[1..], b, k0 - 1);
      assert Horner(ConvFrom(a, b, k0, n), x) == a[0] * c + rest + x * (a[0] * hb + hc);
      assert Horner(CoeffsFrom(b, k0, n), x) == c + x * hb;
      assert Horner(ConvFrom(a[1..], b, k0 - 1, n), x) == rest + x * hc;
      Regroup(a[0], c, rest, x, hb, hc);
    }
  }

  lemma {:induction false} HornerConvEmpty(a: seq<int>, b: seq<int>, k0: int, n: nat, x: int)
    requires |a| == 0
    ensures Horner(ConvFrom(a, b, k0, n), x) == 0
    decreases n
  {
    if n > 0 {
      HornerConvEmpty(a, b, k0 + 1, n - 1, x);
    }
  }

  lemma Regroup(a0: int, c: int, rest: int, x: int, hb: int, hc: int)
    ensures a0 * c + rest + x * (a0 * hb + hc) == a0 * (c + x * hb) + (rest + x * hc)
  {
  }

  lemma Factor(c: int, x: int, ha: int, hb: int)
    ensures c * hb + x * (ha * hb) == (c + x * ha) * hb
  {
  }

  /** Evaluation is multiplicative over the convolution, for every long enough
      window of coefficients. */
  lemma {:induction false} HornerConvWindow(a: seq<int>, b: seq<int>, n: nat, x: int)
    requires n >= |a| + |b| - 1
    ensures Horner(ConvFrom(a, b, 0, n), x) == Horner(a, x) * Horner(b, x)
    decreases |a|
  {
    if |a| == 0 {
      HornerConvEmpty(a, b, 0, n, x);
    } else if n == 0 {
      assert |b| == 0;
    } else {
      HornerConvSplit(a, b, 0, n, x);
      HornerCoeffsFrom(b, 0, n, x);
      assert b[0..] == b;
      ConvCoeffOutside(a[1..], b, -1);
      HornerConvWindow(a[1..], b, n - 1, x);
      var ha, hb := Horner(a[1..], x), Horner(b, x);
      assert Horner(ConvFrom(a[1..], b, -1, n), x) == x * (ha * hb);
      Factor(a[0], x, ha, hb);
    }
  }

  /** Evaluation is additive: when s is u plus t (t zero-padded up to |s|),
      s evaluates to the sum of their values. */
  lemma {:induction false} HornerSumPadded(s: seq<int>, u: seq<int>, t: seq<int>, x: int)
    requires |s| == |u| && |t| <= |s|
    requires forall k :: 0 <= k < |s| ==> s[k] == u[k] + CoeffAt(t, k)
    ensures Horner(s, x) == Horner(u, x) + Horner(t, x)
    decreases |s|
  {
    if |s| > 0 {
      var t' := if |t| == 0 then t else t[1..];
      forall k | 0 <= k < |s| - 1
        ensures s[1..][k] == u[1..][k] + CoeffAt(t', k)
      {
        assert s[k + 1] == u[k + 1] + CoeffAt(t, k + 1);
      }
      HornerSumPadded(s[1..], u[1..], t', x);
      if |t| > 0 {
        assert Horner(s, x) == s[0] + x * (Horner(u[1..], x) + Horner(t', x));
      }
    }
  }

  /** Evaluating the product polynomial at any x multiplies the evaluations. */
  lemma ConvHomomorphism(a: seq<int>, b: seq<int>, x: int)
    requires |a| + |b| >= 1
    ensures Horner(Conv(a, b), x) == Horner(a, x) * Horner(b, x)
  {
    HornerConvWindow(a, b, |a| + |b| - 1, x);
  }

  /** The loop of `operator *`: for i and j from the top down, multPoly[i + j]
      accumulates a[i] * b[j] into a zero-initialised array of length
      |a| + |b| - 1. It computes exactly the convolution. */
  method Convolve(a: seq<int>, b: seq<int>) returns (r: seq<int>)
    requires |a| + |b| >= 1
    ensures |r| == |a| + |b| - 1
    ensures forall k :: 0 <= k < |r| ==> r[k] == ConvCoeff(a, b, k)
  {
    var n := |a| + |b| - 1;
    r := Zeros(n);
    var i := |a| - 1;
    while i >= 0
      invariant -1 <= i < |a|
      invariant |r| == n
      invariant forall k :: 0 <= k < n ==> r[k] == ConvCoeff(a[i + 1..], b, k - (i + 1))
    {
      var j := |b| - 1;
      while j >= 0
        invariant -1 <= j < |b|
        invariant |r| == n
        invariant forall k :: 0 <= k < n ==>
          r[k] == ConvCoeff(a[i + 1..], b, k - (i + 1)) + (if j < k - i < |b| then a[i] * b[k - i] else 0)
      {
        r := r[i + j := r[i + j] + a[i] * b[j]];
        j := j - 1;
      }
      assert a[i..][1..] == a[i + 1..];
      i := i - 1;
    }
    assert a[0..] == a;
  }
}
