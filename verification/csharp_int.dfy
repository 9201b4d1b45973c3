/** The integer operations of C# that the element arithmetic relies on, written
    out over Dafny's unbounded `int`: truncating `/` and `%`, the `mod` helper of
    FiniteFieldElement, and exact exponentiation standing in for `Math.Pow`. */
module CSharpInt {

  function Abs(x: int): nat
  {
    if x < 0 then -x else x
  }

  /** x^e, exactly. */
  function Pow(x: int, e: nat): int
  {
    if e == 0 then 1 else x * Pow(x, e - 1)
  }

  /** A positive multiple of n is at least n. */
  lemma MulAtLeast(d: int, n: int)
    requires d >= 1 && n > 0
    ensures d * n >= n
  {
    assert d * n == (d - 1) * n + n;
    assert (d - 1) * n >= 0;
  }

  /** The only way to write a number as q*n + r with 0 <= r < n is Dafny's
      Euclidean division. */
  lemma {:induction false} EuclideanUnique(k: int, n: int, q: int, r: int)
    requires n > 0 && k == q * n + r && 0 <= r < n
    ensures q == k / n && r == k % n
  {
    var q0, r0 := k / n, k % n;
    assert k == q0 * n + r0;
    assert (q - q0) * n == r0 - r by {
      assert (q - q0) * n == q * n - q0 * n;
    }
    if q > q0 {
      MulAtLeast(q - q0, n);
    } else if q < q0 {
      MulAtLeast(q0 - q, n);
    }
  }

  /** C#'s integer `/`: the quotient rounded toward zero, with the sign of a*b. */
  function TruncDiv(a: int, b: int): (q: int)
    requires b != 0
    ensures a >= 0 && b > 0 ==> q == a / b
    ensures Abs(q) * Abs(b) <= Abs(a) < (Abs(q) + 1) * Abs(b)
    ensures q != 0 ==> (q > 0 <==> (a > 0) == (b > 0))
  {
    var m := Abs(a) / Abs(b);
    var q := if (a < 0) == (b < 0) then m else -m;
    TruncDivFacts(a, b, m, q);
    q
  }

  lemma TruncDivFacts(a: int, b: int, m: int, q: int)
    requires b != 0 && m == Abs(a) / Abs(b)
    requires q == if (a < 0) == (b < 0) then m else -m
    ensures a >= 0 && b > 0 ==> q == a / b
    ensures Abs(q) * Abs(b) <= Abs(a) < (Abs(q) + 1) * Abs(b)
    ensures q != 0 ==> (q > 0 <==> (a > 0) == (b > 0))
  {
    var x, y := Abs(a), Abs(b);
    QuotientBounds(x, y);
    assert m * y <= x < (m + 1) * y;
    assert m >= 0;
    if (a < 0) == (b < 0) {
      assert q == m;
    } else {
      assert q == -m;
    }
    if a >= 0 && b > 0 {
      assert x == a && y == b;
    }
    if m > 0 {
      assert x >= y > 0;
    }
  }

  lemma DivNonNegative(x: int, y: int)
    requires x >= 0 && y > 0
    ensures x / y >= 0
  {
  }

  /** The floor quotient of naturals brackets the dividend, and is positive only
      when the dividend is at least the divisor. */
  lemma QuotientBounds(x: int, y: int)
    requires x >= 0 && y > 0
    ensures (x / y) * y <= x < (x / y + 1) * y
    ensures x / y >= 0
    ensures x / y > 0 ==> x >= y
  {
    assert x == (x / y) * y + x % y;
    assert (x / y + 1) * y == (x / y) * y + y;
    DivNonNegative(x, y);
    if x / y > 0 {
      MulAtLeast(x / y, y);
    }
  }

  /** C#'s integer `%`: the remainder of the truncating division, with the sign of a. */
  function TruncRem(a: int, b: int): (r: int)
    requires b != 0
    ensures a == TruncDiv(a, b) * b + r
    ensures Abs(r) < Abs(b)
    ensures r != 0 ==> (r > 0 <==> a > 0)
  {
    var m := Abs(a) % Abs(b);
    var r := if a < 0 then -m else m;
    TruncRemFacts(a, b, TruncDiv(a, b), m, r);
    r
  }

  lemma TruncRemFacts(a: int, b: int, q: int, m: int, r: int)
    requires b != 0 && q == TruncDiv(a, b) && m == Abs(a) % Abs(b)
    requires r == if a < 0 then -m else m
    ensures a == q * b + r
    ensures Abs(r) < Abs(b)
    ensures r != 0 ==> (r > 0 <==> a > 0)
  {
    var x, y := Abs(a), Abs(b);
    var d := x / y;
    assert x == d * y + m;
    assert 0 <= m < y;
    assert Abs(q) == d;
    if a >= 0 {
      if b > 0 {
        assert q == d && y == b;
      } else {
        assert q == -d && y == -b;
        assert q * b == d * y;
      }
    } else {
      if b > 0 {
        assert q == -d && y == b;
        assert q * b == -(d * y);
      } else {
        assert q == d && y == -b;
        assert q * b == -(d * y);
      }
    }
  }

  /** The helper `mod(k, n)` of FiniteFieldElement: C#'s remainder, moved up by n
      when it is negative. */
  function Mod(k: int, n: int): (r: int)
    requires n != 0
    ensures n > 0 ==> 0 <= r < n
  {
    var t := TruncRem(k, n);
    if t < 0 then t + n else t
  }

  /** For a positive modulus, the source's `mod` is exactly Dafny's Euclidean `%`. */
  lemma {:induction false} ModIsEuclidean(k: int, n: int)
    requires n > 0
    ensures Mod(k, n) == k % n
  {
    var q := TruncDiv(k, n);
    var t := TruncRem(k, n);
    assert k == q * n + t;
    if t < 0 {
      assert k == (q - 1) * n + (t + n);
      EuclideanUnique(k, n, q - 1, t + n);
    } else {
      EuclideanUnique(k, n, q, t);
    }
  }

  /** Reducing an operand first does not change a sum's residue. */
  lemma {:induction false} ModAddLeft(u: int, v: int, n: int)
    requires n > 0
    ensures (u % n + v) % n == (u + v) % n
  {
    var q := u / n;
    assert u == q * n + u % n;
    var s := (u % n + v) % n;
    var q2 := (u % n + v) / n;
    assert u % n + v == q2 * n + s;
    assert u + v == (q + q2) * n + s;
    EuclideanUnique(u + v, n, q + q2, s);
  }

  lemma ModAddRight(u: int, v: int, n: int)
    requires n > 0
    ensures (u + v % n) % n == (u + v) % n
  {
    ModAddLeft(v, u, n);
  }

  /** Adding a multiple of n does not change the residue. */
  lemma {:induction false} ModAddMultiple(x: int, q: int, n: int)
    requires n > 0
    ensures (x + q * n) % n == x % n
  {
    assert x == (x / n) * n + x % n;
    assert x + q * n == (x / n + q) * n + x % n;
    EuclideanUnique(x + q * n, n, x / n + q, x % n);
  }

  lemma {:induction false} ModSubRight(u: int, v: int, n: int)
    requires n > 0
    ensures (u - v % n) % n == (u - v) % n
  {
    assert v == (v / n) * n + v % n;
    assert u - v % n == (u - v) + (v / n) * n;
    ModAddMultiple(u - v, v / n, n);
  }
}
