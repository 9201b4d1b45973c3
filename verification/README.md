# FiniteFieldElement in Dafny

This project models `FiniteFieldElement`, the one class of a small C# finite-field
library. An element has three parts:

- a coefficient array `Poly`, where index 0 is the constant term;
- an integer `element`, its "scalar" view;
- a reference to the `FiniteField` it belongs to, which has a characteristic p
  and an `isPrimeField` flag.

The operators are `+`, `-`, `*`, `/` and `%`, together with `Equals` and the
`mod` helper. They do integer-polynomial arithmetic and reduce coefficients
modulo p in some places only.

The C# `+` and `-` mutate one of their operands and return it. Here each of them
is a pure function that returns that operand's state after the call. `*` builds
a new element; `%` builds a new element or returns its dividend untouched; `/`
returns null. Exceptions become `Err` results:

- `InvalidOperation`: the operands come from different fields.
- `IndexOutOfRange`: an array is read outside its bounds.
- `Overflow`: `new int[-1]`.
- `DivideByZero`: integer `/` by zero.

Files:

- `csharp_int.dfy` (module `CSharpInt`): C#'s truncating `/` and `%`, the
  `mod` helper, and exact powers.
- `polynomial.dfy` (module `Polynomial`): positional evaluation, base-p digits,
  convolution, and the loop of `operator *`.
- `long_division.dfy` (module `LongDivision`): the long division inside
  `operator %`.
- `finite_field_element.dfy` (module `FiniteFieldElement`): fields, elements,
  both constructors, the operators and `Equals`.
- `element_properties.dfy` (module `ElementProperties`): lemmas that relate the
  operators to each other and to polynomial evaluation.

Notes on the code's behaviour:

- Coefficients are stored least-significant first. The constructor weights
  `Poly[i]` by p^i, and long division reads the leading coefficient at the
  highest index.
- On a length tie, `+` mutates and returns the second operand.
- The coefficients of `+` do not depend on operand order. `AddCommutesOnCoefficients`
  proves this. Only the stale scalar differs, and only on a length tie.
- `%` truncates the remainder to |divisor| - 1 coefficients, the usual
  remainder length. For a divisor whose leading coefficient is 1 or -1, the
  dropped slots are proved zero.
- Non-prime subtraction with 0 < |el1| < |el2| does not pad; it reads past the
  end of el1's array and raises `IndexOutOfRange`.

Assumptions:

- The `FiniteField` class is not part of this model. A field is
  `Field(characteristic, isPrimeField)` with a characteristic greater than 1.
- Datatype equality stands in for `FiniteField.Equals`.

## Model

| member | source | states |
|---|---|---|
| `FiniteFieldElement.FromScalar` | FF/FiniteFieldElement.cs:11-16 | the scalar constructor leaves the coefficients empty and keeps the integer as given, unreduced |
| `FiniteFieldElement.PositionalValue` | FF/FiniteFieldElement.cs:21-22 | the constructor loop, which adds Poly[i]·p^i from the top index down, computes the Horner value of the coefficients with index 0 least significant |
| `FiniteFieldElement.FromPoly` | FF/FiniteFieldElement.cs:17-23 | the coefficient constructor keeps the sequence and sets the scalar to its base-p positional value |
| `Polynomial.WeightedIsHorner` | FF/FiniteFieldElement.cs:21-22 | summing s[i]·x^i from the top down agrees with Horner evaluation for every sequence and every x |
| `ElementProperties.ScalarViewRoundTrip` | FF/FiniteFieldElement.cs:17-23 | for coefficients in [0, p), the scalar lies in [0, p^n), and its base-p digits give back exactly the coefficient sequence |
| `FiniteFieldElement.AgreeFrom` | FF/FiniteFieldElement.cs:137-138 | the index-by-index scan succeeds exactly when the two sequences agree from the start index on |
| `FiniteFieldElement.Equals` | FF/FiniteFieldElement.cs:132-140 | two elements are equal exactly when their fields and coefficient sequences are equal; the scalar is ignored |
| `ElementProperties.EqualityIgnoresScalar` | FF/FiniteFieldElement.cs:132-140 | every two scalar-constructed elements of a field are equal; changing only the scalar keeps an element equal to itself |
| `ElementProperties.EqualsIsEquivalence` | FF/FiniteFieldElement.cs:132-140 | `Equals` is reflexive, symmetric and transitive |
| `CSharpInt.TruncDiv` | FF/FiniteFieldElement.cs:121 | C# `/` rounds toward zero: it equals Euclidean `/` for a non-negative dividend and positive divisor, |q·b| <= |a| < (|q|+1)·|b|, and the sign of q is the sign of a·b |
| `CSharpInt.TruncRem` | FF/FiniteFieldElement.cs:145 | C# `%` satisfies a == (a/b)·b + r with |r| < |b| and r carrying the sign of a |
| `CSharpInt.Mod` | FF/FiniteFieldElement.cs:145 | `mod(k, n)` lies in [0, n) for a positive n |
| `CSharpInt.ModIsEuclidean` | FF/FiniteFieldElement.cs:145 | for n > 0, `mod(k, n)` equals Dafny's Euclidean k % n |
| `FiniteFieldElement.AddFrom` | FF/FiniteFieldElement.cs:36-38 | the addition loop sets each slot below the shorter length to (long[i] + short[i]) mod p and leaves the slots above it unchanged |
| `FiniteFieldElement.Add` | FF/FiniteFieldElement.cs:24-39 | different fields raise InvalidOperation; otherwise the result is the longer operand (el2 on a tie) with its scalar unchanged and its length kept; each slot both operands have is their sum mod p, and every other slot is the longer operand's raw value |
| `ElementProperties.AddCommutesOnCoefficients` | FF/FiniteFieldElement.cs:30-38 | a + b and b + a have equal coefficients, and are identical when the lengths differ |
| `ElementProperties.AddAssociativeOnCoefficients` | FF/FiniteFieldElement.cs:30-38 | (a + b) + c and a + (b + c) have equal coefficients |
| `FiniteFieldElement.SubtractPrime` | FF/FiniteFieldElement.cs:52-56 | prime-field subtraction changes only el1's scalar, to (el1.element - el2.element) mod p |
| `FiniteFieldElement.SubFrom` | FF/FiniteFieldElement.cs:71-72 | the subtraction loop sets each slot below |el2| to (a[i] - b[i]) mod p and leaves the slots above it unchanged |
| `FiniteFieldElement.FillZeros` | FF/FiniteFieldElement.cs:65-66 | the zero-fill loop sets exactly the slots below the difference in lengths to 0 and leaves the rest as they were |
| `FiniteFieldElement.CopyFrom` | FF/FiniteFieldElement.cs:67-68 | the copy loop succeeds exactly when it has nothing to copy or el1 is at least as long as the new array, and then copies el1's values into every slot from the start index up; otherwise it reads past el1's end and raises IndexOutOfRange |
| `FiniteFieldElement.Widen` | FF/FiniteFieldElement.cs:61-70 | widening el1 to el2's longer length through the two loops succeeds exactly when el1 is empty, giving all zeros; otherwise the copy reads out of range |
| `FiniteFieldElement.SubtractNonPrime` | FF/FiniteFieldElement.cs:57-74 | fails with IndexOutOfRange exactly when 0 < len(el1) < len(el2); otherwise the result keeps el1's scalar, has length len(el2) when el1 is empty and len(el1) otherwise, holds (el1[i] - el2[i]) mod p below len(el2) (an empty el1 read as zeros), and keeps el1's values above |
| `FiniteFieldElement.Sub` | FF/FiniteFieldElement.cs:41-51 | different fields raise InvalidOperation; a prime field always succeeds and changes only the scalar, to (el1.element - el2.element) mod p; otherwise it fails exactly when 0 < len(el1) < len(el2), and its result is that of the non-prime subtraction, with the length and slots stated on `SubtractNonPrime` |
| `ElementProperties.PrimeSubtractionOnResidues` | FF/FiniteFieldElement.cs:52-56 | the prime-field difference depends only on the operands' scalars mod p, and is 0 exactly when they are congruent mod p |
| `ElementProperties.SubtractSelf` | FF/FiniteFieldElement.cs:57-74 | outside prime fields, a - a is all zeros with a's length |
| `ElementProperties.AddThenSubtract` | FF/FiniteFieldElement.cs:24-74 | outside prime fields, subtracting b as it was before the addition from a + b gives a's coefficients mod p where b overlaps them, zeros where b reaches past a, and a's raw values elsewhere |
| `ElementProperties.AddThenSubtractRestores` | FF/FiniteFieldElement.cs:24-74 | outside prime fields, if a has coefficients in [0, p) and is at least as long as b, then subtracting b as it was before the addition from a + b gives back a |
| `ElementProperties.SubtractThenAdd` | FF/FiniteFieldElement.cs:24-74 | outside prime fields, for len(a) >= len(b), (a - b) + b gives a's coefficients mod p where b overlaps them and a's raw values elsewhere |
| `FiniteFieldElement.Div` | FF/FiniteFieldElement.cs:76-81 | division fails exactly when the fields differ, and otherwise returns null |
| `Polynomial.Convolve` | FF/FiniteFieldElement.cs:87-94 | the nested top-down accumulation loop produces |a| + |b| - 1 coefficients, where coefficient k is the sum of a[i]·b[j] over i + j = k |
| `FiniteFieldElement.Mul` | FF/FiniteFieldElement.cs:82-97 | different fields raise InvalidOperation; two empty operands raise Overflow; otherwise the call succeeds, and the result has length |a| + |b| - 1, holds the unreduced convolution coefficients, and has a freshly computed scalar |
| `Polynomial.ConvHomomorphism` | FF/FiniteFieldElement.cs:87-96 | evaluating the convolution at any x gives the product of the two operands' evaluations |
| `ElementProperties.MulScalarView` | FF/FiniteFieldElement.cs:82-97 | the product's scalar is the product of the operands' polynomials evaluated at p, and so the product of their scalars when those are current |
| `FiniteFieldElement.Rem` | FF/FiniteFieldElement.cs:98-131 | different fields raise InvalidOperation; a shorter dividend is returned unchanged; an empty divisor raises IndexOutOfRange; a zero leading divisor coefficient raises DivideByZero; otherwise the call succeeds, and the result has exactly |divisor| - 1 coefficients and a freshly computed scalar, and each of its slots k is dividend[k] minus coefficient k of the discarded quotient times the divisor |
| `LongDivision.DivideFrom` | FF/FiniteFieldElement.cs:119-127 | the outer loop over quotient positions from the top down; its contract states only the lengths of the quotient and remainder arrays, and `DivideIdentity` states what they hold |
| `LongDivision.Divide` | FF/FiniteFieldElement.cs:115-127 | the quotient array has |dividend| - |divisor| + 1 entries and the remainder array |dividend| entries; `DivideIdentity` states what they hold |
| `FiniteFieldElement.Quotient` | FF/FiniteFieldElement.cs:115-127 | the quotient `%` computes and discards has |dividend| - |divisor| + 1 coefficients, and quotient times divisor plus the remainder array gives back the dividend coefficient by coefficient |
| `LongDivision.SubtractFrom` | FF/FiniteFieldElement.cs:123-126 | the inner loop subtracts c·divisor[k - i] from exactly the slots i .. i + |divisor| - 1 |
| `LongDivision.DivideIdentity` | FF/FiniteFieldElement.cs:115-127 | long division keeps dividend = quotient·divisor + remainder coefficient by coefficient, and leaves every slot from |divisor| - 1 up smaller in magnitude than the leading divisor coefficient |
| `LongDivision.MonicDivision` | FF/FiniteFieldElement.cs:119-129 | when the leading divisor coefficient is 1 or -1, the slots the resize drops are zero, and dividend(x) = quotient(x)·divisor(x) + remainder(x) at every x |
| `ElementProperties.RemainderIdentity` | FF/FiniteFieldElement.cs:98-131 | for a divisor with leading coefficient 1 or -1, `%` succeeds, and the dividend equals the quotient times the divisor plus the remainder, as polynomials evaluated at every x |
| `ElementProperties.RemIdempotent` | FF/FiniteFieldElement.cs:110-113 | reducing a remainder again by the same divisor returns it unchanged |

## Left out

- `GetHashCode` (FF/FiniteFieldElement.cs:141-144) is not modelled. It hashes the array reference, so it is not a function of an element's value.
- `Math.Pow` in the constructor is a floating-point power cast to `int`. It is modelled as exact integer exponentiation.
- 32-bit `int` is not modelled. Overflow and wrap-around in the constructor sum, the convolution and the long-division steps are left out, and so is `int.MinValue / -1`. All arithmetic uses unbounded integers.
- Object identity and aliasing are not modelled:
  - The constructor stores the caller's array without copying it.
  - `+` and `-` return a mutated operand that other references still see.
  - `a + a` and `a - a` on one object read and write the same array. Their values agree with the model.
  - The model returns the post-state as a new value.
- In the program, `(a + b) - b` with |b| >= |a| subtracts b from itself: `+` returns b, mutated, so both operands of `-` are the same array and the result is all zeros. The round-trip lemmas take b as it was before the addition.
- `Equals(object?)` called with null or a non-element returns false. The model compares two elements only.
- The `FiniteField` class is not part of this model. A characteristic above 1 and structural equality are assumed in its place.
- The unused `using` directives (lines 1-2) are not modelled.
- When the leading divisor coefficient is not 1 or -1, `%`'s result is described only coefficient by coefficient: slot k is dividend[k] minus coefficient k of quotient times divisor. The slots the resize drops need not be zero, so no polynomial identity is stated for the result in that case. `DivideIdentity` bounds those dropped slots in the full remainder array.
