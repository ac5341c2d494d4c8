/**
 * The nominal rescaling `int(nominal * factor)`: an exact product followed by
 * Python's `int()`, which truncates toward zero (Dafny's `/` is Euclidean).
 */
module Scaling {

  type Positive = n: int | n > 0 witness 1

  /** A multiplier `num / den`; an integer factor `k` is `Factor(k, 1)`. */
  datatype Factor = Factor(num: int, den: Positive)

  /** The factor a record without a `factor` key uses. */
  const Unit := Factor(1, 1)

  function Abs(x: int): nat {
    if x < 0 then -x else x
  }

  /** `q` is `a / b` truncated toward zero: the largest magnitude not above `|a| / b`, with the sign of `a`. */
  ghost predicate IsTruncatedQuotient(a: int, b: Positive, q: int) {
    && Abs(q) * b <= Abs(a) < (Abs(q) + 1) * b
    && (q == 0 || (q < 0 <==> a < 0))
  }

  /** Python's `int()` applied to the quotient `a / b`. */
  function TruncDiv(a: int, b: Positive): int {
    if a >= 0 then a / b else -((-a) / b)
  }

  lemma EuclideanBounds(a: nat, b: Positive)
    ensures (a / b) * b <= a < (a / b + 1) * b
  {
  }

  lemma MulMonotone(x: int, y: int, b: Positive)
    requires x <= y
    ensures x * b <= y * b
  {
  }

  lemma QuotientUnique(a: nat, b: Positive, q: nat)
    requires q * b <= a < (q + 1) * b
    ensures q == a / b
  {
    var r := a / b;
    EuclideanBounds(a, b);
    if q < r {
      MulMonotone(q + 1, r, b);
    } else if r < q {
      MulMonotone(r + 1, q, b);
    }
  }

  /** `TruncDiv` is exactly the truncated quotient: it satisfies the definition and nothing else does. */
  lemma TruncDivIsTruncatedQuotient(a: int, b: Positive, q: int)
    ensures q == TruncDiv(a, b) <==> IsTruncatedQuotient(a, b, q)
  {
    var m := Abs(a) / b;
    EuclideanBounds(Abs(a), b);
    assert TruncDiv(a, b) == if a >= 0 then m else -m;
    assert IsTruncatedQuotient(a, b, TruncDiv(a, b));
    if IsTruncatedQuotient(a, b, q) {
      QuotientUnique(Abs(a), b, Abs(q));
    }
  }

  /** The new nominal: `int(nominal * factor)` for a nominal `n`. */
  function Scale(n: int, f: Factor): (q: int)
    ensures IsTruncatedQuotient(n * f.num, f.den, q)
  {
    TruncDivIsTruncatedQuotient(n * f.num, f.den, TruncDiv(n * f.num, f.den));
    TruncDiv(n * f.num, f.den)
  }

  /** A factor equal to one (`Unit`, or `k / k`) leaves every nominal unchanged. */
  lemma ScaleByOne(n: int, f: Factor)
    requires f.num == f.den
    ensures Scale(n, f) == n
  {
    var p := n * f.num;
    assert Abs(p) == Abs(n) * f.den;
    TruncDivIsTruncatedQuotient(p, f.den, n);
  }

  /** An integer factor multiplies exactly. */
  lemma ScaleByInteger(n: int, f: Factor)
    requires f.den == 1
    ensures Scale(n, f) == n * f.num
  {
  }

  /** Truncation toward zero, not rounding and not flooring: 5 * 0.5 gives 2, and -5 * 0.5 gives -2. */
  lemma HalvingOddNominals()
    ensures Scale(5, Factor(1, 2)) == 2
    ensures Scale(-5, Factor(1, 2)) == -2
  {
  }
}
