/** Integer division as C++ defines it for built-in integral types: the algebraic
    quotient with any fractional part discarded, i.e. truncation toward zero
    (ISO/IEC 14882, [expr.mul] paragraph 4). Dafny's own `/` on `int` is Euclidean
    (the remainder is never negative); the two are related below. */
module TruncatingDivision {

  function Abs(x: int): (r: int)
    ensures r >= 0 && (r == x || r == -x)
  {
    if x < 0 then -x else x
  }

  /** -1, 0 or 1 according to the sign of x. */
  function Sign(x: int): (s: int)
    ensures s == -1 || s == 0 || s == 1
    ensures (s == 0) == (x == 0) && (s < 0) == (x < 0)
  {
    if x < 0 then -1 else if x == 0 then 0 else 1
  }

  /** The remainder conditions that characterise truncation toward zero: the
      remainder a - q*b is smaller in magnitude than the divisor and is either
      zero or has the sign of the dividend. */
  predicate IsTruncQuotient(a: int, b: int, q: int) {
    && Abs(a - q * b) < Abs(b)
    && (a - q * b == 0 || Sign(a - q * b) == Sign(a))
  }

  /** The quotient of a by b, rounded toward zero. */
  function TruncDiv(a: int, b: int): (q: int)
    requires b != 0
    ensures Abs(q * b) <= Abs(a)
    ensures IsTruncQuotient(a, b, q)
  {
    var m := Abs(a) / Abs(b);
    var q := if (a < 0) == (b < 0) then m else -m;
    TruncDivRemainder(a, b, m, q);
    q
  }

  /** The remainder facts behind TruncDiv, stated over the magnitude quotient m. */
  lemma TruncDivRemainder(a: int, b: int, m: int, q: int)
    requires b != 0
    requires m == Abs(a) / Abs(b)
    requires q == if (a < 0) == (b < 0) then m else -m
    ensures Abs(q * b) <= Abs(a)
    ensures Abs(a - q * b) < Abs(b)
    ensures a - q * b == 0 || Sign(a - q * b) == Sign(a)
  {
    var n, d := Abs(a), Abs(b);
    EuclideanParts(n, d);
    MagnitudeProduct(m, d);
    QuotientProduct(a, b, m, q);
    LinearRemainder(a, n, d, m * d, n % d, q * b);
  }

  /** Dafny's division of naturals: n is m * d plus a remainder below d. */
  lemma EuclideanParts(n: nat, d: nat)
    requires d > 0
    ensures n == (n / d) * d + n % d && 0 <= n % d < d
  {}

  /** The linear core of TruncDivRemainder, with the product qb treated as an atom. */
  lemma LinearRemainder(a: int, n: nat, d: nat, p: int, s: int, qb: int)
    requires n == Abs(a) && d > 0
    requires n == p + s && 0 <= s < d && p >= 0
    requires qb == (if a < 0 then -p else p)
    ensures Abs(qb) <= Abs(a)
    ensures Abs(a - qb) < d
    ensures a - qb == 0 || Sign(a - qb) == Sign(a)
  {}

  /** m * d is a non-negative product when both factors are. */
  lemma MagnitudeProduct(m: nat, d: nat)
    ensures m * d >= 0
  {}

  /** Negating one factor negates the product. */
  lemma NegateFactor(x: int, y: int)
    ensures x * -y == -(x * y) && -x * y == -(x * y) && -x * -y == x * y
  {}

  /** The product of the signed quotient and the divisor carries the dividend's sign. */
  lemma QuotientProduct(a: int, b: int, m: int, q: int)
    requires b != 0
    requires q == if (a < 0) == (b < 0) then m else -m
    ensures q * b == if a < 0 then -(m * Abs(b)) else m * Abs(b)
  {
    var d := Abs(b);
    NegateFactor(m, d);
    if b < 0 {
      assert b == -d;
    } else {
      assert b == d;
    }
  }

  /** Multiplication distributes over a difference. */
  lemma Distribute(t: int, q: int, b: int)
    ensures (t - q) * b == t * b - q * b
  {}

  /** The magnitude of a product is the product of the magnitudes. */
  lemma ProductMagnitude(k: int, b: int)
    ensures Abs(k * b) == Abs(k) * Abs(b)
  {
    NegateFactor(Abs(k), Abs(b));
    MagnitudeProduct(Abs(k), Abs(b));
    if k < 0 {
      assert k == -Abs(k);
    }
    if b < 0 {
      assert b == -Abs(b);
    }
  }

  /** Multiplying by a divisor of magnitude at least 2 at least doubles the magnitude. */
  lemma ScaledMagnitude(q: int, b: int)
    requires Abs(b) >= 2
    ensures Abs(q * b) >= 2 * Abs(q)
  {
    ProductMagnitude(q, b);
    MagnitudeProduct(Abs(q), Abs(b) - 2);
    assert Abs(q) * Abs(b) == Abs(q) * (Abs(b) - 2) + 2 * Abs(q);
  }

  /** A non-zero multiple of b is at least as large as b in magnitude. */
  lemma {:induction false} NonZeroMultiple(k: int, b: int)
    requires b != 0 && k != 0
    ensures Abs(k * b) >= Abs(b)
  {
    ProductMagnitude(k, b);
    MagnitudeProduct(Abs(k) - 1, Abs(b));
    assert Abs(k) * Abs(b) == (Abs(k) - 1) * Abs(b) + Abs(b);
  }

  /** Two remainders smaller than |b| that are each zero or of the dividend's sign
      differ by less than |b|. */
  lemma SameSideRemainders(a: int, b: int, r: int, rt: int)
    requires Abs(r) < Abs(b) && (r == 0 || Sign(r) == Sign(a))
    requires Abs(rt) < Abs(b) && (rt == 0 || Sign(rt) == Sign(a))
    ensures Abs(r - rt) < Abs(b)
  {}

  /** Two quotients whose remainders are both smaller in magnitude than the divisor
      and zero or of the dividend's sign coincide: the conditions of
      IsTruncQuotient pin down the truncating quotient. */
  lemma {:induction false} TruncDivUnique(a: int, b: int, q: int)
    requires b != 0
    requires IsTruncQuotient(a, b, q)
    ensures q == TruncDiv(a, b)
  {
    var t := TruncDiv(a, b);
    var r, rt := a - q * b, a - t * b;
    SameSideRemainders(a, b, r, rt);
    if q != t {
      Distribute(t, q, b);
      NonZeroMultiple(t - q, b);
      assert false;
    }
  }

  /** The truncating quotient agrees with Dafny's Euclidean `/` exactly when the
      dividend is non-negative or the division is exact; otherwise (a negative
      dividend with a non-zero remainder) Euclidean division rounds one further
      away from zero in the direction that makes the remainder non-negative. */
  lemma {:induction false} TruncDivEuclidean(a: int, b: int)
    requires b != 0
    ensures TruncDiv(a, b) == a / b <==> (a >= 0 || a % b == 0)
  {
    var e := a / b;
    assert a == e * b + a % b;
    assert 0 <= a % b < Abs(b);
    if a >= 0 || a % b == 0 {
      assert IsTruncQuotient(a, b, e);
      TruncDivUnique(a, b, e);
    } else {
      assert a - e * b == a % b > 0;
      assert !IsTruncQuotient(a, b, e);
    }
  }

  /** For non-negative operands with a non-zero divisor, C++ `/` and Dafny `/` agree. */
  lemma TruncDivNonNegative(a: int, b: int)
    requires a >= 0 && b > 0
    ensures TruncDiv(a, b) == a / b
  {
    TruncDivEuclidean(a, b);
  }

  /** Truncation is symmetric under negating either operand, which floor and
      Euclidean division are not. */
  lemma {:induction false} TruncDivNegation(a: int, b: int)
    requires b != 0
    ensures TruncDiv(-a, b) == -TruncDiv(a, b)
    ensures TruncDiv(a, -b) == -TruncDiv(a, b)
  {
    var t := TruncDiv(a, b);
    NegateFactor(t, b);
    assert -a - (-t) * b == -(a - t * b);
    TruncDivUnique(-a, b, -t);
    assert a - (-t) * (-b) == a - t * b;
    TruncDivUnique(a, -b, -t);
  }

  /** Dividing an exact product by one of its factors returns the other factor. */
  lemma {:induction false} TruncDivExact(a: int, b: int)
    requires b != 0
    ensures TruncDiv(a * b, b) == a
  {
    assert a * b - a * b == 0;
    TruncDivUnique(a * b, b, a);
  }
}
