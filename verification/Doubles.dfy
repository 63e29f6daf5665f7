/**
  Arithmetic on doubles as JavaScript has it (IEEE 754, round to nearest): every literal and
  every quotient is rounded once.
 */
module Doubles {
  const TWO53: real := 9_007_199_254_740_992.0

  /** Division, and what a decimal literal is read as. */
  datatype Arithmetic = Arithmetic(divide: (real, real) -> real, literal: real -> real)

  function Floor(ar: Arithmetic, a: int, b: real): int {
    ar.divide(a as real, b).Floor
  }

  function Abs(x: real): real {
    if x < 0.0 then -x else x
  }

  /** `x` is `y` up to the relative error of one rounding, half a unit in the last of 53 places. */
  predicate Near(x: real, y: real) {
    Abs(x - y) * TWO53 <= Abs(y)
  }

  /** Literals and quotients are rounded once, and a quotient that is an integer is exact. */
  ghost predicate Rounding(ar: Arithmetic) {
    && (forall x :: 1.0 <= x < TWO53 ==> Near(ar.literal(x), x))
    && forall a: int, b: real :: Abs(a as real) < TWO53 && 1.0 <= b < TWO53 ==> Rounded(ar, a, b)
  }

  ghost predicate Rounded(ar: Arithmetic, a: int, b: real)
    requires b >= 1.0
  {
    && Near(Product(ar.divide(a as real, b), b), a as real)
    && forall k: int :: a as real == Times(k, b) ==> ar.divide(a as real, b) == k as real
  }

  function Product(x: real, y: real): real {
    x * y
  }

  function Times(k: int, b: real): real {
    Product(k as real, b)
  }

  function Quotient(a: real, b: real): real {
    if b == 0.0 then 0.0 else a / b
  }

  const EXACT := Arithmetic(Quotient, (x: real) => x)

  lemma FloorIs(x: real, k: int)
    requires k as real <= x < k as real + 1.0
    ensures x.Floor == k
  {
  }

  lemma Scale(x: real, y: real, b: real)
    requires b > 0.0 && x >= y
    ensures x * b >= y * b
  {
    assert (x - y) * b >= 0.0;
  }

  /** A product strictly between two products lies between them. */
  lemma Cancel(k: real, x: real, b: real)
    requires b > 0.0 && Product(k, b) < Product(x, b) < Product(k, b) + b
    ensures k < x < k + 1.0
  {
    if k >= x { Scale(k, x, b); }
    if x >= k + 1.0 { Scale(x, k + 1.0, b); }
  }

  lemma RoundedNear(ar: Arithmetic, a: int, b: real)
    requires Rounding(ar) && Abs(a as real) < TWO53 && 1.0 <= b < TWO53
    ensures Near(Product(ar.divide(a as real, b), b), a as real)
  {
    assert Rounded(ar, a, b);
  }

  lemma RoundedExact(ar: Arithmetic, a: int, b: real, k: int)
    requires Rounding(ar) && Abs(a as real) < TWO53 && 1.0 <= b < TWO53 && a as real == Times(k, b)
    ensures ar.divide(a as real, b) == k as real
  {
    assert Rounded(ar, a, b);
  }

  lemma OffByLessThanOne(p: real, a: real)
    requires Near(p, a) && Abs(a) < TWO53
    ensures Abs(p - a) < 1.0
  {
  }

  lemma FloorFromNear(x: real, a: real, b: real, k: int, rest: real)
    requires b > 0.0 && Near(Product(x, b), a) && Abs(a) < TWO53
    requires a == Times(k, b) + rest && 1.0 <= rest <= b - 1.0
    ensures k as real < x < k as real + 1.0
  {
    OffByLessThanOne(Product(x, b), a);
    hide Near, Product;
    Cancel(k as real, x, b);
  }

  lemma Division(a: int, b: nat)
    requires b > 0
    ensures a as real == Times(a / b, b as real) + (a % b) as real && 0 <= a % b < b
  {
    var k := a / b;
    assert a == k * b + a % b;
    assert (k * b) as real == k as real * b as real;
  }

  /** Rounding does not move the floor of a quotient of integers of at most 53 bits. */
  lemma FloorOfQuotient(ar: Arithmetic, a: int, b: nat)
    requires Rounding(ar) && Abs(a as real) < TWO53 && 1 <= b && (b as real) < TWO53
    ensures Floor(ar, a, b as real) == a / b
  {
    hide Near, Rounding, Abs, Product;
    var x, k, rest := ar.divide(a as real, b as real), a / b, a % b;
    Division(a, b);
    if rest == 0 {
      RoundedExact(ar, a, b as real, k);
    } else {
      RoundedNear(ar, a, b as real);
      FloorFromNear(x, a as real, b as real, k, rest as real);
    }
    FloorIs(x, k);
  }

  /** Dividing by a rounded literal is near dividing by the literal. */
  lemma LiteralQuotient(ar: Arithmetic, a: int, literal: real)
    requires Rounding(ar) && 2.0 <= literal <= 400.0 && Abs(a as real) <= 100_000_001.0
    ensures Abs(Product(ar.divide(a as real, ar.literal(literal)), literal) - a as real) * 20_000.0 <= 1.0
  {
    var b := ar.literal(literal);
    assert Near(b, literal);
    hide Rounding, Near, Abs, Product;
    LiteralBounds(b, literal, a as real);
    RoundedNear(ar, a, b);
    NearLiteral(ar.divide(a as real, b), b, literal, a as real);
  }

  lemma LiteralBounds(b: real, literal: real, a: real)
    requires Near(b, literal) && 2.0 <= literal <= 400.0 && Abs(a) <= 100_000_001.0
    ensures 1.0 <= b < TWO53 && Abs(a) < TWO53
  {
  }

  lemma NearLiteral(x: real, b: real, literal: real, a: real)
    requires Near(b, literal) && 2.0 <= literal <= 400.0 && Near(Product(x, b), a) && Abs(a) <= 100_000_001.0
    ensures Abs(Product(x, literal) - a) * 20_000.0 <= 1.0
  {
    hide Product;
    LiteralBounds(b, literal, a);
    QuotientBound(x, b, a);
    ProductBound(x, literal - b, 100_000_002.0, 400.0 / TWO53);
    ProductSum(x, b, literal - b);
    Sum(Product(x, b), Product(x, literal - b), a);
  }

  lemma ProductSum(x: real, y: real, z: real)
    ensures Product(x, y + z) == Product(x, y) + Product(x, z)
  {
  }

  lemma Sum(p: real, q: real, a: real)
    requires Near(p, a) && Abs(a) <= 100_000_001.0 && Abs(q) <= Product(100_000_002.0, 400.0 / TWO53)
    ensures Abs(p + q - a) * 20_000.0 <= 1.0
  {
  }

  lemma QuotientBound(x: real, b: real, a: real)
    requires b >= 1.0 && Near(Product(x, b), a) && Abs(a) <= 100_000_001.0
    ensures Abs(x) <= 100_000_002.0
  {
    assert Abs(Product(x, b)) <= 100_000_002.0;
    if x > 0.0 { Scale(b, 1.0, x); }
    if x < 0.0 { Scale(b, 1.0, -x); }
  }

  lemma ProductBound(x: real, y: real, m: real, n: real)
    requires Abs(x) <= m && Abs(y) <= n
    ensures Abs(Product(x, y)) <= Product(m, n)
  {
    AbsProduct(x, y);
    var u, v := Abs(x), Abs(y);
    if v > 0.0 { Scale(m, u, v); }
    if m > 0.0 { Scale(n, v, m); }
  }

  lemma AbsProduct(x: real, y: real)
    ensures Abs(Product(x, y)) == Product(Abs(x), Abs(y))
  {
    if x == 0.0 || y == 0.0 {
    } else {
      Scale(Abs(x), 0.0, Abs(y));
      assert x * y == Abs(x) * Abs(y) || x * y == -(Abs(x) * Abs(y));
    }
  }
}
