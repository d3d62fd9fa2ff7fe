/**
 The saturating fraction multiply of dyninstT/common/fraction.C and fraction.h, for
 non-negative numerators and positive denominators. An int64_t product that does not fit
 wraps around, as two's-complement machines compute it.
 */
module Fraction {
  import opened Basics

  const I64_MAX: int := 0x7FFF_FFFF_FFFF_FFFF

  predicate Fits(x: int) { -I64_MAX - 1 <= x <= I64_MAX }

  function Min(a: int, b: int): int { if a < b then a else b }

  // The int64_t that is left of an integer.
  function Wrap(x: int): (r: int)
    ensures Fits(r)
  {
    var r := x % 0x1_0000_0000_0000_0000;
    if r > I64_MAX then r - 0x1_0000_0000_0000_0000 else r
  }

  // Division as in C, towards zero.
  function TruncDiv(x: int, d: nat): int
    requires 0 < d
  {
    if x >= 0 then x / d else -(-x / d)
  }

  // ------------------------------------------------------------- arithmetic

  lemma MulMonoStrict(a: nat, b: nat, c: nat)
    requires a < b && 0 < c
    ensures a * c < b * c
  {
    MulMono(a + 1, b, c);
  }

  lemma DivUnique(x: nat, d: nat, q: nat, r: nat)
    requires 0 < d && x == q * d + r && r < d
    ensures x / d == q && x % d == r
  {
    var q', r' := x / d, x % d;
    assert x == q' * d + r';
    if q < q' {
      MulMono(q + 1, q', d);
    } else if q' < q {
      MulMono(q' + 1, q, d);
    }
  }

  lemma Distribute(a: int, b: int, c: int)
    ensures (a + b) * c == a * c + b * c && c * (a + b) == c * a + c * b
  {}

  lemma Exchange(a: int, b: int, c: int)
    ensures (a * b) * c == (a * c) * b && a * (b * c) == (a * b) * c
  {}

  lemma Regroup(q: int, d: int, r: int, n: int, q2: int, r2: int)
    requires r * n == q2 * d + r2
    ensures (q * d + r) * n == (q * n + q2) * d + r2
  {
    Distribute(q * d, r, n);
    Exchange(q, d, n);
    Distribute(q * n, q2, d);
  }

  lemma Combine(q: int, b: int, r: int, x: int, y: int)
    ensures (q * b + r) * y + b * (x - q * y) == b * x + r * y
  {
    Distribute(q * b, r, y);
    Distribute(x, -(q * y), b);
    Exchange(q, b, y);
    assert b * (q * y) == (q * y) * b;
  }

  /** multNoInterimOverflow (fraction.h:90-94) computes the quotient of the full product. */
  lemma SplitProduct(b: nat, n: nat, d: nat)
    requires 0 < d
    ensures (b / d) * n + (b % d) * n / d == b * n / d
  {
    DivMod(b, d);
    DivMod((b % d) * n, d);
    QuotientOfParts(b, n, d, b / d, b % d, (b % d) * n / d, (b % d) * n % d);
  }

  lemma DivMod(x: nat, d: nat)
    requires 0 < d
    ensures x == (x / d) * d + x % d && x % d < d
  {}

  lemma QuotientOfParts(b: nat, n: nat, d: nat, q: nat, r: nat, q2: nat, r2: nat)
    requires 0 < d && b == q * d + r && r * n == q2 * d + r2 && r2 < d
    ensures b * n / d == q * n + q2
  {
    Regroup(q, d, r, n, q2, r2);
    DivUnique(b * n, d, q * n + q2, r2);
  }

  lemma DivBound(x: nat, d: nat, m: nat)
    requires 0 < d
    ensures x <= m * d ==> x / d <= m
    ensures x > m * d ==> x / d >= m
  {
    var q, r := x / d, x % d;
    assert x == q * d + r;
    if x <= m * d && q > m {
      MulMono(m + 1, q, d);
    }
    if x > m * d && q < m {
      MulMono(q + 1, m, d);
    }
  }

  lemma DivAtLeast(x: nat, d: nat, m: nat)
    requires 0 < d
    ensures x / d >= m <==> x >= m * d
  {
    DivMod(x, d);
    if x / d >= m { MulMono(m, x / d, d); } else { MulMono(x / d + 1, m, d); }
  }

  // ---------------------------------------------------------- overflow points

  // multNoInterimOverflow (fraction.h:90-94)
  function MultNoInterim(b: nat, n: nat, d: nat): int
    requires 0 < d
  {
    Wrap(Wrap((b / d) * n) + TruncDiv(Wrap((b % d) * n), d))
  }

  function InterimPt(n: nat): int { if n == 0 then I64_MAX else I64_MAX / n }

  // The reciprocal is compared with 1.0 through doubles (fraction.C:86); here through reals.
  function FinalPt(n: nat, d: nat): int
    requires 0 < d
  {
    if n == 0 || (d as real) / (n as real) > 1.0 then I64_MAX else MultNoInterim(I64_MAX, d, n)
  }

  // The largest multiplicand whose product is in range, as the second point should be.
  function LargestInRange(n: nat, d: nat): int
    requires 0 < d
  {
    if n < d then I64_MAX else I64_MAX * d / n
  }

  /** The fraction is below one, or the remainder of the largest integer by the numerator times the denominator
      fits: then calcOverflowPts computes the point it should. */
  predicate PointsFit(n: nat, d: nat) { n == 0 || n < d || (I64_MAX % n) * d <= I64_MAX }

  // What multReturnInt64 returns (fraction.C:63-77).
  function MultResult(n: nat, d: nat, b: nat): int
    requires 0 < d
  {
    if b < InterimPt(n) then TruncDiv(Wrap(b * n), d)
    else if b <= FinalPt(n, d) then MultNoInterim(b, n, d)
    else I64_MAX
  }

  /** The first point is the largest multiplicand whose product with the numerator fits. */
  lemma InterimPtIs(n: nat, b: nat)
    requires n <= I64_MAX && b <= I64_MAX
    ensures b * n <= I64_MAX <==> b <= InterimPt(n)
  {
    if n > 0 {
      DivMod(I64_MAX, n);
      if b <= InterimPt(n) {
        MulMono(b, I64_MAX / n, n);
      } else {
        MulMono(I64_MAX / n + 1, b, n);
        Distribute(I64_MAX / n, 1, n);
      }
    }
  }

  lemma RatioAboveOne(n: nat, d: nat)
    requires 0 < n
    ensures (d as real) / (n as real) > 1.0 <==> d > n
  {
    var x, y := d as real, n as real;
    assert x == (x / y) * y;
    if x / y > 1.0 {
      assert (x / y - 1.0) * y > 0.0;
    } else {
      assert (1.0 - x / y) * y >= 0.0;
    }
  }

  /** The largest multiplicand in range separates those whose product fits from those that saturate. */
  lemma LargestIs(n: nat, d: nat, b: nat)
    requires 0 < d && b <= I64_MAX
    ensures b <= LargestInRange(n, d) ==> b * n / d <= I64_MAX
    ensures b > LargestInRange(n, d) ==> b * n / d >= I64_MAX
  {
    if n < d {
      MulMono(n, d, b);
      MulMono(b, I64_MAX, d);
      assert b * n <= b * d <= I64_MAX * d;
      DivBound(b * n, d, I64_MAX);
    } else {
      var f := LargestInRange(n, d);
      DivMod(I64_MAX * d, n);
      if b <= f {
        MulMono(b, f, n);
      } else {
        MulMono(f + 1, b, n);
        assert (f + 1) * n == f * n + n;
      }
      DivBound(b * n, d, I64_MAX);
    }
  }

  // A product that does not fit leaves less.
  lemma WrapsBelow(p: nat, d: nat)
    requires 0 < d <= I64_MAX
    ensures p <= I64_MAX ==> TruncDiv(Wrap(p), d) == p / d
    ensures p > I64_MAX ==> -I64_MAX - 1 <= TruncDiv(Wrap(p), d) < p / d
  {
    if p > I64_MAX {
      var y := Wrap(p);
      assert y + 0x1_0000_0000_0000_0000 <= p;
      if y >= 0 {
        DivApart(y, p, d);
      } else {
        DivBelow(-y, d);
        DivApart(0, p, d);
      }
    }
  }

  lemma DivApart(y: nat, p: nat, d: nat)
    requires 0 < d && y + d <= p
    ensures y / d < p / d
  {
    DivMod(y, d);
    DivMod(p, d);
    if p / d <= y / d { MulMono(p / d, y / d, d); }
  }

  lemma DivBelow(x: nat, d: nat)
    requires 0 < d
    ensures 0 <= x / d <= x
  {
    DivMod(x, d);
    MulMono(1, d, x / d);
  }

  // The sum of the two parts, when the whole fits.
  lemma SumOfParts(q: nat, p: nat, d: nat)
    requires 0 < d <= I64_MAX && q + p / d <= I64_MAX
    ensures Wrap(Wrap(q) + TruncDiv(Wrap(p), d)) == q + p / d <==> p <= I64_MAX
    ensures Wrap(Wrap(q) + TruncDiv(Wrap(p), d)) <= q + p / d
  {
    WrapsBelow(p, d);
    DivBelow(p, d);
    WrapFits(q);
    WrapFits(q + TruncDiv(Wrap(p), d));
  }

  lemma WrapFits(x: int)
    requires Fits(x)
    ensures Wrap(x) == x
  {
    if x < 0 { assert x % 0x1_0000_0000_0000_0000 == x + 0x1_0000_0000_0000_0000; }
  }

  /** multNoInterimOverflow gives the quotient of the full product exactly when the product of the remainder fits;
      otherwise it gives less. */
  lemma NoInterimIff(b: nat, n: nat, d: nat)
    requires 0 < d <= I64_MAX && b * n / d <= I64_MAX
    ensures MultNoInterim(b, n, d) == b * n / d <==> (b % d) * n <= I64_MAX
    ensures MultNoInterim(b, n, d) <= b * n / d
  {
    SplitProduct(b, n, d);
    MulMono(0, b / d, n);
    MulMono(0, b % d, n);
    SumOfParts((b / d) * n, (b % d) * n, d);
  }

  // The second point never exceeds what it should be.
  lemma FinalPtIff(n: nat, d: nat)
    requires 0 < d && n <= I64_MAX
    ensures FinalPt(n, d) <= LargestInRange(n, d)
    ensures FinalPt(n, d) == LargestInRange(n, d) <==> PointsFit(n, d)
  {
    if n > 0 { RatioAboveOne(n, d); }
    if d <= n {
      MulMono(d, n, I64_MAX);
      DivBound(I64_MAX * d, n, I64_MAX);
      NoInterimIff(I64_MAX, d, n);
    }
  }

  // ---------------------------------------------------------- when the result is right

  /** The multiplicand takes the first branch; or the second, and the product of the remainder fits; or the last, and
      the product reaches the largest integer. */
  predicate Served(n: nat, d: nat, b: nat)
    requires 0 < d
  {
    b < InterimPt(n) || if b <= FinalPt(n, d) then (b % d) * n <= I64_MAX else I64_MAX * d <= b * n
  }

  /** multReturnInt64 returns the product rounded down, or the largest integer where that is smaller, exactly for
      the multiplicands that are served. */
  lemma MultExact(n: nat, d: nat, b: nat)
    requires 0 < d <= I64_MAX && n <= I64_MAX && b <= I64_MAX
    ensures MultResult(n, d, b) == Min(b * n / d, I64_MAX) <==> Served(n, d, b)
  {
    FinalPtIff(n, d);
    LargestIs(n, d, b);
    MulMono(0, b, n);
    if b < InterimPt(n) {
      SmallProductFits(n, b);
      MulMono(1, d, I64_MAX);
      DivBound(b * n, d, I64_MAX);
    } else if b <= FinalPt(n, d) {
      NoInterimIff(b, n, d);
    } else {
      DivAtLeast(b * n, d, I64_MAX);
    }
  }

  /** When the overflow points fit, only the product of the remainder in the second branch decides. */
  lemma ServedIff(n: nat, d: nat, b: nat)
    requires 0 < d <= I64_MAX && n <= I64_MAX && b <= I64_MAX && PointsFit(n, d)
    ensures Served(n, d, b) <==> b < InterimPt(n) || b > LargestInRange(n, d) || (b % d) * n <= I64_MAX
  {
    FinalPtIff(n, d);
    LargestIs(n, d, b);
    DivAtLeast(b * n, d, I64_MAX);
  }

  /** When the overflow points fit, every multiplicand is served exactly when the denominator less one times the
      numerator fits. */
  lemma AllServedIff(n: nat, d: nat)
    requires 0 < d <= I64_MAX && n <= I64_MAX && PointsFit(n, d)
    ensures (forall b: nat | b <= I64_MAX :: Served(n, d, b)) <==> (d - 1) * n <= I64_MAX
  {
    if (d - 1) * n <= I64_MAX {
      forall b: nat | b <= I64_MAX
        ensures Served(n, d, b)
      {
        ServedIff(n, d, b);
        MulMono(b % d, d - 1, n);
      }
    } else {
      LastRemainderOverflows(n, d);
    }
  }

  lemma LastRemainderOverflows(n: nat, d: nat)
    requires 0 < d <= I64_MAX && n <= I64_MAX && PointsFit(n, d) && (d - 1) * n > I64_MAX
    ensures !Served(n, d, d - 1)
  {
    var b := d - 1;
    DivUnique(b, d, 0, b);
    if b < InterimPt(n) { SmallProductFits(n, b); }
    if b > LargestInRange(n, d) { DenominatorExceeds(n, d); }
    ServedIff(n, d, b);
  }

  // No multiplicand below the denominator saturates.
  lemma DenominatorExceeds(n: nat, d: nat)
    requires 0 < d && n <= I64_MAX
    ensures d - 1 <= I64_MAX ==> d - 1 <= LargestInRange(n, d)
  {
    if d <= n {
      var f := LargestInRange(n, d);
      DivMod(I64_MAX * d, n);
      if f < d {
        assert (f + 1) * n == f * n + n;
        MulMono(f + 1, d, n);
        MulMono(n, I64_MAX, d);
      }
    }
  }

  /** A product of numerator and denominator that fits is enough: the result is right for every multiplicand. */
  lemma ProductEnough(n: nat, d: nat, b: nat)
    requires 0 < d <= I64_MAX && n <= I64_MAX && n * d <= I64_MAX && b <= I64_MAX
    ensures PointsFit(n, d) && MultResult(n, d, b) == Min(b * n / d, I64_MAX)
  {
    MulMono(d - 1, d, n);
    if 0 < n && d <= n {
      MulMono(I64_MAX % n, n, d);
    }
    AllServedIff(n, d);
    MultExact(n, d, b);
  }

  // What the method promises, and that the first branch divides non-negative numbers.
  lemma MultLaws(n: nat, d: nat, b: nat)
    requires 0 < d <= I64_MAX && n <= I64_MAX && b <= I64_MAX
    ensures MultResult(n, d, b) == Min(b * n / d, I64_MAX) <==> Served(n, d, b)
    ensures n * d <= I64_MAX ==> MultResult(n, d, b) == Min(b * n / d, I64_MAX)
    ensures b < InterimPt(n) ==> Wrap(b * n) >= 0
  {
    MultExact(n, d, b);
    if n * d <= I64_MAX { ProductEnough(n, d, b); }
    if b < InterimPt(n) {
      SmallProductFits(n, b);
      MulMono(0, b, n);
    }
  }

  /** The products that form the result, those of the branch taken, all fit. */
  predicate ResultFits(n: nat, d: nat, b: nat)
    requires 0 < d
  {
    if b < InterimPt(n) then Fits(b * n)
    else b <= FinalPt(n, d) ==> Fits((b / d) * n) && Fits((b % d) * n) && Fits((b / d) * n + (b % d) * n / d)
  }

  /** When the overflow points fit, the result is right exactly when the products that form it fit. */
  lemma RightIffResultFits(n: nat, d: nat, b: nat)
    requires 0 < d <= I64_MAX && n <= I64_MAX && b <= I64_MAX && PointsFit(n, d)
    ensures MultResult(n, d, b) == Min(b * n / d, I64_MAX) <==> ResultFits(n, d, b)
  {
    MultExact(n, d, b);
    ServedIff(n, d, b);
    FinalPtIff(n, d);
    if b < InterimPt(n) {
      SmallProductFits(n, b);
      MulMono(0, b, n);
    } else if b <= FinalPt(n, d) {
      LargestIs(n, d, b);
      MiddleFits(b, n, d);
    }
  }

  lemma MiddleFits(b: nat, n: nat, d: nat)
    requires 0 < d && b * n / d <= I64_MAX
    ensures Fits((b / d) * n) && Fits((b / d) * n + (b % d) * n / d)
    ensures Fits((b % d) * n) <==> (b % d) * n <= I64_MAX
  {
    SplitProduct(b, n, d);
    MulMono(0, b / d, n);
    MulMono(0, b % d, n);
    DivBelow((b % d) * n, d);
  }

  /** The interim overflow that the special method is meant to avoid still occurs for large terms, and the result is
      wrong. */
  lemma InterimOverflowRemains()
    ensures var n, d, b := 0x1_0000_0000, 0x1_0000_0001, 0x1_0000_0000;
            PointsFit(n, d) && b * n / d == 0xFFFF_FFFF && MultResult(n, d, b) == 0
  {
  }

  /** The temporary fraction of the first branch (fraction.C:67) computes overflow points of its own, which can
      overflow although numerator times denominator fits; they do not reach the result. */
  lemma TemporaryOverflows()
    ensures var n, d, b := 1, 3, 0x4000_0000_0000_0001;
            && n * d <= I64_MAX && b < InterimPt(n) && !PointsFit(b * n, d)
            && MultResult(n, d, b) == b * n / d
  {
  }

  lemma SmallProductFits(n: nat, b: nat)
    requires b < InterimPt(n) && n <= I64_MAX
    ensures b * n <= I64_MAX
  {
    if n > 0 {
      MulMono(b, I64_MAX / n, n);
    }
  }

  // -------------------------------------------------------------------- gcd

  /** gcd (fraction.C:44-47) on non-negative arguments */
  function Gcd(a: nat, b: nat): nat
    decreases b
  {
    if b == 0 then a else Gcd(b, a % b)
  }

  ghost predicate Divides(g: nat, x: nat) { exists k: nat :: x == k * g }

  lemma DividesSum(g: nat, x: nat, y: nat, q: nat)
    requires Divides(g, x) && Divides(g, y)
    ensures Divides(g, q * x + y)
  {
    var k: nat :| x == k * g;
    var l: nat :| y == l * g;
    assert q * x + y == (q * k + l) * g;
  }

  // Bezout: the result is a combination of the arguments, and divides both.
  lemma {:induction false} GcdBezout(a: nat, b: nat) returns (x: int, y: int)
    ensures Gcd(a, b) == a * x + b * y
    ensures Divides(Gcd(a, b), a) && Divides(Gcd(a, b), b)
    decreases b
  {
    if b == 0 {
      x, y := 1, 0;
      assert a == 1 * Gcd(a, b) && b == 0 * Gcd(a, b);
    } else {
      var q, r := a / b, a % b;
      var x', y' := GcdBezout(b, r);
      x, y := y', x' - q * y';
      Combine(q, b, r, x', y');
      assert a == q * b + r;
      DividesSum(Gcd(a, b), b, r, q);
    }
  }

  ghost predicate Coprime(a: nat, b: nat) {
    forall g: nat | Divides(g, a) && Divides(g, b) :: g == 1
  }

  lemma UnitProduct(g: nat, k: int)
    requires g * k == 1
    ensures g == 1 && k == 1
  {
    if g > 1 && k >= 1 { MulMono(2, g, k); }
  }

  lemma BezoutCoprime(a: nat, b: nat, x: int, y: int)
    requires a * x + b * y == 1
    ensures Coprime(a, b)
  {
    forall g: nat | Divides(g, a) && Divides(g, b)
      ensures g == 1
    {
      var k: nat :| a == k * g;
      var l: nat :| b == l * g;
      Exchange(k, g, x);
      Exchange(l, g, y);
      Distribute(k * x, l * y, g);
      UnitProduct(g, k * x + l * y);
    }
  }

  // The quotients of reduce, with a combination of them that is 1.
  lemma Reduced(n: nat, d: nat) returns (x: int, y: int)
    requires 0 < d
    ensures var g := Gcd(n, d);
            0 < g && n == (n / g) * g && d == (d / g) * g && 0 < d / g && (n / g) * x + (d / g) * y == 1
  {
    x, y := GcdBezout(n, d);
    var g := Gcd(n, d);
    var k: nat :| n == k * g;
    var l: nat :| d == l * g;
    assert g > 0 && l > 0;
    DivUnique(n, g, k, 0);
    DivUnique(d, g, l, 0);
    Exchange(k, g, x);
    Exchange(l, g, y);
    Distribute(k * x, l * y, g);
    UnitProductOf(g, k * x + l * y);
  }

  lemma UnitProductOf(g: nat, k: int)
    requires 0 < g && g == k * g
    ensures k == 1
  {
    if k > 1 { MulMono(2, k, g); }
  }

  // Multiplying both terms by g does not change the quotients of the products.
  lemma ScaledQuotient(b: nat, n: nat, d: nat, g: nat)
    requires 0 < d && 0 < g
    ensures 0 < d * g && b * (n * g) / (d * g) == b * n / d
  {
    MulMono(1, d, g);
    DivMod(b * n, d);
    Exchange(b, n, g);
    QuotientScaled(b * n, d, g, b * n / d, b * n % d);
  }

  lemma QuotientScaled(x: nat, d: nat, g: nat, q: nat, r: nat)
    requires 0 < d && 0 < g && 0 < d * g && x == q * d + r && r < d
    ensures x * g / (d * g) == q
  {
    Distribute(q * d, r, g);
    Exchange(q, d, g);
    MulMonoStrict(r, d, g);
    DivUnique(x * g, d * g, q, r * g);
  }

  /** reduce (fraction.h:137-142) gives coprime terms and changes no product. */
  lemma ReduceKeeps(n: nat, d: nat, b: nat)
    requires 0 < d
    ensures var g := Gcd(n, d);
            && 0 < g && 0 < d / g && Coprime(n / g, d / g) && n * (d / g) == (n / g) * d
            && b * (n / g) / (d / g) == b * n / d
  {
    var x, y := Reduced(n, d);
    var g := Gcd(n, d);
    BezoutCoprime(n / g, d / g, x, y);
    ScaledQuotient(b, n / g, d / g, g);
    Exchange(n / g, g, d / g);
    Exchange(n / g, d / g, g);
  }

  lemma DenominatorDivides(p1: nat, q1: nat, p2: nat, q2: nat, x: int, y: int)
    requires p1 * q2 == p2 * q1 && p1 * x + q1 * y == 1
    ensures q2 == (p2 * x + q2 * y) * q1
  {
    Distribute(p1 * x, q1 * y, q2);
    Exchange(p1, x, q2);
    Exchange(q1, y, q2);
    Exchange(p2, q1, x);
    Exchange(q2, y, q1);
    Distribute(p2 * x, q2 * y, q1);
  }

  lemma MutualMultiples(a: nat, b: nat, k: int, l: int)
    requires 0 < a && 0 < b && a == k * b && b == l * a
    ensures a == b
  {
    if k > 1 { MulMono(2, k, b); }
    if l > 1 { MulMono(2, l, a); }
  }

  // Coprime terms of one value are the same terms.
  lemma LowestTermsUnique(p1: nat, q1: nat, p2: nat, q2: nat, x1: int, y1: int, x2: int, y2: int)
    requires 0 < q1 && 0 < q2 && p1 * q2 == p2 * q1 && p1 * x1 + q1 * y1 == 1 && p2 * x2 + q2 * y2 == 1
    ensures p1 == p2 && q1 == q2
  {
    DenominatorDivides(p1, q1, p2, q2, x1, y1);
    DenominatorDivides(p2, q2, p1, q1, x2, y2);
    MutualMultiples(q2, q1, p2 * x1 + q2 * y1, p1 * x2 + q1 * y2);
    if p1 < p2 { MulMonoStrict(p1, p2, q1); }
    if p2 < p1 { MulMonoStrict(p2, p1, q1); }
  }

  lemma CrossScaled(p1: nat, q1: nat, g1: nat, p2: nat, q2: nat, g2: nat)
    requires 0 < g1 && 0 < g2
    ensures (p1 * g1) * (q2 * g2) == (p2 * g2) * (q1 * g1) <==> p1 * q2 == p2 * q1
  {
    var k := g1 * g2;
    MulMono(1, g1, g2);
    FourFactors(p1, g1, q2, g2);
    FourFactors(p2, g2, q1, g1);
    assert g2 * g1 == k;
    if p1 * q2 < p2 * q1 { MulMonoStrict(p1 * q2, p2 * q1, k); }
    if p2 * q1 < p1 * q2 { MulMonoStrict(p2 * q1, p1 * q2, k); }
  }

  lemma FourFactors(a: int, b: int, c: int, d: int)
    ensures (a * b) * (c * d) == (a * c) * (b * d)
  {
    Exchange(a * b, c, d);
    Exchange(a, b, c);
    Exchange(a * c, b, d);
  }

  lemma SameTermsIff(p1: nat, q1: nat, g1: nat, x1: int, y1: int, p2: nat, q2: nat, g2: nat, x2: int, y2: int)
    requires 0 < g1 && 0 < g2 && 0 < q1 && 0 < q2 && p1 * x1 + q1 * y1 == 1 && p2 * x2 + q2 * y2 == 1
    ensures p1 == p2 && q1 == q2 <==> (p1 * g1) * (q2 * g2) == (p2 * g2) * (q1 * g1)
  {
    CrossScaled(p1, q1, g1, p2, q2, g2);
    if p1 * q2 == p2 * q1 {
      LowestTermsUnique(p1, q1, p2, q2, x1, y1, x2, y2);
    }
  }

  /** Two fractions reduce to the same terms exactly when their cross products are equal. */
  lemma SameReducedIff(n1: nat, d1: nat, n2: nat, d2: nat)
    requires 0 < d1 && 0 < d2
    ensures var g1, g2 := Gcd(n1, d1), Gcd(n2, d2);
            0 < g1 && 0 < g2 && (n1 / g1 == n2 / g2 && d1 / g1 == d2 / g2 <==> n1 * d2 == n2 * d1)
  {
    var x1, y1 := Reduced(n1, d1);
    var x2, y2 := Reduced(n2, d2);
    var g1, g2 := Gcd(n1, d1), Gcd(n2, d2);
    SameTermsIff(n1 / g1, d1 / g1, g1, x1, y1, n2 / g2, d2 / g2, g2, x2, y2);
  }

  // ------------------------------------------------------------------- class

  class Frac {
    var numer: int
    var denom: int
    var interimMultOverflowPt: int
    var finalMultOverflowPt: int

    predicate Valid()
      reads this
    {
      && 0 <= numer <= I64_MAX && 0 < denom <= I64_MAX
      && interimMultOverflowPt == InterimPt(numer) && finalMultOverflowPt == FinalPt(numer, denom)
    }

    constructor (n: nat, d: nat)
      requires n <= I64_MAX && 0 < d <= I64_MAX
      ensures Valid() && numer == n && denom == d
    {
      numer, denom := n, d;
      new;
      CalcOverflowPts();
    }

    /** calcOverflowPts (fraction.C:79-90): the first point is the largest multiplicand whose product fits; the second
        is the largest multiplicand in range exactly when the points fit, and smaller otherwise. */
    method CalcOverflowPts()
      requires 0 <= numer <= I64_MAX && 0 < denom <= I64_MAX
      modifies this`interimMultOverflowPt, this`finalMultOverflowPt
      ensures Valid() && forall b: nat | b <= I64_MAX :: b * numer <= I64_MAX <==> b <= interimMultOverflowPt
      ensures finalMultOverflowPt <= LargestInRange(numer, denom)
      ensures finalMultOverflowPt == LargestInRange(numer, denom) <==> PointsFit(numer, denom)
    {
      FinalPtIff(numer, denom);
      forall b: nat | b <= I64_MAX
        ensures b * numer <= I64_MAX <==> b <= InterimPt(numer)
      {
        InterimPtIs(numer, b);
      }
      if numer == 0 {
        interimMultOverflowPt := I64_MAX;
      } else {
        interimMultOverflowPt := I64_MAX / numer;
      }
      if numer == 0 || (denom as real) / (numer as real) > 1.0 {
        finalMultOverflowPt := I64_MAX;
      } else {
        finalMultOverflowPt := MultNoInterim(I64_MAX, denom, numer);
      }
    }

    /** multReturnInt64 (fraction.C:63-77): the product rounded down, or the largest integer where that is smaller,
        exactly for the multiplicands that are served, which are all when the product of the terms fits. */
    method MultReturnInt64(b: nat) returns (ret: int)
      requires Valid() && b <= I64_MAX
      ensures ret == MultResult(numer, denom, b)
      ensures ret == Min(b * numer / denom, I64_MAX) <==> Served(numer, denom, b)
      ensures numer * denom <= I64_MAX ==> ret == Min(b * numer / denom, I64_MAX)
    {
      MultLaws(numer, denom, b);
      if b < interimMultOverflowPt {
        var fres := new Frac(Wrap(b * numer), denom);
        ret := TruncDiv(fres.numer, fres.denom);
      } else if b <= finalMultOverflowPt {
        ret := MultNoInterim(b, numer, denom);
      } else {
        return I64_MAX;
      }
    }

    /** reduce (fraction.h:137-142) */
    method Reduce()
      requires Valid()
      modifies this
      ensures Valid() && Coprime(numer, denom)
      ensures old(numer) * denom == numer * old(denom)
      ensures forall b: nat :: b * numer / denom == b * old(numer) / old(denom)
    {
      ghost var n, d := numer, denom;
      var igcd := Gcd(numer, denom);
      ghost var x, y := Reduced(n, d);
      forall b: nat
        ensures b * (n / igcd) / (d / igcd) == b * n / d
      {
        ReduceKeeps(n, d, b);
      }
      ReduceKeeps(n, d, 0);
      ReducedSmaller(n, d, igcd);
      numer := numer / igcd;
      denom := denom / igcd;
      CalcOverflowPts();
    }
  }

  lemma ReducedSmaller(n: nat, d: nat, g: nat)
    requires 0 < g && n == (n / g) * g && d == (d / g) * g
    ensures n / g <= n && d / g <= d && (n / g) * (d / g) <= n * d
  {
    MulMono(1, g, n / g);
    MulMono(1, g, d / g);
    MulMono(n / g, n, d / g);
    MulMono(d / g, d, n);
  }

  /** operator== (fraction.h:177-183): equal exactly when the cross products are. */
  method Equals(a: Frac, b: Frac) returns (eq: bool)
    requires 0 <= a.numer && 0 < a.denom && 0 <= b.numer && 0 < b.denom
    ensures eq <==> a.numer * b.denom == b.numer * a.denom
  {
    SameReducedIff(a.numer, a.denom, b.numer, b.denom);
    var g, h := Gcd(a.numer, a.denom), Gcd(b.numer, b.denom);
    eq := a.numer / g == b.numer / h && a.denom / g == b.denom / h;
  }
}
