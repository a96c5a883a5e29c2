/** Exact rational arithmetic of the calculator (`gcdBigInt`, `normRational`,
    `addR`, `subR`, `mulR`, `divR`, `fromScaledUnits`, `toScaledUnits` in
    app/routes/home.tsx). Values are stated with Dafny's exact `real`. */
module Rationals {
  import opened Ints

  /** The source's `{ n: bigint; d: bigint }`, read as n/d. */
  datatype Rational = Rational(n: int, d: int)

  const Zero := Rational(0, 1)

  /** The exact value of a fraction whose denominator is not zero. */
  ghost function Val(r: Rational): real
    requires r.d != 0
  {
    r.n as real / r.d as real
  }

  /** Lowest terms with a positive denominator. */
  predicate IsNormal(r: Rational) {
    r.d > 0 && Gcd(Abs(r.n), r.d) == 1
  }

  // ---------------------------------------------------------------------
  // Greatest common divisor

  /** Euclid's algorithm on magnitudes, the recursion of `gcdBigInt`'s loop. */
  function Gcd(a: nat, b: nat): nat
    decreases b
  {
    if b == 0 then a else Gcd(b, a % b)
  }

  lemma {:induction false} GcdPositive(a: nat, b: nat)
    requires a > 0 || b > 0
    ensures Gcd(a, b) > 0
    decreases b
  {
    if b > 0 && a % b > 0 {
      GcdPositive(b, a % b);
    }
  }

  /** The gcd divides both arguments. */
  lemma {:induction false} GcdDivides(a: nat, b: nat)
    requires a > 0 || b > 0
    ensures Divides(Gcd(a, b), a) && Divides(Gcd(a, b), b)
    decreases b
  {
    GcdPositive(a, b);
    var g := Gcd(a, b);
    if b == 0 {
      DividesProduct(a, 1);
      DividesProduct(a, 0);
    } else {
      GcdDivides(b, a % b);
      DivModBasic(a, b);
      DividesLinear(g, b, a % b, a / b);
    }
  }

  /** Every common divisor divides the gcd. */
  lemma {:induction false} GcdGreatest(a: nat, b: nat, c: int)
    requires Divides(c, a) && Divides(c, b)
    ensures Divides(c, Gcd(a, b))
    decreases b
  {
    if b > 0 {
      DivModBasic(a, b);
      DividesLinear(c, b, a, -(a / b));
      assert b * -(a / b) + a == a % b;
      GcdGreatest(b, a % b, c);
    }
  }

  /** Scaling both arguments scales the gcd. */
  lemma {:induction false} GcdScale(c: nat, a: nat, b: nat)
    requires c > 0
    ensures Gcd(c * a, c * b) == c * Gcd(a, b)
    decreases b
  {
    if b > 0 {
      DivModBasic(a, b);
      var q, r := a / b, a % b;
      assert c * a == (c * b) * q + c * r;
      DivModUnique(c * a, c * b, q, c * r);
      GcdScale(c, b, r);
    }
  }

  /** `gcdBigInt`: the gcd of the magnitudes, or 1 when both are zero. */
  function GcdBigInt(a: int, b: int): (g: int)
    ensures g > 0
    ensures a != 0 || b != 0 ==> Divides(g, a) && Divides(g, b)
    ensures forall c :: Divides(c, a) && Divides(c, b) && (a != 0 || b != 0) ==> Divides(c, g)
  {
    var x := Gcd(Abs(a), Abs(b));
    GcdBigIntFacts(a, b);
    if x == 0 then 1 else x
  }

  lemma GcdBigIntFacts(a: int, b: int)
    ensures var x := Gcd(Abs(a), Abs(b));
            (a != 0 || b != 0) ==>
              x > 0 && Divides(x, a) && Divides(x, b) &&
              forall c :: Divides(c, a) && Divides(c, b) ==> Divides(c, x)
    ensures a == 0 && b == 0 ==> Gcd(Abs(a), Abs(b)) == 0
  {
    var x := Gcd(Abs(a), Abs(b));
    if a != 0 || b != 0 {
      GcdPositive(Abs(a), Abs(b));
      GcdDivides(Abs(a), Abs(b));
      DividesAbs(x, a);
      DividesAbs(x, b);
      forall c | Divides(c, a) && Divides(c, b)
        ensures Divides(c, x)
      {
        DividesAbs(c, a);
        DividesAbs(c, b);
        GcdGreatest(Abs(a), Abs(b), c);
      }
    }
  }

  lemma DividesAbs(k: int, x: int)
    ensures Divides(k, x) <==> Divides(k, Abs(x))
  {
    if Divides(k, x) {
      DividesNeg(k, x);
    }
    if Divides(k, Abs(x)) {
      DividesNeg(k, Abs(x));
    }
  }

  /** The loop of `gcdBigInt`, step for step. */
  method GcdLoop(a: int, b: int) returns (g: int)
    ensures g > 0
    ensures a != 0 || b != 0 ==> Divides(g, a) && Divides(g, b)
    ensures forall c :: Divides(c, a) && Divides(c, b) && (a != 0 || b != 0) ==> Divides(c, g)
  {
    var x: int := if a < 0 then -a else a;
    var y: int := if b < 0 then -b else b;
    while y != 0
      invariant x >= 0 && y >= 0
      invariant Gcd(x, y) == Gcd(Abs(a), Abs(b))
      decreases y
    {
      var t := x % y;
      x := y;
      y := t;
    }
    g := if x == 0 then 1 else x;
    assert g == GcdBigInt(a, b);
  }

  // ---------------------------------------------------------------------
  // Normalisation

  /** `normRational`: a zero denominator gives 0/1; otherwise the sign moves
      to the numerator and both parts are divided by their gcd. */
  function Norm(r: Rational): (q: Rational)
    ensures IsNormal(q)
    ensures r.d == 0 ==> q == Zero
    ensures r.d != 0 ==> Val(q) == Val(r)
    ensures r.n == 0 ==> q == Zero
  {
    if r.d == 0 then Zero
    else
      var n := if r.d < 0 then -r.n else r.n;
      var d := if r.d < 0 then -r.d else r.d;
      var g := GcdBigInt(n, d);
      NormFacts(r, n, d, g);
      var q := Rational(Quot(n, g), Quot(d, g));
      ZeroNormal(q);
      q
  }

  lemma NormFacts(r: Rational, n: int, d: int, g: int)
    requires r.d != 0
    requires n == (if r.d < 0 then -r.n else r.n) && d == (if r.d < 0 then -r.d else r.d)
    requires g == GcdBigInt(n, d)
    ensures var q := Rational(Quot(n, g), Quot(d, g));
            IsNormal(q) && Val(q) == Val(r)
  {
    assert d > 0;
    GcdOfPositive(n, d);
    var n', d' := n / g, d / g;
    ExactQuotient(n, g);
    ExactQuotient(d, g);
    PositiveCofactor(d, g, d');
    AbsCofactor(n, g, n');
    GcdScale(g, Abs(n'), d');
    CancelFactor(g, Gcd(Abs(n'), d'));
    ValScale(n', d', g);
    ValSign(r, n, d);
  }

  lemma GcdOfPositive(n: int, d: int)
    requires d > 0
    ensures GcdBigInt(n, d) == Gcd(Abs(n), d)
    ensures Divides(GcdBigInt(n, d), n) && Divides(GcdBigInt(n, d), d)
  {
    GcdPositive(Abs(n), Abs(d));
  }

  lemma ExactQuotient(x: int, g: int)
    requires Divides(g, x)
    ensures x == g * (x / g) && Quot(x, g) == x / g
  {
    QuotExact(x / g, g);
  }

  lemma PositiveCofactor(d: int, g: int, d': int)
    requires d > 0 && g > 0 && d == g * d'
    ensures d' > 0
  {
  }

  lemma AbsCofactor(n: int, g: int, n': int)
    requires g > 0 && n == g * n'
    ensures Abs(n) == g * Abs(n')
  {
    if n' < 0 {
      assert g * Abs(n') == -(g * n');
    }
  }

  lemma CancelFactor(g: int, t: int)
    requires g > 0 && g == g * t
    ensures t == 1
  {
    assert g * (t - 1) == 0;
  }

  /** The only normal rational of value zero is 0/1. */
  lemma ZeroNormal(q: Rational)
    requires IsNormal(q)
    ensures q.n == 0 ==> q == Zero
  {
    assert Gcd(0, q.d) == Gcd(q.d, 0);
  }

  lemma ValScale(n: int, d: int, g: int)
    requires d != 0 && g != 0
    ensures (g * n) as real / (g * d) as real == n as real / d as real
  {
    assert (g * n) as real == g as real * n as real;
    assert (g * d) as real == g as real * d as real;
  }

  lemma ValSign(r: Rational, n: int, d: int)
    requires r.d != 0
    requires n == (if r.d < 0 then -r.n else r.n) && d == (if r.d < 0 then -r.d else r.d)
    ensures n as real / d as real == Val(r)
  {
  }

  lemma NormalValueMagnitudes(a: Rational, b: Rational)
    requires a.d > 0 && b.d > 0 && Val(a) == Val(b)
    ensures a.n * b.d == b.n * a.d
    ensures Abs(a.n) * b.d == Abs(b.n) * a.d
  {
    assert a.n as real * b.d as real == b.n as real * a.d as real;
    assert (a.n * b.d) as real == (b.n * a.d) as real;
    if a.n < 0 {
      assert b.n < 0;
    }
    if a.n >= 0 {
      assert b.n >= 0;
    }
  }

  /** Two rationals in lowest terms with the same value are identical. */
  lemma {:induction false} NormalUnique(a: Rational, b: Rational)
    requires IsNormal(a) && IsNormal(b) && Val(a) == Val(b)
    ensures a == b
  {
    NormalValueMagnitudes(a, b);
    DenominatorDivides(a, b);
    DenominatorDivides(b, a);
    DividesBound(a.d, b.d);
    DividesBound(b.d, a.d);
    assert a.d == b.d;
    assert a.n * a.d == b.n * a.d;
  }

  /** For equal normal values, a's denominator divides b's. */
  lemma DenominatorDivides(a: Rational, b: Rational)
    requires IsNormal(a) && IsNormal(b)
    requires Abs(a.n) * b.d == Abs(b.n) * a.d
    ensures Divides(a.d, b.d)
  {
    // a.d divides both |b.n| * a.d == |a.n| * b.d and b.d * a.d, hence
    // their gcd, which is b.d * gcd(|a.n|, a.d) == b.d.
    DividesProduct(a.d, Abs(b.n));
    assert Abs(b.n) * a.d == a.d * Abs(b.n);
    DividesProduct(a.d, b.d);
    assert Divides(a.d, b.d * Abs(a.n));
    assert Divides(a.d, b.d * a.d);
    GcdGreatest(b.d * Abs(a.n), b.d * a.d, a.d);
    GcdScale(b.d, Abs(a.n), a.d);
  }

  /** A normal rational is left unchanged by `normRational`. */
  lemma NormOfNormal(r: Rational)
    requires IsNormal(r)
    ensures Norm(r) == r
  {
    NormalUnique(Norm(r), r);
  }

  /** `normRational` returns the one normal rational of the same value, so two
      fractions of equal value normalise identically. */
  lemma NormCanonical(a: Rational, b: Rational)
    requires a.d != 0 && b.d != 0
    ensures Norm(a) == Norm(b) <==> Val(a) == Val(b)
  {
    if Val(a) == Val(b) {
      NormalUnique(Norm(a), Norm(b));
    }
  }

  // ---------------------------------------------------------------------
  // Arithmetic

  /** `addR`. */
  function Add(a: Rational, b: Rational): (r: Rational)
    ensures IsNormal(r)
    ensures a.d != 0 && b.d != 0 ==> Val(r) == Val(a) + Val(b)
    ensures a.d == 0 || b.d == 0 ==> r == Zero
  {
    var s := Rational(a.n * b.d + b.n * a.d, a.d * b.d);
    AddValue(a, b);
    Norm(s)
  }

  lemma AddValue(a: Rational, b: Rational)
    ensures a.d != 0 && b.d != 0 ==> a.d * b.d != 0 && Val(Rational(a.n * b.d + b.n * a.d, a.d * b.d)) == Val(a) + Val(b)
  {
    if a.d != 0 && b.d != 0 {
      var x, y, u, v := a.n as real, a.d as real, b.n as real, b.d as real;
      assert (a.n * b.d + b.n * a.d) as real == x * v + u * y;
      assert (a.d * b.d) as real == y * v;
      assert (x * v + u * y) / (y * v) == x / y + u / v;
    }
  }

  /** `subR`. */
  function Sub(a: Rational, b: Rational): (r: Rational)
    ensures IsNormal(r)
    ensures a.d != 0 && b.d != 0 ==> Val(r) == Val(a) - Val(b)
    ensures a.d == 0 || b.d == 0 ==> r == Zero
  {
    var s := Rational(a.n * b.d - b.n * a.d, a.d * b.d);
    SubValue(a, b);
    Norm(s)
  }

  lemma SubValue(a: Rational, b: Rational)
    ensures a.d != 0 && b.d != 0 ==> a.d * b.d != 0 && Val(Rational(a.n * b.d - b.n * a.d, a.d * b.d)) == Val(a) - Val(b)
  {
    if a.d != 0 && b.d != 0 {
      var x, y, u, v := a.n as real, a.d as real, b.n as real, b.d as real;
      assert (a.n * b.d - b.n * a.d) as real == x * v - u * y;
      assert (a.d * b.d) as real == y * v;
      assert (x * v - u * y) / (y * v) == x / y - u / v;
    }
  }

  /** `mulR`. */
  function Mul(a: Rational, b: Rational): (r: Rational)
    ensures IsNormal(r)
    ensures a.d != 0 && b.d != 0 ==> Val(r) == Val(a) * Val(b)
    ensures a.d == 0 || b.d == 0 ==> r == Zero
  {
    var s := Rational(a.n * b.n, a.d * b.d);
    MulValue(a, b);
    Norm(s)
  }

  lemma MulValue(a: Rational, b: Rational)
    ensures a.d != 0 && b.d != 0 ==> a.d * b.d != 0 && Val(Rational(a.n * b.n, a.d * b.d)) == Val(a) * Val(b)
  {
    if a.d != 0 && b.d != 0 {
      var x, y, u, v := a.n as real, a.d as real, b.n as real, b.d as real;
      assert (a.n * b.n) as real == x * u;
      assert (a.d * b.d) as real == y * v;
      assert (x * u) / (y * v) == (x / y) * (u / v);
    }
  }

  /** `divR`: dividing by a zero-valued numerator yields 0/1 instead of
      failing. */
  function Div(a: Rational, b: Rational): (r: Rational)
    ensures IsNormal(r)
    ensures a.d != 0 && b.d != 0 && b.n != 0 ==> Val(r) == Val(a) / Val(b)
    ensures b.n == 0 || a.d == 0 || b.d == 0 ==> r == Zero
  {
    if b.n == 0 then
      assert Gcd(0, 1) == 1;
      Zero
    else
      var s := Rational(a.n * b.d, a.d * b.n);
      DivValue(a, b);
      Norm(s)
  }

  lemma DivValue(a: Rational, b: Rational)
    requires b.n != 0
    ensures a.d != 0 && b.d != 0 ==> a.d * b.n != 0 && Val(Rational(a.n * b.d, a.d * b.n)) == Val(a) / Val(b)
  {
    if a.d != 0 && b.d != 0 {
      var x, y, u, v := a.n as real, a.d as real, b.n as real, b.d as real;
      assert (a.n * b.d) as real == x * v;
      assert (a.d * b.n) as real == y * u;
      assert (x * v) / (y * u) == (x / y) / (u / v);
    }
  }

  // ---------------------------------------------------------------------
  // Fixed-point conversions

  /** `fromScaledUnits`: the fraction scaled / 10^6 (not normalised). */
  function FromScaled(scaled: int): (r: Rational)
    ensures r.d > 0
    ensures Val(r) == scaled as real / Scale as real
  {
    Rational(scaled, Scale)
  }

  /** q is x truncated toward zero. */
  ghost predicate TruncatesTo(x: real, q: int) {
    && (x >= 0.0 ==> q as real <= x < q as real + 1.0)
    && (x < 0.0 ==> q as real - 1.0 < x <= q as real)
  }

  /** `toScaledUnits`: r * 10^6, truncated toward zero as JavaScript BigInt
      division does (so a value just below zero gives 0, not -1). */
  function ToScaled(r: Rational): (q: int)
    ensures r.d != 0 ==> TruncatesTo(Val(r) * Scale as real, q)
    ensures r.d == 0 ==> q == 0
  {
    var rr := Norm(r);
    var q := Quot(rr.n * Scale, rr.d);
    ToScaledFacts(rr.n * Scale, rr.d, q);
    ScaleVal(rr);
    q
  }

  lemma ScaleVal(r: Rational)
    requires r.d != 0
    ensures Val(r) * Scale as real == (r.n * Scale) as real / r.d as real
  {
  }

  /** The BigInt quotient of integers is the truncation of their real quotient. */
  lemma ToScaledFacts(x: int, d: int, q: int)
    requires d > 0
    requires Abs(x - q * d) < d
    requires x - q * d == 0 || ((x - q * d < 0) <==> (x < 0))
    ensures TruncatesTo(x as real / d as real, q)
  {
    var rem := x - q * d;
    var dr := d as real;
    var f := rem as real / dr;
    assert x as real / dr == q as real + f by {
      assert x as real == (q * d) as real + rem as real;
      assert (q * d) as real == q as real * dr;
    }
    if x >= 0 {
      assert 0 <= rem < d;
      RealFractionBounds(rem, d);
    } else {
      assert -d < rem <= 0;
      RealFractionBounds(-rem, d);
      assert f == -((-rem) as real / dr);
    }
  }

  lemma RealFractionBounds(a: int, d: int)
    requires 0 <= a < d
    ensures 0.0 <= a as real / d as real < 1.0
  {
  }

  /** Two truncations of the same number agree. */
  lemma TruncationUnique(x: real, q1: int, q2: int)
    requires TruncatesTo(x, q1) && TruncatesTo(x, q2)
    ensures q1 == q2
  {
  }

  /** Scaling back a fixed-point amount returns it exactly. */
  lemma ToScaledFromScaled(s: int)
    ensures ToScaled(FromScaled(s)) == s
  {
    var r := FromScaled(s);
    assert Val(r) * Scale as real == s as real;
    TruncationUnique(s as real, ToScaled(r), s);
  }
}
