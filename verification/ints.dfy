/** Integer helpers shared by the engine: powers of ten, the fixed-point
    scale, absolute value, divisibility and the JavaScript BigInt quotient
    (which truncates toward zero, unlike Dafny's Euclidean `/`). */
module Ints {

  /** The engine's fixed-point scale: six decimal places. */
  const Scale: int := 1000000

  function Abs(x: int): nat {
    if x < 0 then -x else x
  }

  function Pow10(k: nat): (r: nat)
    ensures r >= 1
  {
    if k == 0 then 1 else 10 * Pow10(k - 1)
  }

  lemma Pow10Add(a: nat, b: nat)
    ensures Pow10(a + b) == Pow10(a) * Pow10(b)
  {
    if a > 0 {
      Pow10Add(a - 1, b);
    }
  }

  lemma Pow10Monotone(a: nat, b: nat)
    requires a <= b
    ensures Pow10(a) <= Pow10(b)
  {
    if a < b {
      Pow10Monotone(a, b - 1);
    }
  }

  lemma Pow10Scale()
    ensures Pow10(6) == Scale
  {
  }

  /** k divides x (k positive). */
  predicate Divides(k: int, x: int) {
    k > 0 && x % k == 0
  }

  /** A product of a positive number with a number strictly between -1 and 1
      in magnitude relation: if |b*t| < b then t is zero. */
  lemma MulSmallIsZero(b: int, t: int)
    requires b > 0
    requires -b < b * t < b
    ensures t == 0
  {
  }

  /** Euclidean division is determined by quotient and remainder bounds. */
  lemma DivModUnique(a: int, b: int, q: int, r: int)
    requires b > 0
    requires 0 <= r < b
    requires a == b * q + r
    ensures a / b == q && a % b == r
  {
    var q', r' := a / b, a % b;
    assert a == b * q' + r';
    assert b * (q - q') == r' - r;
    MulSmallIsZero(b, q - q');
  }

  lemma DividesProduct(k: int, t: int)
    requires k > 0
    ensures Divides(k, k * t)
  {
    DivModUnique(k * t, k, t, 0);
  }

  /** A divisible number is the divisor times its quotient. */
  lemma DividesWitness(k: int, x: int)
    requires Divides(k, x)
    ensures x == k * (x / k)
  {
  }

  /** Divisibility is closed under `x * m + y`. */
  lemma DividesLinear(k: int, x: int, y: int, m: int)
    requires Divides(k, x) && Divides(k, y)
    ensures Divides(k, x * m + y)
  {
    var a, b := x / k, y / k;
    assert x == k * a && y == k * b;
    assert x * m + y == k * (a * m + b) by {
      assert x * m == k * (a * m);
    }
    DividesProduct(k, a * m + b);
  }

  lemma DividesNeg(k: int, x: int)
    requires Divides(k, x)
    ensures Divides(k, -x) && Divides(k, Abs(x))
  {
    DividesLinear(k, x, 0, -1);
  }

  /** A positive multiple is at least as large as its divisor. */
  lemma DividesBound(k: int, x: int)
    requires Divides(k, x) && x > 0
    ensures k <= x
  {
    var t := x / k;
    assert x == k * t;
    if t > 0 {
      assert k * t == k + k * (t - 1);
      assert k * (t - 1) >= 0;
    }
  }

  /** JavaScript BigInt division `a / b`: the quotient truncated toward zero.
      The remainder `a - q * b` is smaller than `b` in magnitude and never has
      the opposite sign of `a` (Dafny's `/` would floor instead for a < 0). */
  function Quot(a: int, b: int): (q: int)
    requires b != 0
    ensures Abs(a - q * b) < Abs(b)
    ensures a - q * b == 0 || ((a - q * b < 0) <==> (a < 0))
  {
    var x, y := Abs(a), Abs(b);
    var m, r := x / y, x % y;
    DivModBasic(x, y);
    var q := if (a < 0) == (b < 0) then m else -m;
    QuotFacts(a, b, m, r, q);
    q
  }

  lemma DivModBasic(x: int, y: int)
    requires y > 0
    ensures x == y * (x / y) + x % y && 0 <= x % y < y
  {
  }

  lemma QuotFacts(a: int, b: int, m: int, r: int, q: int)
    requires b != 0
    requires Abs(a) == Abs(b) * m + r && 0 <= r < Abs(b)
    requires q == if (a < 0) == (b < 0) then m else -m
    ensures Abs(a - q * b) < Abs(b)
    ensures a - q * b == 0 || ((a - q * b < 0) <==> (a < 0))
  {
    if b > 0 {
      if a >= 0 {
        assert a - q * b == r;
      } else {
        assert q * b == -(m * b);
        assert a - q * b == -r;
      }
    } else {
      var c := -b;
      assert Abs(b) == c;
      if a >= 0 {
        assert q * b == m * c;
        assert a - q * b == r;
      } else {
        assert q * b == -(m * c);
        assert a - q * b == -r;
      }
    }
  }

  /** On non-negative operands the BigInt quotient is Dafny's `/`. */
  lemma QuotNonNeg(a: int, b: int)
    requires a >= 0 && b > 0
    ensures Quot(a, b) == a / b
  {
  }

  /** An exact division returns the cofactor, whatever the signs. */
  lemma QuotExact(k: int, b: int)
    requires b > 0
    ensures Quot(b * k, b) == k
  {
    var q := Quot(b * k, b);
    var rem := b * k - q * b;
    assert rem == b * (k - q);
    MulSmallIsZero(b, k - q);
  }
}
