/** Strings of ASCII digits and their values: `BigInt(digits)`,
    `bigint.toString()`, and the six-digit fraction the parser builds with
    `slice(0, 6)` and `padEnd(6, "0")`. */
module Digits {
  import opened Ints
  import opened Text

  predicate AllDigits(s: string) {
    forall i :: 0 <= i < |s| ==> IsDigit(s[i])
  }

  function DigitVal(c: char): (v: nat)
    requires IsDigit(c)
    ensures v < 10
  {
    c as int - '0' as int
  }

  function DigitChar(v: nat): (c: char)
    requires v < 10
    ensures IsDigit(c) && DigitVal(c) == v
  {
    ('0' as int + v) as char
  }

  /** `BigInt(s)` for a string of digits (the empty string is 0n). */
  function Value(s: string): (v: nat)
    requires AllDigits(s)
    ensures v < Pow10(|s|)
  {
    if s == [] then 0
    else
      var v := Value(s[..|s| - 1]) * 10 + DigitVal(s[|s| - 1]);
      assert v < Pow10(|s|) by {
        assert Value(s[..|s| - 1]) + 1 <= Pow10(|s| - 1);
      }
      v
  }

  lemma {:induction false} ValueAppend(a: string, b: string)
    requires AllDigits(a) && AllDigits(b)
    ensures AllDigits(a + b)
    ensures Value(a + b) == Value(a) * Pow10(|b|) + Value(b)
    decreases |b|
  {
    if b == [] {
      assert a + b == a;
    } else {
      var b' := b[..|b| - 1];
      var last := b[|b| - 1];
      assert (a + b)[..|a + b| - 1] == a + b';
      assert (a + b)[|a + b| - 1] == last;
      ValueAppend(a, b');
      assert Value(a + b) == Value(a + b') * 10 + DigitVal(last);
      assert Value(b) == Value(b') * 10 + DigitVal(last);
      assert Pow10(|b|) == 10 * Pow10(|b'|);
      ShiftDigit(Value(a), Pow10(|b'|), Value(b'), DigitVal(last));
    }
  }

  lemma ShiftDigit(x: int, p: int, y: int, d: int)
    ensures (x * p + y) * 10 + d == x * (10 * p) + (y * 10 + d)
  {
  }

  /** A run of zeros is worth nothing. */
  lemma {:induction false} ValueZeros(n: nat)
    ensures AllDigits(seq(n, _ => '0'))
    ensures Value(seq(n, _ => '0')) == 0
  {
    if n > 0 {
      var z := seq(n, _ => '0');
      assert z[..n - 1] == seq(n - 1, _ => '0');
      ValueZeros(n - 1);
    }
  }

  /** Leading zeros do not change the value. */
  lemma PadStartValue(s: string, n: nat)
    requires AllDigits(s)
    ensures AllDigits(PadStart(s, n, '0'))
    ensures Value(PadStart(s, n, '0')) == Value(s)
  {
    if |s| < n {
      var z := seq(n - |s|, _ => '0');
      ValueZeros(n - |s|);
      ValueAppend(z, s);
    }
  }

  /** Trailing zeros multiply by a power of ten. */
  lemma PadEndValue(s: string, n: nat)
    requires AllDigits(s) && |s| <= n
    ensures AllDigits(PadEnd(s, n, '0'))
    ensures Value(PadEnd(s, n, '0')) == Value(s) * Pow10(n - |s|)
  {
    if |s| < n {
      var z := seq(n - |s|, _ => '0');
      ValueZeros(n - |s|);
      ValueAppend(s, z);
    }
  }

  /** `bigint.toString()` of a non-negative number: its decimal digits without
      leading zeros. */
  function NatToString(n: nat): (s: string)
    ensures AllDigits(s) && |s| >= 1
    ensures Value(s) == n
    ensures |s| > 1 ==> s[0] != '0'
  {
    if n < 10 then [DigitChar(n)]
    else
      var s := NatToString(n / 10) + [DigitChar(n % 10)];
      assert s[..|s| - 1] == NatToString(n / 10);
      s
  }

  /** The six fraction digits of the parser: the first six digits of `f`,
      right-padded with zeros (`fracStrRaw.slice(0, 6).padEnd(6, "0")`). */
  function Frac6(f: string): (r: string)
    requires AllDigits(f)
    ensures |r| == 6 && AllDigits(r)
  {
    PadEnd(Prefix(f, 6), 6, '0')
  }

  /** No fraction digits are six zeros. */
  lemma Frac6Empty()
    ensures Value(Frac6("")) == 0
  {
    assert Frac6("") == seq(6, _ => '0');
    ValueZeros(6);
  }

  /** The six-digit fraction is the fraction's value scaled by 10^6 and
      truncated, never rounded: floor(0.f * 10^6). */
  lemma {:induction false} Frac6Truncates(f: string)
    requires AllDigits(f)
    ensures Value(Frac6(f)) == (Value(f) * Scale) / Pow10(|f|)
  {
    Pow10Scale();
    if |f| <= 6 {
      assert Prefix(f, 6) == f;
      PadEndValue(f, 6);
      Pow10Add(|f|, 6 - |f|);
      var v, p, q := Value(f), Pow10(|f|), Pow10(6 - |f|);
      ShortFraction(v, p, q);
      DivModUnique(v * Scale, p, v * q, 0);
    } else {
      var head, tail := f[..6], f[6..];
      assert f == head + tail;
      assert Prefix(f, 6) == head;
      PadEndValue(head, 6);
      ValueAppend(head, tail);
      Pow10Add(6, |tail|);
      LongFraction(Value(f), Value(head), Pow10(|tail|), Value(tail), Scale);
      DivModUnique(Value(f) * Scale, Pow10(|f|), Value(head), Value(tail) * Scale);
    }
  }

  lemma ShortFraction(v: int, p: int, q: int)
    ensures v * (p * q) == p * (v * q) + 0
  {
  }

  lemma LongFraction(v: int, h: int, k: int, t: int, s: int)
    requires v == h * k + t && 0 <= t < k && s > 0
    ensures v * s == (s * k) * h + t * s && 0 <= t * s < s * k
  {
    assert v * s == h * k * s + t * s;
    assert (k - t) * s > 0;
  }
}
