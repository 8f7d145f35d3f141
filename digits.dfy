/** Decimal digit text: the integer and fraction digit strings the decimal
    type prints and reads, and powers of ten. */
module Digits {

  function Pow10(n: nat): (r: nat)
    ensures r >= 1
  {
    if n == 0 then 1 else 10 * Pow10(n - 1)
  }

  lemma {:induction false} Pow10Add(a: nat, b: nat)
    ensures Pow10(a + b) == Pow10(a) * Pow10(b)
  {
    if a > 0 {
      Pow10Add(a - 1, b);
      assert Pow10(a + b) == 10 * Pow10(a - 1 + b);
    }
  }

  lemma Pow10Monotone(a: nat, b: nat)
    requires a <= b
    ensures Pow10(a) <= Pow10(b)
  {
    Pow10Add(a, b - a);
  }

  // Facts about products and quotients stated over plain integers, so that the
  // solver does not unfold Pow10 while proving them.

  lemma MulAssoc(a: int, b: int, c: int)
    ensures a * (b * c) == (a * b) * c
    ensures a * (b * c) == (a * c) * b
  {
  }

  lemma DivNonneg(m: int, p: int)
    requires m >= 0 && p > 0
    ensures 0 <= m / p <= m
  {
    var q, r := m / p, m % p;
    assert m == p * q + r;
    if q < 0 {
      MulAtLeast(p, -q);
    }
    if q > m {
      MulAtLeast(q, p);
    }
  }

  lemma ModIdempotent(x: int, p: int)
    requires p > 0
    ensures (x % p) % p == x % p
  {
    DivModUnique(x % p, p, 0, x % p);
  }

  lemma MulAtLeast(d: int, z: int)
    requires d > 0 && z >= 1
    ensures d * z >= d
  {
    if z > 1 {
      MulAtLeast(d, z - 1);
      assert d * z == d * (z - 1) + d;
    }
  }

  /** Quotient and remainder are the unique pair with x == d * q + r, 0 <= r < d. */
  lemma DivModUnique(x: int, d: int, q: int, r: int)
    requires d > 0 && x == d * q + r && 0 <= r < d
    ensures x / d == q && x % d == r
  {
    var q' := x / d;
    assert x == d * q' + x % d;
    if q > q' {
      MulAtLeast(d, q - q');
    } else if q < q' {
      MulAtLeast(d, q' - q);
    }
  }

  lemma MulMonotone(a: int, m: int, n: int)
    requires a >= 0 && m <= n
    ensures a * m <= a * n
  {
    assert a * n - a * m == a * (n - m);
  }

  lemma DivDiv(x: nat, a: nat, b: nat)
    requires a > 0 && b > 0
    ensures x / a / b == x / (a * b)
  {
    var y, ra := x / a, x % a;
    var q, m := y / b, y % b;
    assert x == a * y + ra;
    assert y == b * q + m;
    assert a * y == a * (b * q) + a * m;
    assert a * (b * q) == (a * b) * q;
    MulMonotone(a, m, b - 1);
    assert a * (b - 1) == a * b - a;
    DivModUnique(x, a * b, q, a * m + ra);
  }

  lemma MulDivCancel(x: int, c: int)
    requires c > 0
    ensures (x * c) / c == x && (x * c) % c == 0
  {
    DivModUnique(x * c, c, x, 0);
  }

  predicate IsDigit(c: char) { '0' <= c <= '9' }

  predicate AllDigits(s: string) { forall i :: 0 <= i < |s| ==> IsDigit(s[i]) }

  function DigitChar(d: nat): (c: char)
    requires d < 10
    ensures IsDigit(c)
  {
    ('0' as int + d) as char
  }

  function DigitValue(c: char): (d: nat)
    requires IsDigit(c)
    ensures d < 10 && DigitChar(d) == c
  {
    c as int - '0' as int
  }

  /** The canonical digits of `x`: no leading zero except for 0 itself. */
  function IntDigits(x: nat): (s: string)
    ensures |s| >= 1 && AllDigits(s)
    ensures |s| > 1 ==> s[0] != '0'
    ensures s[|s| - 1] == DigitChar(x % 10)
  {
    if x < 10 then [DigitChar(x)] else IntDigits(x / 10) + [DigitChar(x % 10)]
  }

  /** The `w` lowest decimal digits of `x`, zero-padded on the left. */
  function FracDigits(x: nat, w: nat): (s: string)
    ensures |s| == w && AllDigits(s)
  {
    if w == 0 then [] else FracDigits(x / 10, w - 1) + [DigitChar(x % 10)]
  }

  /** The number a digit string denotes (PHP's (int) cast on digit text). */
  function DigitsValue(s: string): nat
    requires AllDigits(s)
  {
    if s == [] then 0 else 10 * DigitsValue(s[..|s| - 1]) + DigitValue(s[|s| - 1])
  }

  lemma {:induction false} IntDigitsValue(x: nat)
    ensures DigitsValue(IntDigits(x)) == x
  {
    if x >= 10 {
      IntDigitsValue(x / 10);
      var s := IntDigits(x);
      assert s[..|s| - 1] == IntDigits(x / 10);
    }
  }

  lemma ModTen(x: nat, p: nat)
    requires p >= 1
    ensures x % (10 * p) == 10 * ((x / 10) % p) + x % 10
  {
    var y, d := x / 10, x % 10;
    var k, m := y / p, y % p;
    assert x == 10 * y + d;
    assert y == p * k + m;
    assert 10 * y == (10 * p) * k + 10 * m;
    DivModUnique(x, 10 * p, k, 10 * m + d);
  }
  /** x / 10^k, one digit at a time. */
  function DropDigits(x: nat, k: nat): nat
  {
    if k == 0 then x else DropDigits(x / 10, k - 1)
  }

  /** x % 10^k, one digit at a time. */
  function LowDigits(x: nat, k: nat): nat
  {
    if k == 0 then 0 else 10 * LowDigits(x / 10, k - 1) + x % 10
  }

  lemma {:induction false} DropLowDigits(x: nat, k: nat)
    ensures DropDigits(x, k) == x / Pow10(k)
    ensures LowDigits(x, k) == x % Pow10(k)
  {
    if k > 0 {
      DropLowDigits(x / 10, k - 1);
      DivDiv(x, 10, Pow10(k - 1));
      ModTen(x, Pow10(k - 1));
    }
  }


  lemma {:induction false} FracDigitsValue(x: nat, w: nat)
    ensures DigitsValue(FracDigits(x, w)) == x % Pow10(w)
  {
    if w > 0 {
      FracDigitsValue(x / 10, w - 1);
      var s := FracDigits(x, w);
      assert s[..|s| - 1] == FracDigits(x / 10, w - 1);
      ModTen(x, Pow10(w - 1));
    }
  }

  lemma ShiftStep(vs: int, vt: int, p: int, c: int)
    ensures 10 * (vs * p + vt) + c == vs * (10 * p) + (10 * vt + c)
  {
  }

  /** Appending digits shifts the value left by their count. */
  lemma {:induction false} DigitsValueAppend(s: string, t: string)
    requires AllDigits(s) && AllDigits(t)
    ensures AllDigits(s + t)
    ensures DigitsValue(s + t) == DigitsValue(s) * Pow10(|t|) + DigitsValue(t)
    decreases |t|
  {
    if t == [] {
      assert s + t == s;
    } else {
      var t' := t[..|t| - 1];
      assert (s + t)[..|s + t| - 1] == s + t';
      DigitsValueAppend(s, t');
      ShiftStep(DigitsValue(s), DigitsValue(t'), Pow10(|t'|), DigitValue(t[|t| - 1]));
    }
  }

  lemma DigitsValueBound(s: string)
    requires AllDigits(s)
    ensures DigitsValue(s) < Pow10(|s|)
  {
    if s != [] {
      DigitsValueBound(s[..|s| - 1]);
    }
  }
}
