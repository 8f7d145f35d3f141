/** The arbitrary-precision decimal type the arithmetic class builds on
    (PHP's BcMath\Number). It is not part of the class itself: it is modelled
    here as exact functions over decimals `unscaled / 10^scale`, with results
    cut toward zero at the requested scale, the way the decimal type does. */
module Decimal {
  import opened Digits
  import opened Wrappers

  /** The value `unscaled / 10^scale`; it prints with exactly `scale` fraction digits. */
  datatype Number = Number(unscaled: int, scale: nat)

  const Zero := Number(0, 0)

  function AbsInt(x: int): nat { if x < 0 then -x else x }

  function Max(a: int, b: int): int { if a < b then b else a }

  /** Two decimals denote the same rational number. */
  predicate SameValue(a: Number, b: Number)
  {
    a.unscaled * Pow10(b.scale) == b.unscaled * Pow10(a.scale)
  }

  predicate IsInteger(n: Number) { n.unscaled % Pow10(n.scale) == 0 }

  // ----- integer helpers -----

  /** Division that cuts toward zero, as the decimal type's division does. */
  function TruncDiv(x: int, y: int): int
    requires y != 0
  {
    var q := AbsInt(x) / AbsInt(y);
    if (x < 0) == (y < 0) then q else -q
  }

  /** Division that rounds toward negative infinity. */
  function FloorDiv(x: int, y: int): int
    requires y != 0
  {
    if y > 0 then x / y else (-x) / (-y)
  }

  /** The remainder that keeps the sign of the dividend (x - y * TruncDiv(x, y)). */
  function TruncRem(x: int, y: int): int
    requires y != 0
  {
    x - y * TruncDiv(x, y)
  }

  function IntPow(b: int, e: nat): int
  {
    if e == 0 then 1 else b * IntPow(b, e - 1)
  }

  lemma CancelRight(x: int, y: int, c: int)
    requires c > 0 && x * c == y * c
    ensures x == y
  {
    if x < y {
      assert y * c - x * c == (y - x) * c;
      MulAtLeast(c, y - x);
    } else if x > y {
      assert x * c - y * c == (x - y) * c;
      MulAtLeast(c, x - y);
    }
  }

  lemma MulDivMul(x: int, y: int, c: int)
    requires y > 0 && c > 0
    ensures (x * c) / (y * c) == x / y
  {
    var q, r := x / y, x % y;
    assert x == y * q + r;
    assert x * c == (y * c) * q + r * c;
    MulMonotone(c, r, y - 1);
    assert c * (y - 1) == y * c - c;
    DivModUnique(x * c, y * c, q, r * c);
  }

  lemma AbsMul(x: int, c: int)
    requires c > 0
    ensures AbsInt(x * c) == AbsInt(x) * c
  {
    if x < 0 {
      assert x * c == -((-x) * c);
    }
  }

  lemma TruncDivScale(x: int, y: int, c: int)
    requires y != 0 && c > 0
    ensures y * c != 0
    ensures TruncDiv(x * c, y * c) == TruncDiv(x, y)
  {
    AbsMul(x, c);
    AbsMul(y, c);
    MulDivMul(AbsInt(x), AbsInt(y), c);
    if y < 0 { assert y * c < 0; } else { assert y * c > 0; }
    if x < 0 { assert x * c < 0; } else { assert x * c >= 0; }
  }

  lemma TruncDivExact(x: int, y: int)
    requires y != 0
    ensures TruncDiv(x * y, y) == x
  {
    assert AbsInt(x * y) == AbsInt(x) * AbsInt(y) by {
      if x < 0 && y < 0 { assert x * y == (-x) * (-y); }
      else if x < 0 { assert x * y == -((-x) * y); }
      else if y < 0 { assert x * y == -(x * (-y)); }
    }
    MulDivCancel(AbsInt(x), AbsInt(y));
    if x == 0 {
    } else if (x < 0) == (y < 0) {
      assert x * y > 0 by {
        if x < 0 { assert x * y == (-x) * (-y); MulAtLeast(-x, -y); }
        else { MulAtLeast(x, y); }
      }
    } else {
      assert x * y < 0 by {
        if x < 0 { assert x * y == -((-x) * y); MulAtLeast(y, -x); }
        else { assert x * y == -(x * (-y)); MulAtLeast(x, -y); }
      }
    }
  }

  // ----- text form -----

  /** The integer digits' value and the fraction digits' value of |n|. */
  function Whole(n: Number): nat
  {
    DropDigits(AbsInt(n.unscaled), n.scale)
  }

  function Fraction(n: Number): nat
  {
    LowDigits(AbsInt(n.unscaled), n.scale)
  }

  lemma WholeFraction(n: Number)
    ensures Whole(n) == AbsInt(n.unscaled) / Pow10(n.scale)
    ensures Fraction(n) == AbsInt(n.unscaled) % Pow10(n.scale)
    ensures AbsInt(n.unscaled) == Whole(n) * Pow10(n.scale) + Fraction(n)
  {
    DropLowDigits(AbsInt(n.unscaled), n.scale);
  }

  /** The decimal type's text: optional '-', the integer digits, and when the
      scale is positive a '.' followed by exactly `scale` digits. */
  function Render(n: Number): (s: string)
    ensures |s| >= 1
  {
    (if n.unscaled < 0 then "-" else "")
      + IntDigits(Whole(n))
      + (if n.scale == 0 then "" else "." + FracDigits(Fraction(n), n.scale))
  }

  /** Position of the first `c` in `s`, or |s| when there is none. */
  function FirstIndex(s: string, c: char): (k: nat)
    ensures k <= |s|
    ensures k < |s| ==> s[k] == c
  {
    if s == [] then 0 else if s[0] == c then 0 else 1 + FirstIndex(s[1..], c)
  }

  /** No `c` comes before the first one. */
  lemma {:induction false} FirstIndexBefore(s: string, c: char)
    ensures forall i :: 0 <= i < FirstIndex(s, c) ==> s[i] != c
  {
    if s != [] && s[0] != c {
      FirstIndexBefore(s[1..], c);
    }
  }

  /** The digits before and after the first '.', sign removed. */
  function IntegerPart(body: string): string
  {
    body[..FirstIndex(body, '.')]
  }

  function FractionPart(body: string): string
  {
    var k := FirstIndex(body, '.');
    if k < |body| then body[k + 1..] else ""
  }

  function Unsigned(s: string): string
  {
    if |s| > 0 && (s[0] == '-' || s[0] == '+') then s[1..] else s
  }

  /** The text the decimal type's constructor accepts: an optional sign,
      digits, an optional '.' and digits, at least one digit in all. */
  predicate WellFormed(s: string)
  {
    var body := Unsigned(s);
    AllDigits(IntegerPart(body)) && AllDigits(FractionPart(body))
      && |IntegerPart(body)| + |FractionPart(body)| > 0
  }

  /** The decimal type's constructor on text; None where it raises a ValueError. */
  function Parse(s: string): (r: Option<Number>)
    ensures r.Some? <==> WellFormed(s)
  {
    if !WellFormed(s) then None
    else
      var body := Unsigned(s);
      var ip, fp := IntegerPart(body), FractionPart(body);
      var mag := DigitsValue(ip) * Pow10(|fp|) + DigitsValue(fp);
      Some(Number(if |s| > 0 && s[0] == '-' then -mag else mag, |fp|))
  }

  lemma RenderParts(n: Number)
    ensures var s := Render(n);
      Unsigned(s) == IntDigits(Whole(n)) + (if n.scale == 0 then "" else "." + FracDigits(Fraction(n), n.scale))
      && (s[0] == '-' <==> n.unscaled < 0)
      && IntegerPart(Unsigned(s)) == IntDigits(Whole(n))
      && FractionPart(Unsigned(s)) == FracDigits(Fraction(n), n.scale)
  {
    var ip := IntDigits(Whole(n));
    var tail := if n.scale == 0 then "" else "." + FracDigits(Fraction(n), n.scale);
    var body := ip + tail;
    var s := Render(n);
    if n.unscaled < 0 {
      assert s == "-" + body;
      assert s[1..] == body;
    } else {
      assert s == body;
      assert IsDigit(body[0]);
    }
    assert Unsigned(s) == body;
    FirstIndexOfDigitsThen(ip, tail);
  }

  lemma {:induction false} FirstIndexOfDigitsThen(ip: string, tail: string)
    requires AllDigits(ip)
    requires tail == [] || tail[0] == '.'
    ensures FirstIndex(ip + tail, '.') == |ip|
    ensures IntegerPart(ip + tail) == ip
    ensures FractionPart(ip + tail) == if tail == [] then [] else tail[1..]
  {
    var body := ip + tail;
    if ip == [] {
      assert body == tail;
    } else {
      assert body[0] == ip[0] && ip[0] != '.';
      assert body[1..] == ip[1..] + tail;
      FirstIndexOfDigitsThen(ip[1..], tail);
    }
    assert body[..|ip|] == ip;
    if tail != [] {
      assert body[|ip| + 1..] == tail[1..];
    }
  }

  /** Reading back what the decimal type prints gives the same decimal. */
  lemma ParseRender(n: Number)
    ensures Parse(Render(n)) == Some(n)
  {
    RenderParts(n);
    IntDigitsValue(Whole(n));
    FracDigitsValue(Fraction(n), n.scale);
    WholeFraction(n);
    ModIdempotent(AbsInt(n.unscaled), Pow10(n.scale));
  }

  /** Every character of the text is a digit, a '-' sign at the front, or the one '.'. */
  lemma RenderShape(n: Number)
    ensures var s := Render(n);
      IsDigit(s[|s| - 1])
      && (forall i :: 0 <= i < |s| ==> IsDigit(s[i]) || s[i] == '.' || (i == 0 && s[i] == '-'))
      && (n.scale == 0 ==> forall i :: 0 <= i < |s| ==> s[i] != '.')
      && (n.scale > 0 ==>
            |s| > n.scale && s[|s| - 1 - n.scale] == '.'
            && forall i :: 0 <= i < |s| && i != |s| - 1 - n.scale ==> s[i] != '.')
  {
    var sign := if n.unscaled < 0 then "-" else "";
    var ip := IntDigits(Whole(n));
    var fd := FracDigits(Fraction(n), n.scale);
    var s := Render(n);
    if n.scale == 0 {
      assert s == sign + ip;
    } else {
      assert s == sign + ip + "." + fd;
      assert |s| == |sign| + |ip| + 1 + n.scale;
      assert forall i :: |sign| + |ip| < i < |s| ==> s[i] == fd[i - |sign| - |ip| - 1];
    }
  }

  /** Appending a zero digit to the unscaled value and the scale appends a '0' to the text. */
  lemma RenderTimesTen(v: int, s: nat)
    requires s >= 1
    ensures Render(Number(10 * v, s)) == Render(Number(v, s - 1)) + (if s == 1 then ".0" else "0")
  {
    var n, n' := Number(10 * v, s), Number(v, s - 1);
    var p := Pow10(s - 1);
    assert AbsInt(10 * v) == AbsInt(v) * 10;
    assert Pow10(s) == p * 10;
    MulDivMul(AbsInt(v), p, 10);
    assert Whole(n) == Whole(n');
    ModMul(AbsInt(v), p, 10);
    assert Fraction(n) == Fraction(n') * 10;
    assert (Fraction(n') * 10) / 10 == Fraction(n') && (Fraction(n') * 10) % 10 == 0 by {
      MulDivCancel(Fraction(n'), 10);
    }
    assert FracDigits(Fraction(n), s) == FracDigits(Fraction(n'), s - 1) + "0";
    if s == 1 {
      assert Render(n') == (if v < 0 then "-" else "") + IntDigits(Whole(n'));
    }
  }

  lemma ModMul(x: int, y: int, c: int)
    requires y > 0 && c > 0
    ensures (x * c) % (y * c) == (x % y) * c
  {
    var q, r := x / y, x % y;
    assert x == y * q + r;
    assert x * c == (y * c) * q + r * c;
    MulMonotone(c, r, y - 1);
    assert c * (y - 1) == y * c - c;
    DivModUnique(x * c, y * c, q, r * c);
  }

  // ----- value-preserving rewrites -----

  /** Strip zero fraction digits from the right (what trimming the text does to the value). */
  function Reduce(n: Number): (r: Number)
    ensures r.scale <= n.scale
    ensures r.scale == 0 || r.unscaled % 10 != 0
    decreases n.scale
  {
    if n.scale > 0 && n.unscaled % 10 == 0 then Reduce(Number(n.unscaled / 10, n.scale - 1)) else n
  }

  lemma SameValueRefl(a: Number)
    ensures SameValue(a, a)
  {
  }

  lemma SameValueSym(a: Number, b: Number)
    requires SameValue(a, b)
    ensures SameValue(b, a)
  {
  }

  lemma SameValueTrans(a: Number, b: Number, c: Number)
    requires SameValue(a, b) && SameValue(b, c)
    ensures SameValue(a, c)
  {
    var pa, pb, pc := Pow10(a.scale), Pow10(b.scale), Pow10(c.scale);
    assert (a.unscaled * pc) * pb == (a.unscaled * pb) * pc;
    assert (a.unscaled * pb) * pc == (b.unscaled * pa) * pc;
    assert (b.unscaled * pa) * pc == (b.unscaled * pc) * pa;
    assert (b.unscaled * pc) * pa == (c.unscaled * pb) * pa;
    assert (c.unscaled * pb) * pa == (c.unscaled * pa) * pb;
    CancelRight(a.unscaled * pc, c.unscaled * pa, pb);
  }

  lemma ShiftSameValue(u: int, s: nat, k: nat)
    ensures SameValue(Number(u * Pow10(k), s + k), Number(u, s))
  {
    Pow10Add(s, k);
    MulAssoc(u, Pow10(s), Pow10(k));
  }

  lemma {:induction false} ReduceSameValue(n: Number)
    ensures SameValue(Reduce(n), n)
    decreases n.scale
  {
    if n.scale > 0 && n.unscaled % 10 == 0 {
      var n' := Number(n.unscaled / 10, n.scale - 1);
      ReduceSameValue(n');
      assert n.unscaled == n'.unscaled * Pow10(1) by {
        assert n.unscaled == 10 * (n.unscaled / 10);
      }
      ShiftSameValue(n'.unscaled, n'.scale, 1);
      SameValueTrans(Reduce(n), n', n);
    }
  }

  /** Cut a decimal toward zero to `s` fraction digits (or widen it exactly). */
  function Rescale(n: Number, s: nat): (r: Number)
    ensures r.scale == s
  {
    if s >= n.scale then Number(n.unscaled * Pow10(s - n.scale), s)
    else Number(TruncDiv(n.unscaled, Pow10(n.scale - s)), s)
  }

  lemma RescaleWiden(n: Number, s: nat)
    requires s >= n.scale
    ensures SameValue(Rescale(n, s), n)
  {
    ShiftSameValue(n.unscaled, n.scale, s - n.scale);
  }

  /** Cutting a value at `s` digits depends only on the value, not on how it is written. */
  lemma RescaleValue(a: Number, b: Number, s: nat)
    requires SameValue(a, b)
    ensures Rescale(a, s) == Rescale(b, s)
  {
    if a.scale > b.scale {
      RescaleValueOrdered(a, b, s);
    } else if a.scale < b.scale {
      RescaleValueOrdered(b, a, s);
    } else {
      CancelRight(a.unscaled, b.unscaled, Pow10(a.scale));
    }
  }

  lemma RescaleValueOrdered(a: Number, b: Number, s: nat)
    requires SameValue(a, b) && a.scale > b.scale
    ensures Rescale(a, s) == Rescale(b, s)
  {
    var k: nat := a.scale - b.scale;
    var u := b.unscaled;
    OrderedUnscaled(a, b);
    assert a == Number(u * Pow10(k), b.scale + k);
    if s >= a.scale {
      RescaleWidenShift(u, b.scale, k, s);
    } else if s >= b.scale {
      RescaleCutShift(u, b.scale, k, s);
    } else {
      RescaleNarrowShift(u, b.scale, k, s);
    }
  }

  /** Of two equal values, the one with more digits has the other's unscaled
      value followed by zeros. */
  lemma OrderedUnscaled(a: Number, b: Number)
    requires SameValue(a, b) && a.scale > b.scale
    ensures a.unscaled == b.unscaled * Pow10(a.scale - b.scale)
  {
    var k: nat := a.scale - b.scale;
    var u := b.unscaled;
    Pow10Add(b.scale, k);
    assert a.unscaled * Pow10(b.scale) == (u * Pow10(k)) * Pow10(b.scale) by {
      assert u * Pow10(a.scale) == u * (Pow10(k) * Pow10(b.scale));
    }
    CancelRight(a.unscaled, u * Pow10(k), Pow10(b.scale));
  }

  lemma RescaleNarrowShift(u: int, sb: nat, k: nat, s: nat)
    requires s < sb
    ensures Rescale(Number(u * Pow10(k), sb + k), s) == Rescale(Number(u, sb), s)
  {
    Pow10Add(sb - s, k);
    assert Pow10(sb + k - s) == Pow10(sb - s) * Pow10(k);
    TruncDivScale(u, Pow10(sb - s), Pow10(k));
  }

  lemma RescaleWidenShift(u: int, sb: nat, k: nat, s: nat)
    requires s >= sb + k
    ensures Rescale(Number(u * Pow10(k), sb + k), s) == Rescale(Number(u, sb), s)
  {
    Pow10Add(s - (sb + k), k);
    assert s - sb == (s - (sb + k)) + k;
    MulAssoc(u, Pow10(s - (sb + k)), Pow10(k));
  }

  lemma RescaleCutShift(u: int, sb: nat, k: nat, s: nat)
    requires sb <= s < sb + k
    ensures Rescale(Number(u * Pow10(k), sb + k), s) == Rescale(Number(u, sb), s)
  {
    Pow10Add(s - sb, sb + k - s);
    assert k == (s - sb) + (sb + k - s);
    var x, y := Pow10(s - sb), Pow10(sb + k - s);
    MulAssoc(u, x, y);
    TruncDivExact(u * x, y);
  }

  // ----- the decimal type's operations -----

  function AddExact(a: Number, b: Number): (r: Number)
  {
    var s := Max(a.scale, b.scale);
    Number(a.unscaled * Pow10(s - a.scale) + b.unscaled * Pow10(s - b.scale), s)
  }

  function Negate(a: Number): Number { Number(-a.unscaled, a.scale) }

  function MulExact(a: Number, b: Number): Number
  {
    Number(a.unscaled * b.unscaled, a.scale + b.scale)
  }

  /** `scale` null keeps every digit; a given scale cuts toward zero. */
  function AtScale(exact: Number, scale: Option<nat>): Number
  {
    match scale
    case None => exact
    case Some(s) => Rescale(exact, s)
  }

  function Add(a: Number, b: Number, scale: Option<nat>): Number
  {
    AtScale(AddExact(a, b), scale)
  }

  function Sub(a: Number, b: Number, scale: Option<nat>): Number
  {
    AtScale(AddExact(a, Negate(b)), scale)
  }

  function Mul(a: Number, b: Number, scale: Option<nat>): Number
  {
    AtScale(MulExact(a, b), scale)
  }

  /** Division cut toward zero; without a scale the decimal type keeps ten
      digits more than the wider operand. */
  function Div(a: Number, b: Number, scale: Option<nat>): (r: Number)
    requires b.unscaled != 0
  {
    var s := match scale case Some(s) => s case None => Max(a.scale, b.scale) + 10;
    Number(TruncDiv(a.unscaled * Pow10(s + b.scale), b.unscaled * Pow10(a.scale)), s)
  }

  /** The greatest integer not above the value. */
  function Floor(a: Number): Number
  {
    Number(a.unscaled / Pow10(a.scale), 0)
  }

  /** -1, 0 or 1 as `a` is below, equal to or above `b`, after cutting both at `scale`. */
  function Compare(a: Number, b: Number, scale: Option<nat>): (r: int)
    ensures -1 <= r <= 1
  {
    var d := match scale
      case None => a.unscaled * Pow10(b.scale) - b.unscaled * Pow10(a.scale)
      case Some(s) => Rescale(a, s).unscaled - Rescale(b, s).unscaled;
    if d < 0 then -1 else if d > 0 then 1 else 0
  }

  /** Integer power with a non-negative exponent. */
  function PowNat(a: Number, e: nat, scale: Option<nat>): Number
  {
    AtScale(Number(IntPow(a.unscaled, e), a.scale * e), scale)
  }

  /** Modular exponentiation of integers; the remainder keeps the sign of the
      power, as the decimal type's powmod does. */
  function PowMod(b: Number, e: nat, m: Number, scale: Option<nat>): Result<Number>
  {
    if m.unscaled == 0 then Err(InvalidArgument("Modulo by zero"))
    else
      var mi := m.unscaled / Pow10(m.scale);
      if mi == 0 then Err(InvalidArgument("Modulo by zero"))
      else Ok(AtScale(Number(TruncRem(IntPow(b.unscaled / Pow10(b.scale), e), mi), 0), scale))
  }

  lemma IntPowTen(e: nat)
    ensures IntPow(10, e) == Pow10(e)
  {
    if e > 0 { IntPowTen(e - 1); }
  }

  /** Two quotients of proportional numerators and denominators cut to the same integer. */
  lemma TruncDivCross(x: int, y: int, x': int, y': int, c: int, c': int)
    requires y != 0 && y' != 0 && c > 0 && c' > 0
    requires x * c == x' * c' && y * c == y' * c'
    ensures TruncDiv(x, y) == TruncDiv(x', y')
  {
    TruncDivScale(x, y, c);
    TruncDivScale(x', y', c');
  }

  /** Multiplying exactly respects equal values. */
  lemma MulExactValue(a: Number, a': Number, b: Number)
    requires SameValue(a, a')
    ensures SameValue(MulExact(a, b), MulExact(a', b))
  {
    var pa, pa', pb := Pow10(a.scale), Pow10(a'.scale), Pow10(b.scale);
    Pow10Add(a.scale, b.scale);
    Pow10Add(a'.scale, b.scale);
    MulAssoc4(a.unscaled, b.unscaled, pa', pb);
    MulAssoc4(a'.unscaled, b.unscaled, pa, pb);
  }

  lemma MulAssoc4(x: int, y: int, p: int, q: int)
    ensures (x * y) * (p * q) == (x * p) * (y * q)
  {
  }

  /** Dividing by equal values gives the same decimal. */
  lemma DivValueDivisor(a: Number, b: Number, b': Number, s: nat)
    requires SameValue(b, b') && b.unscaled != 0
    ensures b'.unscaled != 0
    ensures Div(a, b, Some(s)) == Div(a, b', Some(s))
  {
    var pa, pb, pb' := Pow10(a.scale), Pow10(b.scale), Pow10(b'.scale);
    NonzeroProduct(b.unscaled, pb');
    Pow10Add(s, b.scale);
    Pow10Add(s, b'.scale);
    var ps := Pow10(s);
    var x, y := a.unscaled * (ps * pb), b.unscaled * pa;
    var x', y' := a.unscaled * (ps * pb'), b'.unscaled * pa;
    MulAssoc4(a.unscaled, 1, ps * pb, pb');
    assert x * pb' == x' * pb by { Swap3(a.unscaled, ps, pb, pb'); }
    assert y * pb' == y' * pb by { Swap3b(b.unscaled, pa, pb', b'.unscaled, pb); }
    assert y != 0 && y' != 0 by {
      NonzeroProduct(b.unscaled, pa);
      NonzeroProduct(b'.unscaled, pa);
    }
    TruncDivCross(x, y, x', y', pb', pb);
  }

  lemma Swap3(u: int, a: int, b: int, c: int)
    ensures u * (a * b) * c == u * (a * c) * b
  {
  }

  lemma Swap3b(u: int, p: int, q: int, v: int, r: int)
    requires u * q == v * r
    ensures u * p * q == v * p * r
  {
    assert u * p * q == (u * q) * p;
    assert v * p * r == (v * r) * p;
  }

  lemma NonzeroProduct(x: int, p: int)
    requires x != 0 && p > 0
    ensures x * p != 0
  {
    if x > 0 { MulAtLeast(p, x); assert p * x == x * p; }
    else { MulAtLeast(p, -x); assert p * (-x) == -(x * p); }
  }

  lemma FloorValue(a: Number, b: Number)
    requires SameValue(a, b)
    ensures Floor(a) == Floor(b)
  {
    var pa, pb := Pow10(a.scale), Pow10(b.scale);
    MulDivMul(a.unscaled, pa, pb);
    MulDivMul(b.unscaled, pb, pa);
    assert pa * pb == pb * pa;
  }

  // ----- sums and the value they denote -----

  lemma CrossSum(xu: int, zu: int, a: int, c: int, px: int, pz: int, ps: int)
    requires a * px == ps && c * pz == ps
    ensures (xu * a + zu * c) * (px * pz) == (xu * pz + zu * px) * ps
  {
    calc {
      (xu * a + zu * c) * (px * pz);
      (xu * a) * (px * pz) + (zu * c) * (px * pz);
      { MulAssoc4(xu, a, px, pz); MulAssoc4(zu, c, pz, px); }
      (xu * pz) * (a * px) + (zu * px) * (c * pz);
      (xu * pz) * ps + (zu * px) * ps;
    }
  }

  /** An exact sum denotes x + z: x.unscaled * 10^zs + z.unscaled * 10^xs over 10^(xs + zs). */
  lemma AddExactCross(x: Number, z: Number)
    ensures SameValue(AddExact(x, z), Number(x.unscaled * Pow10(z.scale) + z.unscaled * Pow10(x.scale), x.scale + z.scale))
  {
    var s := Max(x.scale, z.scale);
    Pow10Add(s - x.scale, x.scale);
    Pow10Add(s - z.scale, z.scale);
    Pow10Add(x.scale, z.scale);
    CrossSum(x.unscaled, z.unscaled, Pow10(s - x.scale), Pow10(s - z.scale), Pow10(x.scale), Pow10(z.scale), Pow10(s));
  }

  lemma CrossCongruent(xu: int, zu: int, zu': int, px: int, pz: int, pz': int)
    requires zu * pz' == zu' * pz
    ensures (xu * pz + zu * px) * (px * pz') == (xu * pz' + zu' * px) * (px * pz)
  {
    calc {
      (xu * pz + zu * px) * (px * pz');
      (xu * pz) * (px * pz') + (zu * px) * (px * pz');
      { MulAssoc4(xu, pz, px, pz'); MulAssoc4(zu, px, pz', px); }
      (xu * pz') * (px * pz) + (zu * pz') * (px * px);
      (xu * pz') * (px * pz) + (zu' * pz) * (px * px);
      { MulAssoc4(zu', pz, px, px); MulAssoc4(zu', px, px, pz); }
      (xu * pz' + zu' * px) * (px * pz);
    }
  }

  /** An exact sum depends on the values of its operands only. */
  lemma AddExactValue(x: Number, z: Number, z': Number)
    requires SameValue(z, z')
    ensures SameValue(AddExact(x, z), AddExact(x, z'))
  {
    var c := Number(x.unscaled * Pow10(z.scale) + z.unscaled * Pow10(x.scale), x.scale + z.scale);
    var c' := Number(x.unscaled * Pow10(z'.scale) + z'.unscaled * Pow10(x.scale), x.scale + z'.scale);
    AddExactCross(x, z);
    AddExactCross(x, z');
    Pow10Add(x.scale, z.scale);
    Pow10Add(x.scale, z'.scale);
    CrossCongruent(x.unscaled, z.unscaled, z'.unscaled, Pow10(x.scale), Pow10(z.scale), Pow10(z'.scale));
    assert SameValue(c, c');
    SameValueTrans(AddExact(x, z), c, c');
    SameValueSym(AddExact(x, z'), c');
    SameValueTrans(AddExact(x, z), c', AddExact(x, z'));
  }

  /** A scale at least the operand's keeps its value. */
  lemma AtScaleExact(n: Number, scale: Option<nat>)
    requires scale.None? || scale.value >= n.scale
    ensures SameValue(AtScale(n, scale), n)
  {
    if scale.Some? {
      RescaleWiden(n, scale.value);
    } else {
      SameValueRefl(n);
    }
  }

  // ----- the canonical form -----

  /** No trailing zero digit after the point. */
  predicate Canonical(n: Number)
  {
    n.scale == 0 || n.unscaled % 10 != 0
  }

  lemma MulCancel(x: int, y: int, c: int)
    requires c > 0 && x * c == y * c
    ensures x == y
  {
    MulDivCancel(x, c);
    MulDivCancel(y, c);
  }

  /** Two canonical decimals of the same value are the same decimal. */
  lemma CanonicalUnique(a: Number, b: Number)
    requires Canonical(a) && Canonical(b) && SameValue(a, b)
    ensures a == b
  {
    if a.scale <= b.scale {
      CanonicalUniqueOrdered(a, b);
    } else {
      CanonicalUniqueOrdered(b, a);
    }
  }

  lemma CanonicalUniqueOrdered(a: Number, b: Number)
    requires Canonical(a) && Canonical(b) && SameValue(a, b)
    requires a.scale <= b.scale
    ensures a == b
  {
    var k := b.scale - a.scale;
    Pow10Add(a.scale, k);
    MulAssoc(a.unscaled, Pow10(a.scale), Pow10(k));
    assert (a.unscaled * Pow10(k)) * Pow10(a.scale) == b.unscaled * Pow10(a.scale);
    MulCancel(a.unscaled * Pow10(k), b.unscaled, Pow10(a.scale));
    if k > 0 {
      MulAssoc(a.unscaled, 10, Pow10(k - 1));
      MulDivCancel(a.unscaled * Pow10(k - 1), 10);
      assert false;
    }
  }

  /** Trimming reaches the canonical form: decimals of the same value trim to the same decimal. */
  lemma ReduceCanonical(a: Number, b: Number)
    requires SameValue(a, b)
    ensures Reduce(a) == Reduce(b)
  {
    ReduceSameValue(a);
    ReduceSameValue(b);
    SameValueSym(Reduce(a), a);
    SameValueTrans(Reduce(a), a, b);
    SameValueTrans(Reduce(a), b, Reduce(b));
    CanonicalUnique(Reduce(a), Reduce(b));
  }
}
