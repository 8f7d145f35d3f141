/** The class's base-16 conversions. hexdec peels the last character off the
    text, removes "0x" from the rest and recurses, combining with the class's
    own mul and add; dechex divides by 16 at scale 0, takes the remainder with
    mod and recurses on the quotient. */
module Hex {
  import opened Wrappers
  import opened Digits
  import D = Decimal
  import opened Normalizer
  import opened Arithmetic

  // ----- the language's native single-character conversions -----

  /** The value of one hexadecimal digit, either case; any other character counts as 0. */
  function HexDigitValue(c: char): (r: nat)
    ensures r < 16
  {
    if '0' <= c <= '9' then c as nat - '0' as nat
    else if 'a' <= c <= 'f' then c as nat - 'a' as nat + 10
    else if 'A' <= c <= 'F' then c as nat - 'A' as nat + 10
    else 0
  }

  const LowerHexDigits: string := "0123456789abcdef"

  /** The native dechex of a value below 16: its lower-case digit. */
  function NativeHexDigit(d: nat): (c: char)
    requires d < 16
    ensures c in LowerHexDigits && HexDigitValue(c) == d
  {
    LowerHexDigits[d]
  }

  /** str_replace('0x', '', s): one pass from the left, occurrences do not overlap. */
  function RemoveHexPrefix(s: string): (r: string)
    ensures |r| <= |s|
    ensures (forall i :: 0 <= i < |s| ==> s[i] != 'x') ==> r == s
    ensures |s| >= 2 && s[0] == '0' && s[1] == 'x' && (forall i :: 2 <= i < |s| ==> s[i] != 'x') ==> r == s[2..]
  {
    if |s| < 2 then s
    else if s[0] == '0' && s[1] == 'x' then RemoveHexPrefix(s[2..])
    else [s[0]] + RemoveHexPrefix(s[1..])
  }

  // ----- hexdec -----

  /** The decimal text of a nat, as PHP prints an int. */
  function IntText(v: nat): string
  {
    D.Render(D.Number(v, 0))
  }

  /** hexdec: the last character's native value; when the rest, with "0x"
      removed, is not empty, 16 times its hexdec plus that value, multiplied at
      the method scale and added at scale 0. */
  function HexDec(hex: string, cfg: Config): string
    decreases |hex|
  {
    var init := if |hex| == 0 then "" else hex[..|hex| - 1];
    var last := IntText(if |hex| == 0 then 0 else HexDigitValue(hex[|hex| - 1]));
    var remaining := RemoveHexPrefix(init);
    if remaining == "" then last
    else
      var high := Mul(IntOp(16), StrOp(HexDec(remaining, cfg)), None, cfg);
      D.Render(Add(NumOp(high), StrOp(last), Some(0), cfg))
  }

  /** The value hexdec computes, as a reference: the same peeling on integers. */
  function HexValue(hex: string): nat
    decreases |hex|
  {
    if |hex| == 0 then 0
    else
      var remaining := RemoveHexPrefix(hex[..|hex| - 1]);
      var d := HexDigitValue(hex[|hex| - 1]);
      if remaining == "" then d else 16 * HexValue(remaining) + d
  }

  /** The positional value of a string of hexadecimal digits. */
  function HexDigitsValue(s: string): nat
  {
    if s == [] then 0 else 16 * HexDigitsValue(s[..|s| - 1]) + HexDigitValue(s[|s| - 1])
  }

  /** One step of hexdec: 16 * v multiplied at any scale and d added at scale 0 print as 16 * v + d. */
  lemma ShiftAddHex(v: nat, d: nat, cfg: Config)
    ensures Add(NumOp(Mul(IntOp(16), StrOp(IntText(v)), None, cfg)), StrOp(IntText(d)), Some(0), cfg)
            == D.Number(16 * v + d, 0)
  {
    ConvertRender(D.Number(v, 0), cfg.trim);
    ConvertRender(D.Number(d, 0), cfg.trim);
    ShiftAdd(v, d, cfg);
  }

  lemma ShiftAdd(v: nat, d: nat, cfg: Config)
    ensures AddNumbers(MulNumbers(D.Number(16, 0), D.Number(v, 0), None, cfg), D.Number(d, 0), Some(0), cfg)
            == D.Number(16 * v + d, 0)
  {
    var m := MulNumbers(D.Number(16, 0), D.Number(v, 0), None, cfg);
    assert D.SameValue(m, D.Number(16 * v, 0)) by {
      D.AtScaleExact(D.MulExact(D.Number(16, 0), D.Number(v, 0)), ScaleFor(cfg, None));
      D.SameValueTrans(m, D.Mul(D.Number(16, 0), D.Number(v, 0), ScaleFor(cfg, None)), D.Number(16 * v, 0));
    }
    var w := D.Number(16 * v + d, 0);
    var e := D.AddExact(m, D.Number(d, 0));
    assert D.SameValue(e, w) by {
      D.AddExactCross(m, D.Number(d, 0));
      ShiftAddValue(m.unscaled, m.scale, v, d);
      D.SameValueTrans(e, D.Number(m.unscaled * Pow10(0) + d * Pow10(m.scale), m.scale + 0), w);
    }
    assert D.Add(m, D.Number(d, 0), Some(0)) == w by {
      D.RescaleValue(e, w, 0);
    }
  }

  lemma ShiftAddValue(mu: int, ms: nat, v: nat, d: nat)
    requires mu * Pow10(0) == 16 * v * Pow10(ms)
    ensures D.SameValue(D.Number(mu * Pow10(0) + d * Pow10(ms), ms + 0), D.Number(16 * v + d, 0))
  {
    assert (16 * v + d) * Pow10(ms) == 16 * v * Pow10(ms) + d * Pow10(ms);
  }

  /** hexdec prints the reference value, whatever the configuration. */
  lemma {:induction false} HexDecValue(hex: string, cfg: Config)
    ensures HexDec(hex, cfg) == IntText(HexValue(hex))
    decreases |hex|
  {
    if |hex| > 0 {
      var remaining := RemoveHexPrefix(hex[..|hex| - 1]);
      if remaining != "" {
        HexDecValue(remaining, cfg);
        ShiftAddHex(HexValue(remaining), HexDigitValue(hex[|hex| - 1]), cfg);
      }
    }
  }

  /** Without an 'x', the reference value is the positional value of the digits. */
  lemma {:induction false} HexValueOfDigits(s: string)
    requires forall i :: 0 <= i < |s| ==> s[i] != 'x'
    ensures HexValue(s) == HexDigitsValue(s)
    decreases |s|
  {
    if |s| > 0 {
      var init := s[..|s| - 1];
      assert forall i :: 0 <= i < |init| ==> init[i] != 'x';
      HexValueOfDigits(init);
      if init == "" {
        assert HexDigitsValue(init) == 0;
      }
    }
  }

  /** A leading "0x" is what the str_replace is for: the value is that of the digits after it. */
  lemma HexValueOfPrefixed(d: string)
    requires forall i :: 0 <= i < |d| ==> d[i] != 'x'
    ensures HexValue("0x" + d) == HexDigitsValue(d)
  {
    PrefixedValue("0x", d);
  }

  lemma PrefixedValue(prefix: string, d: string)
    requires |prefix| == 2 && prefix[0] == '0' && prefix[1] == 'x'
    requires forall i :: 0 <= i < |d| ==> d[i] != 'x'
    ensures HexValue(prefix + d) == HexDigitsValue(d)
  {
    var s := prefix + d;
    if d == [] {
      PrefixAloneValue(prefix);
    } else {
      var init := d[..|d| - 1];
      assert s[..|s| - 1] == prefix + init;
      assert s[|s| - 1] == d[|d| - 1];
      assert RemoveHexPrefix(prefix + init) == init by {
        assert (prefix + init)[2..] == init;
      }
      HexValueOfDigits(init);
    }
  }

  lemma PrefixAloneValue(prefix: string)
    requires |prefix| == 2 && prefix[0] == '0' && prefix[1] == 'x'
    ensures HexValue(prefix) == 0
  {
    assert prefix[..1] == [prefix[0]];
    assert HexValue([prefix[0]]) == 0;
  }

  /** hexdec of "0x" followed by hexadecimal digits prints their value. */
  lemma HexDecOfPrefixed(d: string, cfg: Config)
    requires forall i :: 0 <= i < |d| ==> d[i] != 'x'
    ensures HexDec("0x" + d, cfg) == IntText(HexDigitsValue(d))
  {
    HexDecValue("0x" + d, cfg);
    HexValueOfPrefixed(d);
  }

  /** hexdec('0x1f') is '31'. */
  lemma HexDecExample(cfg: Config)
    ensures HexDec("0x1f", cfg) == "31"
  {
    var d := "1f";
    HexDecOfPrefixed(d, cfg);
    assert "0x" + d == "0x1f";
    DigitsOneF(d);
    TextOf31();
  }

  lemma DigitsOneF(d: string)
    requires d == "1f"
    ensures HexDigitsValue(d) == 31
  {
    assert d[..1] == "1";
    assert HexDigitsValue("1") == 1;
  }

  lemma TextOf31()
    ensures IntText(31) == "31"
  {
    assert D.Whole(D.Number(31, 0)) == 31;
    assert IntDigits(31) == "31";
  }

  // ----- dechex -----

  /** The lower-case hexadecimal digits of v, with no leading zero; "0" for 0. */
  function HexText(v: nat): (r: string)
    ensures |r| >= 1
    ensures forall i :: 0 <= i < |r| ==> r[i] in LowerHexDigits
    ensures HexDigitsValue(r) == v
    ensures v > 0 ==> r[0] != '0'
    decreases v
  {
    if v < 16 then [NativeHexDigit(v)]
    else
      var init := HexText(v / 16);
      var r := init + [NativeHexDigit(v % 16)];
      assert r[..|r| - 1] == init;
      r
  }

  /** The native dechex of an int: the digits of its 64-bit pattern, so a
      negative int prints its two's complement. */
  function NativeDecHex(i: int): (r: string)
    requires IntMin <= i <= IntMax
    ensures |r| >= 1
    ensures HexDigitsValue(r) == if i < 0 then i + 0x1_0000_0000_0000_0000 else i
  {
    HexText(if i < 0 then i + 0x1_0000_0000_0000_0000 else i)
  }

  /** div(x, 16, 0) is x / 16 cut toward zero, an integer no larger in size than x's unscaled value over 16. */
  lemma QuotientBySixteen(x: D.Number, cfg: Config)
    ensures DivNumbers(x, D.Number(16, 0), Some(0), cfg)
            == Ok(D.Number(D.TruncDiv(x.unscaled, 16 * Pow10(x.scale)), 0))
    ensures D.AbsInt(D.TruncDiv(x.unscaled, 16 * Pow10(x.scale))) <= D.AbsInt(x.unscaled) / 16
  {
    var q := D.Div(x, D.Number(16, 0), Some(0));
    DivBySixteen(x);
    var r := DivNumbers(x, D.Number(16, 0), Some(0), cfg);
    assert ScaleFor(cfg, Some(0)) == Some(0);
    if cfg.trim {
      D.CanonicalUnique(r.value, q);
    }
    TruncDivBySixteen(x.unscaled, Pow10(x.scale));
  }

  /** The decimal type's division by 16 at scale 0. */
  lemma DivBySixteen(x: D.Number)
    ensures D.Div(x, D.Number(16, 0), Some(0)) == D.Number(D.TruncDiv(x.unscaled, 16 * Pow10(x.scale)), 0)
  {
    assert Pow10(0 + 0) == 1;
  }

  lemma TruncDivBySixteen(u: int, p: nat)
    requires p >= 1
    ensures D.AbsInt(D.TruncDiv(u, 16 * p)) <= D.AbsInt(u) / 16
  {
    var a, d := D.AbsInt(u), 16 * p;
    var q := a / d;
    assert D.AbsInt(d) == d;
    assert D.TruncDiv(u, d) == q || D.TruncDiv(u, d) == -q;
    DivNonneg(a, d);
    DivDiv(a, 16, p);
    DivNonneg(a / 16, p);
  }

  /** dechex, on the decimal that div and mod convert the operand to: the
      quotient by 16 at scale 0; the remainder by 16 at the method scale, cast
      to int and printed by the native dechex; the dechex of a nonzero
      quotient goes in front. */
  function DecHex(x: D.Number, cfg: Config): (r: string)
    ensures |r| >= 1
    decreases D.AbsInt(x.unscaled)
  {
    var sixteen := D.Number(16, 0);
    QuotientBySixteen(x, cfg);
    var quotient := DivNumbers(x, sixteen, Some(0), cfg).value;
    var digits := NativeDecHex(IntCast64(ModNumbers(x, sixteen, None, cfg).value));
    CompareWithZero(quotient.unscaled, None);
    if D.Compare(quotient, D.Number(0, 0), None) == 0 then digits
    else DecHex(quotient, cfg) + digits
  }

  /** One step of dechex: the quotient, when not zero, then the remainder's native digits. */
  lemma DecHexUnfold(x: D.Number, cfg: Config)
    ensures var q := D.TruncDiv(x.unscaled, 16 * Pow10(x.scale));
      var digits := NativeDecHex(IntCast64(ModNumbers(x, D.Number(16, 0), None, cfg).value));
      DecHex(x, cfg) == if q == 0 then digits else DecHex(D.Number(q, 0), cfg) + digits
  {
    QuotientBySixteen(x, cfg);
    CompareWithZero(D.TruncDiv(x.unscaled, 16 * Pow10(x.scale)), None);
  }

  /** One step of dechex on a natural number: the quotient n / 16 and the digit of n % 16. */
  lemma DecHexStep(n: nat, cfg: Config)
    ensures var digit := [NativeHexDigit(n % 16)];
      DecHex(D.Number(n, 0), cfg) == if n / 16 == 0 then digit else DecHex(D.Number(n / 16, 0), cfg) + digit
  {
    QuotientOfNaturals(n, 16, Some(0), cfg);
    RemainderOfNaturals(n, 16, None, cfg);
    CompareWithZero(n / 16, None);
  }

  /** dechex prints lower-case hexadecimal digits whose positional value is n,
      with no leading zero. */
  lemma DecHexValue(n: nat, cfg: Config)
    ensures DecHex(D.Number(n, 0), cfg) == HexText(n)
    ensures forall i :: 0 <= i < |DecHex(D.Number(n, 0), cfg)| ==> DecHex(D.Number(n, 0), cfg)[i] in LowerHexDigits
    ensures HexDigitsValue(DecHex(D.Number(n, 0), cfg)) == n
    ensures n > 0 ==> DecHex(D.Number(n, 0), cfg)[0] != '0'
  {
    DecHexIsHexText(n, cfg);
  }

  lemma {:induction false} DecHexIsHexText(n: nat, cfg: Config)
    ensures DecHex(D.Number(n, 0), cfg) == HexText(n)
    decreases n
  {
    DecHexStep(n, cfg);
    HexTextStep(n);
    if n / 16 != 0 {
      DecHexIsHexText(n / 16, cfg);
    }
  }

  lemma HexTextStep(n: nat)
    ensures var digit := [NativeHexDigit(n % 16)];
      HexText(n) == if n / 16 == 0 then digit else HexText(n / 16) + digit
  {
  }

  /** A decimal that is not negative prints the digits of its integer part,
      when the method scale keeps its digits. */
  lemma DecHexOfNonNegative(x: D.Number, cfg: Config)
    requires x.unscaled >= 0 && Exact(cfg.currentScale, x.scale, 0)
    ensures DecHex(x, cfg) == HexText(IntCast(x))
  {
    var n: nat := IntCast(x);
    SameStepAsInteger(x, cfg);
    DecHexValue(n, cfg);
  }

  /** dechex of x takes the same step as dechex of its integer part. */
  lemma SameStepAsInteger(x: D.Number, cfg: Config)
    requires x.unscaled >= 0 && Exact(cfg.currentScale, x.scale, 0)
    ensures DecHex(x, cfg) == DecHex(D.Number(IntCast(x), 0), cfg)
  {
    var p := Pow10(x.scale);
    var n: nat := IntCast(x);
    var q := D.TruncDiv(x.unscaled, 16 * p);
    var digits := NativeDecHex(IntCast64(ModNumbers(x, D.Number(16, 0), None, cfg).value));
    RemainderOfNonNegative(x, cfg);
    assert digits == [NativeHexDigit(n % 16)];
    QuotientOfNonNegative(x.unscaled, p);
    assert q == n / 16;
    DecHexUnfold(x, cfg);
    DecHexStep(n, cfg);
  }

  lemma QuotientOfNonNegative(u: nat, p: nat)
    requires p >= 1
    ensures D.TruncDiv(u, 16 * p) == (u / p) / 16
  {
    DivDiv(u, p, 16);
    assert p * 16 == 16 * p;
  }

  /** mod(x, 16) of a decimal that is not negative, cast to int, is its integer part's remainder. */
  lemma RemainderOfNonNegative(x: D.Number, cfg: Config)
    requires x.unscaled >= 0 && Exact(cfg.currentScale, x.scale, 0)
    ensures ModNumbers(x, D.Number(16, 0), None, cfg).Ok?
    ensures IntCast(ModNumbers(x, D.Number(16, 0), None, cfg).value) == (x.unscaled / Pow10(x.scale)) % 16
  {
    var y := D.Number(16, 0);
    var p := Pow10(x.scale);
    var m := ModNumbers(x, y, None, cfg).value;
    ModValue(x, y, None, cfg);
    var res := ModResidue(x, y, DivisionScale(ScaleFor(cfg, None), x, y));
    ResidueOfNonNegative(x, y, DivisionScale(ScaleFor(cfg, None), x, y));
    IntCastOfSameValue(m, D.Number(res, x.scale));
    ModOfQuotient(x.unscaled, p, 16);
  }

  lemma ResidueOfNonNegative(x: D.Number, y: D.Number, t: nat)
    requires x.unscaled >= 0 && y == D.Number(16, 0)
    ensures ModResidue(x, y, t) == x.unscaled % (Pow10(x.scale) * 16)
    ensures x.scale + y.scale == x.scale
  {
    var p := Pow10(x.scale);
    MulMonotone(x.unscaled, 0, 16);
    assert x.unscaled * Pow10(0) == x.unscaled;
    assert 16 * p == p * 16;
    assert D.FloorDiv(x.unscaled, 16 * p) == x.unscaled / (16 * p);
  }

  /** (u mod (b * p)) / p is (u / p) mod b. */
  lemma ModOfQuotient(u: nat, p: nat, b: nat)
    requires p > 0 && b > 0
    ensures (u % (p * b)) / p == (u / p) % b
  {
    var q, r := u / p, u % p;
    var q2, r2 := q / b, q % b;
    assert u == p * q + r;
    assert q == b * q2 + r2;
    assert u == (p * b) * q2 + (p * r2 + r) by {
      assert p * q == p * (b * q2) + p * r2;
      MulAssoc(p, b, q2);
    }
    MulMonotone(p, r2, b - 1);
    DivModUnique(u, p * b, q2, p * r2 + r);
    DivModUnique(p * r2 + r, p, r2, r);
  }

  /** Decimals of the same value cast to the same int. */
  lemma IntCastOfSameValue(a: D.Number, b: D.Number)
    requires D.SameValue(a, b)
    ensures IntCast(a) == IntCast(b)
  {
    D.TruncDivCross(a.unscaled, Pow10(a.scale), b.unscaled, Pow10(b.scale), Pow10(b.scale), Pow10(a.scale));
  }

  // ----- dechex of negative and fractional decimals -----

  /** The native digits of 16^(k+1) - 1 are k + 1 'f's. */
  lemma {:induction false} HexTextOfAllOnes(k: nat)
    ensures D.IntPow(16, k + 1) >= 16
    ensures var r := HexText(D.IntPow(16, k + 1) - 1);
      |r| == k + 1 && forall i :: 0 <= i < |r| ==> r[i] == 'f'
    decreases k
  {
    var p := D.IntPow(16, k);
    assert D.IntPow(16, k + 1) == 16 * p;
    var v := 16 * p - 1;
    if k == 0 {
      assert v == 15;
    } else {
      HexTextOfAllOnes(k - 1);
      assert v == 16 * (p - 1) + 15;
      DivModUnique(v, 16, p - 1, 15);
      assert HexText(v) == HexText(p - 1) + ['f'];
    }
  }

  lemma SixteenToTheSixteenth()
    ensures D.IntPow(16, 16) == 0x1_0000_0000_0000_0000
  {
    var b := 16;
    assert D.IntPow(b, 2) == 0x100 by {
      assert D.IntPow(b, 2) == b * (b * D.IntPow(b, 0));
    }
    IntPowAdd(b, 2, 2);
    IntPowAdd(b, 4, 4);
    IntPowAdd(b, 8, 8);
  }

  lemma {:induction false} IntPowAdd(b: int, m: nat, n: nat)
    ensures D.IntPow(b, m + n) == D.IntPow(b, m) * D.IntPow(b, n)
    decreases m
  {
    if m > 0 {
      IntPowAdd(b, m - 1, n);
      MulAssoc(b, D.IntPow(b, m - 1), D.IntPow(b, n));
    }
  }

  /** When the quotient is 0 and mod gives an int, dechex is that int's native digits. */
  lemma SingleStep(x: D.Number, cfg: Config, rem: int)
    requires D.TruncDiv(x.unscaled, 16 * Pow10(x.scale)) == 0
    requires ModNumbers(x, D.Number(16, 0), None, cfg) == Ok(D.Number(rem, 0))
    requires IntMin <= rem <= IntMax
    ensures DecHex(x, cfg) == NativeDecHex(rem)
  {
    DecHexUnfold(x, cfg);
    IntCastOfValue(D.Number(rem, 0), rem);
  }

  /** dechex('-1') before any setScale: the default division scale floors
      -1 / 16 to -1, so mod gives 15, and the quotient cut at scale 0 is 0. */
  lemma DecHexOfMinusOne()
    ensures DecHex(D.Number(-1, 0), Config(None, true)) == "f"
  {
    var x, cfg := D.Number(-1, 0), Config(None, true);
    MinusOneByDefault(x, cfg);
  }

  lemma MinusOneByDefault(x: D.Number, cfg: Config)
    requires x == D.Number(-1, 0) && cfg == Config(None, true)
    ensures DecHex(x, cfg) == "f"
  {
    MinusOneQuotient(x);
    ModOfMinusOne(x, cfg);
    SingleStep(x, cfg, 15);
    SingleHexText(15, "f");
  }

  lemma MinusOneQuotient(x: D.Number)
    requires x == D.Number(-1, 0)
    ensures D.TruncDiv(x.unscaled, 16 * Pow10(x.scale)) == 0
  {
  }

  lemma ModOfMinusOne(x: D.Number, cfg: Config)
    requires x == D.Number(-1, 0) && cfg == Config(None, true)
    ensures ModNumbers(x, D.Number(16, 0), None, cfg) == Ok(D.Number(15, 0))
  {
    var y := D.Number(16, 0);
    MinusOneResidue(x, y);
    ModIs(x, y, None, cfg, 15);
  }

  lemma MinusOneResidue(x: D.Number, y: D.Number)
    requires x == D.Number(-1, 0) && y == D.Number(16, 0)
    ensures ModResidue(x, y, 10) == 15
  {
    var t := 10;
    assert QuotientExact(x, y, t) by {
      assert Pow10(t) == 10000000000;
      assert D.TruncDiv(-1 * 1 * 10000000000, 16 * 1) == -625000000;
    }
    assert FlooredMod(-1, 16) == 15 by {
      assert D.FloorDiv(-1, 16) == -1;
    }
  }

  /** dechex('-1') after setScale(0): mod gives -1, which the native dechex
      prints as its 64-bit two's complement. */
  lemma DecHexOfMinusOneAtScaleZero()
    ensures DecHex(D.Number(-1, 0), Config(Some(0), true)) == "ffffffffffffffff"
  {
    var x, cfg := D.Number(-1, 0), Config(Some(0), true);
    MinusOneAtScaleZero(x, cfg);
  }

  lemma MinusOneAtScaleZero(x: D.Number, cfg: Config)
    requires x == D.Number(-1, 0) && cfg == Config(Some(0), true)
    ensures DecHex(x, cfg) == "ffffffffffffffff"
  {
    MinusOneQuotient(x);
    ModOfMinusOneAtScaleZero(x, cfg);
    SingleStep(x, cfg, -1);
    NativeMinusOne();
  }

  lemma ModOfMinusOneAtScaleZero(x: D.Number, cfg: Config)
    requires x == D.Number(-1, 0) && cfg == Config(Some(0), true)
    ensures ModNumbers(x, D.Number(16, 0), None, cfg) == Ok(D.Number(-1, 0))
  {
    var y := D.Number(16, 0);
    assert ModResidue(x, y, 0) == -1 by {
      assert FlooredQuotient(x, y, 0) == 0;
    }
    ModIs(x, y, None, cfg, -1);
  }

  /** The native dechex(-1) is sixteen 'f's. */
  lemma NativeMinusOne()
    ensures NativeDecHex(-1) == "ffffffffffffffff"
  {
    HexTextOfAllOnes(15);
    SixteenToTheSixteenth();
    var r := HexText(D.IntPow(16, 16) - 1);
    AllF(r, "ffffffffffffffff");
  }

  lemma AllF(r: string, s: string)
    requires |r| == 16 && forall i :: 0 <= i < |r| ==> r[i] == 'f'
    requires s == "ffffffffffffffff"
    ensures r == s
  {
  }

  /** dechex('2.5') is '2': (int) cuts the remainder 2.5 to 2. */
  lemma DecHexOfFraction()
    ensures DecHex(D.Number(25, 1), Config(None, true)) == "2"
  {
    var x, cfg := D.Number(25, 1), Config(None, true);
    FractionDigits(x, cfg);
  }

  lemma FractionDigits(x: D.Number, cfg: Config)
    requires x == D.Number(25, 1) && cfg == Config(None, true)
    ensures DecHex(x, cfg) == "2"
  {
    CastOfFraction(x);
    SmallNonNegative(x, cfg, 2, "2");
  }

  lemma CastOfFraction(x: D.Number)
    requires x == D.Number(25, 1)
    ensures IntCast(x) == 2
  {
    assert Pow10(1) == 10;
  }

  lemma SingleHexText(n: nat, s: string)
    requires n < 16 && s == [LowerHexDigits[n]]
    ensures HexText(n) == s && NativeDecHex(n) == s
  {
  }

  /** A decimal that is not negative and below 16 prints one digit. */
  lemma SmallNonNegative(x: D.Number, cfg: Config, n: nat, s: string)
    requires x.unscaled >= 0 && Exact(cfg.currentScale, x.scale, 0)
    requires IntCast(x) == n && n < 16 && s == [LowerHexDigits[n]]
    ensures DecHex(x, cfg) == s
  {
    DecHexOfNonNegative(x, cfg);
  }

  /** hexdec undoes dechex: the text of n comes back. */
  lemma DecHexRoundTrip(n: nat, cfg: Config, cfg': Config)
    ensures HexDec(DecHex(D.Number(n, 0), cfg), cfg') == IntText(n)
  {
    var s := DecHex(D.Number(n, 0), cfg);
    DecHexValue(n, cfg);
    NoHexPrefixIn(s);
    HexValueOfDigits(s);
    HexDecValue(s, cfg');
  }

  lemma NoHexPrefixIn(s: string)
    requires forall i :: 0 <= i < |s| ==> s[i] in LowerHexDigits
    ensures forall i :: 0 <= i < |s| ==> s[i] != 'x'
  {
    assert 'x' !in LowerHexDigits;
  }
}
