/** The class's arithmetic entry points over the normalised operands: the
    division guard, the floored modulo built from div/floor/mul/sub, powMod's
    guards and its fractional fallback, the factorial loop, and the base-16
    conversions. Every operation reads the class's configuration, which is
    passed in as a `Config` value (the class itself is in Radix). */
module Arithmetic {
  import opened Wrappers
  import opened Digits
  import D = Decimal
  import opened Normalizer

  /** The static state the operations read: the scale last given to setScale
      (null until then) and the trailing-zero trimming flag. */
  datatype Config = Config(currentScale: Option<nat>, trim: bool)

  /** getScaleForMethod: an explicit scale wins, otherwise the scale set by setScale. */
  function ScaleFor(cfg: Config, scale: Option<nat>): (r: Option<nat>)
    ensures r.Some? ==> scale.Some? || cfg.currentScale.Some?
    ensures r == if scale.Some? then scale else cfg.currentScale
  {
    match scale
    case Some(_) => scale
    case None => cfg.currentScale
  }

  /** The decimal an operand denotes under the configuration. */
  function Value(op: Operand, cfg: Config): D.Number
  {
    ConvertToNumber(op, cfg.trim)
  }

  /** A scale that keeps every digit of a sum of operands of scales `sa` and `sb`. */
  predicate Exact(scale: Option<nat>, sa: nat, sb: nat)
  {
    scale.None? || scale.value >= D.Max(sa, sb)
  }

  // ----- add, sub, mul: convert both operands, delegate at the method scale, format -----

  function AddNumbers(x: D.Number, y: D.Number, scale: Option<nat>, cfg: Config): (r: D.Number)
    ensures D.SameValue(r, D.Add(x, y, ScaleFor(cfg, scale)))
    ensures cfg.trim ==> D.Canonical(r)
    ensures !cfg.trim ==> r == D.Add(x, y, ScaleFor(cfg, scale))
  {
    FormatTrailingZeroes(D.Add(x, y, ScaleFor(cfg, scale)), cfg.trim)
  }

  function SubNumbers(x: D.Number, y: D.Number, scale: Option<nat>, cfg: Config): (r: D.Number)
    ensures D.SameValue(r, D.Sub(x, y, ScaleFor(cfg, scale)))
    ensures cfg.trim ==> D.Canonical(r)
    ensures !cfg.trim ==> r == D.Sub(x, y, ScaleFor(cfg, scale))
  {
    FormatTrailingZeroes(D.Sub(x, y, ScaleFor(cfg, scale)), cfg.trim)
  }

  function MulNumbers(x: D.Number, y: D.Number, scale: Option<nat>, cfg: Config): (r: D.Number)
    ensures D.SameValue(r, D.Mul(x, y, ScaleFor(cfg, scale)))
    ensures cfg.trim ==> D.Canonical(r)
    ensures !cfg.trim ==> r == D.Mul(x, y, ScaleFor(cfg, scale))
  {
    FormatTrailingZeroes(D.Mul(x, y, ScaleFor(cfg, scale)), cfg.trim)
  }

  function Add(a: Operand, b: Operand, scale: Option<nat>, cfg: Config): D.Number
  {
    AddNumbers(Value(a, cfg), Value(b, cfg), scale, cfg)
  }

  function Sub(a: Operand, b: Operand, scale: Option<nat>, cfg: Config): D.Number
  {
    SubNumbers(Value(a, cfg), Value(b, cfg), scale, cfg)
  }

  function Mul(a: Operand, b: Operand, scale: Option<nat>, cfg: Config): D.Number
  {
    MulNumbers(Value(a, cfg), Value(b, cfg), scale, cfg)
  }

  // ----- div and its guard -----

  /** The divisor check: the divisor, trimmed, prints as "0". */
  predicate TrimsToZero(n: D.Number)
  {
    D.Render(FormatTrailingZeroes(n, true)) == "0"
  }

  /** A decimal trims to "0" exactly when its value is zero. */
  lemma TrimsToZeroIff(n: D.Number)
    ensures TrimsToZero(n) <==> n.unscaled == 0
  {
    var r := FormatTrailingZeroes(n, true);
    if n.unscaled == 0 {
      ReduceOfZero(n.scale);
      assert D.Render(D.Number(0, 0)) == "0" by {
        assert D.Whole(D.Number(0, 0)) == 0;
      }
    } else {
      NonzeroOfSameValue(n, r);
      RenderNotZero(r);
    }
  }

  lemma {:induction false} ReduceOfZero(s: nat)
    ensures D.Reduce(D.Number(0, s)) == D.Number(0, 0)
  {
    if s > 0 {
      ReduceOfZero(s - 1);
    }
  }

  lemma RenderNotZero(r: D.Number)
    requires r.unscaled != 0
    ensures D.Render(r) != "0"
  {
    D.ParseRender(r);
  }

  /** div: a divisor that trims to "0" is rejected; otherwise the quotient is
      cut at the method scale and formatted. */
  function DivNumbers(x: D.Number, y: D.Number, scale: Option<nat>, cfg: Config): (r: Result<D.Number>)
    ensures r.Err? <==> y.unscaled == 0
    ensures r.Err? ==> r.error == InvalidArgument("Division by zero")
    ensures r.Ok? ==> D.SameValue(r.value, D.Div(x, y, ScaleFor(cfg, scale)))
    ensures r.Ok? && cfg.trim ==> D.Canonical(r.value)
    ensures r.Ok? && !cfg.trim ==> r.value == D.Div(x, y, ScaleFor(cfg, scale))
  {
    TrimsToZeroIff(y);
    if TrimsToZero(y) then Err(InvalidArgument("Division by zero"))
    else Ok(FormatTrailingZeroes(D.Div(x, y, ScaleFor(cfg, scale)), cfg.trim))
  }

  function Div(a: Operand, b: Operand, scale: Option<nat>, cfg: Config): Result<D.Number>
  {
    DivNumbers(Value(a, cfg), Value(b, cfg), scale, cfg)
  }

  // ----- mod: a - floor(a / b at the method scale) * b -----

  /** mod: divide at the method scale, floor the quotient, multiply back and
      subtract, formatting each step; the final subtraction is given the
      caller's scale, which getScaleForMethod resolves the same way. Each step
      converts the operands again, to the same decimals, so they are converted
      once here. */
  function ModNumbers(x: D.Number, y: D.Number, scale: Option<nat>, cfg: Config): (r: Result<D.Number>)
    ensures r.Err? <==> y.unscaled == 0
    ensures r.Err? ==> r.error == InvalidArgument("Division by zero")
    ensures r.Ok? && cfg.trim ==> D.Canonical(r.value)
  {
    var s := ScaleFor(cfg, scale);
    match DivNumbers(x, y, s, cfg)
    case Err(e) => Err(e)
    case Ok(q) =>
      var m := MulNumbers(D.Floor(q), y, s, cfg);
      Ok(FormatTrailingZeroes(SubNumbers(x, m, scale, cfg), cfg.trim))
  }

  function Mod(a: Operand, b: Operand, scale: Option<nat>, cfg: Config): Result<D.Number>
  {
    ModNumbers(Value(a, cfg), Value(b, cfg), scale, cfg)
  }

  /** The scale the decimal type divides at: the given one, or ten digits more than the wider operand. */
  function DivisionScale(s: Option<nat>, a: D.Number, b: D.Number): nat
  {
    match s
    case Some(t) => t
    case None => D.Max(a.scale, b.scale) + 10
  }

  /** The floor of a / b cut at `t` digits, on unscaled values: with a = x / 10^sa
      and b = y / 10^sb, a / b = (x * 10^sb) / (y * 10^sa). */
  function FlooredQuotient(a: D.Number, b: D.Number, t: nat): int
    requires b.unscaled != 0
  {
    D.NonzeroProduct(b.unscaled, Pow10(a.scale));
    D.TruncDiv(a.unscaled * Pow10(b.scale) * Pow10(t), b.unscaled * Pow10(a.scale)) / Pow10(t)
  }

  /** The modulo is a - floor(q) * b exactly, where q is a / b cut toward zero
      at the method scale, whenever that scale keeps every digit of a and b:
      with a = x / 10^sa and b = y / 10^sb, the result is
      (x * 10^sb - floor(q) * y * 10^sa) / 10^(sa + sb). */
  lemma ModValue(x: D.Number, y: D.Number, scale: Option<nat>, cfg: Config)
    requires y.unscaled != 0
    requires Exact(ScaleFor(cfg, scale), x.scale, y.scale)
    ensures ModNumbers(x, y, scale, cfg).Ok?
    ensures D.SameValue(ModNumbers(x, y, scale, cfg).value,
                        D.Number(ModResidue(x, y, DivisionScale(ScaleFor(cfg, scale), x, y)), x.scale + y.scale))
  {
    var s := ScaleFor(cfg, scale);
    var t := DivisionScale(s, x, y);
    var q := DivNumbers(x, y, s, cfg).value;
    var f := FlooredQuotient(x, y, t);
    var c := D.Number(x.unscaled * Pow10(y.scale) - f * (y.unscaled * Pow10(x.scale)), x.scale + y.scale);
    FloorOfQuotient(x, y, s, cfg);
    var m := MulNumbers(D.Number(f, 0), y, s, cfg);
    FloorTimesDivisor(f, y, s, cfg);
    var d := SubNumbers(x, m, scale, cfg);
    assert D.SameValue(d, c) by {
      SubValue(x, m, D.Number(f * y.unscaled, y.scale), s);
      MulAssoc(f, y.unscaled, Pow10(x.scale));
      D.SameValueTrans(d, D.Sub(x, m, s), c);
    }
    D.SameValueTrans(FormatTrailingZeroes(d, cfg.trim), d, c);
    assert c.unscaled == ModResidue(x, y, t);
  }

  /** The floor of div's quotient at the method scale is the floored quotient at the division scale. */
  lemma FloorOfQuotient(x: D.Number, y: D.Number, s: Option<nat>, cfg: Config)
    requires y.unscaled != 0 && s == ScaleFor(cfg, s)
    ensures D.Floor(DivNumbers(x, y, s, cfg).value) == D.Number(FlooredQuotient(x, y, DivisionScale(s, x, y)), 0)
  {
    D.FloorValue(DivNumbers(x, y, s, cfg).value, D.Div(x, y, s));
    QuotientFloor(x, y, s);
  }

  /** floor(q) * b at a scale that holds b's digits is exact. */
  lemma FloorTimesDivisor(f: int, y: D.Number, s: Option<nat>, cfg: Config)
    requires s == ScaleFor(cfg, s) && (s.None? || s.value >= y.scale)
    ensures var m := MulNumbers(D.Number(f, 0), y, s, cfg);
      D.SameValue(m, D.Number(f * y.unscaled, y.scale)) && (s.None? || m.scale <= s.value)
  {
    var m := MulNumbers(D.Number(f, 0), y, s, cfg);
    D.AtScaleExact(D.MulExact(D.Number(f, 0), y), s);
    D.SameValueTrans(m, D.Mul(D.Number(f, 0), y, s), D.MulExact(D.Number(f, 0), y));
  }

  lemma QuotientFloor(x: D.Number, y: D.Number, s: Option<nat>)
    requires y.unscaled != 0
    ensures D.Floor(D.Div(x, y, s)) == D.Number(FlooredQuotient(x, y, DivisionScale(s, x, y)), 0)
  {
    var t := DivisionScale(s, x, y);
    Pow10Add(t, y.scale);
    MulAssoc(x.unscaled, Pow10(y.scale), Pow10(t));
    assert x.unscaled * Pow10(t + y.scale) == x.unscaled * Pow10(y.scale) * Pow10(t);
  }

  lemma NegMul(a: int, b: int)
    ensures (-a) * b == -(a * b)
  {
  }

  /** Subtracting a decimal of the same value as m' denotes x - m'. */
  lemma SubValue(x: D.Number, m: D.Number, m': D.Number, s: Option<nat>)
    requires D.SameValue(m, m')
    requires s.None? || s.value >= D.Max(x.scale, m.scale)
    ensures D.SameValue(D.Sub(x, m, s),
      D.Number(x.unscaled * Pow10(m'.scale) - m'.unscaled * Pow10(x.scale), x.scale + m'.scale))
  {
    var e := D.AddExact(x, D.Negate(m));
    var e' := D.AddExact(x, D.Negate(m'));
    var c := D.Number(x.unscaled * Pow10(m'.scale) - m'.unscaled * Pow10(x.scale), x.scale + m'.scale);
    assert D.SameValue(D.Sub(x, m, s), e) by {
      D.AtScaleExact(e, s);
    }
    assert D.SameValue(e, e') by {
      assert D.SameValue(D.Negate(m), D.Negate(m')) by {
        NegMul(m.unscaled, Pow10(m'.scale));
        NegMul(m'.unscaled, Pow10(m.scale));
      }
      D.AddExactValue(x, D.Negate(m), D.Negate(m'));
    }
    assert D.SameValue(e', c) by {
      NegMul(m'.unscaled, Pow10(x.scale));
      D.AddExactCross(x, D.Negate(m'));
    }
    D.SameValueTrans(e, e', c);
    D.SameValueTrans(D.Sub(x, m, s), e, c);
  }

  // ----- natural numbers -----

  /** A decimal's value cut toward zero: PHP's (int) of integer text. PHP reads
      fractional text as a double first, which is not modelled. */
  function IntCast(n: D.Number): (r: int)
    ensures n.unscaled >= 0 ==> r == n.unscaled / Pow10(n.scale) && r >= 0
    ensures n.unscaled < 0 ==> r == -((-n.unscaled) / Pow10(n.scale)) && r <= 0
  {
    var p := Pow10(n.scale);
    DivNonneg(D.AbsInt(n.unscaled), p);
    D.TruncDiv(n.unscaled, p)
  }

  /** The bounds of PHP's 64-bit int. */
  const IntMin: int := -0x8000_0000_0000_0000
  const IntMax: int := 0x7fff_ffff_ffff_ffff

  /** (int) of a decimal's text, taken as the exact cut toward zero, held at
      the bounds of the 64-bit int when it lies beyond them. */
  function IntCast64(n: D.Number): (r: int)
    ensures IntMin <= r <= IntMax
    ensures IntMin <= IntCast(n) <= IntMax ==> r == IntCast(n)
    ensures IntCast(n) > IntMax ==> r == IntMax
    ensures IntCast(n) < IntMin ==> r == IntMin
  {
    var v := IntCast(n);
    if v > IntMax then IntMax else if v < IntMin then IntMin else v
  }

  lemma IntCastOfValue(m: D.Number, v: int)
    requires D.SameValue(m, D.Number(v, 0))
    ensures IntCast(m) == v
  {
    assert m.unscaled == v * Pow10(m.scale);
    D.TruncDivExact(v, Pow10(m.scale));
  }

  /** div of natural numbers at scale 0 is their quotient. */
  lemma QuotientOfNaturals(n: nat, b: nat, scale: Option<nat>, cfg: Config)
    requires b >= 1 && ScaleFor(cfg, scale) == Some(0)
    ensures DivNumbers(D.Number(n, 0), D.Number(b, 0), scale, cfg) == Ok(D.Number(n / b, 0))
  {
    assert D.Div(D.Number(n, 0), D.Number(b, 0), Some(0)) == D.Number(n / b, 0);
  }

  /** mod of natural numbers is their remainder, at any scale. */
  lemma RemainderOfNaturals(n: nat, b: nat, scale: Option<nat>, cfg: Config)
    requires b >= 1
    ensures ModNumbers(D.Number(n, 0), D.Number(b, 0), scale, cfg).Ok?
    ensures IntCast(ModNumbers(D.Number(n, 0), D.Number(b, 0), scale, cfg).value) == n % b
  {
    var x, y := D.Number(n, 0), D.Number(b, 0);
    var m := ModNumbers(x, y, scale, cfg).value;
    assert D.SameValue(m, D.Number(n % b, 0)) by {
      ModValue(x, y, scale, cfg);
      ResidueOfNaturals(n, b, DivisionScale(ScaleFor(cfg, scale), x, y));
    }
    IntCastOfValue(m, n % b);
  }

  lemma ResidueOfNaturals(n: nat, b: nat, t: nat)
    requires b >= 1
    ensures ModResidue(D.Number(n, 0), D.Number(b, 0), t) == n % b
  {
    var x, y := D.Number(n, 0), D.Number(b, 0);
    assert x.unscaled * Pow10(y.scale) == n && y.unscaled * Pow10(x.scale) == b;
    assert x.unscaled * y.unscaled >= 0 by {
      MulMonotone(n, 0, b);
    }
    assert FlooredMod(n, b) == n % b by {
      assert D.FloorDiv(n, b) == n / b;
    }
  }

  /** compare(k, 0) of an integer, with or without a scale. */
  lemma CompareWithZero(k: int, scale: Option<nat>)
    ensures D.Compare(D.Number(k, 0), D.Number(0, 0), scale) == 0 <==> k == 0
  {
    if scale.Some? {
      var t := scale.value;
      assert D.Rescale(D.Number(k, 0), t).unscaled == k * Pow10(t);
      assert D.Rescale(D.Number(0, 0), t).unscaled == 0;
      if k != 0 {
        D.NonzeroProduct(k, Pow10(t));
      }
    }
  }

  // ----- pow and powMod -----

  /** A fractional power: the series engine the class uses for it is not part of this model. */
  type PowFractional = (D.Number, D.Number, Option<nat>) -> D.Number

  /** pow with an integer exponent that is not negative: the decimal type's
      power at the method scale, formatted. Exact whenever the scale can hold it. */
  function PowInteger(b: D.Number, k: nat, scale: Option<nat>, cfg: Config): (r: D.Number)
    ensures D.SameValue(r, D.PowNat(b, k, ScaleFor(cfg, scale)))
    ensures cfg.trim ==> D.Canonical(r)
    ensures !cfg.trim ==> r == D.PowNat(b, k, ScaleFor(cfg, scale))
    ensures ScaleFor(cfg, scale).None? || ScaleFor(cfg, scale).value >= b.scale * k ==>
      D.SameValue(r, D.Number(D.IntPow(b.unscaled, k), b.scale * k))
  {
    var p := D.PowNat(b, k, ScaleFor(cfg, scale));
    var exact := D.Number(D.IntPow(b.unscaled, k), b.scale * k);
    if ScaleFor(cfg, scale).None? || ScaleFor(cfg, scale).value >= exact.scale then
      D.AtScaleExact(exact, ScaleFor(cfg, scale));
      D.SameValueTrans(FormatTrailingZeroes(p, cfg.trim), p, exact);
      FormatTrailingZeroes(p, cfg.trim)
    else FormatTrailingZeroes(p, cfg.trim)
  }

  /** pow on converted operands: a fractional exponent goes to the series
      engine, an integer one to the decimal type's power. Only exponents that
      are fractional or not negative are modelled. */
  function PowNumbers(b: D.Number, e: D.Number, scale: Option<nat>, cfg: Config, powFractional: PowFractional): (r: D.Number)
    requires e.scale > 0 || e.unscaled >= 0
    ensures cfg.trim ==> D.Canonical(r)
    ensures e.scale > 0 ==> D.SameValue(r, powFractional(b, e, ScaleFor(cfg, scale)))
    ensures e.scale == 0 ==> D.SameValue(r, D.PowNat(b, e.unscaled, ScaleFor(cfg, scale)))
    ensures e.scale == 0 && (ScaleFor(cfg, scale).None? || ScaleFor(cfg, scale).value >= b.scale * e.unscaled) ==>
      D.SameValue(r, D.Number(D.IntPow(b.unscaled, e.unscaled), b.scale * e.unscaled))
  {
    TextHelpersOfRender(e);
    if IsFloat(D.Render(e)) then FormatTrailingZeroes(powFractional(b, e, ScaleFor(cfg, scale)), cfg.trim)
    else PowInteger(b, e.unscaled, scale, cfg)
  }

  /** powMod: a negative exponent is rejected first, then a modulus that trims
      to "0"; both before any arithmetic. When any operand is fractional the
      result is mod(pow(base, exponent), modulus) at the method scale,
      otherwise the decimal type's integer powmod. The result is formatted. */
  function PowMod(base: Operand, exponent: Operand, modulus: Operand, scale: Option<nat>, cfg: Config,
                  powFractional: PowFractional): (r: Result<D.Number>)
    ensures var e := Value(exponent, cfg);
      (e.unscaled < 0 <==> r == Err(InvalidArgument("Exponent can't be negative")))
    ensures (Value(exponent, cfg).unscaled >= 0 && TrimTrailingZeroes(modulus).Ok?
             && D.Render(TrimTrailingZeroes(modulus).value) == "0")
            ==> r == Err(InvalidArgument("Modulus can't be zero"))
    ensures r.Ok? ==> (Value(exponent, cfg).unscaled >= 0 && TrimTrailingZeroes(modulus).Ok?
                       && D.Render(TrimTrailingZeroes(modulus).value) != "0")
  {
    var b, e := Value(base, cfg), Value(exponent, cfg);
    var s := ScaleFor(cfg, scale);
    TextHelpersOfRender(e);
    if IsNegative(D.Render(e)) then Err(InvalidArgument("Exponent can't be negative"))
    else match TrimTrailingZeroes(modulus)
      case Err(err) => Err(err)
      case Ok(t) =>
        if D.Render(t) == "0" then Err(InvalidArgument("Modulus can't be zero"))
        else PowModChecked(b, e, modulus, s, cfg, powFractional)
  }

  /** The part of powMod after both checks: the fallback through mod and pow
      when any operand is fractional, otherwise the decimal type's powmod. */
  function PowModChecked(b: D.Number, e: D.Number, modulus: Operand, s: Option<nat>, cfg: Config,
                         powFractional: PowFractional): (r: Result<D.Number>)
    requires e.unscaled >= 0
    ensures r.Err? ==> r.error.MalformedNumber? || r.error == InvalidArgument("Division by zero")
                       || r.error == InvalidArgument("Modulo by zero")
  {
    if IsFloat(D.Render(b)) || IsFloat(D.Render(e)) || IsFloat(Text(modulus)) then
      match Mod(NumOp(PowNumbers(b, e, s, cfg, powFractional)), modulus, s, cfg)
      case Err(err) => Err(err)
      case Ok(m) => Ok(FormatTrailingZeroes(m, cfg.trim))
    else
      match D.Parse(Text(modulus))
      case None => Err(MalformedNumber(Text(modulus)))
      case Some(m) =>
        match D.PowMod(b, e.unscaled, m, s)
        case Err(err) => Err(err)
        case Ok(v) => Ok(FormatTrailingZeroes(v, cfg.trim))
  }

  /** With a fractional base, exponent or modulus, powMod is
      mod(pow(base, exponent), modulus) at the method scale, formatted. */
  lemma PowModFallback(base: Operand, exponent: Operand, modulus: Operand, scale: Option<nat>, cfg: Config,
                       powFractional: PowFractional)
    requires Value(exponent, cfg).unscaled >= 0
    requires TrimTrailingZeroes(modulus).Ok? && D.Render(TrimTrailingZeroes(modulus).value) != "0"
    requires Value(base, cfg).scale > 0 || Value(exponent, cfg).scale > 0 || IsFloat(Text(modulus))
    requires Value(modulus, cfg).unscaled != 0
    ensures var b, e, y := Value(base, cfg), Value(exponent, cfg), Value(modulus, cfg);
      var s := ScaleFor(cfg, scale);
      PowMod(base, exponent, modulus, scale, cfg, powFractional)
        == Ok(FormatTrailingZeroes(ModNumbers(PowNumbers(b, e, s, cfg, powFractional), y, s, cfg).value, cfg.trim))
  {
    TextHelpersOfRender(Value(exponent, cfg));
    PowModCheckedFallback(Value(base, cfg), Value(exponent, cfg), modulus, ScaleFor(cfg, scale), cfg, powFractional);
  }

  lemma PowModCheckedFallback(b: D.Number, e: D.Number, modulus: Operand, s: Option<nat>, cfg: Config,
                              powFractional: PowFractional)
    requires e.unscaled >= 0 && (b.scale > 0 || e.scale > 0 || IsFloat(Text(modulus)))
    requires Value(modulus, cfg).unscaled != 0
    ensures PowModChecked(b, e, modulus, s, cfg, powFractional)
      == Ok(FormatTrailingZeroes(ModNumbers(PowNumbers(b, e, s, cfg, powFractional), Value(modulus, cfg), s, cfg).value, cfg.trim))
  {
    TextHelpersOfRender(e);
    TextHelpersOfRender(b);
    var p := PowNumbers(b, e, s, cfg, powFractional);
    assert Value(NumOp(p), cfg) == p;
  }

  /** The value of that fallback for an integer exponent: the residue of the
      power modulo the modulus, where the scale keeps every digit of both, and
      the power itself is exact where the scale keeps all its digits. */
  lemma ModOfPower(b: D.Number, e: D.Number, y: D.Number, s: Option<nat>, cfg: Config, powFractional: PowFractional)
    requires e.scale == 0 && e.unscaled >= 0 && y.unscaled != 0
    requires s == ScaleFor(cfg, s)
    ensures var p := PowNumbers(b, e, s, cfg, powFractional);
      ModNumbers(p, y, s, cfg).Ok?
      && (Exact(s, p.scale, y.scale) ==>
            D.SameValue(FormatTrailingZeroes(ModNumbers(p, y, s, cfg).value, cfg.trim),
                        D.Number(ModResidue(p, y, DivisionScale(s, p, y)), p.scale + y.scale)))
      && (s.None? || s.value >= b.scale * e.unscaled ==>
            D.SameValue(p, D.Number(D.IntPow(b.unscaled, e.unscaled), b.scale * e.unscaled)))
  {
    var p := PowNumbers(b, e, s, cfg, powFractional);
    var m := ModNumbers(p, y, s, cfg).value;
    if Exact(s, p.scale, y.scale) {
      ModValue(p, y, s, cfg);
      D.SameValueTrans(FormatTrailingZeroes(m, cfg.trim), m,
                       D.Number(ModResidue(p, y, DivisionScale(s, p, y)), p.scale + y.scale));
    }
  }

  /** With integer operands powMod is the decimal type's powmod: the power
      cut to the modulus, keeping the sign of the power, at the method scale. */
  lemma PowModIntegers(base: Operand, exponent: Operand, modulus: Operand, scale: Option<nat>, cfg: Config,
                       powFractional: PowFractional, m: D.Number)
    requires Value(base, cfg).scale == 0 && Value(exponent, cfg).scale == 0 && !IsFloat(Text(modulus))
    requires Value(exponent, cfg).unscaled >= 0
    requires TrimTrailingZeroes(modulus).Ok? && D.Render(TrimTrailingZeroes(modulus).value) != "0"
    requires D.Parse(Text(modulus)) == Some(m) && m.scale == 0 && m.unscaled != 0
    ensures var b, e := Value(base, cfg), Value(exponent, cfg);
      var r := PowMod(base, exponent, modulus, scale, cfg, powFractional);
      r.Ok? && D.SameValue(r.value, D.Number(D.TruncRem(D.IntPow(b.unscaled, e.unscaled), m.unscaled), 0))
  {
    var b, e := Value(base, cfg), Value(exponent, cfg);
    TextHelpersOfRender(e);
    PowModCheckedIntegers(b, e, modulus, ScaleFor(cfg, scale), cfg, powFractional, m);
  }

  lemma PowModCheckedIntegers(b: D.Number, e: D.Number, modulus: Operand, s: Option<nat>, cfg: Config,
                              powFractional: PowFractional, m: D.Number)
    requires b.scale == 0 && e.scale == 0 && e.unscaled >= 0 && !IsFloat(Text(modulus))
    requires D.Parse(Text(modulus)) == Some(m) && m.scale == 0 && m.unscaled != 0
    ensures var r := PowModChecked(b, e, modulus, s, cfg, powFractional);
      r.Ok? && D.SameValue(r.value, D.Number(D.TruncRem(D.IntPow(b.unscaled, e.unscaled), m.unscaled), 0))
  {
    TextHelpersOfRender(e);
    TextHelpersOfRender(b);
    var v := D.Number(D.TruncRem(D.IntPow(b.unscaled, e.unscaled), m.unscaled), 0);
    assert D.PowMod(b, e.unscaled, m, s) == Ok(D.AtScale(v, s));
    D.AtScaleExact(v, s);
    D.SameValueTrans(FormatTrailingZeroes(D.AtScale(v, s), cfg.trim), D.AtScale(v, s), v);
  }

  // ----- fact -----

  function Factorial(n: nat): nat
  {
    if n == 0 then 1 else n * Factorial(n - 1)
  }

  lemma {:induction false} FactorialPositive(n: nat)
    ensures Factorial(n) >= 1
  {
    if n > 0 {
      FactorialPositive(n - 1);
      MulAtLeast(Factorial(n - 1), n);
      assert Factorial(n) == Factorial(n - 1) * n;
    }
  }

  /** Every k from 1 to n divides n!. */
  lemma {:induction false} FactorialDivisible(n: nat, k: nat)
    requires 1 <= k <= n
    ensures Factorial(n) % k == 0
  {
    if k == n {
      MulDivCancel(Factorial(n - 1), n);
      assert Factorial(n) == Factorial(n - 1) * n;
    } else {
      FactorialDivisible(n - 1, k);
      var j := Factorial(n - 1) / k;
      assert Factorial(n - 1) == j * k;
      MulAssoc(n, j, k);
      MulDivCancel(n * j, k);
    }
  }

  /** fact: a fractional number and a negative number are rejected, in that
      order; otherwise the product 2 * 3 * ... * n, starting from 1, with
      exact multiplications and no formatting. */
  method Fact(number: Operand, cfg: Config) returns (r: Result<D.Number>)
    ensures var n := Value(number, cfg);
      (n.scale > 0 <==> r == Err(InvalidArgument("Number has to be an integer")))
      && (n.scale == 0 && n.unscaled < 0 <==> r == Err(InvalidArgument("Number has to be greater than or equal to 0")))
      && (n.scale == 0 && n.unscaled >= 0 ==> r == Ok(D.Number(Factorial(n.unscaled), 0)))
  {
    var n := Value(number, cfg);
    TextHelpersOfRender(n);
    if IsFloat(D.Render(n)) {
      return Err(InvalidArgument("Number has to be an integer"));
    }
    if IsNegative(D.Render(n)) {
      return Err(InvalidArgument("Number has to be greater than or equal to 0"));
    }
    var product := FactorialLoop(n.unscaled);
    return Ok(product);
  }

  /** The loop of fact: multiply 1 by 2, 3, ..., n with the decimal type's exact product. */
  method FactorialLoop(n: nat) returns (product: D.Number)
    ensures product == D.Number(Factorial(n), 0)
  {
    product := D.Number(1, 0);
    var i := 2;
    while i <= n
      invariant 2 <= i <= D.Max(n, 1) + 1
      invariant product == D.Number(Factorial(i - 1), 0)
    {
      product := D.Mul(product, D.Number(i, 0), None);
      i := i + 1;
    }
  }

  // ----- the floored remainder on integers -----

  /** The remainder of floored division: it takes the divisor's sign. */
  function FlooredMod(a: int, b: int): (r: int)
    requires b != 0
    ensures D.AbsInt(r) < D.AbsInt(b)
    ensures r == 0 || (r < 0) == (b < 0)
    ensures (a - r) % D.AbsInt(b) == 0
  {
    FlooredModCases(a, b);
    a - b * D.FloorDiv(a, b)
  }

  lemma FlooredModCases(a: int, b: int)
    requires b != 0
    ensures var r := a - b * D.FloorDiv(a, b);
      D.AbsInt(r) < D.AbsInt(b) && (r == 0 || (r < 0) == (b < 0)) && (a - r) % D.AbsInt(b) == 0
  {
    if b > 0 {
      var q := a / b;
      assert a - b * q == a % b;
      assert a - (a - b * q) == q * b;
      MulDivCancel(q, b);
    } else {
      var q := (-a) / (-b);
      assert a - b * q == -((-a) % (-b));
      assert a - (a - b * q) == (-q) * (-b);
      MulDivCancel(-q, -b);
    }
  }

  lemma CancelLess(x: int, y: int, p: int)
    requires p > 0 && x * p < y * p
    ensures x < y
  {
    if x >= y {
      MulMonotone(p, y, x);
    }
  }

  /** Division cut toward zero by a positive divisor brackets the dividend. */
  lemma TruncDivBounds(n: int, b: int)
    requires b > 0
    ensures n >= 0 ==> D.TruncDiv(n, b) * b <= n < D.TruncDiv(n, b) * b + b
    ensures n < 0 ==> n <= D.TruncDiv(n, b) * b < n + b
  {
    if n < 0 {
      var k := (-n) / b;
      assert -n == b * k + (-n) % b;
      assert D.TruncDiv(n, b) == -k;
      NegMul(k, b);
    }
  }

  /** Flooring q / p keeps a - floor(q / p) * b within one divisor of zero when
      q * b is within one divisor of a * p. */
  lemma FloorOfBracket(a: int, b: int, p: int, q: int)
    requires b > 0 && p >= 1
    requires q * b < a * p + b && a * p < q * b + b
    ensures -b < a - (q / p) * b < b
  {
    var f := q / p;
    assert q == p * f + q % p && 0 <= q % p < p;
    assert (f + 1) * b > a by {
      MulMonotone(b, q + 1, (f + 1) * p);
      MulAssoc(b, f + 1, p);
      assert a * p < b * (q + 1);
      CancelLess(a, (f + 1) * b, p);
    }
    assert f * b < a + b by {
      MulMonotone(b, f * p, q);
      MulAssoc(b, f, p);
      MulMonotone(b, 1, p);
      assert (f * b) * p < (a + b) * p;
      CancelLess(f * b, a + b, p);
    }
  }

  /** When q * b does not exceed a * p, the floor of q / p is the floor of a / b. */
  lemma FloorOfBracketBelow(a: int, b: int, p: int, q: int)
    requires b > 0 && p >= 1
    requires q * b <= a * p < q * b + b
    ensures a - (q / p) * b == a % b
  {
    var f := q / p;
    FloorOfBracket(a, b, p, q);
    assert q == p * f + q % p && 0 <= q % p < p;
    assert f * b <= a by {
      MulMonotone(b, f * p, q);
      MulAssoc(b, f, p);
      if f * b > a {
        MulMonotone(p, a + 1, f * b);
      }
    }
    DivModUnique(a, b, f, a - f * b);
  }

  /** a - floor(trunc(a * p / b) / p) * b for a positive divisor: within one
      divisor of zero, and the floored remainder when a is not negative or
      the cut quotient is exact. */
  lemma FlooredRemainderPositive(a: int, b: int, p: int)
    requires b > 0 && p >= 1
    ensures var q := D.TruncDiv(a * p, b);
      var r := a - (q / p) * b;
      -b < r < b && ((a >= 0 || q * b == a * p) ==> r == FlooredMod(a, b))
  {
    var q := D.TruncDiv(a * p, b);
    TruncDivBounds(a * p, b);
    assert a >= 0 <==> a * p >= 0 by {
      if a < 0 { MulMonotone(p, a, -1); }
      else { MulMonotone(p, 0, a); }
    }
    FloorOfBracket(a, b, p, q);
    if a >= 0 || q * b == a * p {
      FloorOfBracketBelow(a, b, p, q);
      assert FlooredMod(a, b) == a % b;
    }
  }

  /** The same for either sign of the divisor: a negative divisor negates
      the dividend, the divisor and the remainder. */
  lemma FlooredRemainder(a: int, b: int, p: int)
    requires b != 0 && p >= 1
    ensures var q := D.TruncDiv(a * p, b);
      var r := a - (q / p) * b;
      D.AbsInt(r) < D.AbsInt(b) && ((a * b >= 0 || q * b == a * p) ==> r == FlooredMod(a, b))
  {
    if b > 0 {
      FlooredRemainderPositive(a, b, p);
      assert a * b >= 0 ==> a >= 0 by {
        if a < 0 { MulMonotone(b, a, -1); }
      }
    } else {
      FlooredRemainderNegative(a, b, p);
    }
  }

  lemma FlooredRemainderNegative(a: int, b: int, p: int)
    requires b < 0 && p >= 1
    ensures var q := D.TruncDiv(a * p, b);
      var r := a - (q / p) * b;
      D.AbsInt(r) < D.AbsInt(b) && ((a * b >= 0 || q * b == a * p) ==> r == FlooredMod(a, b))
  {
    var q := D.TruncDiv(a * p, b);
    NegateQuotient(a, b, p);
    FlooredRemainderPositive(-a, -b, p);
    NegateBoth(a, b, p, q);
  }

  lemma NegateQuotient(a: int, b: int, p: int)
    requires b < 0
    ensures D.TruncDiv(a * p, b) == D.TruncDiv((-a) * p, -b)
  {
    NegMul(a, p);
    TruncDivNegate(a * p, b);
  }

  lemma TruncDivNegate(x: int, b: int)
    requires b < 0
    ensures D.TruncDiv(x, b) == D.TruncDiv(-x, -b)
  {
    assert D.AbsInt(-x) == D.AbsInt(x) && D.AbsInt(-b) == D.AbsInt(b);
    if x == 0 {
      assert D.AbsInt(x) / D.AbsInt(b) == 0;
    }
  }

  lemma NegateBoth(a: int, b: int, p: int, q: int)
    requires b < 0 && p >= 1
    ensures a - (q / p) * b == -((-a) - (q / p) * (-b))
    ensures FlooredMod(a, b) == -FlooredMod(-a, -b)
    ensures (a * b >= 0 || q * b == a * p) ==> (-a >= 0 || q * (-b) == (-a) * p)
  {
    NegMul(q / p, b);
    assert D.FloorDiv(a, b) == (-a) / (-b);
    NegMul(b, D.FloorDiv(a, b));
    NegMul(q, b);
    NegMul(a, p);
    if a > 0 {
      MulMonotone(a, b, -1);
    }
  }

  /** The division at `t` digits cuts nothing off: a / b has at most t decimals. */
  predicate QuotientExact(a: D.Number, b: D.Number, t: nat)
    requires b.unscaled != 0
  {
    D.NonzeroProduct(b.unscaled, Pow10(a.scale));
    var bb := b.unscaled * Pow10(a.scale);
    D.TruncDiv(a.unscaled * Pow10(b.scale) * Pow10(t), bb) * bb == a.unscaled * Pow10(b.scale) * Pow10(t)
  }

  /** The unscaled value, at scale sa + sb, of a - floor(q) * b, where q is a / b
      cut at `t` digits. It lies strictly between -b and b, and it is the
      floored remainder, with the divisor's sign, whenever a and b do not have
      opposite signs or the cut quotient is exact. */
  function ModResidue(a: D.Number, b: D.Number, t: nat): (r: int)
    requires b.unscaled != 0
    ensures var x, y := a.unscaled * Pow10(b.scale), b.unscaled * Pow10(a.scale);
      D.AbsInt(r) < D.AbsInt(y)
      && ((a.unscaled * b.unscaled >= 0 || QuotientExact(a, b, t)) ==> r == FlooredMod(x, y))
  {
    D.NonzeroProduct(b.unscaled, Pow10(a.scale));
    var x, y := a.unscaled * Pow10(b.scale), b.unscaled * Pow10(a.scale);
    FlooredRemainder(x, y, Pow10(t));
    SignOfScaled(a.unscaled, b.unscaled, Pow10(b.scale), Pow10(a.scale));
    x - FlooredQuotient(a, b, t) * y
  }

  lemma SignOfScaled(u: int, v: int, pu: int, pv: int)
    requires pu > 0 && pv > 0
    ensures u * v >= 0 ==> (u * pu) * (v * pv) >= 0
  {
    MulAssoc(u, pu, v * pv);
    MulAssoc(v, pv, pu);
    MulAssoc(u, v, pv * pu);
    if u * v >= 0 {
      MulMonotone(u * v, 0, pv * pu);
    }
  }

  // ----- worked examples -----

  /** The result of mod under trimming, given its value. */
  lemma ModIs(x: D.Number, y: D.Number, scale: Option<nat>, cfg: Config, v: int)
    requires y.unscaled != 0 && cfg.trim
    requires Exact(ScaleFor(cfg, scale), x.scale, y.scale)
    requires ModResidue(x, y, DivisionScale(ScaleFor(cfg, scale), x, y)) == v * Pow10(x.scale + y.scale)
    ensures ModNumbers(x, y, scale, cfg) == Ok(D.Number(v, 0))
  {
    var r := ModNumbers(x, y, scale, cfg).value;
    ModValue(x, y, scale, cfg);
    D.SameValueTrans(r, D.Number(v * Pow10(x.scale + y.scale), x.scale + y.scale), D.Number(v, 0));
    D.CanonicalUnique(r, D.Number(v, 0));
  }

  /** "-1" mod "5" at scale 0: the quotient -0.2 is cut to 0, so the
      remainder keeps the dividend's sign. */
  lemma ModOfNegativeDividendAtScaleZero()
    ensures ModNumbers(D.Number(-1, 0), D.Number(5, 0), Some(0), Config(None, true)) == Ok(D.Number(-1, 0))
  {
    ModIs(D.Number(-1, 0), D.Number(5, 0), Some(0), Config(None, true), -1);
  }

  /** "-1" mod "5" at the default division scale: the quotient -0.2 floors
      to -1 and the remainder takes the divisor's sign. */
  lemma ModOfNegativeDividend()
    ensures ModNumbers(D.Number(-1, 0), D.Number(5, 0), None, Config(None, true)) == Ok(D.Number(4, 0))
  {
    var a, b := D.Number(-1, 0), D.Number(5, 0);
    assert QuotientExact(a, b, 10) by {
      assert Pow10(10) == 10000000000;
      assert D.TruncDiv(-1 * 1 * 10000000000, 5 * 1) == -2000000000;
    }
    assert FlooredMod(-1, 5) == 4 by {
      assert D.FloorDiv(-1, 5) == -1;
    }
    ModIs(a, b, None, Config(None, true), 4);
  }

  /** The same on the texts "-1" and "5". */
  lemma ModOfNegativeText()
    ensures Mod(StrOp("-1"), StrOp("5"), Some(0), Config(None, true)) == Ok(D.Number(-1, 0))
    ensures Mod(StrOp("-1"), StrOp("5"), None, Config(None, true)) == Ok(D.Number(4, 0))
  {
    ValueOfIntegerText(-1, "-1");
    ValueOfIntegerText(5, "5");
    ModOfNegativeDividendAtScaleZero();
    ModOfNegativeDividend();
  }

  lemma ValueOfIntegerText(v: int, s: string)
    requires s == D.Render(D.Number(v, 0))
    ensures Value(StrOp(s), Config(None, true)) == D.Number(v, 0)
  {
    ConvertRender(D.Number(v, 0), true);
  }

  /** "11" mod "2" is 1, and "10" mod "-3" is -2, with the divisor's sign. */
  lemma ModExamples()
    ensures ModNumbers(D.Number(11, 0), D.Number(2, 0), None, Config(None, true)) == Ok(D.Number(1, 0))
    ensures ModNumbers(D.Number(10, 0), D.Number(-3, 0), None, Config(None, true)) == Ok(D.Number(-2, 0))
  {
    assert Pow10(10) == 10000000000;
    assert FlooredMod(11, 2) == 1 by {
      assert D.FloorDiv(11, 2) == 5;
    }
    ModIs(D.Number(11, 0), D.Number(2, 0), None, Config(None, true), 1);
    assert D.TruncDiv(10 * 1 * 10000000000, -3 * 1) == -33333333333;
    assert -33333333333 / 10000000000 == -4;
    assert FlooredQuotient(D.Number(10, 0), D.Number(-3, 0), 10) == -4;
    ModIs(D.Number(10, 0), D.Number(-3, 0), None, Config(None, true), -2);
  }
}
