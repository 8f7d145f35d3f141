/** The class's static state (the scale it last set) and its radix codec:
    dec2bin and bin2dec in any base from 2 to 256, which run at scale 0 and
    then put back the scale that was current, and the bitwise operators built
    on them, which work on big-endian byte strings in two's complement. */
module Radix {
  import opened Wrappers
  import opened Digits
  import D = Decimal
  import opened Normalizer
  import opened Arithmetic
  import opened Hex

  /** The largest base, and the number of values of a byte. */
  const MaxBase: nat := 256

  /** One character of a binary string, by its ord. */
  type Byte = b: int | 0 <= b < 256

  // ----- byte strings as numbers -----

  /** The value of a big-endian digit string in a base. */
  function FromBase(s: seq<Byte>, base: nat): nat
  {
    if s == [] then 0 else FromBase(s[..|s| - 1], base) * base + s[|s| - 1]
  }

  /** The digits of n in a base, most significant first; none for zero. */
  function ToBase(n: nat, base: nat): (r: seq<Byte>)
    requires 2 <= base <= MaxBase
    ensures forall i :: 0 <= i < |r| ==> r[i] < base
    ensures n > 0 ==> |r| >= 1 && r[0] != 0
    decreases n
  {
    if n == 0 then [] else ToBase(n / base, base) + [n % base]
  }

  /** What dec2bin returns: the single byte 0 for zero, else the digits of n. */
  function Encoding(n: nat, base: nat): (r: seq<Byte>)
    requires 2 <= base <= MaxBase
    ensures |r| >= 1 && forall i :: 0 <= i < |r| ==> r[i] < base
    ensures n > 0 ==> r[0] != 0
  {
    if n == 0 then [0] else ToBase(n, base)
  }

  lemma {:induction false} FromToBase(n: nat, base: nat)
    requires 2 <= base <= MaxBase
    ensures FromBase(ToBase(n, base), base) == n
    decreases n
  {
    if n > 0 {
      var q := n / base;
      ToBaseStep(n, base);
      FromToBase(q, base);
      var r := ToBase(n, base);
      assert r[..|r| - 1] == ToBase(q, base);
      assert FromBase(r, base) == q * base + n % base;
      DivModParts(n, base);
    }
  }

  lemma DivModParts(n: int, d: int)
    requires d > 0
    ensures n / d * d + n % d == n
  {
  }

  /** Reading back what dec2bin writes gives the number again. */
  lemma EncodingValue(n: nat, base: nat)
    requires 2 <= base <= MaxBase
    ensures FromBase(Encoding(n, base), base) == n
  {
    if n == 0 {
      assert FromBase([0], base) == FromBase([], base) * base + 0;
    } else {
      FromToBase(n, base);
    }
  }

  /** A digit string with a nonzero byte has a positive value. */
  lemma {:induction false} FromBasePositive(s: seq<Byte>, base: nat, k: nat)
    requires base >= 1 && k < |s| && s[k] != 0
    ensures FromBase(s, base) > 0
    decreases |s|
  {
    if k < |s| - 1 {
      FromBasePositive(s[..|s| - 1], base, k);
      MulAtLeast(FromBase(s[..|s| - 1], base), base);
    }
  }

  /** Writing out the value of a digit string without a leading zero gives the
      string back: the digits of a number are unique. */
  lemma {:induction false} ToFromBase(s: seq<Byte>, base: nat)
    requires 2 <= base <= MaxBase
    requires forall i :: 0 <= i < |s| ==> s[i] < base
    requires |s| > 0 ==> s[0] != 0
    ensures ToBase(FromBase(s, base), base) == s
    decreases |s|
  {
    if |s| > 0 {
      var init, last := s[..|s| - 1], s[|s| - 1];
      var v := FromBase(s, base);
      DivModUnique(v, base, FromBase(init, base), last);
      if init == [] {
        assert v == last;
      } else {
        ToFromBase(init, base);
        FromBasePositive(init, base, 0);
        MulAtLeast(FromBase(init, base), base);
        assert ToBase(v, base) == ToBase(v / base, base) + [v % base];
      }
    }
  }

  lemma {:induction false} IntPowPositive(b: int, e: nat)
    requires b >= 1
    ensures D.IntPow(b, e) >= 1
    decreases e
  {
    if e > 0 {
      IntPowPositive(b, e - 1);
      MulAtLeast(D.IntPow(b, e - 1), b);
    }
  }

  // ----- str_pad and the complement -----

  function Zeros(k: nat): (r: seq<Byte>)
    ensures |r| == k && forall i :: 0 <= i < k ==> r[i] == 0
  {
    seq(k, _ => 0)
  }

  /** str_pad to the left with the byte 0 up to a length. */
  function Aligned(s: seq<Byte>, length: int): (r: seq<Byte>)
    ensures |r| == D.Max(|s|, if length < 0 then 0 else length)
    ensures r[|r| - |s|..] == s
    ensures forall i :: 0 <= i < |r| - |s| ==> r[i] == 0
  {
    if length > |s| then Zeros(length - |s|) + s else s
  }

  lemma {:induction false} ZerosValue(k: nat, base: nat)
    ensures FromBase(Zeros(k), base) == 0
    decreases k
  {
    if k > 0 {
      assert Zeros(k)[..k - 1] == Zeros(k - 1);
      ZerosValue(k - 1, base);
    }
  }

  /** Leading zero bytes do not change the value. */
  lemma {:induction false} LeadingZeros(k: nat, s: seq<Byte>, base: nat)
    ensures FromBase(Zeros(k) + s, base) == FromBase(s, base)
    decreases |s|
  {
    if s == [] {
      assert Zeros(k) + s == Zeros(k);
      ZerosValue(k, base);
    } else {
      var t := Zeros(k) + s;
      assert t[..|t| - 1] == Zeros(k) + s[..|s| - 1];
      LeadingZeros(k, s[..|s| - 1], base);
    }
  }

  lemma AlignedValue(s: seq<Byte>, length: int, base: nat)
    ensures FromBase(Aligned(s, length), base) == FromBase(s, base)
  {
    if length > |s| {
      LeadingZeros(length - |s|, s, base);
    }
  }

  /** Each byte xor-ed with the all-ones byte 255, which is 255 minus it. */
  function Complement(s: seq<Byte>): (r: seq<Byte>)
    ensures |r| == |s| && forall i :: 0 <= i < |s| ==> r[i] == 255 - s[i]
  {
    seq(|s|, i requires 0 <= i < |s| => 255 - s[i])
  }

  /** The position of the last byte below 255, or -1 when every byte is 255. */
  function RightmostBelow(c: seq<Byte>): (k: int)
    ensures -1 <= k < |c|
    ensures k >= 0 ==> c[k] < 255
    ensures forall j :: k < j < |c| ==> c[j] == 255
  {
    if c == [] then -1
    else if c[|c| - 1] < 255 then |c| - 1
    else RightmostBelow(c[..|c| - 1])
  }

  /** recalculateNegative as written: complement every byte, then add one to
      the last byte below 255; the 255 bytes after it stay 255. */
  function Negated(s: seq<Byte>): (r: seq<Byte>)
    ensures |r| == |s|
  {
    var c := Complement(s);
    var k := RightmostBelow(c);
    if k < 0 then c else c[k := c[k] + 1]
  }

  /** The complement's value is the largest value of its length minus the original's. */
  lemma {:induction false} ComplementValue(s: seq<Byte>)
    ensures FromBase(Complement(s), 256) == D.IntPow(256, |s|) - 1 - FromBase(s, 256)
    decreases |s|
  {
    if s != [] {
      var c := Complement(s);
      assert c[..|c| - 1] == Complement(s[..|s| - 1]);
      ComplementValue(s[..|s| - 1]);
    }
  }

  /** Changing only the last byte changes the value by the same amount. */
  lemma LastByteValue(s: seq<Byte>, b: Byte)
    requires |s| >= 1
    ensures FromBase(s[|s| - 1 := b], 256) == FromBase(s, 256) - s[|s| - 1] + b
  {
    var t := s[|s| - 1 := b];
    assert t[..|t| - 1] == s[..|s| - 1];
  }

  /** When the last byte is not 0, recalculateNegative is the two's complement:
      the value becomes 256^n minus the original. */
  lemma NegatedValue(s: seq<Byte>)
    requires |s| >= 1 && s[|s| - 1] != 0
    ensures FromBase(Negated(s), 256) == D.IntPow(256, |s|) - FromBase(s, 256)
  {
    var c := Complement(s);
    assert RightmostBelow(c) == |c| - 1;
    ComplementValue(s);
    LastByteValue(c, c[|c| - 1] + 1);
  }

  /** A negated string of at least one byte is never all zeros. */
  lemma NegatedPositive(s: seq<Byte>)
    requires |s| >= 1
    ensures FromBase(Negated(s), 256) > 0
  {
    var c := Complement(s);
    var k := RightmostBelow(c);
    if k < 0 {
      FromBasePositive(Negated(s), 256, 0);
    } else {
      FromBasePositive(Negated(s), 256, k);
    }
  }

  /** The corrected two's complement: complement and add one with the carry
      carried through, which leaves the trailing zero bytes 0, turns the last
      nonzero byte b into 256 - b and complements every byte before it. */
  function TwosComplement(s: seq<Byte>): (r: seq<Byte>)
    ensures |r| == |s|
  {
    if s == [] then []
    else if s[|s| - 1] == 0 then TwosComplement(s[..|s| - 1]) + [0]
    else Complement(s[..|s| - 1]) + [256 - s[|s| - 1]]
  }

  /** 256^n, the number of values of an n-byte string. */
  function ByteRange(n: nat): (p: int)
    ensures p >= 1
  {
    IntPowPositive(256, n);
    D.IntPow(256, n)
  }

  /** The value of the two's complement: zero stays zero, and any other value
      v of n bytes becomes 256^n - v. */
  lemma {:induction false} TwosComplementValue(s: seq<Byte>)
    ensures FromBase(s, 256) < ByteRange(|s|)
    ensures FromBase(s, 256) == 0 ==> FromBase(TwosComplement(s), 256) == 0
    ensures FromBase(s, 256) > 0 ==> FromBase(TwosComplement(s), 256) == ByteRange(|s|) - FromBase(s, 256)
    decreases |s|
  {
    ComplementValue(s);
    if s != [] {
      var init := s[..|s| - 1];
      var r := TwosComplement(s);
      if s[|s| - 1] == 0 {
        TwosComplementValue(init);
        assert r[..|r| - 1] == TwosComplement(init);
      } else {
        ComplementValue(init);
        assert r[..|r| - 1] == Complement(init);
      }
    }
  }

  /** The complement of a string is the complement of its front, then of its last byte. */
  lemma ComplementSnoc(s: seq<Byte>)
    requires |s| >= 1
    ensures Complement(s) == Complement(s[..|s| - 1]) + [255 - s[|s| - 1]]
  {
    var c, d := Complement(s), Complement(s[..|s| - 1]) + [255 - s[|s| - 1]];
    assert |c| == |d|;
    forall i | 0 <= i < |c|
      ensures c[i] == d[i]
    {
      if i < |s| - 1 {
        assert d[i] == Complement(s[..|s| - 1])[i];
      }
    }
  }

  /** Where the last byte is not 0, recalculateNegative agrees with the two's complement. */
  lemma NegatedIsTwosComplement(s: seq<Byte>)
    requires |s| >= 1 && s[|s| - 1] != 0
    ensures Negated(s) == TwosComplement(s)
  {
    NegatedWhenLastNonzero(s);
    TwosComplementWhenLastNonzero(s);
  }

  /** With a nonzero last byte the carry stops at once: only that byte is incremented. */
  lemma NegatedWhenLastNonzero(s: seq<Byte>)
    requires |s| >= 1 && s[|s| - 1] != 0
    ensures Negated(s) == Complement(s)[|s| - 1 := 256 - s[|s| - 1]]
  {
    var c := Complement(s);
    assert RightmostBelow(c) == |s| - 1;
  }

  lemma TwosComplementWhenLastNonzero(s: seq<Byte>)
    requires |s| >= 1 && s[|s| - 1] != 0
    ensures TwosComplement(s) == Complement(s)[|s| - 1 := 256 - s[|s| - 1]]
  {
    var k := |s| - 1;
    var tc, c := TwosComplement(s), Complement(s);
    assert tc == Complement(s[..k]) + [256 - s[k]];
    forall i | 0 <= i < |s|
      ensures tc[i] == c[k := 256 - s[k]][i]
    {
      if i < k {
        assert tc[i] == Complement(s[..k])[i];
      }
    }
  }

  // ----- the bitwise operators on bytes -----

  datatype BitOperator = And | Or | Xor

  /** PHP's bytewise &, | and ^ on one pair of characters. */
  function ByteOp(op: BitOperator, a: Byte, b: Byte): Byte
  {
    match op
    case And => ((a as bv8) & (b as bv8)) as int
    case Or => ((a as bv8) | (b as bv8)) as int
    case Xor => ((a as bv8) ^ (b as bv8)) as int
  }

  /** The operator on two strings of equal length, byte by byte. */
  function Bytewise(op: BitOperator, x: seq<Byte>, y: seq<Byte>): (r: seq<Byte>)
    requires |x| == |y|
    ensures |r| == |x| && forall i :: 0 <= i < |x| ==> r[i] == ByteOp(op, x[i], y[i])
  {
    seq(|x|, i requires 0 <= i < |x| => ByteOp(op, x[i], y[i]))
  }

  /** The sign of the result: and of the signs for &, or for |, exclusive or for ^. */
  function NegativeResult(op: BitOperator, leftNegative: bool, rightNegative: bool): bool
  {
    match op
    case And => leftNegative && rightNegative
    case Or => leftNegative || rightNegative
    case Xor => leftNegative != rightNegative
  }

  /** The common length of the two operands' strings: the longer one's. */
  function Width(l: int, r: int): nat
  {
    D.Max(|Encoding(D.AbsInt(l), MaxBase)|, |Encoding(D.AbsInt(r), MaxBase)|)
  }

  /** One operand's bytes: its magnitude aligned to the width, and for a
      negative operand replaced by recalculateNegative. */
  function Prepared(x: int, width: nat): (r: seq<Byte>)
    ensures |r| == D.Max(|Encoding(D.AbsInt(x), MaxBase)|, width)
  {
    var aligned := Aligned(Encoding(D.AbsInt(x), MaxBase), width);
    if x < 0 then Negated(aligned) else aligned
  }

  /** The combined bytes read back, through recalculateNegative and with a
      minus sign when the result is negative. */
  function Combined(op: BitOperator, a: seq<Byte>, b: seq<Byte>, negative: bool): int
    requires |a| == |b|
  {
    var res := Bytewise(op, a, b);
    if negative then var v: int := FromBase(Negated(res), MaxBase); -v
    else FromBase(res, MaxBase)
  }

  /** The value the bitwise operators compute on two integers. */
  function BitValue(op: BitOperator, l: int, r: int): int
  {
    var n := Width(l, r);
    Combined(op, Prepared(l, n), Prepared(r, n), NegativeResult(op, l < 0, r < 0))
  }

  /** The sign rule: the result is negative exactly when the operator's rule
      says so for the operands' signs. */
  lemma BitSign(op: BitOperator, l: int, r: int)
    ensures BitValue(op, l, r) < 0 <==> NegativeResult(op, l < 0, r < 0)
  {
    var n := Width(l, r);
    NegatedPositive(Bytewise(op, Prepared(l, n), Prepared(r, n)));
  }

  /** The bytes combined from the prepared operands, read back with the sign rule, are BitValue. */
  lemma CombinedOfPrepared(op: BitOperator, l: int, r: int, result: seq<Byte>, isNegative: bool)
    requires isNegative == NegativeResult(op, l < 0, r < 0)
    requires var n := Width(l, r);
      var res := Bytewise(op, Prepared(l, n), Prepared(r, n));
      result == if isNegative then Negated(res) else res
    ensures var v: int := FromBase(result, MaxBase);
      (if isNegative then 0 - v else v) == BitValue(op, l, r)
  {
  }

  lemma ByteOpCommutes(op: BitOperator, a: Byte, b: Byte)
    ensures ByteOp(op, a, b) == ByteOp(op, b, a)
  {
  }

  lemma BytewiseCommutes(op: BitOperator, a: seq<Byte>, b: seq<Byte>)
    requires |a| == |b|
    ensures Bytewise(op, a, b) == Bytewise(op, b, a)
  {
    forall i | 0 <= i < |a| {
      ByteOpCommutes(op, a[i], b[i]);
    }
  }

  /** The operators are symmetric in their operands. */
  lemma BitCommutes(op: BitOperator, l: int, r: int)
    ensures BitValue(op, l, r) == BitValue(op, r, l)
  {
    var n := Width(l, r);
    assert Width(r, l) == n;
    assert NegativeResult(op, l < 0, r < 0) == NegativeResult(op, r < 0, l < 0);
    CombinedCommutes(op, Prepared(l, n), Prepared(r, n), NegativeResult(op, l < 0, r < 0));
  }

  lemma CombinedCommutes(op: BitOperator, a: seq<Byte>, b: seq<Byte>, negative: bool)
    requires |a| == |b|
    ensures Combined(op, a, b, negative) == Combined(op, b, a, negative)
  {
    BytewiseCommutes(op, a, b);
  }

  lemma ByteIdentities(b: Byte)
    ensures ByteOp(And, b, b) == b && ByteOp(Or, b, b) == b && ByteOp(Xor, b, b) == 0
    ensures ByteOp(And, b, 0) == 0 && ByteOp(Or, b, 0) == b && ByteOp(Xor, b, 0) == b
  {
    AndSelf(b);
    OrSelf(b);
    XorSelf(b);
    AndZero(b);
    OrZero(b);
    XorZero(b);
  }

  lemma AndSelf(b: Byte) ensures ByteOp(And, b, b) == b {}
  lemma OrSelf(b: Byte) ensures ByteOp(Or, b, b) == b {}
  lemma XorSelf(b: Byte) ensures ByteOp(Xor, b, b) == 0 {}
  lemma AndZero(b: Byte) ensures ByteOp(And, b, 0) == 0 {}
  lemma OrZero(b: Byte) ensures ByteOp(Or, b, 0) == b {}
  lemma XorZero(b: Byte) ensures ByteOp(Xor, b, 0) == b {}

  lemma BytewiseIdentities(a: seq<Byte>)
    ensures Bytewise(And, a, a) == a && Bytewise(Or, a, a) == a && Bytewise(Xor, a, a) == Zeros(|a|)
    ensures Bytewise(And, a, Zeros(|a|)) == Zeros(|a|) && Bytewise(Or, a, Zeros(|a|)) == a
    ensures Bytewise(Xor, a, Zeros(|a|)) == a
  {
    forall i | 0 <= i < |a| {
      ByteIdentities(a[i]);
    }
  }

  /** For a number that is not negative, x & x and x | x are x, and x ^ x is 0. */
  lemma BitSelf(x: nat)
    ensures BitValue(And, x, x) == x && BitValue(Or, x, x) == x && BitValue(Xor, x, x) == 0
  {
    var a := Encoding(x, MaxBase);
    EncodingValue(x, MaxBase);
    assert Prepared(x, Width(x, x)) == a;
    BytewiseIdentities(a);
    ZerosValue(|a|, MaxBase);
  }

  /** With 0 and a number that is not negative, & gives 0 while | and ^ give the number. */
  lemma BitZero(x: nat)
    ensures BitValue(And, x, 0) == 0 && BitValue(Or, x, 0) == x && BitValue(Xor, x, 0) == x
  {
    var a := Encoding(x, MaxBase);
    var n := Width(x, 0);
    assert n == |a|;
    EncodingValue(x, MaxBase);
    assert Prepared(x, n) == a;
    assert Prepared(0, n) == Zeros(n) by {
      assert Encoding(0, MaxBase) == [0];
      if n > 1 {
        assert Zeros(n - 1) + [0] == Zeros(n);
      }
    }
    BytewiseIdentities(a);
    ZerosValue(n, MaxBase);
  }

  // ----- the class -----

  /** The conversion handed to decBaseHelper. */
  datatype Conversion = Encode(number: nat) | Decode(binary: seq<Byte>)

  datatype Converted = Encoded(bytes: seq<Byte>) | Decoded(text: string)

  /** What a conversion computes in a valid base. */
  function Convert(conversion: Conversion, base: nat): Converted
    requires 2 <= base <= MaxBase
  {
    match conversion
    case Encode(n) => Encoded(Encoding(n, base))
    case Decode(s) => Decoded(IntText(FromBase(s, base)))
  }

  /** The class's static state: bcmath's default scale, the scale the class
      last set (none until setScale is called) and the trailing-zero flag. */
  class BC {
    var bcScale: nat
    var currentScale: Option<nat>
    var trim: bool

    constructor()
      ensures bcScale == 0 && currentScale == None && trim
    {
      bcScale := 0;
      currentScale := None;
      trim := true;
    }

    /** The state the operations read. */
    function Settings(): Config
      reads this
    {
      Config(currentScale, trim)
    }

    /** getScale: bcmath's default scale. */
    function GetScale(): (r: nat)
      reads this
      ensures r == bcScale
    {
      bcScale
    }

    /** getScaleForMethod: an explicit scale wins, else the scale last set. */
    function GetScaleForMethod(scale: Option<nat>): (r: Option<nat>)
      reads this
      ensures scale.Some? ==> r == scale
      ensures scale.None? ==> r == currentScale
      ensures r == ScaleFor(Settings(), scale)
    {
      if scale.Some? then scale else currentScale
    }

    /** setScale: sets both bcmath's default and the class's own scale. */
    method SetScale(scale: nat)
      modifies this
      ensures bcScale == scale && currentScale == Some(scale) && trim == old(trim)
    {
      bcScale := scale;
      currentScale := Some(scale);
    }

    /** The switch for trimming trailing zeroes of results. */
    method SetTrimTrailingZeroes(flag: bool)
      modifies this
      ensures trim == flag && bcScale == old(bcScale) && currentScale == old(currentScale)
    {
      trim := flag;
    }

    /** dec2bin's loop at scale 0: the remainder by the base becomes the next
        byte on the left and the quotient the new number, until it compares
        equal to 0. */
    method EncodeDigits(number: nat, base: nat) returns (value: seq<Byte>)
      requires 2 <= base <= MaxBase && currentScale == Some(0)
      ensures value == Encoding(number, base)
    {
      if number == 0 {
        return [0];
      }
      var k := D.Number(number, 0);
      value := [];
      while D.Compare(k, D.Number(0, 0), GetScaleForMethod(None)) != 0
        invariant k.scale == 0 && k.unscaled >= 0
        invariant ToBase(k.unscaled, base) + value == ToBase(number, base)
        decreases k.unscaled
      {
        var m: nat := k.unscaled;
        assert k == D.Number(m, 0);
        assert m > 0 by {
          CompareWithZero(m, Some(0));
        }
        var cfg := Settings();
        EncodeStep(m, base, cfg);
        ToBaseStep(m, base);
        var rest := ModNumbers(k, D.Number(base, 0), None, cfg).value;
        var quotient := DivNumbers(k, D.Number(base, 0), None, cfg).value;
        assert quotient == D.Number(m / base, 0);
        var digit := IntCast(rest);
        assert digit == m % base;
        assert ToBase(m / base, base) + ([digit] + value) == ToBase(m, base) + value;
        value := [digit] + value;
        k := quotient;
      }
      assert k.unscaled == 0 by {
        assert k == D.Number(k.unscaled, 0);
        CompareWithZero(k.unscaled, Some(0));
      }
    }

    /** bin2dec's loop at scale 0: the sum of each byte times the base to the
        power of its distance from the end, with the class's pow, mul and add. */
    method DecodeDigits(binary: seq<Byte>, base: nat) returns (text: string)
      requires 2 <= base <= MaxBase && currentScale == Some(0)
      ensures text == IntText(FromBase(binary, base))
    {
      var cfg := Settings();
      var zero := "0";
      var ret := Value(StrOp(zero), cfg);
      ZeroText(zero, cfg);
      assert ret == D.Number(PartialSum(binary, base, 0), 0);
      for i := 0 to |binary|
        invariant ret == D.Number(PartialSum(binary, base, i), 0)
      {
        var k := |binary| - (i + 1);
        var power := PowInteger(D.Number(base, 0), k, None, cfg);
        var product := MulNumbers(D.Number(binary[i], 0), power, None, cfg);
        DigitProduct(binary[i], base, k, cfg);
        SumStep(binary, base, i, cfg, ret, product);
        ret := AddNumbers(ret, product, None, cfg);
      }
      PartialSumComplete(binary, base);
      text := D.Render(ret);
    }

    /** decBaseHelper: an invalid base is refused before anything changes;
        otherwise the conversion runs at scale 0 and the scale read from
        bcmath beforehand is set again, which also makes it the class's own. */
    method DecBaseHelper(base: int, conversion: Conversion) returns (r: Result<Converted>)
      modifies this
      ensures !(2 <= base <= MaxBase) ==>
        r == Err(InvalidBase(base)) && bcScale == old(bcScale) && currentScale == old(currentScale)
      ensures 2 <= base <= MaxBase ==>
        r == Ok(Convert(conversion, base)) && bcScale == old(bcScale) && currentScale == Some(old(bcScale))
      ensures trim == old(trim)
    {
      if base < 2 || base > MaxBase {
        return Err(InvalidBase(base));
      }
      var orgScale := GetScale();
      SetScale(0);
      match conversion {
        case Encode(n) =>
          var bytes := EncodeDigits(n, base);
          r := Ok(Encoded(bytes));
        case Decode(s) =>
          var text := DecodeDigits(s, base);
          r := Ok(Decoded(text));
      }
      SetScale(orgScale);
    }

    /** dec2bin of a natural number, given by its value. */
    method Dec2Bin(number: nat, base: int) returns (r: Result<seq<Byte>>)
      modifies this
      ensures !(2 <= base <= MaxBase) ==>
        r == Err(InvalidBase(base)) && bcScale == old(bcScale) && currentScale == old(currentScale)
      ensures 2 <= base <= MaxBase ==>
        r == Ok(Encoding(number, base)) && bcScale == old(bcScale) && currentScale == Some(old(bcScale))
      ensures trim == old(trim)
    {
      var c := DecBaseHelper(base, Encode(number));
      match c {
        case Err(e) => r := Err(e);
        case Ok(v) => r := Ok(v.bytes);
      }
    }

    /** bin2dec: the decimal text of the string's value in the base. */
    method Bin2Dec(binary: seq<Byte>, base: int) returns (r: Result<string>)
      modifies this
      ensures !(2 <= base <= MaxBase) ==>
        r == Err(InvalidBase(base)) && bcScale == old(bcScale) && currentScale == old(currentScale)
      ensures 2 <= base <= MaxBase ==>
        r == Ok(IntText(FromBase(binary, base))) && bcScale == old(bcScale) && currentScale == Some(old(bcScale))
      ensures trim == old(trim)
    {
      var c := DecBaseHelper(base, Decode(binary));
      match c {
        case Err(e) => r := Err(e);
        case Ok(v) => r := Ok(v.text);
      }
    }

    /** alignBinLength: pad on the left with dec2bin('0'), the byte 0. */
    method AlignBinLength(s: seq<Byte>, length: int) returns (r: seq<Byte>)
      modifies this
      ensures r == Aligned(s, length)
      ensures bcScale == old(bcScale) && currentScale == Some(old(bcScale)) && trim == old(trim)
    {
      var pad := Dec2Bin(0, MaxBase);
      assert pad == Ok([0]);
      r := s;
      if length > |s| {
        r := Zeros(length - |s|) + s;
      }
    }

    /** recalculateNegative: xor with dec2bin('255') repeated, then walk from
        the last byte to the first and store the first byte whose increment is
        not 256. */
    method RecalculateNegative(number: seq<Byte>) returns (r: seq<Byte>)
      modifies this
      ensures r == Negated(number)
      ensures bcScale == old(bcScale) && currentScale == Some(old(bcScale)) && trim == old(trim)
    {
      var xor := Dec2Bin(MaxBase - 1, MaxBase);
      assert xor.value == [255] by {
        assert ToBase(0, MaxBase) == [];
      }
      r := Complement(number);
      ghost var c := r;
      var i := |r| - 1;
      while i >= 0
        invariant -1 <= i < |r| && |r| == |number|
        invariant r == c
        invariant forall j :: i < j < |c| ==> c[j] == 255
        decreases i
      {
        var byte: int := r[i] as int + 1;
        if byte != MaxBase {
          assert RightmostBelow(c) == i;
          r := r[i := byte];
          return;
        }
        i := i - 1;
      }
      assert RightmostBelow(c) == -1;
    }

    /** bitOperatorHelper: both operands must be integers; the magnitudes go
        through dec2bin, alignBinLength and, for negatives, recalculateNegative;
        the combined bytes go back through bin2dec with the sign rule. */
    method BitOperatorHelper(left: Operand, right: Operand, op: BitOperator) returns (r: Result<D.Number>)
      modifies this
      ensures var l, rt := ConvertToNumber(left, old(trim)), ConvertToNumber(right, old(trim));
        r == (if l.scale > 0 then Err(InvalidArgument("Left operator has to be an integer"))
              else if rt.scale > 0 then Err(InvalidArgument("Right operator has to be an integer"))
              else Ok(D.Number(BitValue(op, l.unscaled, rt.unscaled), 0)))
      ensures bcScale == old(bcScale) && trim == old(trim)
      ensures r.Err? ==> currentScale == old(currentScale)
      ensures r.Ok? ==> currentScale == Some(old(bcScale))
    {
      var l := ConvertToNumber(left, trim);
      var rt := ConvertToNumber(right, trim);
      if IsFloat(D.Render(l)) {
        TextHelpersOfRender(l);
        return Err(InvalidArgument("Left operator has to be an integer"));
      }
      if IsFloat(D.Render(rt)) {
        TextHelpersOfRender(rt);
        return Err(InvalidArgument("Right operator has to be an integer"));
      }
      var leftNegative := IsNegative(D.Render(l));
      var rightNegative := IsNegative(D.Render(rt));
      assert l.scale == 0 && rt.scale == 0 && leftNegative == (l.unscaled < 0) && rightNegative == (rt.unscaled < 0) by {
        TextHelpersOfRender(l);
        TextHelpersOfRender(rt);
      }
      var value := CombineIntegers(l, rt, leftNegative, rightNegative, op);
      r := Ok(value);
    }

    /** The part of bitOperatorHelper after both operands are known to be integers. */
    method CombineIntegers(l: D.Number, rt: D.Number, leftNegative: bool, rightNegative: bool, op: BitOperator)
      returns (value: D.Number)
      requires l.scale == 0 && rt.scale == 0
      requires leftNegative == (l.unscaled < 0) && rightNegative == (rt.unscaled < 0)
      modifies this
      ensures value == D.Number(BitValue(op, l.unscaled, rt.unscaled), 0)
      ensures bcScale == old(bcScale) && trim == old(trim) && currentScale == Some(old(bcScale))
    {
      ghost var width := Width(l.unscaled, rt.unscaled);
      var la := AbsoluteBytes(l);
      var ra := AbsoluteBytes(rt);
      var maxLength := D.Max(|la|, |ra|);
      assert maxLength == width;
      var a := AlignBinLength(la, maxLength);
      var b := AlignBinLength(ra, maxLength);
      if leftNegative {
        a := RecalculateNegative(a);
      }
      if rightNegative {
        b := RecalculateNegative(b);
      }
      assert a == Prepared(l.unscaled, width) && b == Prepared(rt.unscaled, width);
      var result := Bytewise(op, a, b);
      var isNegative := NegativeResult(op, leftNegative, rightNegative);
      if isNegative {
        NegatedPositive(result);
        result := RecalculateNegative(result);
      }
      ghost var v := FromBase(result, MaxBase);
      CombinedOfPrepared(op, l.unscaled, rt.unscaled, result, isNegative);
      var text := Bin2Dec(result, MaxBase);
      var signed := if isNegative then "-" + text.value else text.value;
      NumberOfSignedText(v, isNegative);
      value := D.Parse(signed).value;
    }

    /** dec2bin((string) abs(n)) for an integer decimal. */
    method AbsoluteBytes(n: D.Number) returns (bytes: seq<Byte>)
      requires n.scale == 0
      modifies this
      ensures bytes == Encoding(D.AbsInt(n.unscaled), MaxBase)
      ensures bcScale == old(bcScale) && currentScale == Some(old(bcScale)) && trim == old(trim)
    {
      var magnitude := Abs(NumOp(n), trim);
      var m: nat := magnitude.unscaled;
      var bin := Dec2Bin(m, MaxBase);
      bytes := bin.value;
    }

    method BitAnd(left: Operand, right: Operand) returns (r: Result<D.Number>)
      modifies this
      ensures var l, rt := ConvertToNumber(left, old(trim)), ConvertToNumber(right, old(trim));
        r == (if l.scale > 0 then Err(InvalidArgument("Left operator has to be an integer"))
              else if rt.scale > 0 then Err(InvalidArgument("Right operator has to be an integer"))
              else Ok(D.Number(BitValue(And, l.unscaled, rt.unscaled), 0)))
      ensures bcScale == old(bcScale) && trim == old(trim)
      ensures r.Err? ==> currentScale == old(currentScale)
      ensures r.Ok? ==> currentScale == Some(old(bcScale))
    {
      r := BitOperatorHelper(left, right, And);
    }

    method BitOr(left: Operand, right: Operand) returns (r: Result<D.Number>)
      modifies this
      ensures var l, rt := ConvertToNumber(left, old(trim)), ConvertToNumber(right, old(trim));
        r == (if l.scale > 0 then Err(InvalidArgument("Left operator has to be an integer"))
              else if rt.scale > 0 then Err(InvalidArgument("Right operator has to be an integer"))
              else Ok(D.Number(BitValue(Or, l.unscaled, rt.unscaled), 0)))
      ensures bcScale == old(bcScale) && trim == old(trim)
      ensures r.Err? ==> currentScale == old(currentScale)
      ensures r.Ok? ==> currentScale == Some(old(bcScale))
    {
      r := BitOperatorHelper(left, right, Or);
    }

    method BitXor(left: Operand, right: Operand) returns (r: Result<D.Number>)
      modifies this
      ensures var l, rt := ConvertToNumber(left, old(trim)), ConvertToNumber(right, old(trim));
        r == (if l.scale > 0 then Err(InvalidArgument("Left operator has to be an integer"))
              else if rt.scale > 0 then Err(InvalidArgument("Right operator has to be an integer"))
              else Ok(D.Number(BitValue(Xor, l.unscaled, rt.unscaled), 0)))
      ensures bcScale == old(bcScale) && trim == old(trim)
      ensures r.Err? ==> currentScale == old(currentScale)
      ensures r.Ok? ==> currentScale == Some(old(bcScale))
    {
      r := BitOperatorHelper(left, right, Xor);
    }
  }

  /** One step of dec2bin's loop at scale 0: mod gives the last digit and div
      the rest of the number. */
  lemma EncodeStep(m: nat, base: nat, cfg: Config)
    requires 2 <= base <= MaxBase && m > 0 && cfg.currentScale == Some(0)
    ensures ModNumbers(D.Number(m, 0), D.Number(base, 0), None, cfg).Ok?
    ensures IntCast(ModNumbers(D.Number(m, 0), D.Number(base, 0), None, cfg).value) == m % base
    ensures DivNumbers(D.Number(m, 0), D.Number(base, 0), None, cfg) == Ok(D.Number(m / base, 0))
  {
    QuotientOfNaturals(m, base, None, cfg);
    RemainderOfNaturals(m, base, None, cfg);
  }

  lemma ToBaseStep(m: nat, base: nat)
    requires 2 <= base <= MaxBase && m > 0
    ensures ToBase(m, base) == ToBase(m / base, base) + [m % base]
    ensures 0 <= m / base < m && 0 <= m % base < base
  {
    DivModParts(m, base);
    MulMonotone(m / base, 2, base);
  }

  /** The literal "0" that bin2dec starts its sum from. */
  lemma ZeroText(s: string, cfg: Config)
    requires s == "0"
    ensures Value(StrOp(s), cfg) == D.Number(0, 0)
  {
    var zero := D.Number(0, 0);
    assert D.Render(zero) == s by {
      assert D.Whole(zero) == 0;
      assert IntDigits(0) == "0";
    }
    ConvertRender(zero, cfg.trim);
  }

  /** A digit times the base to the power k, with the class's pow and mul at scale 0. */
  lemma DigitProduct(d: nat, base: nat, k: nat, cfg: Config)
    requires cfg.currentScale == Some(0)
    ensures MulNumbers(D.Number(d, 0), PowInteger(D.Number(base, 0), k, None, cfg), None, cfg)
            == D.Number(d * D.IntPow(base, k), 0)
  {
    PowerAtScaleZero(base, k, cfg);
    ProductAtScaleZero(d, D.IntPow(base, k), cfg);
  }

  /** bin2dec's running sum after i bytes: their value, shifted by the bytes still to come. */
  function PartialSum(binary: seq<Byte>, base: nat, i: nat): int
    requires i <= |binary|
  {
    FromBase(binary[..i], base) * D.IntPow(base, |binary| - i)
  }

  lemma PartialSumComplete(binary: seq<Byte>, base: nat)
    ensures PartialSum(binary, base, |binary|) == FromBase(binary, base)
  {
    assert binary[..|binary|] == binary;
  }

  /** One step of bin2dec's sum, with everything at scale 0: adding the next
      byte times its power moves the running sum from i digits to i + 1. */
  lemma SumStep(binary: seq<Byte>, base: nat, i: nat, cfg: Config, sum: D.Number, product: D.Number)
    requires i < |binary| && cfg.currentScale == Some(0)
    requires sum == D.Number(PartialSum(binary, base, i), 0)
    requires product == D.Number(binary[i] * D.IntPow(base, |binary| - (i + 1)), 0)
    ensures AddNumbers(sum, product, None, cfg) == D.Number(PartialSum(binary, base, i + 1), 0)
  {
    SumAtScaleZero(sum.unscaled, product.unscaled, cfg);
    DigitShift(binary, base, i);
  }

  /** One pass of bin2dec's loop in integers: the running sum for the first i
      digits, plus digit i times its power, is the running sum for i + 1 digits. */
  lemma DigitShift(binary: seq<Byte>, base: nat, i: nat)
    requires i < |binary|
    ensures FromBase(binary[..i], base) * D.IntPow(base, |binary| - i) + binary[i] * D.IntPow(base, |binary| - (i + 1))
            == FromBase(binary[..i + 1], base) * D.IntPow(base, |binary| - (i + 1))
  {
    var h, k := FromBase(binary[..i], base), |binary| - (i + 1);
    var q := D.IntPow(base, k);
    assert D.IntPow(base, |binary| - i) == base * q by {
      assert |binary| - i == k + 1;
    }
    FromBasePrefix(binary, base, i);
    ShiftedDigit(h, base, q, binary[i], FromBase(binary[..i + 1], base));
  }

  /** Reading one more digit shifts the value read so far by one place. */
  lemma FromBasePrefix(binary: seq<Byte>, base: nat, i: nat)
    requires i < |binary|
    ensures FromBase(binary[..i + 1], base) == FromBase(binary[..i], base) * base + binary[i]
  {
    assert binary[..i + 1][..i] == binary[..i];
  }

  lemma ShiftedDigit(h: int, base: int, q: int, d: int, v: int)
    requires v == h * base + d
    ensures h * (base * q) + d * q == v * q
  {
    MulAssoc(h, base, q);
  }

  /** Formatting leaves an integer result alone. */
  lemma FormatOfInteger(n: D.Number, trim: bool)
    requires n.scale == 0
    ensures FormatTrailingZeroes(n, trim) == n
  {
  }

  lemma PowerAtScaleZero(b: nat, k: nat, cfg: Config)
    requires cfg.currentScale == Some(0)
    ensures PowInteger(D.Number(b, 0), k, None, cfg) == D.Number(D.IntPow(b, k), 0)
  {
    var p := D.PowNat(D.Number(b, 0), k, Some(0));
    assert p == D.Number(D.IntPow(b, k), 0);
    FormatOfInteger(p, cfg.trim);
  }

  lemma ProductAtScaleZero(x: int, y: int, cfg: Config)
    requires cfg.currentScale == Some(0)
    ensures MulNumbers(D.Number(x, 0), D.Number(y, 0), None, cfg) == D.Number(x * y, 0)
  {
    var m := D.Mul(D.Number(x, 0), D.Number(y, 0), Some(0));
    assert m == D.Number(x * y, 0);
    FormatOfInteger(m, cfg.trim);
  }

  lemma SumAtScaleZero(x: int, y: int, cfg: Config)
    requires cfg.currentScale == Some(0)
    ensures AddNumbers(D.Number(x, 0), D.Number(y, 0), None, cfg) == D.Number(x + y, 0)
  {
    var a := D.Add(D.Number(x, 0), D.Number(y, 0), Some(0));
    assert a == D.Number(x + y, 0);
    FormatOfInteger(a, cfg.trim);
  }

  /** new Number('-' . text) for the text of a positive number, new Number(text) otherwise. */
  lemma NumberOfSignedText(v: nat, negative: bool)
    requires negative ==> v > 0
    ensures D.Parse(if negative then "-" + IntText(v) else IntText(v))
            == Some(D.Number(if negative then 0 - v as int else v, 0))
  {
    if !negative {
      D.ParseRender(D.Number(v, 0));
    } else {
      MinusText(v);
    }
  }

  lemma MinusText(v: nat)
    requires v > 0
    ensures D.Parse("-" + IntText(v)) == Some(D.Number(0 - v as int, 0))
  {
    var w := D.Number(0 - v as int, 0);
    AbsOfRender(w);
    assert D.Render(w) == "-" + IntText(v);
    D.ParseRender(w);
  }

  // ----- worked inputs -----

  /** recalculateNegative applied twice does not give the string back. */
  lemma NegatedNotInvolution()
    ensures Negated([1, 0]) == [255, 255] && Negated([255, 255]) == [0, 1]
  {
    assert Complement([1, 0]) == [254, 255];
    assert RightmostBelow([254, 255]) == 0;
    assert Complement([255, 255]) == [0, 0];
    assert RightmostBelow([0, 0]) == 1;
  }

  lemma EncodingOf256()
    ensures Encoding(256, MaxBase) == [1, 0]
  {
    assert ToBase(1, MaxBase) == ToBase(0, MaxBase) + [1];
  }

  /** The operands' bytes at width 2: -256 is [255, 255] and 0 is [0, 0]. */
  lemma PreparedOfMinus256()
    ensures Width(-256, 0) == 2 && Width(-256, -256) == 2
    ensures Prepared(-256, 2) == [255, 255] && Prepared(0, 2) == [0, 0]
  {
    EncodingOf256();
    assert Encoding(0, MaxBase) == [0];
    assert Aligned([0], 2) == [0, 0];
    assert Aligned([1, 0], 2) == [1, 0];
    NegatedNotInvolution();
  }

  /** A negative result whose bytes are [255, 255] is read back as -1. */
  lemma NegativeAllOnes(op: BitOperator)
    requires Bytewise(op, [255, 255], [255, 255]) == [255, 255] || Bytewise(op, [255, 255], [0, 0]) == [255, 255]
    ensures Bytewise(op, [255, 255], [255, 255]) == [255, 255] ==> Combined(op, [255, 255], [255, 255], true) == -1
    ensures Bytewise(op, [255, 255], [0, 0]) == [255, 255] ==> Combined(op, [255, 255], [0, 0], true) == -1
  {
    NegatedNotInvolution();
    assert FromBase([0, 1], 256) == 1 by {
      assert FromBase([0], 256) == 0;
    }
  }

  /** The carry loop on a magnitude that is a multiple of 256: -256 | 0 comes
      out as -1, where the two's complement gives -256. */
  lemma NegativeMultipleOf256()
    ensures BitValue(Or, -256, 0) == -1
    ensures FromBase(TwosComplement([1, 0]), 256) == 255 * 256
  {
    PreparedOfMinus256();
    assert Bytewise(Or, [255, 255], [0, 0]) == [255, 255];
    NegativeAllOnes(Or);
    TwosComplementOf256();
  }

  lemma TwosComplementOf256()
    ensures FromBase(TwosComplement([1, 0]), 256) == 255 * 256
  {
    TwosComplementValue([1, 0]);
    assert FromBase([1, 0], 256) == 256 by {
      assert FromBase([1], 256) == 1;
    }
  }

  /** recalculateNegative as written breaks x & x == x for a negative x whose
      magnitude is a multiple of 256: -256 & -256 comes out as -1. */
  lemma AndSelfOfNegativeMultipleOf256()
    ensures BitValue(And, -256, -256) == -1
  {
    PreparedOfMinus256();
    assert Bytewise(And, [255, 255], [255, 255]) == [255, 255] by {
      ByteIdentities(255);
    }
    NegativeAllOnes(And);
  }

  lemma OneByteEncoding(m: nat)
    requires m < 256
    ensures Encoding(m, MaxBase) == [m]
  {
    if m > 0 {
      assert ToBase(m, MaxBase) == ToBase(0, MaxBase) + [m];
    }
  }

  /** Both negations of a single nonzero byte m give 256 - m; of the byte 0,
      recalculateNegative gives 255 and the two's complement gives 0. */
  lemma OneByteNegations(m: Byte)
    ensures m > 0 ==> Negated([m]) == [256 - m] && TwosComplement([m]) == [256 - m]
    ensures Negated([0]) == [255] && TwosComplement([0]) == [0]
  {
    assert Complement([m]) == [255 - m];
    assert Complement([0]) == [255];
    assert RightmostBelow([255]) == RightmostBelow([]);
    assert TwosComplement([0]) == TwosComplement([]) + [0];
  }

  /** An operand of at most one byte is that byte, x % 256, under either negation. */
  lemma OneByteOperand(x: int)
    requires -256 < x < 256
    ensures |Encoding(D.AbsInt(x), MaxBase)| == 1
    ensures Prepared(x, 1) == [x % 256] && CorrectedPrepared(x, 1) == [x % 256]
  {
    var m := D.AbsInt(x);
    OneByteEncoding(m);
    assert Aligned([m], 1) == [m];
    if x < 0 {
      OneByteNegations(m);
      DivModUnique(x, 256, -1, 256 - m);
    }
  }

  /** Operands of one byte whose combined byte is 0 under a negative sign. */
  predicate ZeroByteNegative(op: BitOperator, l: int, r: int)
  {
    -256 < l < 256 && -256 < r < 256 && NegativeResult(op, l < 0, r < 0)
    && ByteOp(op, l % 256, r % 256) == 0
  }

  lemma OneByteWidth(l: int, r: int)
    requires -256 < l < 256 && -256 < r < 256
    ensures Width(l, r) == 1
  {
    OneByteOperand(l);
    OneByteOperand(r);
  }

  lemma OneByteBytewise(op: BitOperator, a: Byte, b: Byte)
    requires ByteOp(op, a, b) == 0
    ensures Bytewise(op, [a], [b]) == [0]
  {
    var res := Bytewise(op, [a], [b]);
    assert res[0] == 0;
  }

  /** One-byte operands have width 1, and their bytes combine into the byte 0. */
  lemma ZeroByteOperands(op: BitOperator, l: int, r: int)
    requires ZeroByteNegative(op, l, r)
    ensures Width(l, r) == 1
    ensures Bytewise(op, Prepared(l, 1), Prepared(r, 1)) == [0]
  {
    OneByteWidth(l, r);
    var a, b := l % 256, r % 256;
    OneByteOperand(l);
    OneByteOperand(r);
    OneByteBytewise(op, a, b);
  }

  /** The same, with the corrected negation. */
  lemma CorrectedZeroByteOperands(op: BitOperator, l: int, r: int)
    requires ZeroByteNegative(op, l, r)
    ensures Width(l, r) == 1
    ensures Bytewise(op, CorrectedPrepared(l, 1), CorrectedPrepared(r, 1)) == [0]
  {
    OneByteWidth(l, r);
    var a, b := l % 256, r % 256;
    OneByteOperand(l);
    OneByteOperand(r);
    OneByteBytewise(op, a, b);
  }

  /** The width leaves no room for a sign byte: when one-byte operands combine
      into the byte 0 under a negative sign, the result is read back as the
      negation of [255], -255, where the integers give -256. */
  lemma ZeroByteNegativeResult(op: BitOperator, l: int, r: int)
    requires ZeroByteNegative(op, l, r)
    ensures BitValue(op, l, r) == -255
  {
    ZeroByteOperands(op, l, r);
    var res := Bytewise(op, Prepared(l, 1), Prepared(r, 1));
    OneByteNegations(0);
    ZeroByteValues();
    assert FromBase(Negated(res), 256) == 255;
  }

  lemma ZeroByteValues()
    ensures FromBase([0], 256) == 0 && FromBase([255], 256) == 255
  {
    assert FromBase([0], 256) == 256 * FromBase([], 256) + 0;
    assert FromBase([255], 256) == 256 * FromBase([], 256) + 255;
  }

  /** -1 ^ 255 and -128 & -255 both come out as -255. */
  lemma ZeroBytesNegativeResult()
    ensures BitValue(Xor, -1, 255) == -255 && BitValue(And, -128, -255) == -255
  {
    var minusOne, twoFiftyFive, a, b := -1, 255, -128, -255;
    assert ByteOp(Xor, 255, 255) == 0 && ByteOp(And, 128, 1) == 0;
    ZeroByteNegativeResult(Xor, minusOne, twoFiftyFive);
    ZeroByteNegativeResult(And, a, b);
  }

  // ----- the corrected negation -----

  lemma ComplementInvolution(s: seq<Byte>)
    ensures Complement(Complement(s)) == s
  {
  }

  /** The corrected two's complement undoes itself, which recalculateNegative does not. */
  lemma {:induction false} TwosComplementInvolution(s: seq<Byte>)
    ensures TwosComplement(TwosComplement(s)) == s
    decreases |s|
  {
    if s != [] {
      var init, last := s[..|s| - 1], s[|s| - 1];
      var t := TwosComplement(s);
      if last == 0 {
        TwosComplementInvolution(init);
        assert t == TwosComplement(init) + [0];
        assert t[..|t| - 1] == TwosComplement(init);
      } else {
        assert t == Complement(init) + [256 - last];
        assert t[..|t| - 1] == Complement(init);
        ComplementInvolution(init);
      }
    }
  }

  /** One operand's bytes with the corrected negation. */
  function CorrectedPrepared(x: int, width: nat): (r: seq<Byte>)
    ensures |r| == D.Max(|Encoding(D.AbsInt(x), MaxBase)|, width)
  {
    var aligned := Aligned(Encoding(D.AbsInt(x), MaxBase), width);
    if x < 0 then TwosComplement(aligned) else aligned
  }

  /** The operators with the corrected negation, at a given width of at least
      the operands' byte counts. */
  function CorrectedBitValueAt(op: BitOperator, l: int, r: int, n: nat): int
    requires n >= Width(l, r)
  {
    var res := Bytewise(op, CorrectedPrepared(l, n), CorrectedPrepared(r, n));
    if NegativeResult(op, l < 0, r < 0) then var v: int := FromBase(TwosComplement(res), MaxBase); -v
    else FromBase(res, MaxBase)
  }

  /** The bitwise operators with both repairs: the corrected negation on the
      operands and on a negative result, and one byte more than the longer
      magnitude, so that the top byte carries the sign. CorrectedBitValueIsInteger
      proves them equal to the operators on integers. */
  function CorrectedBitValue(op: BitOperator, l: int, r: int): int
  {
    CorrectedBitValueAt(op, l, r, Width(l, r) + 1)
  }

  // ----- the operators on integers -----

  /** &, | and ^ on integers of any size, in two's complement with the sign
      extended without end: the last byte is the operator on the two last
      bytes (x % 256, the byte of x even when x is negative), and the bytes
      before it are the operator on x / 256 and y / 256 (division rounding
      down). 0 and -1 are their own rest: all zero bytes and all one bytes. */
  function IntegerBitValue(op: BitOperator, x: int, y: int): int
    decreases D.AbsInt(x) + D.AbsInt(y)
  {
    if (x == 0 || x == -1) && (y == 0 || y == -1) then
      (if ByteOp(op, x % 256, y % 256) == 0 then 0 else -1)
    else
      ShrinkBy256(x);
      ShrinkBy256(y);
      256 * IntegerBitValue(op, x / 256, y / 256) + ByteOp(op, x % 256, y % 256)
  }

  /** Dropping the last byte brings every integer but 0 and -1 closer to 0. */
  lemma ShrinkBy256(x: int)
    ensures D.AbsInt(x / 256) <= D.AbsInt(x)
    ensures x != 0 && x != -1 ==> D.AbsInt(x / 256) < D.AbsInt(x)
  {
  }

  /** The operator's value splits into its last byte and the rest, for every pair. */
  lemma IntegerBitStep(op: BitOperator, x: int, y: int)
    ensures IntegerBitValue(op, x, y)
      == 256 * IntegerBitValue(op, x / 256, y / 256) + ByteOp(op, x % 256, y % 256)
  {
    if (x == 0 || x == -1) && (y == 0 || y == -1) {
      assert x / 256 == x && y / 256 == y;
      SignBytes(op, x % 256, y % 256);
    }
  }

  /** On the bytes 0 and 255 every operator gives 0 or 255. */
  lemma SignBytes(op: BitOperator, a: Byte, b: Byte)
    requires (a == 0 || a == 255) && (b == 0 || b == 255)
    ensures ByteOp(op, a, b) == 0 || ByteOp(op, a, b) == 255
    ensures ByteOp(op, a, b) == 255 <==> NegativeResult(op, a == 255, b == 255)
  {
  }

  /** The sign rule holds for the integer operators. */
  lemma {:induction false} IntegerBitSign(op: BitOperator, x: int, y: int)
    ensures IntegerBitValue(op, x, y) < 0 <==> NegativeResult(op, x < 0, y < 0)
    decreases D.AbsInt(x) + D.AbsInt(y)
  {
    if (x == 0 || x == -1) && (y == 0 || y == -1) {
      SignBytes(op, x % 256, y % 256);
    } else {
      ShrinkBy256(x);
      ShrinkBy256(y);
      IntegerBitSign(op, x / 256, y / 256);
      assert (x / 256 < 0) == (x < 0) && (y / 256 < 0) == (y < 0);
    }
  }

  /** Operands of k bytes with the sign give a result of k bytes with the sign. */
  lemma {:induction false} IntegerBitBound(op: BitOperator, x: int, y: int, k: nat)
    requires -ByteRange(k) <= x < ByteRange(k) && -ByteRange(k) <= y < ByteRange(k)
    ensures -ByteRange(k) <= IntegerBitValue(op, x, y) < ByteRange(k)
    decreases k
  {
    IntegerBitStep(op, x, y);
    if k == 0 {
      SignBytes(op, x % 256, y % 256);
    } else {
      var p := ByteRange(k - 1);
      assert ByteRange(k) == 256 * p;
      assert -p <= x / 256 < p && -p <= y / 256 < p;
      IntegerBitBound(op, x / 256, y / 256, k - 1);
    }
  }

  /** x & x and x | x are x, and x ^ x is 0. */
  lemma {:induction false} IntegerBitSelf(x: int)
    ensures IntegerBitValue(And, x, x) == x && IntegerBitValue(Or, x, x) == x
    ensures IntegerBitValue(Xor, x, x) == 0
    decreases D.AbsInt(x)
  {
    ByteIdentities(x % 256);
    if x != 0 && x != -1 {
      ShrinkBy256(x);
      IntegerBitSelf(x / 256);
    }
  }

  /** x | 0 and x ^ 0 are x, and x & 0 is 0. */
  lemma {:induction false} IntegerBitZero(x: int)
    ensures IntegerBitValue(Or, x, 0) == x && IntegerBitValue(Xor, x, 0) == x
    ensures IntegerBitValue(And, x, 0) == 0
    decreases D.AbsInt(x)
  {
    ByteIdentities(x % 256);
    if x != 0 && x != -1 {
      ShrinkBy256(x);
      IntegerBitZero(x / 256);
    }
  }

  /** The residue of x modulo 256^(k+1) is its last byte below the residue of x / 256 modulo 256^k. */
  lemma ModSplit(x: int, p: int)
    requires p >= 1
    ensures x % (256 * p) == 256 * ((x / 256) % p) + x % 256
  {
    var q, r := x / 256, x % 256;
    var q2, r2 := q / p, q % p;
    assert x == 256 * q + r;
    assert q == p * q2 + r2;
    assert x == (256 * p) * q2 + (256 * r2 + r);
    assert 256 * r2 + r < 256 * p by {
      assert r2 <= p - 1;
    }
    DivModUnique(x, 256 * p, q2, 256 * r2 + r);
  }

  /** Byte strings that hold the residues of x and y modulo 256^n combine into
      the residue of the integer operator's value. */
  lemma {:induction false} BytewiseValue(op: BitOperator, a: seq<Byte>, b: seq<Byte>, x: int, y: int)
    requires |a| == |b|
    requires FromBase(a, 256) == x % ByteRange(|a|) && FromBase(b, 256) == y % ByteRange(|b|)
    ensures FromBase(Bytewise(op, a, b), 256) == IntegerBitValue(op, x, y) % ByteRange(|a|)
    decreases |a|
  {
    var n := |a|;
    if n > 0 {
      var p := ByteRange(n - 1);
      assert ByteRange(n) == 256 * p;
      var a', b' := a[..n - 1], b[..n - 1];
      LastByteOf(a, x, p);
      LastByteOf(b, y, p);
      BytewiseValue(op, a', b', x / 256, y / 256);
      var res := Bytewise(op, a, b);
      assert res[..n - 1] == Bytewise(op, a', b');
      var v := IntegerBitValue(op, x, y);
      IntegerBitStep(op, x, y);
      DivModUnique(v, 256, IntegerBitValue(op, x / 256, y / 256), ByteOp(op, x % 256, y % 256));
      ModSplit(v, p);
    }
  }

  /** A byte string holding the residue of x modulo 256^n ends in the byte of x,
      and the bytes before it hold the residue of x / 256. */
  lemma LastByteOf(a: seq<Byte>, x: int, p: int)
    requires |a| >= 1 && p == ByteRange(|a| - 1)
    requires FromBase(a, 256) == x % (256 * p)
    ensures a[|a| - 1] == x % 256 && FromBase(a[..|a| - 1], 256) == (x / 256) % p
  {
    ModSplit(x, p);
    var a' := a[..|a| - 1];
    assert FromBase(a, 256) == 256 * FromBase(a', 256) + a[|a| - 1];
    DivModUnique(FromBase(a, 256), 256, FromBase(a', 256), a[|a| - 1]);
    DivModUnique(FromBase(a, 256), 256, (x / 256) % p, x % 256);
  }

  /** An operand prepared at a width that holds its bytes is that many bytes,
      holding its residue modulo 256^width; its magnitude is below 256^width. */
  lemma CorrectedOperandBytes(x: int, n: nat)
    requires |Encoding(D.AbsInt(x), MaxBase)| <= n
    ensures |CorrectedPrepared(x, n)| == n
    ensures FromBase(CorrectedPrepared(x, n), 256) == x % ByteRange(n)
    ensures D.AbsInt(x) < ByteRange(n)
  {
    var aligned := Aligned(Encoding(D.AbsInt(x), MaxBase), n);
    EncodingValue(D.AbsInt(x), MaxBase);
    AlignedValue(Encoding(D.AbsInt(x), MaxBase), n, MaxBase);
    TwosComplementValue(aligned);
    var m := ByteRange(n);
    if x >= 0 {
      DivModUnique(x, m, 0, x);
    } else {
      DivModUnique(x, m, -1, m + x);
    }
  }

  /** Reading back a result that holds the residue of v modulo 256^n, with the
      sign rule, gives v whenever v lies strictly between -256^n and 256^n. */
  lemma ReadBack(res: seq<Byte>, v: int)
    requires -ByteRange(|res|) < v < ByteRange(|res|)
    requires FromBase(res, 256) == v % ByteRange(|res|)
    ensures v >= 0 ==> FromBase(res, 256) == v
    ensures v < 0 ==> FromBase(TwosComplement(res), 256) == -v
  {
    var m := ByteRange(|res|);
    TwosComplementValue(res);
    if v >= 0 {
      DivModUnique(v, m, 0, v);
    } else {
      DivModUnique(v, m, -1, m + v);
    }
  }

  /** At any width with room for the sign byte, the combined bytes hold the
      residue of the integer operator's value, which lies in the signed range. */
  lemma CombinedResidue(op: BitOperator, l: int, r: int, n: nat)
    requires n >= Width(l, r) + 1
    ensures |Bytewise(op, CorrectedPrepared(l, n), CorrectedPrepared(r, n))| == n
    ensures FromBase(Bytewise(op, CorrectedPrepared(l, n), CorrectedPrepared(r, n)), 256)
      == IntegerBitValue(op, l, r) % ByteRange(n)
    ensures -ByteRange(n) < IntegerBitValue(op, l, r) < ByteRange(n)
  {
    var w := n - 1;
    var pw, pn := ByteRange(w), ByteRange(n);
    assert pn == 256 * pw;
    OperandsInRange(l, r, w);
    OperandResidues(l, r, n);
    var a, b := CorrectedPrepared(l, n), CorrectedPrepared(r, n);
    BytewiseValue(op, a, b, l, r);
    IntegerBitBound(op, l, r, w);
  }

  /** Operands whose bytes fit in w bytes lie in the signed range of w bytes. */
  lemma OperandsInRange(l: int, r: int, w: nat)
    requires w >= Width(l, r)
    ensures -ByteRange(w) <= l < ByteRange(w) && -ByteRange(w) <= r < ByteRange(w)
  {
    CorrectedOperandBytes(l, w);
    CorrectedOperandBytes(r, w);
  }

  /** At any width with room for the sign byte, the corrected operators are
      the integer operators. */
  lemma CorrectedBitValueAtIsInteger(op: BitOperator, l: int, r: int, n: nat)
    requires n >= Width(l, r) + 1
    ensures CorrectedBitValueAt(op, l, r, n) == IntegerBitValue(op, l, r)
  {
    var res := Bytewise(op, CorrectedPrepared(l, n), CorrectedPrepared(r, n));
    var v := IntegerBitValue(op, l, r);
    CombinedResidue(op, l, r, n);
    IntegerBitSign(op, l, r);
    ReadBack(res, v);
  }

  /** Both operands prepared at width n hold their residues modulo 256^n. */
  lemma OperandResidues(l: int, r: int, n: nat)
    requires n >= Width(l, r)
    ensures |CorrectedPrepared(l, n)| == n && |CorrectedPrepared(r, n)| == n
    ensures FromBase(CorrectedPrepared(l, n), 256) == l % ByteRange(n)
    ensures FromBase(CorrectedPrepared(r, n), 256) == r % ByteRange(n)
  {
    CorrectedOperandBytes(l, n);
    CorrectedOperandBytes(r, n);
  }

  /** The corrected operators are the integer operators, for every pair of integers. */
  lemma CorrectedBitValueIsInteger(op: BitOperator, l: int, r: int)
    ensures CorrectedBitValue(op, l, r) == IntegerBitValue(op, l, r)
  {
    CorrectedBitValueAtIsInteger(op, l, r, Width(l, r) + 1);
  }

  /** As written, the operators are right on natural numbers: the carry loop
      and the missing sign byte only matter for negative operands. */
  lemma BitValueOfNaturals(op: BitOperator, l: int, r: int)
    requires l >= 0 && r >= 0
    ensures BitValue(op, l, r) == IntegerBitValue(op, l, r)
  {
    var n := Width(l, r);
    CorrectedOperandBytes(l, n);
    CorrectedOperandBytes(r, n);
    assert Prepared(l, n) == CorrectedPrepared(l, n) && Prepared(r, n) == CorrectedPrepared(r, n);
    var res := Bytewise(op, Prepared(l, n), Prepared(r, n));
    BytewiseValue(op, Prepared(l, n), Prepared(r, n), l, r);
    IntegerBitBound(op, l, r, n);
    IntegerBitSign(op, l, r);
    ReadBack(res, IntegerBitValue(op, l, r));
  }

  /** With the corrected negation, x & x and x | x are x and x ^ x is 0 for
      every integer x, negative ones included. */
  lemma CorrectedBitSelf(x: int)
    ensures CorrectedBitValue(And, x, x) == x && CorrectedBitValue(Or, x, x) == x
    ensures CorrectedBitValue(Xor, x, x) == 0
  {
    CorrectedBitValueIsInteger(And, x, x);
    CorrectedBitValueIsInteger(Or, x, x);
    CorrectedBitValueIsInteger(Xor, x, x);
    IntegerBitSelf(x);
  }

  /** With the corrected negation, x | 0 and x ^ 0 are x and x & 0 is 0 for every integer x. */
  lemma CorrectedBitZero(x: int)
    ensures CorrectedBitValue(Or, x, 0) == x && CorrectedBitValue(Xor, x, 0) == x
    ensures CorrectedBitValue(And, x, 0) == 0
  {
    CorrectedBitValueIsInteger(Or, x, 0);
    CorrectedBitValueIsInteger(Xor, x, 0);
    CorrectedBitValueIsInteger(And, x, 0);
    IntegerBitZero(x);
  }

  /** The input that shows the carry loop's flaw, corrected: -256 | 0 is -256. */
  lemma CorrectedNegativeMultipleOf256()
    ensures CorrectedBitValue(Or, -256, 0) == -256 && CorrectedBitValue(And, -256, -256) == -256
  {
    CorrectedBitZero(-256);
    CorrectedBitSelf(-256);
  }

  /** The corrected negation alone does not repair the missing sign byte:
      at the operands' own width, the same one-byte operands read back as 0. */
  lemma SignByteNeeded(op: BitOperator, l: int, r: int)
    requires ZeroByteNegative(op, l, r)
    ensures CorrectedBitValueAt(op, l, r, Width(l, r)) == 0
  {
    CorrectedZeroByteOperands(op, l, r);
    var res := Bytewise(op, CorrectedPrepared(l, 1), CorrectedPrepared(r, 1));
    OneByteNegations(0);
    ZeroByteValues();
    var v: int := FromBase(TwosComplement(res), 256);
    assert v == 0;
    assert CorrectedBitValueAt(op, l, r, 1) == -v;
  }

  /** At one byte, -1 ^ 255 and -128 & -255 read back as 0 under the corrected negation. */
  lemma SignByteNeededExamples()
    ensures CorrectedBitValueAt(Xor, -1, 255, Width(-1, 255)) == 0
    ensures CorrectedBitValueAt(And, -128, -255, Width(-128, -255)) == 0
  {
    var minusOne, twoFiftyFive, a, b := -1, 255, -128, -255;
    assert ByteOp(Xor, 255, 255) == 0 && ByteOp(And, 128, 1) == 0;
    SignByteNeeded(Xor, minusOne, twoFiftyFive);
    SignByteNeeded(And, a, b);
  }

  /** For one-byte operands whose combined byte is 0 under a negative sign,
      the integer operators give -256. */
  lemma ZeroByteNegativeInteger(op: BitOperator, l: int, r: int)
    requires ZeroByteNegative(op, l, r)
    ensures IntegerBitValue(op, l, r) == -256
  {
    IntegerBitStep(op, l, r);
    var x, y := l / 256, r / 256;
    assert (x == 0 || x == -1) && (y == 0 || y == -1);
    assert (x < 0) == (l < 0) && (y < 0) == (r < 0);
    IntegerBitSign(op, x, y);
    assert IntegerBitValue(op, x, y) == -1;
  }

  /** With the sign byte, such operands give -256. */
  lemma CorrectedZeroByteNegativeResult(op: BitOperator, l: int, r: int)
    requires ZeroByteNegative(op, l, r)
    ensures CorrectedBitValue(op, l, r) == -256
  {
    CorrectedBitValueIsInteger(op, l, r);
    ZeroByteNegativeInteger(op, l, r);
  }

  /** With the sign byte, -1 ^ 255 and -128 & -255 are -256. */
  lemma CorrectedZeroBytesNegativeResult()
    ensures CorrectedBitValue(Xor, -1, 255) == -256 && CorrectedBitValue(And, -128, -255) == -256
  {
    var minusOne, twoFiftyFive, a, b := -1, 255, -128, -255;
    assert ByteOp(Xor, 255, 255) == 0 && ByteOp(And, 128, 1) == 0;
    CorrectedZeroByteNegativeResult(Xor, minusOne, twoFiftyFive);
    CorrectedZeroByteNegativeResult(And, a, b);
  }
}
