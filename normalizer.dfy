/** The arithmetic class's own text handling: the helpers that look at a
    number's text, trailing-zero trimming, the input sanitiser and the
    conversion of any operand (including scientific notation) to a decimal. */
module Normalizer {
  import opened Digits
  import opened Wrappers
  import opened Decimal

  /** What a caller may pass: a PHP int, a string, or a decimal object. */
  datatype Operand = IntOp(i: int) | StrOp(s: string) | NumOp(n: Number)

  /** PHP's (string) cast of an operand. */
  function Text(op: Operand): string
  {
    match op
    case IntOp(i) => Render(Number(i, 0))
    case StrOp(s) => s
    case NumOp(n) => Render(n)
  }

  // ----- isFloat, isNegative, getDecimalsLength -----

  /** isFloat: the text contains a '.'. */
  predicate IsFloat(s: string)
  {
    '.' in s
  }

  /** isNegative: the text starts with '-'. */
  predicate IsNegative(s: string)
  {
    |s| > 0 && s[0] == '-'
  }

  function Reverse(s: string): (r: string)
    ensures |r| == |s|
    ensures forall i :: 0 <= i < |s| ==> r[i] == s[|s| - 1 - i]
  {
    if s == [] then [] else Reverse(s[1..]) + [s[0]]
  }

  /** getDecimalsLength: strcspn over the reversed text, so the number of
      characters after the last '.'; 0 when there is no '.'. */
  function GetDecimalsLength(s: string): (r: nat)
    ensures r <= |s|
    ensures !IsFloat(s) ==> r == 0
    ensures IsFloat(s) ==> r < |s| && s[|s| - 1 - r] == '.'
    ensures forall i :: |s| - r <= i < |s| ==> s[i] != '.'
  {
    if IsFloat(s) then
      var rev := Reverse(s);
      var r := FirstIndex(rev, '.');
      FirstIndexBefore(rev, '.');
      assert r < |s| by {
        var k :| 0 <= k < |s| && s[k] == '.';
        assert rev[|s| - 1 - k] == '.';
      }
      assert s[|s| - 1 - r] == rev[r];
      assert forall i :: |s| - r <= i < |s| ==> s[i] == rev[|s| - 1 - i];
      r
    else 0
  }

  /** The helpers read a decimal's text the way its fields say. */
  lemma TextHelpersOfRender(n: Number)
    ensures IsFloat(Render(n)) <==> n.scale > 0
    ensures IsNegative(Render(n)) <==> n.unscaled < 0
    ensures GetDecimalsLength(Render(n)) == n.scale
  {
    RenderShape(n);
    RenderParts(n);
    var s := Render(n);
    if n.scale > 0 {
      assert s[|s| - 1 - n.scale] == '.';
      var r := GetDecimalsLength(s);
      assert r == n.scale;
    }
  }

  // ----- trimTrailingZeroes -----

  /** rtrim($s, c): drop every trailing `c`. */
  function RTrim(s: string, c: char): (r: string)
    ensures |r| <= |s| && r == s[..|r|]
    ensures r == [] || r[|r| - 1] != c
    ensures forall i :: |r| <= i < |s| ==> s[i] == c
  {
    if s == [] then [] else if s[|s| - 1] == c then RTrim(s[..|s| - 1], c) else s
  }

  /** The text part of trimTrailingZeroes: when the text has a '.', strip
      trailing '0's; then strip trailing '.'s; an empty (or "0") result is "0".
      So on text with a '.', what is dropped is a run of '.'s followed by a
      run of '0's, and the result ends in '0' only when a '.' follows it. */
  function TrimText(s: string): (r: string)
    ensures r != []
    ensures r == "0" || (|r| <= |s| && r == s[..|r|] && forall i :: |r| <= i < |s| ==> s[i] == '0' || s[i] == '.')
    ensures r[|r| - 1] != '.'
    ensures IsFloat(s) && r != "0" ==>
      (forall i, j :: |r| <= i < j < |s| && s[i] == '0' ==> s[j] == '0')
      && (r[|r| - 1] == '0' ==> |r| < |s| && s[|r|] == '.')
    ensures !IsFloat(s) && s != [] && s[|s| - 1] != '.' ==> r == s
  {
    var t := if IsFloat(s) then RTrim(s, '0') else s;
    var w := RTrim(t, '.');
    RTrimZerosThenDots(s);
    if w == [] || w == "0" then "0" else w
  }

  /** rtrim of '0's then of '.'s drops a run of '.'s followed by a run of
      '0's, and keeps a final '0' only when a '.' follows it. */
  lemma RTrimZerosThenDots(s: string)
    ensures var w := RTrim(RTrim(s, '0'), '.');
      (forall i, j :: |w| <= i < j < |s| && s[i] == '0' ==> s[j] == '0')
      && (w != [] && w[|w| - 1] == '0' ==> |w| < |s| && s[|w|] == '.')
  {
    var t := RTrim(s, '0');
    var w := RTrim(t, '.');
    forall i | |w| <= i < |t| ensures s[i] == '.' {
      assert s[i] == t[i];
    }
    if w != [] && w[|w| - 1] == '0' {
      assert |w| < |t|;
      assert s[|w|] == t[|w|];
    }
  }

  /** trimTrailingZeroes: trim the operand's text and build a decimal from it
      (the decimal type refuses malformed text). */
  function TrimTrailingZeroes(op: Operand): Result<Number>
  {
    var t := TrimText(Text(op));
    match Parse(t)
    case Some(n) => Ok(n)
    case None => Err(MalformedNumber(t))
  }

  lemma RTrimAppend(x: string, c: char)
    ensures RTrim(x + [c], c) == RTrim(x, c)
  {
    assert (x + [c])[..|x|] == x;
  }

  lemma RTrimKeep(x: string, c: char)
    requires x != [] && x[|x| - 1] != c
    ensures RTrim(x, c) == x
  {
  }

  lemma LastFractionDigit(n: Number)
    requires n.scale > 0
    ensures Render(n)[|Render(n)| - 1] == DigitChar(AbsInt(n.unscaled) % 10)
  {
    var s := Render(n);
    RenderParts(n);
    assert s[|s| - 1] == FracDigits(Fraction(n), n.scale)[n.scale - 1];
    var x := AbsInt(n.unscaled);
    DivModUnique(Fraction(n), 10, LowDigits(x / 10, n.scale - 1), x % 10);
  }

  /** Trimming the zeros of a printed decimal prints the reduced decimal. */
  lemma {:induction false} RTrimZerosOfRender(n: Number)
    requires n.scale > 0
    ensures RTrim(Render(n), '0') == Render(Reduce(n)) + (if Reduce(n).scale == 0 then "." else "")
    decreases n.scale
  {
    var u := n.unscaled;
    if u % 10 != 0 {
      RTrimKeepsNonzeroEnd(n);
    } else {
      var v := u / 10;
      var n' := Number(v, n.scale - 1);
      ReduceStep(n);
      RenderTimesTen(v, n.scale);
      var x := Render(n');
      if n.scale == 1 {
        RTrimOfDot(n');
      } else {
        assert Render(n) == x + ['0'];
        RTrimAppend(x, '0');
        RTrimZerosOfRender(n');
      }
    }
  }

  /** A trailing zero digit of the fraction can be dropped before reducing. */
  lemma ReduceStep(n: Number)
    requires n.scale > 0 && n.unscaled % 10 == 0
    ensures n == Number(10 * (n.unscaled / 10), n.scale)
    ensures Reduce(n) == Reduce(Number(n.unscaled / 10, n.scale - 1))
  {
  }

  lemma RTrimKeepsNonzeroEnd(n: Number)
    requires n.scale > 0 && n.unscaled % 10 != 0
    ensures RTrim(Render(n), '0') == Render(n)
    ensures Reduce(n) == n
  {
    LastFractionDigit(n);
    assert AbsInt(n.unscaled) % 10 != 0;
    RenderShape(n);
  }

  lemma RTrimOfDot(m: Number)
    requires m.scale == 0
    ensures RTrim(Render(m) + ".0", '0') == Render(m) + "."
    ensures Reduce(m) == m
  {
    var x := Render(m);
    RenderShape(m);
    assert x + ".0" == (x + ".") + ['0'];
    RTrimAppend(x + ".", '0');
    RTrimKeep(x + ".", '0');
  }

  /** Trimming a printed decimal's text prints the decimal with its zero fraction digits removed. */
  lemma TrimRender(n: Number)
    ensures TrimText(Render(n)) == Render(Reduce(n))
  {
    if n.scale == 0 {
      TrimRenderInteger(n);
    } else {
      TrimRenderFraction(n);
    }
  }

  /** A decimal's text ends in a digit, so no '.' is trimmed from it. */
  lemma RTrimDotOfRender(r: Number)
    ensures Render(r) != [] && RTrim(Render(r), '.') == Render(r)
  {
    RenderShape(r);
    RTrimKeep(Render(r), '.');
  }

  lemma TrimRenderInteger(n: Number)
    requires n.scale == 0
    ensures TrimText(Render(n)) == Render(Reduce(n))
  {
    TextHelpersOfRender(n);
    RTrimDotOfRender(n);
  }

  lemma TrimRenderFraction(n: Number)
    requires n.scale > 0
    ensures TrimText(Render(n)) == Render(Reduce(n))
  {
    var s, r := Render(n), Reduce(n);
    assert IsFloat(s) by { TextHelpersOfRender(n); }
    var t := RTrim(s, '0');
    assert t == Render(r) + (if r.scale == 0 then "." else "") by { RTrimZerosOfRender(n); }
    RTrimDotOfRender(r);
    assert RTrim(t, '.') == Render(r) by {
      if r.scale == 0 {
        RTrimAppend(Render(r), '.');
      }
    }
    TrimTextOfFloat(s);
  }

  /** On a text with a '.', trimming removes the trailing '0's and then the trailing '.'s. */
  lemma TrimTextOfFloat(s: string)
    requires IsFloat(s) && RTrim(RTrim(s, '0'), '.') != []
    ensures TrimText(s) == RTrim(RTrim(s, '0'), '.')
  {
  }

  lemma {:induction false} ReduceIdempotent(n: Number)
    ensures Reduce(Reduce(n)) == Reduce(n)
    decreases n.scale
  {
    if n.scale > 0 && n.unscaled % 10 == 0 {
      ReduceIdempotent(Number(n.unscaled / 10, n.scale - 1));
    }
  }

  /** Trimming a decimal's text twice is trimming it once. */
  lemma TrimTextIdempotent(n: Number)
    ensures TrimText(TrimText(Render(n))) == TrimText(Render(n))
  {
    TrimRender(n);
    TrimRender(Reduce(n));
    ReduceIdempotent(n);
  }

  /** trimTrailingZeroes never fails on a decimal and never changes its value. */
  lemma TrimTrailingZeroesOfNumber(n: Number)
    ensures TrimTrailingZeroes(NumOp(n)) == Ok(Reduce(n))
    ensures SameValue(Reduce(n), n)
  {
    TrimRender(n);
    ParseRender(Reduce(n));
    ReduceSameValue(n);
  }

  /** formatTrailingZeroes: trim when the class's trimming flag is on. The
      textual trim of a decimal is its reduced form (TrimTrailingZeroesOfNumber),
      which is what is computed here. */
  function FormatTrailingZeroes(n: Number, trim: bool): (r: Number)
    ensures SameValue(r, n)
    ensures trim ==> r.scale == 0 || r.unscaled % 10 != 0
    ensures !trim ==> r == n
  {
    ReduceSameValue(n);
    if trim then Reduce(n) else n
  }

  /** With the flag on, formatting is exactly the textual trim of the printed decimal. */
  lemma FormatIsTextualTrim(n: Number)
    ensures TrimTrailingZeroes(NumOp(n)) == Ok(FormatTrailingZeroes(n, true))
  {
    TrimTrailingZeroesOfNumber(n);
  }

  // ----- parseToNumber -----

  predicate NumberChar(c: char) { IsDigit(c) || c == '+' || c == '-' || c == '.' }

  /** filter_var with FILTER_SANITIZE_NUMBER_FLOAT and FILTER_FLAG_ALLOW_FRACTION:
      keep digits, '+', '-' and '.'. */
  function SanitizeNumberFloat(s: string): (r: string)
    ensures forall i :: 0 <= i < |r| ==> NumberChar(r[i])
    ensures |r| <= |s|
  {
    if s == [] then []
    else (if NumberChar(s[0]) then [s[0]] else []) + SanitizeNumberFloat(s[1..])
  }

  /** str_replace('+', '', ...). */
  function RemovePlus(s: string): (r: string)
    ensures forall i :: 0 <= i < |r| ==> r[i] != '+'
    ensures forall i :: 0 <= i < |r| ==> r[i] in s
  {
    if s == [] then [] else (if s[0] == '+' then [] else [s[0]]) + RemovePlus(s[1..])
  }

  /** is_numeric on text made of digits, '-' and '.': an optional '-', then
      digits with an optional fraction, or a '.' followed by digits. */
  predicate IsNumericText(s: string)
  {
    var body := if |s| > 0 && s[0] == '-' then s[1..] else s;
    AllDigits(IntegerPart(body)) && AllDigits(FractionPart(body))
      && |IntegerPart(body)| + |FractionPart(body)| > 0
  }

  lemma NumericIsWellFormed(s: string)
    requires IsNumericText(s) && (|s| == 0 || s[0] != '+')
    ensures Parse(s).Some?
  {
  }

  function Sanitize(s: string): (r: string)
    ensures forall i :: 0 <= i < |r| ==> IsDigit(r[i]) || r[i] == '-' || r[i] == '.'
  {
    var r := RemovePlus(SanitizeNumberFloat(s));
    assert forall i :: 0 <= i < |r| ==> NumberChar(r[i]);
    r
  }

  /** parseToNumber: ints and decimals pass through; text is sanitised, and
      "-0" or anything not numeric afterwards becomes 0. */
  function ParseToNumber(op: Operand): (r: Number)
    ensures op.NumOp? ==> r == op.n
    ensures op.IntOp? ==> r == Number(op.i, 0)
    ensures op.StrOp? ==>
      var t := Sanitize(op.s);
      if t == "-0" || !IsNumericText(t) then r == Zero else Parse(t) == Some(r)
  {
    match op
    case NumOp(n) => n
    case IntOp(i) => Number(i, 0)
    case StrOp(s) =>
      var t := Sanitize(s);
      if t == "-0" || !IsNumericText(t) then Zero
      else
        NumericIsWellFormed(t);
        Parse(t).value
  }

  lemma SanitizeRender(n: Number)
    ensures Sanitize(Render(n)) == Render(n)
  {
    RenderShape(n);
    var s := Render(n);
    assert forall i :: 0 <= i < |s| ==> NumberChar(s[i]) && s[i] != '+';
    SanitizeKeeps(s);
  }

  lemma SanitizeKeeps(s: string)
    requires forall i :: 0 <= i < |s| ==> NumberChar(s[i]) && s[i] != '+'
    ensures SanitizeNumberFloat(s) == s && RemovePlus(s) == s
  {
    if s != [] {
      SanitizeKeeps(s[1..]);
      assert s == [s[0]] + s[1..];
    }
  }

  /** The filter works character by character: it distributes over concatenation ... */
  lemma {:induction false} SanitizeNumberFloatConcat(a: string, b: string)
    ensures SanitizeNumberFloat(a + b) == SanitizeNumberFloat(a) + SanitizeNumberFloat(b)
  {
    if a == [] {
      assert a + b == b;
    } else {
      assert (a + b)[1..] == a[1..] + b;
      SanitizeNumberFloatConcat(a[1..], b);
    }
  }

  /** ... and keeps one character exactly when it is a digit, '+', '-' or '.'. */
  lemma SanitizeNumberFloatChar(c: char)
    ensures SanitizeNumberFloat([c]) == if NumberChar(c) then [c] else []
  {
    assert [c][1..] == [];
  }

  /** The '+' removal distributes over concatenation ... */
  lemma {:induction false} RemovePlusConcat(a: string, b: string)
    ensures RemovePlus(a + b) == RemovePlus(a) + RemovePlus(b)
  {
    if a == [] {
      assert a + b == b;
    } else {
      assert (a + b)[1..] == a[1..] + b;
      RemovePlusConcat(a[1..], b);
    }
  }

  /** ... and keeps every character other than '+'. */
  lemma RemovePlusChar(c: char)
    ensures RemovePlus([c]) == if c == '+' then [] else [c]
  {
    assert [c][1..] == [];
  }

  /** The sanitiser keeps exactly the digits, '-'s and '.'s of its input, in
      order: it distributes over concatenation, and a single character
      survives exactly when it is one of those. */
  lemma SanitizeConcat(a: string, b: string)
    ensures Sanitize(a + b) == Sanitize(a) + Sanitize(b)
  {
    SanitizeNumberFloatConcat(a, b);
    RemovePlusConcat(SanitizeNumberFloat(a), SanitizeNumberFloat(b));
  }

  lemma SanitizeChar(c: char)
    ensures Sanitize([c]) == if IsDigit(c) || c == '-' || c == '.' then [c] else []
  {
    SanitizeNumberFloatChar(c);
    if NumberChar(c) {
      RemovePlusChar(c);
    } else {
      assert RemovePlus([]) == [];
    }
  }

  /** Letters around the digits are dropped: 'a12b' reads as 12. */
  lemma SanitizerLettersExample()
    ensures ParseToNumber(StrOp("a12b")) == Number(12, 0)
  {
    SanitizeLettersText();
    assert Render(Number(12, 0)) == "12" by {
      assert Whole(Number(12, 0)) == 12 && IntDigits(12) == "12";
    }
    SanitizedInteger("a12b", "12", 12);
  }

  lemma SanitizeLettersText()
    ensures Sanitize("a12b") == "12"
  {
    SanitizeAround("a12b", 'a', "12", 'b');
  }

  /** A digit run between two characters the sanitiser drops is all that is left. */
  lemma SanitizeAround(s: string, a: char, digits: string, b: char)
    requires s == [a] + digits + [b] && AllDigits(digits)
    requires !(IsDigit(a) || a == '-' || a == '.') && !(IsDigit(b) || b == '-' || b == '.')
    ensures Sanitize(s) == digits
  {
    SanitizeChar(a);
    SanitizeChar(b);
    assert forall i :: 0 <= i < |digits| ==> NumberChar(digits[i]) && digits[i] != '+' by {
      forall i | 0 <= i < |digits| ensures NumberChar(digits[i]) && digits[i] != '+' {
        assert IsDigit(digits[i]);
      }
    }
    SanitizeKeeps(digits);
    SanitizeConcat([a], digits);
    SanitizeConcat([a] + digits, [b]);
  }

  /** Parsing what a decimal prints gives it back: the sanitiser is idempotent on its own output. */
  lemma ParseToNumberOfRender(n: Number)
    ensures ParseToNumber(StrOp(Render(n))) == n
  {
    var s := Render(n);
    SanitizeRender(n);
    RenderParts(n);
    ParseRender(n);
    if s == "-0" {
      assert false;
    }
    assert IsNumericText(s);
  }

  // ----- scientific notation: the pattern (-?(\d+\.)?\d+)E([+-]?)(\d+), case-insensitive -----

  /** The captures of a match: the mantissa (sign, integer digits, fraction
      digits; the mantissa text is group 1), the exponent's sign (group 3) and
      its digits (group 4). */
  datatype SciParts = SciParts(
    negative: bool, whole: string, fraction: string,
    negativeExponent: bool, exponent: string)

  /** Group 1 of the match: the mantissa as written. */
  function MantissaText(m: SciParts): string
  {
    (if m.negative then "-" else "") + (m.whole + MantissaTail(m))
  }

  predicate WellFormedParts(m: SciParts)
  {
    AllDigits(m.whole) && |m.whole| > 0 && AllDigits(m.fraction)
      && AllDigits(m.exponent) && |m.exponent| > 0
  }

  predicate IsE(c: char) { c == 'e' || c == 'E' }

  /** The end of the greedy run of digits that starts at `i`. */
  function DigitRunEnd(s: string, i: nat): (j: nat)
    requires i <= |s|
    ensures i <= j <= |s|
    ensures AllDigits(s[i..j])
    ensures j < |s| ==> !IsDigit(s[j])
    decreases |s| - i
  {
    if i < |s| && IsDigit(s[i]) then
      var j := DigitRunEnd(s, i + 1);
      assert s[i..j] == [s[i]] + s[i + 1..j];
      j
    else i
  }

  /** The part after the 'E': an optional sign, then a greedy non-empty run of digits. */
  function ExponentAt(s: string, p: nat, q: nat, d1: nat, frac: string, e: nat): (r: Option<SciParts>)
    requires p <= q <= d1 <= e < |s| && AllDigits(s[q..d1]) && AllDigits(frac)
    ensures r.Some? ==> WellFormedParts(r.value) || d1 == q
  {
    var k := e + 1;
    var signed := k < |s| && (s[k] == '+' || s[k] == '-');
    var k' := if signed then k + 1 else k;
    var d3 := DigitRunEnd(s, k');
    if d3 == k' then None
    else Some(SciParts(q > p, s[q..d1], frac, signed && s[k] == '-', s[k'..d3]))
  }

  /** The match that starts at `p`, with the backtracking of the pattern worked
      out: the optional group "digits." is taken when the greedy digit run is
      followed by '.', digits and an 'E'; otherwise the digit run itself must
      be followed by the 'E'. */
  function MatchAt(s: string, p: nat): (r: Option<SciParts>)
    requires p <= |s|
    ensures r.Some? ==> WellFormedParts(r.value)
  {
    var q := if p < |s| && s[p] == '-' then p + 1 else p;
    var d1 := DigitRunEnd(s, q);
    if d1 == q then None
    else if d1 < |s| && s[d1] == '.' && DigitRunEnd(s, d1 + 1) > d1 + 1
         && DigitRunEnd(s, d1 + 1) < |s| && IsE(s[DigitRunEnd(s, d1 + 1)]) then
      ExponentAt(s, p, q, d1, s[d1 + 1..DigitRunEnd(s, d1 + 1)], DigitRunEnd(s, d1 + 1))
    else if d1 < |s| && IsE(s[d1]) then
      ExponentAt(s, p, q, d1, [], d1)
    else None
  }

  /** preg_match: the leftmost position where the pattern matches. */
  function FindScientific(s: string, p: nat): (r: Option<SciParts>)
    requires p <= |s|
    ensures r.Some? ==> WellFormedParts(r.value)
    decreases |s| - p
  {
    match MatchAt(s, p)
    case Some(m) => Some(m)
    case None => if p < |s| then FindScientific(s, p + 1) else None
  }

  /** Where the exponent's digits start, after the 'E' at `k` and an optional sign. */
  function ExponentStart(s: string, k: nat): (r: nat)
    requires k < |s|
    ensures r == k + 1 || (r == k + 2 && k + 1 < |s| && (s[k + 1] == '+' || s[k + 1] == '-'))
  {
    if k + 1 < |s| && (s[k + 1] == '+' || s[k + 1] == '-') then k + 2 else k + 1
  }

  /** The text from `q` on spells `m` out: group 1 (the mantissa), an 'E' or
      'e', the optional exponent sign (group 3), and the exponent digits
      (group 4), which run as far as the digits go. */
  predicate SpelledAt(s: string, q: nat, m: SciParts)
  {
    var k := q + |MantissaText(m)|;
    k < |s| && s[q..k] == MantissaText(m) && IsE(s[k]) && ExponentSpelled(s, k, m)
  }

  /** After the 'E' at `k`: group 3 is '-' exactly when the exponent is
      negative, and group 4 is the whole run of digits that follows. */
  predicate ExponentSpelled(s: string, k: nat, m: SciParts)
    requires k < |s|
  {
    var d := ExponentStart(s, k);
    d + |m.exponent| <= |s| && s[d..d + |m.exponent|] == m.exponent
    && (d + |m.exponent| == |s| || !IsDigit(s[d + |m.exponent|]))
    && (m.negativeExponent <==> d == k + 2 && s[k + 1] == '-')
  }

  /** A match at `q` is spelled out in the text from `q` on. */
  lemma MatchAtSpells(s: string, q: nat, m: SciParts)
    requires q <= |s| && MatchAt(s, q) == Some(m)
    ensures SpelledAt(s, q, m)
  {
    var q1 := if q < |s| && s[q] == '-' then q + 1 else q;
    var d1 := DigitRunEnd(s, q1);
    var e := if d1 < |s| then DigitRunEnd(s, d1 + 1) else d1;
    if d1 < |s| && s[d1] == '.' && e > d1 + 1 && e < |s| && IsE(s[e]) {
      var frac := s[d1 + 1..e];
      assert ExponentAt(s, q, q1, d1, frac, e) == Some(m);
      assert s[d1..e] == "." + frac;
      ExponentAtSpelled(s, q, q1, d1, frac, e, m);
    } else {
      assert ExponentAt(s, q, q1, d1, [], d1) == Some(m);
      ExponentAtSpelled(s, q, q1, d1, [], d1, m);
    }
  }

  /** The mantissa captured by ExponentAt is the text from `p` up to the 'E'. */
  lemma ExponentAtSpelled(s: string, p: nat, q: nat, d1: nat, frac: string, e: nat, m: SciParts)
    requires p <= q <= d1 <= e < |s| && AllDigits(s[q..d1]) && AllDigits(frac)
    requires q == p || (q == p + 1 && s[p] == '-')
    requires s[d1..e] == if frac == [] then [] else "." + frac
    requires IsE(s[e]) && ExponentAt(s, p, q, d1, frac, e) == Some(m)
    ensures p + |MantissaText(m)| == e && SpelledAt(s, p, m)
  {
    ExponentAtSpells(s, p, q, d1, frac, e, m);
    MantissaSpelled(s, p, q, d1, e, m);
    SpelledUpTo(s, p, e, m);
  }

  lemma SpelledUpTo(s: string, p: nat, e: nat, m: SciParts)
    requires p <= e < |s| && s[p..e] == MantissaText(m) && IsE(s[e]) && ExponentSpelled(s, e, m)
    ensures p + |MantissaText(m)| == e && SpelledAt(s, p, m)
  {
  }

  /** The optional '-', the digit run and the tail '.' + fraction, laid end to end, make group 1. */
  lemma MantissaSpelled(s: string, p: nat, q: nat, d1: nat, e: nat, m: SciParts)
    requires p <= q <= d1 <= e <= |s|
    requires q == p || (q == p + 1 && s[p] == '-')
    requires m.negative == (q > p) && m.whole == s[q..d1]
    requires s[d1..e] == if m.fraction == [] then [] else "." + m.fraction
    ensures s[p..e] == MantissaText(m)
  {
    var sign, tail := s[p..q], s[d1..e];
    assert sign == if m.negative then "-" else "";
    assert tail == MantissaTail(m);
    SliceJoin(s, q, d1, e);
    SliceJoin(s, p, q, e);
  }

  lemma SliceJoin(s: string, i: nat, j: nat, k: nat)
    requires i <= j <= k <= |s|
    ensures s[i..k] == s[i..j] + s[j..k]
  {
  }

  /** What ExponentAt captures, read back from the text. */
  lemma ExponentAtSpells(s: string, p: nat, q: nat, d1: nat, frac: string, e: nat, m: SciParts)
    requires p <= q <= d1 <= e < |s| && AllDigits(s[q..d1]) && AllDigits(frac)
    requires ExponentAt(s, p, q, d1, frac, e) == Some(m)
    ensures m.negative == (q > p) && m.whole == s[q..d1] && m.fraction == frac
    ensures ExponentSpelled(s, e, m)
  {
  }

  /** preg_match finds the leftmost match: a result is the match at some
      position from `p` on, and no earlier position matches. */
  lemma {:induction false} FindScientificLeftmost(s: string, p: nat, m: SciParts)
    requires p <= |s| && FindScientific(s, p) == Some(m)
    ensures exists q :: (p <= q <= |s| && MatchAt(s, q) == Some(m)
                         && forall q' :: p <= q' < q ==> MatchAt(s, q') == None)
    decreases |s| - p
  {
    var here := MatchAt(s, p);
    if here.Some? {
      assert here == Some(m);
      assert p <= p <= |s| && MatchAt(s, p) == Some(m);
    } else {
      assert p < |s| && FindScientific(s, p + 1) == Some(m);
      FindScientificLeftmost(s, p + 1, m);
      var q :| p + 1 <= q <= |s| && MatchAt(s, q) == Some(m)
        && forall q' :: p + 1 <= q' < q ==> MatchAt(s, q') == None;
      forall q' | p <= q' < q
        ensures MatchAt(s, q') == None
      {
        if q' == p {
          assert MatchAt(s, q') == here;
        }
      }
      assert p <= q <= |s| && MatchAt(s, q) == Some(m);
    }
  }

  /** No match is found exactly when no position from `p` on matches. */
  lemma {:induction false} FindScientificNone(s: string, p: nat)
    requires p <= |s|
    ensures FindScientific(s, p) == None <==> forall q :: p <= q <= |s| ==> MatchAt(s, q) == None
    decreases |s| - p
  {
    if p < |s| {
      FindScientificNone(s, p + 1);
      if MatchAt(s, p).None? && FindScientific(s, p + 1) != None {
        var q :| p + 1 <= q <= |s| && MatchAt(s, q) != None;
        assert p <= q <= |s|;
      }
    }
  }

  /** stripos($number, 'E') !== false. */
  predicate ContainsE(s: string)
  {
    'E' in s || 'e' in s
  }

  /** The decimal the mantissa text parses to. */
  function MantissaNumber(m: SciParts): Number
    requires WellFormedParts(m)
  {
    var mag := DigitsValue(m.whole) * Pow10(|m.fraction|) + DigitsValue(m.fraction);
    Number(if m.negative then -mag else mag, |m.fraction|)
  }

  lemma MantissaParts(m: SciParts)
    requires WellFormedParts(m)
    ensures ParseToNumber(StrOp(MantissaText(m))) == MantissaNumber(m)
    ensures GetDecimalsLength(MantissaText(m)) == |m.fraction|
  {
    var t := MantissaText(m);
    MantissaSanitized(m);
    MantissaBody(m);
    assert IsNumericText(t);
    if t == "-0" {
      assert m.whole == "0" && m.fraction == [] by {
        assert m.negative;
        assert |m.whole| + |MantissaTail(m)| == 1;
      }
      assert DigitsValue(m.whole) == 0 by { assert m.whole == [] + ['0']; }
      assert ParseToNumber(StrOp(t)) == Zero;
    } else {
      MantissaParse(m);
      assert ParseToNumber(StrOp(t)) == Parse(t).value;
    }
    MantissaDecimals(m);
  }

  lemma MantissaParse(m: SciParts)
    requires WellFormedParts(m)
    ensures Parse(MantissaText(m)) == Some(MantissaNumber(m))
  {
    MantissaBody(m);
    ParseOfParts(MantissaText(m), m.whole + MantissaTail(m), m.whole, m.fraction, m.negative);
  }

  /** Parse, given the pieces it splits its text into. */
  lemma ParseOfParts(t: string, body: string, whole: string, fraction: string, negative: bool)
    requires Unsigned(t) == body && IntegerPart(body) == whole && FractionPart(body) == fraction
    requires AllDigits(whole) && |whole| > 0 && AllDigits(fraction)
    requires |t| > 0 && (t[0] == '-' <==> negative)
    ensures var mag := DigitsValue(whole) * Pow10(|fraction|) + DigitsValue(fraction);
      Parse(t) == Some(Number(if negative then -mag else mag, |fraction|))
  {
  }

  function MantissaTail(m: SciParts): string
  {
    if m.fraction == [] then [] else "." + m.fraction
  }

  lemma MantissaBody(m: SciParts)
    requires WellFormedParts(m)
    ensures var t := MantissaText(m);
      |t| > 0 && (t[0] == '-' <==> m.negative) && t[0] != '+'
      && (if m.negative then t[1..] else t) == m.whole + MantissaTail(m)
      && Unsigned(t) == m.whole + MantissaTail(m)
      && IntegerPart(m.whole + MantissaTail(m)) == m.whole
      && FractionPart(m.whole + MantissaTail(m)) == m.fraction
  {
    var t := MantissaText(m);
    var body := m.whole + MantissaTail(m);
    assert t == (if m.negative then "-" else "") + body;
    assert IsDigit(body[0]);
    if m.negative { assert t[1..] == body; }
    FirstIndexOfDigitsThen(m.whole, MantissaTail(m));
  }

  lemma MantissaSanitized(m: SciParts)
    requires WellFormedParts(m)
    ensures Sanitize(MantissaText(m)) == MantissaText(m)
  {
    var t := MantissaText(m);
    var body := m.whole + MantissaTail(m);
    assert t == (if m.negative then "-" else "") + body;
    assert forall i :: 0 <= i < |body| ==> NumberChar(body[i]) && body[i] != '+' by {
      forall i | 0 <= i < |body| ensures NumberChar(body[i]) && body[i] != '+' {
        if i > |m.whole| { assert body[i] == m.fraction[i - |m.whole| - 1]; }
      }
    }
    assert forall i :: 0 <= i < |t| ==> NumberChar(t[i]) && t[i] != '+' by {
      forall i | 0 <= i < |t| ensures NumberChar(t[i]) && t[i] != '+' {
        if m.negative && i > 0 { assert t[i] == body[i - 1]; }
      }
    }
    SanitizeKeeps(t);
  }

  lemma MantissaDecimals(m: SciParts)
    requires WellFormedParts(m)
    ensures GetDecimalsLength(MantissaText(m)) == |m.fraction|
  {
    MantissaDot(m);
    DecimalsAfterOnlyDot(MantissaText(m), |m.fraction|);
  }

  /** The mantissa text's only '.' is the one before the fraction digits. */
  lemma MantissaDot(m: SciParts)
    requires WellFormedParts(m)
    ensures var t := MantissaText(m); var f := |m.fraction|;
      (f > 0 ==> f < |t| && t[|t| - 1 - f] == '.')
      && forall i :: 0 <= i < |t| && t[i] == '.' ==> f > 0 && i == |t| - 1 - f
  {
    var head := (if m.negative then "-" else "") + m.whole;
    assert '.' !in head by {
      assert forall i :: 0 <= i < |head| ==> head[i] == '-' || IsDigit(head[i]);
    }
    assert '.' !in m.fraction by {
      assert forall i :: 0 <= i < |m.fraction| ==> IsDigit(m.fraction[i]);
    }
    if m.fraction == [] {
      assert MantissaText(m) == head;
    } else {
      assert MantissaText(m) == head + "." + m.fraction;
      OnlyDotBetween(head, m.fraction);
    }
  }

  lemma OnlyDotBetween(a: string, c: string)
    requires '.' !in a && '.' !in c
    ensures var t := a + "." + c;
      t[|a|] == '.' && forall i :: 0 <= i < |t| && t[i] == '.' ==> i == |a|
  {
    var t := a + "." + c;
    forall i | 0 <= i < |t| && i != |a| ensures t[i] != '.' {
      if i < |a| {
        assert t[i] == a[i];
      } else {
        assert t[i] == c[i - |a| - 1];
      }
    }
  }

  /** getDecimalsLength counts f when the text's only '.' has f characters after it. */
  lemma DecimalsAfterOnlyDot(t: string, f: nat)
    requires f > 0 ==> f < |t| && t[|t| - 1 - f] == '.'
    requires forall i :: 0 <= i < |t| && t[i] == '.' ==> f > 0 && i == |t| - 1 - f
    ensures GetDecimalsLength(t) == f
  {
    if f > 0 {
      assert IsFloat(t);
    } else {
      assert !IsFloat(t);
    }
  }

  /** convertToNumber: decimals pass through, ints become decimals, text in
      scientific notation is expanded exactly at scale `exponent + decimals`
      (by the class's pow, mul or div, trimming trailing zeros with the flag
      `trim`), and any other text goes to the sanitiser. */
  function ConvertToNumber(op: Operand, trim: bool): (r: Number)
    ensures op.NumOp? ==> r == op.n
    ensures op.IntOp? ==> r == Number(op.i, 0)
    ensures op.StrOp? && !(ContainsE(op.s) && FindScientific(op.s, 0).Some?) ==> r == ParseToNumber(op)
  {
    match op
    case NumOp(n) => n
    case IntOp(i) => Number(i, 0)
    case StrOp(s) =>
      if ContainsE(s) && FindScientific(s, 0).Some? then
        var m := FindScientific(s, 0).value;
        var mantissa := MantissaText(m);
        Expand(ParseToNumber(StrOp(mantissa)), GetDecimalsLength(mantissa),
               DigitsValue(m.exponent), m.negativeExponent, trim)
      else ParseToNumber(op)
  }

  /** The scientific branch of convertToNumber: the power 10^e at scale
      e + decimals, then a division (negative exponent) or a multiplication
      at that scale, each result trimmed when `trim` is set. */
  function Expand(mantissa: Number, decimals: nat, e: nat, negativeExponent: bool, trim: bool): Number
  {
    var scale := e + decimals;
    var pow := FormatTrailingZeroes(PowNat(Number(10, 0), e, Some(scale)), trim);
    PowerOfTenNonzero(e, scale, trim);
    var expanded :=
      if negativeExponent then FormatTrailingZeroes(Div(mantissa, pow, Some(scale)), trim)
      else FormatTrailingZeroes(Mul(pow, mantissa, Some(scale)), trim);
    FormatTrailingZeroes(expanded, trim)
  }

  lemma PowerOfTenNonzero(e: nat, scale: nat, trim: bool)
    ensures SameValue(FormatTrailingZeroes(PowNat(Number(10, 0), e, Some(scale)), trim), Number(Pow10(e), 0))
    ensures FormatTrailingZeroes(PowNat(Number(10, 0), e, Some(scale)), trim).unscaled != 0
  {
    IntPowTen(e);
    var exact := Number(IntPow(10, e), 10 * 0);
    assert PowNat(Number(10, 0), e, Some(scale)) == Rescale(Number(Pow10(e), 0), scale);
    RescaleWiden(Number(Pow10(e), 0), scale);
    var f := FormatTrailingZeroes(PowNat(Number(10, 0), e, Some(scale)), trim);
    SameValueTrans(f, PowNat(Number(10, 0), e, Some(scale)), Number(Pow10(e), 0));
    NonzeroOfSameValue(Number(Pow10(e), 0), f);
  }

  lemma NonzeroOfSameValue(a: Number, b: Number)
    requires SameValue(a, b) && a.unscaled != 0
    ensures b.unscaled != 0
  {
    NonzeroProduct(a.unscaled, Pow10(b.scale));
  }

  /** The exact value of mantissa * 10^e, or mantissa / 10^e for a negative exponent. */
  function Shifted(mantissa: Number, e: nat, negativeExponent: bool): Number
  {
    if negativeExponent then Number(mantissa.unscaled, mantissa.scale + e)
    else Number(mantissa.unscaled * Pow10(e), mantissa.scale)
  }

  /** The exact value the matched scientific notation denotes. */
  function ScientificValue(m: SciParts): Number
    requires WellFormedParts(m)
  {
    Shifted(MantissaNumber(m), DigitsValue(m.exponent), m.negativeExponent)
  }

  /** Text in scientific notation is expanded from its matched parts: the
      mantissa's digits, its count of decimals, the exponent's digits and sign
      (how exact that expansion is, is ExpandExact). */
  lemma ConvertScientific(s: string, trim: bool)
    requires ContainsE(s) && FindScientific(s, 0).Some?
    ensures var m := FindScientific(s, 0).value;
      ConvertToNumber(StrOp(s), trim)
      == Expand(MantissaNumber(m), |m.fraction|, DigitsValue(m.exponent), m.negativeExponent, trim)
  {
    ExpandMantissaText(FindScientific(s, 0).value, trim);
  }

  /** The mantissa text and its decimals count may be replaced by the parsed parts. */
  lemma ExpandMantissaText(m: SciParts, trim: bool)
    requires WellFormedParts(m)
    ensures Expand(MantissaNumber(m), |m.fraction|, DigitsValue(m.exponent), m.negativeExponent, trim)
         == Expand(ParseToNumber(StrOp(MantissaText(m))), GetDecimalsLength(MantissaText(m)),
                   DigitsValue(m.exponent), m.negativeExponent, trim)
  {
    MantissaParts(m);
  }

  lemma ExpandExact(mn: Number, e: nat, negativeExponent: bool, trim: bool)
    ensures var exact := Rescale(Shifted(mn, e, negativeExponent), e + mn.scale);
      SameValue(exact, Shifted(mn, e, negativeExponent))
      && Expand(mn, mn.scale, e, negativeExponent, trim) == (if trim then Reduce(exact) else exact)
  {
    var scale := e + mn.scale;
    PowerOfTenNonzero(e, scale, trim);
    var pow := FormatTrailingZeroes(PowNat(Number(10, 0), e, Some(scale)), trim);
    var sv := Shifted(mn, e, negativeExponent);
    var exact := Rescale(sv, scale);
    RescaleWiden(sv, scale);
    if negativeExponent {
      ExpandNegative(mn, pow, e);
      assert Div(mn, pow, Some(scale)) == exact;
    } else {
      ExpandPositive(mn, pow, e);
      assert Mul(pow, mn, Some(scale)) == exact;
    }
    ReduceIdempotent(exact);
  }

  /** Dividing by a power of ten at scale e + decimals only moves the point. */
  lemma ExpandNegative(mn: Number, pow: Number, e: nat)
    requires SameValue(pow, Number(Pow10(e), 0)) && pow.unscaled != 0
    ensures Div(mn, pow, Some(e + mn.scale)) == Number(mn.unscaled, mn.scale + e)
    ensures Rescale(Number(mn.unscaled, mn.scale + e), e + mn.scale) == Number(mn.unscaled, mn.scale + e)
  {
    var ten := Number(Pow10(e), 0);
    SameValueSym(pow, ten);
    DivValueDivisor(mn, ten, pow, e + mn.scale);
    Pow10Add(e, mn.scale);
    TruncDivExact(mn.unscaled, Pow10(e) * Pow10(mn.scale));
  }

  /** Multiplying by a power of ten at scale e + decimals keeps every digit. */
  lemma ExpandPositive(mn: Number, pow: Number, e: nat)
    requires SameValue(pow, Number(Pow10(e), 0))
    ensures Mul(pow, mn, Some(e + mn.scale)) == Rescale(Number(mn.unscaled * Pow10(e), mn.scale), e + mn.scale)
  {
    var ten := Number(Pow10(e), 0);
    MulExactValue(pow, ten, mn);
    RescaleValue(MulExact(pow, mn), MulExact(ten, mn), e + mn.scale);
    assert MulExact(ten, mn) == Number(mn.unscaled * Pow10(e), mn.scale) by {
      assert Pow10(e) * mn.unscaled == mn.unscaled * Pow10(e);
    }
  }

  /** abs: convert, and when the text starts with '-', parse the text without it. */
  function Abs(op: Operand, trim: bool): (r: Number)
    ensures var c := ConvertToNumber(op, trim);
      r == Number(AbsInt(c.unscaled), c.scale) && SameValue(r, if c.unscaled < 0 then Negate(c) else c)
  {
    var c := ConvertToNumber(op, trim);
    AbsOfRender(c);
    if IsNegative(Render(c)) then ParseToNumber(StrOp(Render(c)[1..])) else ParseToNumber(NumOp(c))
  }

  lemma AbsOfRender(c: Number)
    ensures IsNegative(Render(c)) <==> c.unscaled < 0
    ensures c.unscaled < 0 ==> ParseToNumber(StrOp(Render(c)[1..])) == Negate(c)
  {
    TextHelpersOfRender(c);
    if c.unscaled < 0 {
      var n := Negate(c);
      assert Whole(n) == Whole(c) && Fraction(n) == Fraction(c);
      assert Render(c) == "-" + Render(n);
      assert Render(c)[1..] == Render(n);
      ParseToNumberOfRender(n);
    }
  }

  /** Normalising what a decimal prints gives it back (idempotence of the normaliser). */
  lemma ConvertRender(n: Number, trim: bool)
    ensures ConvertToNumber(StrOp(Render(n)), trim) == n
  {
    RenderShape(n);
    var s := Render(n);
    assert !ContainsE(s) by {
      assert forall i :: 0 <= i < |s| ==> s[i] != 'E' && s[i] != 'e';
    }
    ParseToNumberOfRender(n);
  }

  // ----- worked inputs -----

  lemma MantissaWithFractionRuns()
    ensures DigitRunEnd("19.9999E+2", 0) == 2 && DigitRunEnd("19.9999E+2", 3) == 7
    ensures DigitRunEnd("19.9999E+2", 9) == 10
  {
    var s := "19.9999E+2";
    assert DigitRunEnd(s, 2) == 2;
    assert DigitRunEnd(s, 1) == 2;
    assert DigitRunEnd(s, 7) == 7;
    assert DigitRunEnd(s, 6) == 7;
    assert DigitRunEnd(s, 5) == 7;
    assert DigitRunEnd(s, 4) == 7;
    assert DigitRunEnd(s, 10) == 10;
  }

  lemma MatchOfMantissaWithFraction()
    ensures FindScientific("19.9999E+2", 0) == Some(SciParts(false, "19", "9999", false, "2"))
  {
    var s := "19.9999E+2";
    MantissaWithFractionRuns();
    assert s[0] != '-' && s[2] == '.' && IsE(s[7]) && s[8] == '+';
    assert ExponentAt(s, 0, 0, 2, s[3..7], 7) == Some(SciParts(false, s[0..2], s[3..7], false, s[9..10]));
    assert s[0..2] == "19" && s[3..7] == "9999" && s[9..10] == "2";
  }

  /** '19.9999E+2' normalises to 1999.99 when trimming, and to 1999.990000 (scale 2 + 4) when not. */
  lemma ConvertScientificExample()
    ensures ConvertToNumber(StrOp("19.9999E+2"), true) == Number(199999, 2)
    ensures ConvertToNumber(StrOp("19.9999E+2"), false) == Number(1999990000, 6)
  {
    var m := SciParts(false, "19", "9999", false, "2");
    MatchOfMantissaWithFraction();
    assert 'E' in "19.9999E+2";
    assert DigitsValue("2") == 2 && DigitsValue("19") == 19;
    assert DigitsValue("9999") == 9999 by {
      assert "9999"[..3] == "999" && "999"[..2] == "99" && "99"[..1] == "9";
    }
    assert MantissaNumber(m) == Number(199999, 4);
    ConvertScientific("19.9999E+2", true);
    ConvertScientific("19.9999E+2", false);
    ExpandOfMantissaExample();
  }

  lemma ExpandOfMantissaExample()
    ensures Expand(Number(199999, 4), 4, 2, false, true) == Number(199999, 2)
    ensures Expand(Number(199999, 4), 4, 2, false, false) == Number(1999990000, 6)
  {
    assert Rescale(Shifted(Number(199999, 4), 2, false), 6) == Number(1999990000, 6) by {
      assert Pow10(2) == 100;
    }
    assert Expand(Number(199999, 4), 4, 2, false, false) == Number(1999990000, 6) by {
      ExpandExact(Number(199999, 4), 2, false, false);
    }
    assert Reduce(Number(1999990000, 6)) == Number(199999, 2) by {
      assert Reduce(Number(1999990000, 6)) == Reduce(Number(199999000, 5)) == Reduce(Number(19999900, 4))
        == Reduce(Number(1999990, 3)) == Reduce(Number(199999, 2));
    }
    ExpandExact(Number(199999, 4), 2, false, true);
  }

  lemma NoiseRuns()
    ensures DigitRunEnd("x5.1E-6", 0) == 0 && DigitRunEnd("x5.1E-6", 1) == 2
    ensures DigitRunEnd("x5.1E-6", 3) == 4 && DigitRunEnd("x5.1E-6", 6) == 7
  {
    var s := "x5.1E-6";
    assert DigitRunEnd(s, 2) == 2;
    assert DigitRunEnd(s, 4) == 4;
    assert DigitRunEnd(s, 7) == 7;
  }

  lemma MatchAfterNoise()
    ensures FindScientific("x5.1E-6", 0) == Some(SciParts(false, "5", "1", true, "6"))
  {
    var s := "x5.1E-6";
    NoiseRuns();
    assert MatchAt(s, 0) == None by { assert s[0] != '-'; }
    assert s[1] != '-' && s[2] == '.' && IsE(s[4]) && s[5] == '-';
    assert ExponentAt(s, 1, 1, 2, s[3..4], 4) == Some(SciParts(false, s[1..2], s[3..4], true, s[6..7]));
    assert s[1..2] == "5" && s[3..4] == "1" && s[6..7] == "6";
  }

  /** A negative exponent moves the point left: 'x5.1E-6' is 0.0000051, found after the noise. */
  lemma ConvertNegativeExponentExample(trim: bool)
    ensures ConvertToNumber(StrOp("x5.1E-6"), trim) == Number(51, 7)
  {
    var m := SciParts(false, "5", "1", true, "6");
    MatchAfterNoise();
    assert 'E' in "x5.1E-6";
    assert DigitsValue("6") == 6 && DigitsValue("5") == 5 && DigitsValue("1") == 1;
    assert MantissaNumber(m) == Number(51, 1);
    ConvertScientific("x5.1E-6", trim);
    ExpandOfNegativeExponentExample(trim);
  }

  lemma ExpandOfNegativeExponentExample(trim: bool)
    ensures Expand(Number(51, 1), 1, 6, true, trim) == Number(51, 7)
  {
    ExpandExact(Number(51, 1), 6, true, trim);
  }

  /** Sanitising a text whose one stray character is at position k removes just that character. */
  lemma SanitizeDropsOne(s: string, k: nat)
    requires k < |s| && !NumberChar(s[k])
    requires forall i :: 0 <= i < |s| && i != k ==> NumberChar(s[i]) && s[i] != '+'
    ensures Sanitize(s) == s[..k] + s[k + 1..]
  {
    FilterDropsOne(s, k);
    var t := s[..k] + s[k + 1..];
    assert forall i :: 0 <= i < |t| ==> NumberChar(t[i]) && t[i] != '+' by {
      forall i | 0 <= i < |t| ensures NumberChar(t[i]) && t[i] != '+' {
        if i >= k { assert t[i] == s[i + 1]; }
      }
    }
    SanitizeKeeps(t);
  }

  lemma {:induction false} FilterDropsOne(s: string, k: nat)
    requires k < |s| && !NumberChar(s[k])
    requires forall i :: 0 <= i < |s| && i != k ==> NumberChar(s[i])
    ensures SanitizeNumberFloat(s) == s[..k] + s[k + 1..]
  {
    if k == 0 {
      assert forall i :: 0 <= i < |s[1..]| ==> s[1..][i] == s[i + 1];
      FilterKeeps(s[1..]);
    } else {
      FilterDropsOne(s[1..], k - 1);
      assert s[1..][..k - 1] == s[1..k];
      assert s[1..][k..] == s[k + 1..];
      assert s[..k] == [s[0]] + s[1..k];
    }
  }

  lemma {:induction false} FilterKeeps(s: string)
    requires forall i :: 0 <= i < |s| ==> NumberChar(s[i])
    ensures SanitizeNumberFloat(s) == s
  {
    if s != [] {
      FilterKeeps(s[1..]);
      assert s == [s[0]] + s[1..];
    }
  }

  /** The text of a whole number, read by the sanitiser, is that number. */
  lemma ParseToNumberOfInteger(t: string, v: int)
    requires t == Render(Number(v, 0))
    ensures ParseToNumber(StrOp(t)) == Number(v, 0)
  {
    ParseToNumberOfRender(Number(v, 0));
  }

  lemma SlashRenders()
    ensures Render(Number(20000, 0)) == "20000" && Render(Number(-60000, 0)) == "-60000"
  {
    IntDigitsTwoEtc();
    assert Whole(Number(20000, 0)) == 20000 && Whole(Number(-60000, 0)) == 60000;
  }

  lemma IntDigitsTwoEtc()
    ensures IntDigits(20000) == "20000" && IntDigits(60000) == "60000"
  {
    assert IntDigits(20) == "20" && IntDigits(60) == "60";
    assert IntDigits(200) == "200" && IntDigits(600) == "600";
    assert IntDigits(2000) == "2000" && IntDigits(6000) == "6000";
  }

  lemma SanitizeSlashTexts()
    ensures Sanitize("2/0000") == "20000" && Sanitize("-6/0000") == "-60000"
  {
    SanitizeSlashPositive();
    SanitizeSlashNegative();
  }

  /** A stray character between two runs of kept characters is dropped. */
  lemma SanitizeDropsBetween(a: string, c: char, b: string)
    requires !NumberChar(c)
    requires forall i :: 0 <= i < |a| ==> NumberChar(a[i]) && a[i] != '+'
    requires forall i :: 0 <= i < |b| ==> NumberChar(b[i]) && b[i] != '+'
    ensures Sanitize(a + [c] + b) == a + b
  {
    var s := a + [c] + b;
    assert forall i :: 0 <= i < |s| && i != |a| ==> NumberChar(s[i]) && s[i] != '+' by {
      forall i | 0 <= i < |s| && i != |a| ensures NumberChar(s[i]) && s[i] != '+' {
        if i > |a| { assert s[i] == b[i - |a| - 1]; }
      }
    }
    SanitizeDropsOne(s, |a|);
    assert s[..|a|] == a && s[|a| + 1..] == b;
  }

  lemma SanitizeSlashPositive()
    ensures Sanitize("2/0000") == "20000"
  {
    var a, b := "2", "0000";
    SanitizeDropsBetween(a, '/', b);
    assert a + ['/'] + b == "2/0000" && a + b == "20000";
  }

  lemma SanitizeSlashNegative()
    ensures Sanitize("-6/0000") == "-60000"
  {
    var a, b := "-6", "0000";
    SanitizeDropsBetween(a, '/', b);
    assert a + ['/'] + b == "-6/0000" && a + b == "-60000";
  }

  /** The sanitiser drops the '/' and keeps the digits: '2/0000' is 20000, '-6/0000' is -60000. */
  lemma SanitizerSlashExample()
    ensures ParseToNumber(StrOp("2/0000")) == Number(20000, 0)
    ensures ParseToNumber(StrOp("-6/0000")) == Number(-60000, 0)
  {
    SanitizeSlashTexts();
    SlashRenders();
    SanitizedInteger("2/0000", "20000", 20000);
    SanitizedInteger("-6/0000", "-60000", -60000);
  }

  lemma SanitizedInteger(s: string, t: string, v: int)
    requires Sanitize(s) == t && t == Render(Number(v, 0))
    ensures ParseToNumber(StrOp(s)) == Number(v, 0)
  {
    ParseToNumberOfRender(Number(v, 0));
    SanitizeRender(Number(v, 0));
  }

  lemma TrailingSignText()
    ensures ParseToNumber(StrOp("0-")) == Zero
  {
    var s := "0-";
    assert forall i :: 0 <= i < |s| ==> NumberChar(s[i]) && s[i] != '+';
    SanitizeKeeps(s);
    assert !IsNumericText(s) by {
      assert FirstIndex(s, '.') == 2;
      assert IntegerPart(s) == s;
      assert !IsDigit(s[1]);
    }
  }

  lemma EmptyText()
    ensures ParseToNumber(StrOp("")) == Zero
  {
    var s := "";
    assert Sanitize(s) == s;
    assert IntegerPart(s) == "" && FractionPart(s) == "";
  }

  lemma MinusZeroText()
    ensures ParseToNumber(StrOp("-0")) == Zero
  {
    var s := "-0";
    assert forall i :: 0 <= i < |s| ==> NumberChar(s[i]) && s[i] != '+';
    SanitizeKeeps(s);
  }

  lemma PlusSignText()
    ensures ParseToNumber(StrOp("+5")) == Number(5, 0)
  {
    var s, t := "+5", "5";
    assert SanitizeNumberFloat(s) == s by { FilterKeeps(s); }
    assert RemovePlus(s) == [] + RemovePlus(t);
    assert RemovePlus(t) == t;
    assert Render(Number(5, 0)) == t by {
      assert Whole(Number(5, 0)) == 5;
    }
    SanitizedInteger(s, t, 5);
  }

  /** A stray trailing sign, the empty text and "-0" all become 0; a '+' sign is dropped. */
  lemma SanitizerZeroExamples()
    ensures ParseToNumber(StrOp("0-")) == Zero
    ensures ParseToNumber(StrOp("")) == Zero
    ensures ParseToNumber(StrOp("-0")) == Zero
    ensures ParseToNumber(StrOp("+5")) == Number(5, 0)
  {
    TrailingSignText();
    EmptyText();
    MinusZeroText();
    PlusSignText();
  }

  /** Trimming u * 10^k at scale k leaves the whole number u. */
  lemma {:induction false} ReduceShifted(u: int, k: nat)
    ensures Reduce(Number(u * Pow10(k), k)) == Number(u, 0)
    decreases k
  {
    if k > 0 {
      var v := u * Pow10(k - 1);
      assert u * Pow10(k) == v * 10 by {
        MulAssoc(u, 10, Pow10(k - 1));
      }
      MulDivCancel(v, 10);
      ReduceShifted(u, k - 1);
    }
  }

  lemma AvogadroRuns()
    ensures DigitRunEnd("-6.022E+23", 1) == 2 && DigitRunEnd("-6.022E+23", 3) == 6
    ensures DigitRunEnd("-6.022E+23", 8) == 10
  {
    var s := "-6.022E+23";
    assert DigitRunEnd(s, 2) == 2;
    assert DigitRunEnd(s, 6) == 6;
    assert DigitRunEnd(s, 5) == 6;
    assert DigitRunEnd(s, 4) == 6;
    assert DigitRunEnd(s, 10) == 10;
    assert DigitRunEnd(s, 9) == 10;
  }

  lemma MatchOfAvogadro()
    ensures FindScientific("-6.022E+23", 0) == Some(SciParts(true, "6", "022", false, "23"))
  {
    var s := "-6.022E+23";
    AvogadroRuns();
    assert s[0] == '-' && s[2] == '.' && IsE(s[6]) && s[7] == '+';
    assert ExponentAt(s, 0, 1, 2, s[3..6], 6) == Some(SciParts(true, s[1..2], s[3..6], false, s[8..10]));
    assert s[1..2] == "6" && s[3..6] == "022" && s[8..10] == "23";
  }

  /** '-6.022E+23' expands to -602200000000000000000000, every digit kept. */
  lemma ConvertAvogadroExample()
    ensures ConvertToNumber(StrOp("-6.022E+23"), true) == Number(-6022 * Pow10(20), 0)
  {
    var m := SciParts(true, "6", "022", false, "23");
    MatchOfAvogadro();
    assert 'E' in "-6.022E+23";
    assert DigitsValue("23") == 23 by { assert "23"[..1] == "2"; }
    assert DigitsValue("6") == 6;
    assert DigitsValue("022") == 22 by { assert "022"[..2] == "02" && "02"[..1] == "0"; }
    assert MantissaNumber(m) == Number(-6022, 3) by { assert Pow10(3) == 1000; }
    ConvertScientific("-6.022E+23", true);
    ExpandExact(Number(-6022, 3), 23, false, true);
    var u := -6022 * Pow10(20);
    assert Rescale(Shifted(Number(-6022, 3), 23, false), 26) == Number(u * Pow10(26), 26) by {
      Pow10Add(20, 3);
      Pow10Add(23, 23);
      Pow10Add(20, 26);
      MulAssoc(-6022, Pow10(23), Pow10(23));
      MulAssoc(-6022, Pow10(20), Pow10(26));
    }
    ReduceShifted(u, 26);
  }
}
