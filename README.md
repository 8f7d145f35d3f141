# bcmath-extended: the arithmetic class, modelled in Dafny

The PHP class `BCMathExtended\BC` wraps the arbitrary-precision decimal type
`BcMath\Number`. This project models what the class implements itself:

- **Text normaliser** (`normalizer.dfy`). It covers `convertToNumber`, which
  expands scientific notation exactly. The match of the pattern
  `(-?(\d+\.)?\d+)E([+-]?)(\d+)` is worked out by hand, with its
  backtracking. The normaliser also covers `parseToNumber` (the
  `FILTER_SANITIZE_NUMBER_FLOAT` sanitiser, `+` removal, and `-0` or
  non-numeric text becoming 0), `trimTrailingZeroes` and
  `formatTrailingZeroes`, `getDecimalsLength`, `isFloat`, `isNegative` and
  `abs`.
- **Arithmetic entry points** (`arithmetic.dfy`). These are `add`, `sub`,
  `mul`, `div` and its division-by-zero guard, and the floored modulo
  `mod = a - floor(a / b) * b`. They also include `powMod` with its guards and
  its `mod(pow(...))` fallback, `pow` with an integer exponent, and the loop
  of `fact`.
- **Base 16** (`hex.dfy`): the recursive `hexdec` and `dechex`, with the native `dechex` of a 64-bit int and the `(int)` cast of a decimal's text. The cast is modelled as an exact cut toward zero; PHP first reads fractional text as a double, which the model leaves out (see below).
- **Radix codec and bitwise engine** (`radix.dfy`). The class's static state
  (bcmath's default scale, `$currentScale` and the trimming flag) is a Dafny
  class `BC`. `dec2bin`, `bin2dec`, `decBaseHelper`, `setScale`,
  `alignBinLength` and `recalculateNegative` are methods of that class, with
  their loops, and so are `bitAnd`, `bitOr` and `bitXor` through
  `bitOperatorHelper`.

The decimal type is not part of the class. `decimal.dfy` models it as exact
decimals `unscaled / 10^scale`. It has exact add, subtract and multiply,
division cut toward zero at a scale, floor, comparison, integer power and
powmod. Each result is cut toward zero when a scale is given. `Render` and
`Parse` are the type's text form and its constructor. `digits.dfy` holds the
digit-string arithmetic, and `wrappers.dfy` holds `Option`, `Result` and the
exceptions. A PHP operand `int|string|Number` is the datatype
`Normalizer.Operand`.

The class's static configuration reaches the functional parts as an
`Arithmetic.Config` value, which `BC.Settings()` reads from the object.

## Model

| member | source | states |
|---|---|---|
| Normalizer.GetDecimalsLength | src/BCMathExtended/BC.php:66-73 | the result is the number of characters after the last '.', and it is 0 when the text has no '.' |
| Normalizer.TextHelpersOfRender | src/BCMathExtended/BC.php:66-78 | on a decimal's text, isFloat holds iff the scale is positive, isNegative holds iff the value is negative, and getDecimalsLength is the scale |
| Normalizer.TrimText | src/BCMathExtended/BC.php:168-179 | the trimmed text is never empty and never ends in '.'; it is "0" or a prefix of the input that drops only '0' and '.' characters; on text with a '.', the dropped part is '.' characters followed by '0's, and the result ends in '0' only when a '.' was dropped right after it; a text without '.' (and not ending in '.') is left unchanged |
| Normalizer.TrimRender | src/BCMathExtended/BC.php:168-179 | trimming a decimal's text gives the text of that decimal with its zero fraction digits removed |
| Normalizer.TrimTextIdempotent | src/BCMathExtended/BC.php:168-179 | trimming a decimal's text twice gives the same text as trimming it once |
| Normalizer.TrimTrailingZeroesOfNumber | src/BCMathExtended/BC.php:168-179 | trimTrailingZeroes of a decimal never fails and never changes its value |
| Normalizer.FormatTrailingZeroes | src/BCMathExtended/BC.php:159-166 | the result has the input's value; with the flag on it has no trailing zero fraction digit; with the flag off it is the input |
| Normalizer.FormatIsTextualTrim | src/BCMathExtended/BC.php:159-179 | with the flag on, formatting equals the textual trim of trimTrailingZeroes |
| Normalizer.SanitizeNumberFloat | src/BCMathExtended/BC.php:134-138 | only digits, '+', '-' and '.' survive the filter, and the text never grows |
| Normalizer.SanitizeNumberFloatConcat | src/BCMathExtended/BC.php:134-138 | the filter works character by character: the filter of a concatenation is the concatenation of the filtered parts |
| Normalizer.SanitizeNumberFloatChar | src/BCMathExtended/BC.php:134-138 | one character is kept exactly when it is a digit, '+', '-' or '.', and dropped otherwise |
| Normalizer.RemovePlus | src/BCMathExtended/BC.php:131-133 | no '+' is left, and every character left comes from the input |
| Normalizer.RemovePlusConcat | src/BCMathExtended/BC.php:131-133 | the removal works character by character: on a concatenation it is the concatenation of the results |
| Normalizer.RemovePlusChar | src/BCMathExtended/BC.php:131-133 | a '+' is removed and every other character is kept |
| Normalizer.Sanitize | src/BCMathExtended/BC.php:131-139 | after sanitising, only digits, '-' and '.' remain |
| Normalizer.SanitizeConcat | src/BCMathExtended/BC.php:131-139 | sanitising a concatenation is the concatenation of the sanitised parts, so every kept character stays in its order |
| Normalizer.SanitizeChar | src/BCMathExtended/BC.php:131-139 | a character survives sanitising exactly when it is a digit, '-' or '.' |
| Normalizer.SanitizeAround | src/BCMathExtended/BC.php:131-139 | a digit run between two characters the sanitiser drops is all that is left |
| Normalizer.SanitizerLettersExample | src/BCMathExtended/BC.php:131-143 | 'a12b' reads as 12 |
| Normalizer.ParseToNumber | src/BCMathExtended/BC.php:121-144 | ints and decimals pass through; text is sanitised, and "-0" or a non-numeric remainder gives 0, while any other remainder gives the decimal it spells |
| Normalizer.ParseToNumberOfRender | src/BCMathExtended/BC.php:121-144 | parsing a decimal's own text gives the decimal back, so the sanitiser is idempotent on its output |
| Normalizer.SanitizerSlashExample | src/BCMathExtended/BC.php:131-143 | '2/0000' reads as 20000 and '-6/0000' as -60000 |
| Normalizer.SanitizerZeroExamples | src/BCMathExtended/BC.php:131-143 | '0-', '' and '-0' read as 0, and '+5' reads as 5 |
| Normalizer.FindScientific | src/BCMathExtended/BC.php:51 | a match yields a digit mantissa, a digit fraction and a non-empty digit exponent |
| Normalizer.MatchAtSpells | src/BCMathExtended/BC.php:51 | a match at position q is spelled out in the text from q: group 1 (the mantissa), 'E' or 'e', the optional exponent sign ('-' exactly when the exponent is negative), then the exponent digits, which run as far as the digits go |
| Normalizer.FindScientificLeftmost | src/BCMathExtended/BC.php:51 | a match found from p is the match at some position q >= p, and no position from p up to q matches: preg_match's leftmost match |
| Normalizer.FindScientificNone | src/BCMathExtended/BC.php:51 | no match is found exactly when no position from p on matches |
| Normalizer.ConvertToNumber | src/BCMathExtended/BC.php:40-64 | decimals and ints pass through; text with no 'E' or no match of the pattern goes to the sanitiser |
| Normalizer.ConvertScientific | src/BCMathExtended/BC.php:50-61 | text in scientific notation is expanded from the matched mantissa, its count of fraction digits, and the exponent's digits and sign |
| Normalizer.MantissaParts | src/BCMathExtended/BC.php:53-58 | the matched mantissa text parses to its parts, and getDecimalsLength of it is its number of fraction digits |
| Normalizer.ExpandExact | src/BCMathExtended/BC.php:52-60 | working at scale exponent + decimals loses no digit: the result is exactly m * 10^e (or m / 10^e), trimmed when the flag is on |
| Normalizer.ConvertScientificExample | src/BCMathExtended/BC.php:51-61 | '19.9999E+2' gives 1999.99 with trimming and 1999.990000 without it |
| Normalizer.ConvertNegativeExponentExample | src/BCMathExtended/BC.php:55-56 | 'x5.1E-6' gives 0.0000051 (the match is found after the leading noise) |
| Normalizer.ConvertAvogadroExample | src/BCMathExtended/BC.php:51-61 | '-6.022E+23' gives -602200000000000000000000 |
| Normalizer.ConvertRender | src/BCMathExtended/BC.php:40-64 | normalising a decimal's text gives the decimal back (idempotence) |
| Normalizer.Abs | src/BCMathExtended/BC.php:573-582 | abs keeps the converted operand's digits and scale, drops its sign, and equals the negation of a negative operand |
| Arithmetic.AddNumbers | src/BCMathExtended/BC.php:146-157 | the result has the value of the decimal type's sum at the method scale; with trimming it is canonical, and without trimming it is the decimal type's result itself, scale included |
| Arithmetic.SubNumbers | src/BCMathExtended/BC.php:266-277 | the result has the value of the decimal type's difference at the method scale; with trimming it is canonical, and without trimming it is the decimal type's result itself, scale included |
| Arithmetic.MulNumbers | src/BCMathExtended/BC.php:193-204 | the result has the value of the decimal type's product at the method scale; with trimming it is canonical, and without trimming it is the decimal type's result itself, scale included |
| Arithmetic.TrimsToZeroIff | src/BCMathExtended/BC.php:213 | a divisor trims to "0" exactly when its value is zero |
| Arithmetic.DivNumbers | src/BCMathExtended/BC.php:206-220 | 'Division by zero' is raised exactly when the divisor is zero; otherwise the result has the value of the quotient cut at the method scale, is canonical with trimming, and is the decimal type's quotient itself without trimming |
| Arithmetic.ModNumbers | src/BCMathExtended/BC.php:378-402 | mod fails with 'Division by zero' exactly when the divisor is zero; with trimming its result is canonical |
| Arithmetic.ModValue | src/BCMathExtended/BC.php:378-402 | when the method scale keeps every digit of both operands, mod is exactly a - floor(q) * b, where q is a / b cut at the method scale |
| Arithmetic.ModResidue | src/BCMathExtended/BC.php:383-398 | that value lies strictly between -b and b; it is the floored remainder, with the divisor's sign, when the operands do not have opposite signs or the cut quotient is exact |
| Arithmetic.FlooredMod | src/BCMathExtended/BC.php:383-384 | the reference floored remainder: smaller than the divisor in magnitude, zero or of the divisor's sign, and congruent to the dividend |
| Arithmetic.FlooredRemainder | src/BCMathExtended/BC.php:383-398 | a - floor(trunc(a*p/b)/p) * b is within one divisor of zero, and it is the floored remainder when a*b >= 0 or the cut is exact |
| Arithmetic.QuotientOfNaturals | src/BCMathExtended/BC.php:206-220 | div of natural numbers at scale 0 is their integer quotient |
| Arithmetic.RemainderOfNaturals | src/BCMathExtended/BC.php:378-402 | mod of natural numbers is their remainder, at any scale |
| Arithmetic.ModOfNegativeText | src/BCMathExtended/BC.php:378-402 | mod('-1', '5') is -1 at scale 0, where the quotient is cut to 0, and 4 at the default division scale |
| Arithmetic.ModExamples | src/BCMathExtended/BC.php:378-402 | mod(11, 2) is 1 and mod(10, -3) is -2, taking the divisor's sign |
| Arithmetic.PowInteger | src/BCMathExtended/BC.php:80-95 | an integer power has the value of the decimal type's power cut at the method scale (so a short scale cuts it), is canonical with trimming and that power itself without; it is exactly base^k whenever the method scale can hold all its digits |
| Arithmetic.PowNumbers | src/BCMathExtended/BC.php:85-95 | a fractional exponent gives the value of the series engine, an integer exponent the value of the power cut at the method scale, exact when the scale can hold it; the result is canonical with trimming |
| Arithmetic.PowMod | src/BCMathExtended/BC.php:338-371 | a negative exponent is rejected first, exactly when the exponent is negative; then a modulus that trims to "0" is rejected; success implies both checks passed |
| Arithmetic.PowModFallback | src/BCMathExtended/BC.php:355-365 | with a fractional base, exponent or modulus, powMod is mod(pow(base, exponent), modulus) at the method scale |
| Arithmetic.ModOfPower | src/BCMathExtended/BC.php:357-365 | that fallback succeeds for a nonzero modulus and gives the residue of the power, and the power is exact where the scale holds it |
| Arithmetic.PowModIntegers | src/BCMathExtended/BC.php:366-367 | with integer operands, powMod is the power's remainder by the modulus, keeping the power's sign |
| Arithmetic.IntCast | src/BCMathExtended/BC.php:450 | the exact cut toward zero of a decimal: the magnitude divided by 10^scale, with the value's sign; this is PHP's (int) of integer text, but not of fractional text whose nearest double is another integer |
| Arithmetic.IntCast64 | src/BCMathExtended/BC.php:450 | (int) of a decimal's text, taken as the exact cut: the cut when it fits in 64 bits, and PHP_INT_MAX or PHP_INT_MIN beyond them; the double rounding of fractional text is not part of it |
| Arithmetic.CompareWithZero | src/BCMathExtended/BC.php:452 | an integer compares equal to 0, at any scale, exactly when it is 0 |
| Arithmetic.Fact | src/BCMathExtended/BC.php:409-426 | a fractional number is rejected, then a negative one; otherwise the result is n! |
| Arithmetic.FactorialLoop | src/BCMathExtended/BC.php:420-425 | the loop that multiplies 1 by 2..n yields n! |
| Arithmetic.FactorialPositive | src/BCMathExtended/BC.php:420-425 | the factorial is at least 1 |
| Arithmetic.FactorialDivisible | src/BCMathExtended/BC.php:420-425 | every k from 1 to n divides n! |
| Hex.HexDigitValue | src/BCMathExtended/BC.php:431 | the native hexdec of one character is below 16 |
| Hex.NativeHexDigit | src/BCMathExtended/BC.php:450 | the native dechex of a value below 16 is a lower-case hex digit of that value |
| Hex.RemoveHexPrefix | src/BCMathExtended/BC.php:430 | removing "0x" never lengthens the text; it leaves a text without 'x' unchanged, and takes exactly the two characters off a text that starts with "0x" and has no other 'x' |
| Hex.HexDecValue | src/BCMathExtended/BC.php:428-445 | hexdec prints the value of the same peeling on integers, whatever the configuration |
| Hex.HexValueOfDigits | src/BCMathExtended/BC.php:428-445 | on text without 'x', that value is the positional base-16 value of the digits |
| Hex.HexValueOfPrefixed | src/BCMathExtended/BC.php:430-431 | with a leading "0x", that value is the positional value of the digits after it |
| Hex.HexDecOfPrefixed | src/BCMathExtended/BC.php:428-445 | hexdec of "0x" followed by digits without 'x' prints their positional value |
| Hex.HexDecExample | src/BCMathExtended/BC.php:428-445 | hexdec('0x1f') is '31' |
| Hex.DecHex | src/BCMathExtended/BC.php:447-457 | dechex never returns an empty text |
| Hex.HexText | src/BCMathExtended/BC.php:450 | the native dechex of a non-negative int: lower-case hex digits whose positional value is the int, with no leading zero |
| Hex.NativeDecHex | src/BCMathExtended/BC.php:450 | the native dechex of any 64-bit int: a negative int prints the digits of its two's complement, i + 2^64 |
| Hex.DecHexValue | src/BCMathExtended/BC.php:447-457 | dechex of a natural n is the native hex text of n: lower-case hex digits whose positional value is n, with no leading zero |
| Hex.DecHexOfNonNegative | src/BCMathExtended/BC.php:447-457 | for a non-negative decimal whose digits the method scale keeps, dechex with the exact cast prints the hex text of its integer part |
| Hex.DecHexOfMinusOne | src/BCMathExtended/BC.php:447-457 | with no scale set, dechex('-1') is 'f': mod at the decimal type's own scale gives 15 and the quotient at scale 0 is 0 |
| Hex.DecHexOfMinusOneAtScaleZero | src/BCMathExtended/BC.php:447-457 | at scale 0, mod gives -1 and dechex('-1') is 'ffffffffffffffff' |
| Hex.DecHexOfFraction | src/BCMathExtended/BC.php:447-457 | dechex('2.5') is '2' |
| Hex.DecHexRoundTrip | src/BCMathExtended/BC.php:428-457 | hexdec(dechex(n)) is the decimal text of n |
| Radix.ToBase | src/BCMathExtended/BC.php:529-533 | every digit is below the base, and a positive number has a nonzero leading digit |
| Radix.Encoding | src/BCMathExtended/BC.php:523-536 | the encoding is non-empty, every byte is below the base, and a positive number's leading byte is not zero ('0' gives one zero byte) |
| Radix.FromToBase | src/BCMathExtended/BC.php:604-623 | reading back the digits of n gives n |
| Radix.EncodingValue | src/BCMathExtended/BC.php:519-623 | bin2dec(dec2bin(n, B), B) = n for every natural n and every base from 2 to 256 |
| Radix.ToFromBase | src/BCMathExtended/BC.php:519-623 | the digits of a string's value are the string, when it has no leading zero (the encoding is unique) |
| Radix.Aligned | src/BCMathExtended/BC.php:584-587 | padding keeps the string as a suffix, fills the front with zero bytes, and makes the length the larger of the two |
| Radix.AlignedValue | src/BCMathExtended/BC.php:584-587 | left padding with zero bytes keeps the value |
| Radix.Complement | src/BCMathExtended/BC.php:591-592 | xor with 255 keeps the length and maps each byte b to 255 - b |
| Radix.ComplementValue | src/BCMathExtended/BC.php:591-592 | the complement's value is 256^n - 1 minus the original value |
| Radix.RightmostBelow | src/BCMathExtended/BC.php:593-599 | finds the last byte below 255, and every byte after it is 255 |
| Radix.NegatedValue | src/BCMathExtended/BC.php:589-602 | when the last byte is not 0, recalculateNegative yields 256^n minus the value |
| Radix.NegatedPositive | src/BCMathExtended/BC.php:589-602 | recalculateNegative of a non-empty string never has value 0 |
| Radix.NegatedIsTwosComplement | src/BCMathExtended/BC.php:589-602 | when the last byte is not 0, recalculateNegative agrees with the corrected two's complement |
| Radix.NegatedNotInvolution | src/BCMathExtended/BC.php:589-602 | recalculateNegative maps [1,0] to [255,255] and [255,255] to [0,1], so applying it twice does not restore the string |
| Radix.TwosComplementValue | src/BCMathExtended/BC.php:589-602 | the corrected negation keeps 0 at 0 and maps any other n-byte value v to 256^n - v |
| Radix.TwosComplementInvolution | src/BCMathExtended/BC.php:589-602 | the corrected negation undoes itself |
| Radix.Bytewise | src/BCMathExtended/BC.php:499-508 | PHP's string &, | and ^ keep the length and combine the bytes position by position |
| Radix.BitSign | src/BCMathExtended/BC.php:497-516 | the result is negative iff both operands are (and), either is (or), or exactly one is (xor) |
| Radix.BitCommutes | src/BCMathExtended/BC.php:464-517 | each operator is symmetric in its operands |
| Radix.BitSelf | src/BCMathExtended/BC.php:464-517 | for a natural x, x & x = x, x \| x = x and x ^ x = 0 |
| Radix.BitZero | src/BCMathExtended/BC.php:464-517 | for a natural x, x & 0 = 0, x \| 0 = x and x ^ 0 = x |
| Radix.NegativeMultipleOf256 | src/BCMathExtended/BC.php:589-602 | as written, -256 \| 0 gives -1, while the two's complement of [1,0] is worth 255 * 256 |
| Radix.AndSelfOfNegativeMultipleOf256 | src/BCMathExtended/BC.php:464-517 | as written, -256 & -256 gives -1 |
| Radix.CorrectedBitSelf | src/BCMathExtended/BC.php:464-517 | with the corrected operators, x & x = x \| x = x and x ^ x = 0 for every integer x |
| Radix.CorrectedBitZero | src/BCMathExtended/BC.php:464-517 | with the corrected operators, x \| 0 = x ^ 0 = x and x & 0 = 0 for every integer x |
| Radix.CorrectedNegativeMultipleOf256 | src/BCMathExtended/BC.php:464-517 | with the corrected operators, -256 \| 0 and -256 & -256 are -256 |
| Radix.OneByteOperand | src/BCMathExtended/BC.php:482-495 | an operand between -256 and 256 takes one byte, and under either negation that byte is the operand modulo 256 |
| Radix.ZeroByteNegativeResult | src/BCMathExtended/BC.php:485-516 | as written, when one-byte operands combine into the byte 0 and the sign rule makes the result negative, the result is -255 |
| Radix.ZeroBytesNegativeResult | src/BCMathExtended/BC.php:485-516 | as written, -1 ^ 255 and -128 & -255 both give -255 |
| Radix.SignByteNeeded | src/BCMathExtended/BC.php:485-488 | with the corrected negation but the width as written, the same one-byte operands give 0: the corrected negation alone does not repair the missing sign byte |
| Radix.SignByteNeededExamples | src/BCMathExtended/BC.php:485-488 | at the width as written, the corrected negation gives 0 for -1 ^ 255 and for -128 & -255 |
| Radix.IntegerBitStep | src/BCMathExtended/BC.php:497-508 | the reference operators on integers: the last byte is PHP's byte operator on the operands' last bytes, and the bytes before it are the operator on the operands divided by 256 |
| Radix.IntegerBitSign | src/BCMathExtended/BC.php:497-516 | the reference operators give a negative result exactly when the sign rule says so |
| Radix.IntegerBitBound | src/BCMathExtended/BC.php:485-488 | operands in the signed range of k bytes give a result in that range |
| Radix.IntegerBitSelf | src/BCMathExtended/BC.php:464-517 | for the reference operators, x & x = x \| x = x and x ^ x = 0 for every integer x |
| Radix.IntegerBitZero | src/BCMathExtended/BC.php:464-517 | for the reference operators, x \| 0 = x ^ 0 = x and x & 0 = 0 for every integer x |
| Radix.BytewiseValue | src/BCMathExtended/BC.php:499-508 | byte strings holding two integers modulo 256^n combine, byte by byte, into the reference operator's value modulo 256^n |
| Radix.CorrectedOperandBytes | src/BCMathExtended/BC.php:482-495 | an operand aligned to a width that holds its bytes and negated by the two's complement holds the operand modulo 256^width |
| Radix.ReadBack | src/BCMathExtended/BC.php:510-516 | reading back a result strictly between -256^n and 256^n, with the sign rule and the two's complement, gives that result |
| Radix.CombinedResidue | src/BCMathExtended/BC.php:485-508 | with a sign byte, the combined bytes hold the reference value modulo 256^n, and that value is strictly between -256^n and 256^n |
| Radix.CorrectedBitValueAtIsInteger | src/BCMathExtended/BC.php:464-517 | at any width with a byte for the sign, the corrected operators equal the reference operators |
| Radix.CorrectedBitValueIsInteger | src/BCMathExtended/BC.php:464-517 | the corrected operators equal the reference operators for every pair of integers |
| Radix.BitValueOfNaturals | src/BCMathExtended/BC.php:464-517 | as written, the operators equal the reference operators whenever both operands are natural numbers |
| Radix.ZeroByteNegativeInteger | src/BCMathExtended/BC.php:497-516 | for one-byte operands whose combined byte is 0 under a negative sign, the reference operators give -256 |
| Radix.CorrectedZeroByteNegativeResult | src/BCMathExtended/BC.php:464-517 | for the same operands, the corrected operators give -256 |
| Radix.CorrectedZeroBytesNegativeResult | src/BCMathExtended/BC.php:464-517 | with the corrected operators, -1 ^ 255 and -128 & -255 are -256 |
| Radix.BC.constructor | src/BCMathExtended/BC.php:26-27 | the scale last set starts as null, trimming starts on, and bcmath's scale starts at its default of 0 |
| Radix.BC.GetScale | src/BCMathExtended/BC.php:116-119 | getScale reads bcmath's default scale |
| Radix.BC.GetScaleForMethod | src/BCMathExtended/BC.php:564-571 | an explicit scale wins; otherwise the scale last set by setScale (null before any call) |
| Radix.BC.SetScale | src/BCMathExtended/BC.php:558-562 | sets both bcmath's scale and the class's own scale, and leaves the trimming flag alone |
| Radix.BC.SetTrimTrailingZeroes | src/BCMathExtended/BC.php:288-291 | sets the flag and leaves both scales alone |
| Radix.BC.EncodeDigits | src/BCMathExtended/BC.php:523-536 | dec2bin's loop of mod and div at scale 0 yields the most-significant-first digits of n, and one zero byte for 0 |
| Radix.BC.DecodeDigits | src/BCMathExtended/BC.php:610-621 | bin2dec's loop of pow, mul and add at scale 0 yields the text of the sum of byte[i] * base^(size-1-i) |
| Radix.BC.DecBaseHelper | src/BCMathExtended/BC.php:543-556 | a base outside [2,256] is refused before either scale changes; otherwise the conversion runs at scale 0 and the earlier bcmath scale is set again, which also becomes the class's own scale |
| Radix.BC.Dec2Bin | src/BCMathExtended/BC.php:519-538 | a bad base is refused; otherwise the result is the encoding of n, and the scale is restored |
| Radix.BC.Bin2Dec | src/BCMathExtended/BC.php:604-623 | a bad base is refused; otherwise the result is the decimal text of the string's value in the base, and the scale is restored |
| Radix.BC.AlignBinLength | src/BCMathExtended/BC.php:584-587 | left-pads with dec2bin('0'), the zero byte, up to the length |
| Radix.BC.RecalculateNegative | src/BCMathExtended/BC.php:589-602 | the xor-and-carry loop yields recalculateNegative as written: complement, then increment the last byte below 255 |
| Radix.BC.BitOperatorHelper | src/BCMathExtended/BC.php:464-517 | a fractional left operand is rejected, then a fractional right one; otherwise the result is the operator's value on the two integers |
| Radix.BC.CombineIntegers | src/BCMathExtended/BC.php:479-516 | encoding, aligning, negating, combining and decoding yield that value, with the sign rule |
| Radix.BC.AbsoluteBytes | src/BCMathExtended/BC.php:482-483 | dec2bin of abs(n) is the encoding of n's magnitude |
| Radix.BC.BitAnd | src/BCMathExtended/BC.php:459-462 | the method is the helper with the 'and' operator: a fractional left operand is rejected, then a fractional right one, otherwise the result is the operator's value on the two integers; bcmath's scale and the flag are kept, and the class's own scale becomes bcmath's scale on success and is unchanged on failure |
| Radix.BC.BitOr | src/BCMathExtended/BC.php:625-628 | the method is the helper with the 'or' operator: a fractional left operand is rejected, then a fractional right one, otherwise the result is the operator's value on the two integers; bcmath's scale and the flag are kept, and the class's own scale becomes bcmath's scale on success and is unchanged on failure |
| Radix.BC.BitXor | src/BCMathExtended/BC.php:630-633 | the method is the helper with the 'xor' operator: a fractional left operand is rejected, then a fractional right one, otherwise the result is the operator's value on the two integers; bcmath's scale and the flag are kept, and the class's own scale becomes bcmath's scale on success and is unchanged on failure |

## Findings

| source | as written | input that shows it | evidently intended | confidence | as-written member | corrected member |
|---|---|---|---|---|---|---|
| src/BCMathExtended/BC.php:589-602 | after the xor with 255, the carry loop increments only the last byte below 255 and leaves the overflowed 255 bytes after it at 255 | bitOr('-256', '0') gives -1, and bitAnd('-256', '-256') also gives -1; the magnitude 256 encodes as the bytes [1,0] | two's-complement negation, where overflowed bytes become 0, so that -256 \| 0 = -256 and x & x = x | not executed; high, since the carry loop never writes 0 | Radix.NegativeMultipleOf256 | Radix.CorrectedBitZero |
| src/BCMathExtended/BC.php:485-488 | the width is the byte count of the longer magnitude, with no byte left for the sign, so a negative result whose bytes are all 0 is negated to bytes of 255 and read back as -(256^n - 1) | bitXor('-1', '255') and bitAnd('-128', '-255') both give -255: each operand takes one byte, and [255] ^ [255] and [128] & [1] are both [0] | one more byte for the sign, so that -1 ^ 255 = -256 and -128 & -255 = -256, as for integers in two's complement | not executed; high, since the one-byte width cannot hold -256 | Radix.ZeroBytesNegativeResult | Radix.CorrectedBitValueIsInteger |

The class's methods (`Radix.BC.RecalculateNegative`, `Radix.BC.BitOperatorHelper`)
model the code as written. `Radix.BitValueOfNaturals` proves it right when both
operands are natural numbers. `Radix.IntegerBitValue` is an independent
reference: &, | and ^ on integers in two's complement, taken byte by byte from
the least significant end. `Radix.CorrectedBitValue` repairs both flaws. It
negates with `Radix.TwosComplement` instead of the carry loop, and it works at
one byte more than the longer magnitude, so that the top byte carries the sign.
`Radix.CorrectedBitValueIsInteger` proves it equal to the reference for every
pair of integers. The carry loop and the two's complement agree on a string
whose last byte is not 0 (`Radix.NegatedIsTwosComplement`). The missing sign
byte shows on a negative result whose bytes are all 0. With the corrected
negation at the width as written, such a result reads back as 0
(`Radix.SignByteNeeded`), so both repairs are needed.

## Left out

- `exp`, `log` and `powFractional`: these are series evaluations at a working scale of 100, and `log` seeds them with a native floating-point logarithm. Fractional powers are a function parameter (`Arithmetic.PowFractional`) of `pow` and `powMod`.
- `rand`: it depends on `mt_rand`.
- `max`, `min` and `parseValues`: selection loops over `compare`, outside this model.
- `floor`, `ceil`, `round`, `roundUp`, `roundDown`, `roundHalfEven`, `sqrt` and `compare`: one-line delegations to the decimal type. `floor` appears only as the decimal type's `Decimal.Floor` inside `mod`.
- The decimal type `BcMath\Number` is modelled, not implemented. Its automatic result scale, used when no scale is given, is an assumption that has not been checked against the type's implementation: the wider operand's scale for add and sub, the sum of the scales for mul, ten digits more than the wider operand for div (the implementation may take the dividend's scale plus ten instead), and base scale times exponent for pow. Its `powmod` is modelled as the remainder with the power's sign.
- PHP floats as operands: the class's signature `int|string|Number` under strict types does not accept them.
- Arithmetic.PowNumbers: a negative integer exponent to `pow` is not modelled; only fractional or non-negative integer exponents are.
- Radix.BC.Dec2Bin: takes the number as a natural value rather than its decimal text, because every caller passes the text of a non-negative integer (`abs`, '0', '255').
- Hex.DecHex: its own contract states only that the text is non-empty. What it prints is stated by `DecHexValue` and `DecHexOfNonNegative`, and by the worked examples for negative and fractional input.
- Hex.DecHexOfNonNegative: the printed digits are stated only for a non-negative decimal whose digits the method scale keeps. For negative input, or at a scale that cuts the digits, mod's cut quotient and the 64-bit cast (`Arithmetic.IntCast64`, `Hex.NativeDecHex`) are modelled, but only the examples `DecHexOfMinusOne`, `DecHexOfMinusOneAtScaleZero` and `DecHexOfFraction` state a result. It uses the exact cast. For a fractional input whose remainder modulo 16 is within half a double's precision of the next integer, PHP prints a different last digit: dechex('18.99999999999999999999') with no scale set is '13' in PHP and '12' here. For an integer input the remainder is an integer below 16, and the statement is PHP's result.
- Arithmetic.IntCast64: PHP's `(int)` of text that contains '.' (BC.php:450) first reads the text as a binary64 double and then cuts it. The model cuts the exact decimal instead. The two differ when the fractional part is so close to 1 that the nearest double is the next integer: '2.99999999999999999999' becomes 3 in PHP and 2 here. Integer text is read exactly, with the saturation modelled. The same applies to `Arithmetic.IntCast`, which is the cut without the 64-bit bounds.
- Hex.HexDec: text is modelled as a sequence of single-byte characters. PHP's `substr` and the native `hexdec` (BC.php:430-431) work on bytes, so a character of several UTF-8 bytes counts as several non-hex digits (each worth 0) in PHP but as one here: hexdec("1é1") is 4097 in PHP and 257 here. Input outside ASCII is not covered. The same holds for `Hex.HexDigitValue` and `Hex.RemoveHexPrefix`.
- Normalizer.ConvertScientific: the exponent's `(int)` cast (BC.php:53) is unbounded here. PHP saturates it at PHP_INT_MAX, and adding the decimal count then gives a float, which strict types turn into a TypeError. An exponent that large exceeds any scale the decimal type can hold.
- Arithmetic.Fact: the loop bound `(int)(string)$number` (BC.php:421) is unbounded here. PHP saturates it at PHP_INT_MAX, a bound no loop reaches.
- Normalizer.RemovePlus: its own contract gives only the characters that can remain. That every other character is kept, in order, is stated by `RemovePlusConcat` and `RemovePlusChar`.
- Normalizer.SanitizeNumberFloat: its own contract gives only the characters that can remain. That every allowed character is kept, in order, is stated by `SanitizeNumberFloatConcat` and `SanitizeNumberFloatChar`.
- Normalizer.Sanitize: its own contract gives only the characters that can remain. That every digit, '-' and '.' is kept, in order, is stated by `SanitizeConcat` and `SanitizeChar`.
- Normalizer.FindScientific: its own contract gives only the shape of the captures. That they occur in the text, and that the match is the leftmost one, is stated by `MatchAtSpells`, `FindScientificLeftmost` and `FindScientificNone`.
- Arithmetic.ModValue: the exact value a - floor(q) * b is stated only when the method scale keeps every digit of both operands; at a shorter scale the subtraction is cut as well, and only `ModNumbers`' error and canonical-form clauses are stated.
- Concurrency on the static scale: the model is sequential, since PHP requests do not share the class's static state.
- Exceptions that PHP raises for malformed text given to the decimal type's constructor are modelled as `Wrappers.MalformedNumber` errors. They are not thrown.
