/** Numeric references as section 4.1 of XML 1.0 defines them, and what the parser takes them for. */
module XmlReferences {
  import opened XmlText
  import opened XmlUtf8

  // ---------------------------------------------------------------- the standard

  predicate InBase(c: char, base: nat) {
    IsDigit(c) && DigitValue(c) < base
  }

  /** The number that the digits are worth, without any limit. */
  function Number(digits: Text, base: nat): nat
    requires forall x :: 0 <= x < |digits| ==> IsDigit(digits[x])
  {
    if digits == [] then 0
    else Number(digits[..|digits| - 1], base) * base + DigitValue(digits[|digits| - 1])
  }

  function BaseEnd(s: Text, i: nat, base: nat): (j: nat)
    ensures i <= j
    ensures i <= |s| ==> j <= |s|
    ensures forall x :: i <= x < j ==> x < |s| && InBase(s[x], base)
    ensures !InBase(At(s, j), base)
    decreases |s| - i
  {
    if InBase(At(s, i), base) then BaseEnd(s, i + 1, base) else i
  }

  datatype Meaning = NoReference | Refers(code: nat)

  function BaseOf(s: Text, i: nat): nat {
    if LookingAt(s, i, "&#x") then HEX_BASE else DECIMAL_BASE
  }

  function FirstDigit(s: Text, i: nat): (first: nat)
    requires LookingAt(s, i, "&#")
    ensures i + 2 <= first <= |s|
  {
    if LookingAt(s, i, "&#x") then i + 3 else i + 2
  }

  /** A numeric reference: one or more digits of its base, and a semicolon. */
  function Meant(s: Text, i: nat): Meaning
    requires LookingAt(s, i, "&#")
  {
    var first := FirstDigit(s, i);
    var end := BaseEnd(s, first, BaseOf(s, i));
    if first < end && At(s, end) == ';' then Refers(Number(s[first..end], BaseOf(s, i))) else NoReference
  }

  // ---------------------------------------------------------------- the parser

  lemma DigitStep(s: Text, i: nat, base: nat, code: nat)
    requires IsDigit(At(s, i))
    ensures DigitsEnd(s, i) == DigitsEnd(s, i + 1)
    ensures DigitsCode(s, i, base, code)
         == DigitsCode(s, i + 1, base, (code * base + DigitValue(At(s, i))) % ULONG_MODULUS)
  {
  }

  lemma DigitStop(s: Text, i: nat, base: nat, code: nat)
    requires !IsDigit(At(s, i))
    ensures DigitsEnd(s, i) == i && DigitsCode(s, i, base, code) == code
  {
  }

  lemma {:induction false} DigitRun(s: Text, i: nat, end: nat)
    requires i <= end <= |s| && (forall x :: i <= x < end ==> IsDigit(s[x])) && !IsDigit(At(s, end))
    ensures DigitsEnd(s, i) == end
    decreases end - i
  {
    if i < end {
      DigitRun(s, i + 1, end);
    }
  }

  lemma {:induction false} AllDigits(s: Text, i: nat)
    requires i <= |s|
    ensures forall x :: i <= x < DigitsEnd(s, i) ==> IsDigit(s[x])
    decreases |s| - i
  {
    if IsDigit(At(s, i)) {
      AllDigits(s, i + 1);
    }
  }

  /** Reducing at every digit or once at the end is the same. */
  lemma Reduced(n: nat, d: nat, base: nat)
    requires base == HEX_BASE || base == DECIMAL_BASE
    ensures ((n % ULONG_MODULUS) * base + d) % ULONG_MODULUS == (n * base + d) % ULONG_MODULUS
  {
    var q, r := n / ULONG_MODULUS, n % ULONG_MODULUS;
    if base == HEX_BASE {
      SameRemainder(r * 16 + d, q * 16);
      assert n * 16 + d == r * 16 + d + q * 16 * ULONG_MODULUS;
    } else {
      SameRemainder(r * 10 + d, q * 10);
      assert n * 10 + d == r * 10 + d + q * 10 * ULONG_MODULUS;
    }
  }

  lemma SameRemainder(x: nat, k: nat)
    ensures (x + k * ULONG_MODULUS) % ULONG_MODULUS == x % ULONG_MODULUS
  {
  }

  /** The code is the number modulo 2^64. */
  lemma {:induction false} CodeIsNumber(s: Text, first: nat, i: nat, end: nat, base: nat)
    requires first <= i <= end <= |s| && end == DigitsEnd(s, i)
    requires forall x :: first <= x < end ==> IsDigit(s[x])
    requires base == HEX_BASE || base == DECIMAL_BASE
    ensures DigitsCode(s, i, base, Number(s[first..i], base) % ULONG_MODULUS)
         == Number(s[first..end], base) % ULONG_MODULUS
    decreases end - i
  {
    hide DigitsCode, DigitsEnd, IsDigit, DigitValue;
    if i < end {
      var n, d := Number(s[first..i], base), DigitValue(s[i]);
      DigitStep(s, i, base, n % ULONG_MODULUS);
      assert s[first..i + 1][..|s[first..i + 1]| - 1] == s[first..i];
      Reduced(n, d, base);
      CodeIsNumber(s, first, i + 1, end, base);
    } else {
      AtEnd(s, i, base, Number(s[first..i], base) % ULONG_MODULUS);
    }
  }

  lemma AtEnd(s: Text, i: nat, base: nat, code: nat)
    requires DigitsEnd(s, i) == i
    ensures DigitsCode(s, i, base, code) == code
  {
  }

  /** What the parser makes of "&#": the longest run of hexadecimal digits, in either base. */
  lemma ParserReads(s: Text, i: nat)
    requires LookingAt(s, i, "&#")
    ensures var first := FirstDigit(s, i);
            var end := DigitsEnd(s, first);
            && ReferenceAt(s, i).Numeric? && ReferenceAt(s, i).end == end && first <= end <= |s|
            && (forall x :: first <= x < end ==> IsDigit(s[x]))
            && ReferenceAt(s, i).code == Number(s[first..end], BaseOf(s, i)) % ULONG_MODULUS
  {
    var first, base := FirstDigit(s, i), BaseOf(s, i);
    LookingAtChar(s, i, "&#", 0);
    LookingAtChar(s, i, "&#", 1);
    LookingAtChar(s, i, "&#x", 2);
    OneMatchAtMost(s, i);
    LookingAtHash(s, i);
    AllDigits(s, first);
    assert ReferenceAt(s, i) == Numeric(DigitsCode(s, first, base, 0), DigitsEnd(s, first)) by {
      hide ReferenceAt, LookingAt;
    }
    hide ReferenceAt, LookingAt, DigitsCode, DigitsEnd, IsDigit;
    assert Number(s[first..first], base) == 0;
    CodeIsNumber(s, first, first, DigitsEnd(s, first), base);
  }

  /** Every reference of the standard is read with its number, reduced modulo 2^64. */
  lemma StandardIsRead(s: Text, i: nat)
    requires LookingAt(s, i, "&#") && Meant(s, i).Refers?
    ensures ReferenceAt(s, i).Numeric? && At(s, ReferenceAt(s, i).end) == ';'
    ensures ReferenceAt(s, i).code == Meant(s, i).code % ULONG_MODULUS
  {
    var first, base := FirstDigit(s, i), BaseOf(s, i);
    var end := BaseEnd(s, first, base);
    DigitRun(s, first, end);
    hide ReferenceAt, LookingAt, DigitsCode, DigitsEnd, BaseEnd, Number;
    ParserReads(s, i);
  }

  /** Production 2 of XML 1.0: the characters a reference may name. */
  predicate LegalChar(code: nat) {
    || code == 0x9 || code == 0xA || code == 0xD || 0x20 <= code <= 0xD7FF || 0xE000 <= code <= 0xFFFD
    || 0x1_0000 <= code <= 0x10_FFFF
  }

  /** So every reference that the standard allows is replaced by the UTF-8 of its character. */
  lemma LegalIsRead(s: Text, i: nat, code: nat, delimiter: char, dest: nat)
    requires LookingAt(s, i, "&#") && Meant(s, i) == Refers(code) && LegalChar(code) && delimiter != '&'
    ensures Rfc3629(Utf8(code))
    ensures Expand(s, delimiter, i, dest)
         == Prepend(Utf8(code), Expand(s, delimiter, DigitsEnd(s, FirstDigit(s, i)) + 1, dest + |Utf8(code)|))
  {
    hide *;
    StandardIsRead(s, i);
    ParserReads(s, i);
    LegalFits(code);
    Utf8Exactly(code);
    LookingAtChar(s, i, "&#", 0);
    ExpandNumeric(s, i, code, DigitsEnd(s, FirstDigit(s, i)), delimiter, dest);
  }

  lemma LegalFits(code: nat)
    requires LegalChar(code)
    ensures code < UNICODE_LIMIT && code % ULONG_MODULUS == code && !IsSurrogate(code)
  {
  }

  lemma ExpandNumeric(s: Text, i: nat, code: nat, end: nat, delimiter: char, dest: nat)
    requires ReferenceAt(s, i) == Numeric(code, end) && code < UNICODE_LIMIT && At(s, end) == ';'
    requires At(s, i) == '&' && delimiter != '&'
    ensures Expand(s, delimiter, i, dest) == Prepend(Utf8(code), Expand(s, delimiter, end + 1, dest + |Utf8(code)|))
  {
    hide ReferenceAt, Utf8, Prepend;
  }

  /** Between the prefix and a semicolon, the standard means the number of the digits, if there are
      any and all belong to the base, and nothing otherwise. */
  lemma MeaningOfRun(s: Text, i: nat, first: nat, base: nat, end: nat)
    requires LookingAt(s, i, "&#") && first == FirstDigit(s, i) && base == BaseOf(s, i)
    requires end == DigitsEnd(s, first) && At(s, end) == ';' && first <= end <= |s|
    requires forall x :: first <= x < end ==> IsDigit(s[x])
    ensures first < end && (forall x :: first <= x < end ==> InBase(s[x], base)) ==>
              Meant(s, i) == Refers(Number(s[first..end], base))
    ensures first == end || (exists x :: first <= x < end && !InBase(s[x], base)) ==> Meant(s, i) == NoReference
  {
    hide LookingAt, DigitsEnd, BaseEnd, Number, DigitValue;
    BaseRun(s, first, end, base);
    NoDigit(base);
    var stop := BaseEnd(s, first, base);
    assert stop < end ==> IsDigit(s[stop]);
  }

  /** When the parser takes a numeric reference for what the standard means by it: if and only if
      there is a digit at all, all digits belong to the base, and their number is below 2^64. */
  lemma MeaningKept(s: Text, i: nat, first: nat, base: nat, end: nat)
    requires LookingAt(s, i, "&#") && first == FirstDigit(s, i) && base == BaseOf(s, i)
    requires end == DigitsEnd(s, first) && At(s, end) == ';'
    ensures ReferenceAt(s, i).Numeric? && first <= end <= |s| && forall x :: first <= x < end ==> IsDigit(s[x])
    ensures Meant(s, i) == Refers(ReferenceAt(s, i).code) <==>
              && first < end
              && (forall x :: first <= x < end ==> InBase(s[x], base))
              && Number(s[first..end], base) < ULONG_MODULUS
  {
    hide ReferenceAt, LookingAt, DigitsCode, DigitsEnd, BaseEnd, Number, IsDigit, DigitValue, Meant, FirstDigit, BaseOf;
    ParserReads(s, i);
    MeaningOfRun(s, i, first, base, end);
    Unreduced(Number(s[first..end], base));
  }

  lemma Unreduced(n: nat)
    ensures n % ULONG_MODULUS == n <==> n < ULONG_MODULUS
  {
  }

  lemma NoDigit(base: nat)
    ensures !IsDigit(';') && !InBase(';', base)
  {
  }

  /** The digits of the base are a prefix of all digits, and all of them if none is out of base. */
  lemma {:induction false} BaseRun(s: Text, i: nat, end: nat, base: nat)
    requires i <= end <= |s| && end == DigitsEnd(s, i)
    ensures BaseEnd(s, i, base) <= end
    ensures BaseEnd(s, i, base) == end <==> forall x :: i <= x < end ==> InBase(s[x], base)
    decreases end - i
  {
    if i < end && InBase(s[i], base) {
      BaseRun(s, i + 1, end, base);
    }
  }

  // ---------------------------------------------------------------- where it does not

  const LETTER_IN_DECIMAL: Text := "&#1A;"

  /** A hexadecimal digit in a decimal reference is counted as ten to fifteen: this is taken for
      character 20. */
  lemma LetterInDecimal()
    ensures LookingAt(LETTER_IN_DECIMAL, 0, "&#") && Meant(LETTER_IN_DECIMAL, 0) == NoReference
    ensures ReferenceAt(LETTER_IN_DECIMAL, 0) == Numeric(20, 4)
  {
    var s := LETTER_IN_DECIMAL;
    assert s[0..2] == "&#";
    OneMatchAtMost(s, 0);
    LookingAtHash(s, 0);
    hide ReferenceAt, LookingAt, DigitsCode, DigitsEnd;
    DigitStep(s, 2, 10, 0);
    DigitStep(s, 3, 10, 1);
    DigitStop(s, 4, 10, 20);
    assert !InBase(s[3], 10) && InBase(s[2], 10);
    assert BaseEnd(s, 2, 10) == BaseEnd(s, 3, 10) == 3;
  }

  const NO_DIGITS: Text := "&#;"

  /** Without digits the reference is one to character zero. */
  lemma NoDigits()
    ensures LookingAt(NO_DIGITS, 0, "&#") && Meant(NO_DIGITS, 0) == NoReference
    ensures ReferenceAt(NO_DIGITS, 0) == Numeric(0, 2)
  {
    var s := NO_DIGITS;
    assert s[0..2] == "&#";
    OneMatchAtMost(s, 0);
    LookingAtHash(s, 0);
    hide ReferenceAt, LookingAt, DigitsCode, DigitsEnd;
    DigitStop(s, 2, 10, 0);
  }

  const WRAPPED: Text := "&#x10000000000000041;"

  /** 2^64 + 65 is taken for 65, the letter A. */
  lemma Wrapped()
    ensures LookingAt(WRAPPED, 0, "&#") && Meant(WRAPPED, 0) == Refers(ULONG_MODULUS + 65)
    ensures ReferenceAt(WRAPPED, 0) == Numeric(65, 20)
  {
    WrappedText(WRAPPED);
  }

  /** A one, fourteen zeros, a four and a one. */
  lemma WrappedText(s: Text)
    requires |s| == 21 && s[0] == '&' && s[1] == '#' && s[2] == 'x' && s[20] == ';'
    requires s[3] == '1' && s[18] == '4' && s[19] == '1' && forall x :: 4 <= x < 18 ==> s[x] == '0'
    ensures LookingAt(s, 0, "&#") && Meant(s, 0) == Refers(ULONG_MODULUS + 65)
    ensures ReferenceAt(s, 0) == Numeric(65, 20)
  {
    LookingAtHash(s, 0);
    hide LookingAt, ReferenceAt, DigitsCode, DigitsEnd, Number, Meant, BaseEnd;
    forall x | 3 <= x < 20
      ensures IsDigit(s[x]) && InBase(s[x], 16)
    {
      assert s[x] == '0' || s[x] == '1' || s[x] == '4';
    }
    DigitRun(s, 3, 20);
    ParserReads(s, 0);
    MeaningOfRun(s, 0, 3, 16, 20);
    WrappedNumber(s);
  }

  lemma WrappedNumber(s: Text)
    requires |s| == 21 && s[3] == '1' && s[18] == '4' && s[19] == '1' && forall x :: 4 <= x < 18 ==> s[x] == '0'
    requires forall x :: 3 <= x < 20 ==> IsDigit(s[x])
    ensures Number(s[3..20], 16) == ULONG_MODULUS + 65
  {
    assert Number(s[3..3], 16) == 0;
    hide Number;
    NumberNext(s, 3, 3, 16);
    var k := 4;
    while k < 18
      invariant 4 <= k <= 18 && Number(s[3..k], 16) == Power16(k - 4)
    {
      NumberNext(s, 3, k, 16);
      k := k + 1;
    }
    NumberNext(s, 3, 18, 16);
    NumberNext(s, 3, 19, 16);
    assert Power16(14) == 0x100_0000_0000_0000;
  }

  function Power16(n: nat): nat {
    if n == 0 then 1 else 16 * Power16(n - 1)
  }

  lemma NumberNext(s: Text, first: nat, i: nat, base: nat)
    requires first <= i < |s| && forall x :: first <= x <= i ==> IsDigit(s[x])
    ensures Number(s[first..i + 1], base) == Number(s[first..i], base) * base + DigitValue(s[i])
  {
    assert s[first..i + 1][..|s[first..i + 1]| - 1] == s[first..i];
  }

  const SURROGATE: Text := "&#xD800;"

  /** The standard allows no reference to a surrogate; the parser accepts it, and what it writes is
      not UTF-8. */
  lemma SurrogateWritten()
    ensures ReferenceAt(SURROGATE, 0) == Numeric(0xD800, 7)
    ensures Expand(SURROGATE, '<', 0, 0) == Ok(Utf8(0xD800), 8)
    ensures !Rfc3629(Utf8(0xD800))
  {
    SurrogateText(SURROGATE);
  }

  lemma SurrogateText(s: Text)
    requires |s| == 8 && s[0] == '&' && s[1] == '#' && s[2] == 'x'
    requires s[3] == 'D' && s[4] == '8' && s[5] == '0' && s[6] == '0' && s[7] == ';'
    ensures ReferenceAt(s, 0) == Numeric(0xD800, 7)
    ensures Expand(s, '<', 0, 0) == Ok(Utf8(0xD800), 8)
    ensures !Rfc3629(Utf8(0xD800))
  {
    hide ReferenceAt, DigitsCode, DigitsEnd, Utf8, Rfc3629, LookingAt;
    Utf8Exactly(0xD800);
    OneMatchAtMost(s, 0);
    DigitStep(s, 3, 16, 0);
    DigitStep(s, 4, 16, 0xD);
    DigitStep(s, 5, 16, 0xD8);
    DigitStep(s, 6, 16, 0xD80);
    DigitStop(s, 7, 16, 0xD800);
    ExpandStops(s, '<', 8, |Utf8(0xD800)|);
    assert Utf8(0xD800) + [] == Utf8(0xD800);
  }
}
