/** Character classes, cursors over zero-terminated text, and character references. */
module XmlText {

  type Text = seq<char>

  /** Everything the parser can complain about, one value a message. */
  datatype ParseError =
    | UnexpectedEnd
    | ExpectedLt
    | ExpectedGt
    | ExpectedElementName
    | ExpectedEquals
    | ExpectedQuote
    | ExpectedSemicolon
    | InvalidNumericEntity

  /** What a parsing step yields: a value and the cursor behind it, or the message and
      the place the parser throws with. */
  datatype Parsed<+T> = Ok(value: T, next: nat) | Err(what: ParseError, at: nat)

  /** A zero-terminated text: the terminator stands at index |s|. */
  function At(s: Text, i: nat): char {
    if i < |s| then s[i] else '\0'
  }

  predicate LookingAt(s: Text, i: nat, pattern: Text) {
    i + |pattern| <= |s| && s[i..i + |pattern|] == pattern
  }

  lemma LookingAtSplit(s: Text, i: nat, a: Text, b: Text)
    ensures LookingAt(s, i, a + b) <==> LookingAt(s, i, a) && LookingAt(s, i + |a|, b)
  {
    if i + |a| + |b| <= |s| {
      assert s[i..i + |a + b|] == s[i..i + |a|] + s[i + |a|..i + |a| + |b|];
      if s[i..i + |a + b|] == a + b {
        assert s[i..i + |a|] == (a + b)[..|a|] == a;
        assert s[i + |a|..i + |a| + |b|] == (a + b)[|a|..] == b;
      }
    }
  }

  lemma LookingAtThree(s: Text, i: nat, a: Text, b: Text, c: Text)
    ensures LookingAt(s, i, a + b + c)
       <==> LookingAt(s, i, a) && LookingAt(s, i + |a|, b) && LookingAt(s, i + |a| + |b|, c)
  {
    hide LookingAt;
    LookingAtSplit(s, i, a + b, c);
    LookingAtSplit(s, i, a, b);
  }

  lemma LookingAtSlice(s: Text, i: nat, pattern: Text)
    requires LookingAt(s, i, pattern)
    ensures i + |pattern| <= |s| && s[i..i + |pattern|] == pattern
  {
  }

  lemma LookingAtChar(s: Text, i: nat, pattern: Text, x: nat)
    requires x < |pattern|
    ensures LookingAt(s, i, pattern) ==> At(s, i + x) == pattern[x]
  {
    if LookingAt(s, i, pattern) {
      assert s[i + x] == s[i..i + |pattern|][x];
    }
  }

  /** The lookup tables the parser skips by; the last two stand for the text table and the
      two attribute tables, which differ only in the delimiter they stop at. */
  datatype CharClass =
    | Whitespace
    | NodeName
    | AttributeName
    | Until(delimiter: char)
    | PureUntil(delimiter: char)

  predicate Test(k: CharClass, c: char) {
    match k
    case Whitespace => c == ' ' || c == '\n' || c == '\r' || c == '\t'
    case NodeName =>
      c != ' ' && c != '\n' && c != '\r' && c != '\t' && c != '/' && c != '>' && c != '?' && c != '\0'
    case AttributeName =>
      && c != ' ' && c != '\n' && c != '\r' && c != '\t' && c != '/' && c != '<' && c != '>' && c != '='
      && c != '?' && c != '!' && c != '\0'
    case Until(d) => c != d && c != '\0'
    case PureUntil(d) => c != d && c != '\0' && c != '&'
  }

  /** First index at or behind i whose character is outside the class. */
  function Skip(s: Text, k: CharClass, i: nat): (j: nat)
    ensures i <= j
    ensures i <= |s| ==> j <= |s|
    ensures forall x :: i <= x < j ==> x < |s| && Test(k, s[x])
    ensures !Test(k, At(s, j))
    decreases |s| - i
  {
    if Test(k, At(s, i)) then Skip(s, k, i + 1) else i
  }

  /** The run of class characters that starts at i is all that Skip passes over. */
  lemma SkipRun(s: Text, k: CharClass, i: nat, run: Text)
    requires LookingAt(s, i, run)
    requires forall x :: 0 <= x < |run| ==> Test(k, run[x])
    requires !Test(k, At(s, i + |run|))
    ensures Skip(s, k, i) == i + |run|
  {
    assert forall x :: 0 <= x < |run| ==> s[i + x] == s[i..i + |run|][x] == run[x];
  }

  // ---------------------------------------------------------------- numeric references

  const HEX_BASE: nat := 16
  const DECIMAL_BASE: nat := 10

  /** unsigned long on the 64-bit platforms the parser is built for. */
  const ULONG_MODULUS: nat := 0x1_0000_0000_0000_0000

  const UNICODE_LIMIT: nat := 0x11_0000

  predicate IsDigit(c: char) {
    '0' <= c <= '9' || 'A' <= c <= 'F' || 'a' <= c <= 'f'
  }

  /** The digit table serves decimal references too, so they accept A to F as well. */
  function DigitValue(c: char): (d: nat)
    requires IsDigit(c)
    ensures d < 16
  {
    if c <= '9' then c as nat - '0' as nat
    else if c <= 'F' then c as nat - 'A' as nat + 10
    else c as nat - 'a' as nat + 10
  }

  function DigitsEnd(s: Text, i: nat): (j: nat)
    ensures i <= j
    ensures i <= |s| ==> j <= |s|
    ensures !IsDigit(At(s, j))
    decreases |s| - i
  {
    if IsDigit(At(s, i)) then DigitsEnd(s, i + 1) else i
  }

  /** The code accumulated over the digits from i on, with the wrap-around of unsigned long. */
  function DigitsCode(s: Text, i: nat, base: nat, code: nat): (r: nat)
    decreases |s| - i
  {
    if IsDigit(At(s, i)) then
      DigitsCode(s, i + 1, base, (code * base + DigitValue(s[i])) % ULONG_MODULUS)
    else code
  }

  /** One to four bytes, as insert_coded_character writes them. */
  function Utf8(code: nat): (bytes: Text)
    requires code < UNICODE_LIMIT
    ensures 1 <= |bytes| <= 4
    ensures forall x :: 0 <= x < |bytes| ==> bytes[x] as int < 256
    ensures code < 0x80 ==> |bytes| == 1
  {
    if code < 0x80 then [code as char]
    else if code < 0x800 then [(0xC0 + code / 0x40) as char, (0x80 + code % 0x40) as char]
    else if code < 0x1_0000 then
      [(0xE0 + code / 0x1000) as char, (0x80 + code / 0x40 % 0x40) as char, (0x80 + code % 0x40) as char]
    else
      [(0xF0 + code / 0x4_0000) as char, (0x80 + code / 0x1000 % 0x40) as char,
       (0x80 + code / 0x40 % 0x40) as char, (0x80 + code % 0x40) as char]
  }

  // ---------------------------------------------------------------- references

  /** What stands at a position while references are expanded: a character to copy, a predefined
      entity of the given size, or a numeric reference whose digits end at `end`. */
  datatype Reference =
    | Verbatim
    | Predefined(c: char, size: nat)
    | Numeric(code: nat, end: nat)

  function ReferenceAt(s: Text, i: nat): (r: Reference)
    ensures r.Predefined? ==> 4 <= r.size <= 6 && i + r.size <= |s|
    ensures r.Numeric? ==> i + 2 <= r.end <= |s|
  {
    if LookingAt(s, i, "&amp;") then Predefined('&', 5)
    else if LookingAt(s, i, "&apos;") then Predefined('\'', 6)
    else if LookingAt(s, i, "&quot;") then Predefined('"', 6)
    else if LookingAt(s, i, "&gt;") then Predefined('>', 4)
    else if LookingAt(s, i, "&lt;") then Predefined('<', 4)
    else if LookingAt(s, i, "&#x") then Numeric(DigitsCode(s, i + 3, HEX_BASE, 0), DigitsEnd(s, i + 3))
    else if LookingAt(s, i, "&#") then Numeric(DigitsCode(s, i + 2, DECIMAL_BASE, 0), DigitsEnd(s, i + 2))
    else Verbatim
  }

  /** The text from src up to the delimiter with its references replaced, read from an immutable
      copy. `dest` is where the parser would be writing by now: it is only the place an invalid
      code is reported at. */
  function Expand(s: Text, delimiter: char, src: nat, dest: nat): (r: Parsed<Text>)
    ensures r.Ok? && src <= |s| ==> src <= r.next <= |s|
    ensures r.Ok? ==> |r.value| <= r.next - src
    ensures r.Ok? ==> !Test(Until(delimiter), At(s, r.next))
    decreases |s| - src
  {
    if !Test(Until(delimiter), At(s, src)) then Ok([], src)
    else match ReferenceAt(s, src)
      case Verbatim => Prepend([s[src]], Expand(s, delimiter, src + 1, dest + 1))
      case Predefined(c, size) => Prepend([c], Expand(s, delimiter, src + size, dest + 1))
      case Numeric(code, end) =>
        if code >= UNICODE_LIMIT then Err(InvalidNumericEntity, dest)
        else if At(s, end) != ';' then Err(ExpectedSemicolon, end)
        else
          NumericFits(s, src);
          Prepend(Utf8(code), Expand(s, delimiter, end + 1, dest + |Utf8(code)|))
  }

  function Prepend(head: Text, r: Parsed<Text>): Parsed<Text> {
    match r
    case Ok(v, next) => Ok(head + v, next)
    case Err(what, at) => Err(what, at)
  }

  /** No reference writes more than it has read, even before its semicolon is consumed: with fewer
      than two digits the code is a single byte. */
  lemma NumericFits(s: Text, i: nat)
    requires ReferenceAt(s, i).Numeric? && ReferenceAt(s, i).code < UNICODE_LIMIT
    ensures i + |Utf8(ReferenceAt(s, i).code)| <= ReferenceAt(s, i).end
  {
    hide DigitsCode, DigitsEnd, LookingAt;
    if LookingAt(s, i, "&#x") {
      FewDigits(s, i + 3, HEX_BASE);
    } else {
      FewDigits(s, i + 2, DECIMAL_BASE);
    }
  }

  lemma FewDigits(s: Text, first: nat, base: nat)
    ensures DigitsEnd(s, first) < first + 2 ==> DigitsCode(s, first, base, 0) < 16
  {
    if !IsDigit(At(s, first)) {
      assert DigitsCode(s, first, base, 0) == 0;
    } else if !IsDigit(At(s, first + 1)) {
      assert DigitsCode(s, first, base, 0) == DigitsCode(s, first + 1, base, DigitValue(s[first])) < 16;
    } else {
      hide DigitsCode;
      assert DigitsEnd(s, first) == DigitsEnd(s, first + 1) == DigitsEnd(s, first + 2);
    }
  }

  lemma VerbatimAt(s: Text, i: nat)
    requires At(s, i) != '&'
    ensures ReferenceAt(s, i) == Verbatim
  {
    LookingAtChar(s, i, "&amp;", 0);
    LookingAtChar(s, i, "&apos;", 0);
    LookingAtChar(s, i, "&quot;", 0);
    LookingAtChar(s, i, "&gt;", 0);
    LookingAtChar(s, i, "&lt;", 0);
    LookingAtChar(s, i, "&#x", 0);
    LookingAtChar(s, i, "&#", 0);
  }

  lemma ExpandStops(s: Text, delimiter: char, i: nat, dest: nat)
    requires !Test(Until(delimiter), At(s, i))
    ensures Expand(s, delimiter, i, dest) == Ok([], i)
  {
  }

  lemma ExpandVerbatim(s: Text, delimiter: char, i: nat, dest: nat)
    requires Test(Until(delimiter), At(s, i)) && ReferenceAt(s, i) == Verbatim
    ensures Expand(s, delimiter, i, dest) == Prepend([At(s, i)], Expand(s, delimiter, i + 1, dest + 1))
  {
    hide ReferenceAt, Prepend;
  }

  lemma ExpandPredefined(s: Text, delimiter: char, i: nat, dest: nat)
    requires Test(Until(delimiter), At(s, i)) && ReferenceAt(s, i).Predefined?
    ensures Expand(s, delimiter, i, dest)
         == Prepend([ReferenceAt(s, i).c], Expand(s, delimiter, i + ReferenceAt(s, i).size, dest + 1))
  {
    hide ReferenceAt, Prepend;
  }

  /** The character behind the ampersand decides which references are possible. */
  lemma OneMatchAtMost(s: Text, i: nat)
    requires At(s, i) == '&'
    ensures At(s, i + 1) == 'a' ==>
              ReferenceAt(s, i) == if LookingAt(s, i, "&amp;") then Predefined('&', 5)
                                   else if LookingAt(s, i, "&apos;") then Predefined('\'', 6) else Verbatim
    ensures At(s, i + 1) == 'q' ==>
              ReferenceAt(s, i) == if LookingAt(s, i, "&quot;") then Predefined('"', 6) else Verbatim
    ensures At(s, i + 1) == 'g' ==>
              ReferenceAt(s, i) == if LookingAt(s, i, "&gt;") then Predefined('>', 4) else Verbatim
    ensures At(s, i + 1) == 'l' ==>
              ReferenceAt(s, i) == if LookingAt(s, i, "&lt;") then Predefined('<', 4) else Verbatim
    ensures At(s, i + 1) == '#' && At(s, i + 2) == 'x' ==>
              i + 3 <= |s| && ReferenceAt(s, i) == Numeric(DigitsCode(s, i + 3, HEX_BASE, 0), DigitsEnd(s, i + 3))
    ensures At(s, i + 1) == '#' && At(s, i + 2) != 'x' ==>
              i + 2 <= |s| && ReferenceAt(s, i) == Numeric(DigitsCode(s, i + 2, DECIMAL_BASE, 0), DigitsEnd(s, i + 2))
    ensures (var c := At(s, i + 1); c != 'a' && c != 'q' && c != 'g' && c != 'l' && c != '#') ==>
              ReferenceAt(s, i) == Verbatim
  {
    hide LookingAt;
    SecondCharacter(s, i);
    LookingAtHash(s, i);
  }

  lemma SecondCharacter(s: Text, i: nat)
    ensures LookingAt(s, i, "&amp;") || LookingAt(s, i, "&apos;") ==> At(s, i + 1) == 'a'
    ensures LookingAt(s, i, "&quot;") ==> At(s, i + 1) == 'q'
    ensures LookingAt(s, i, "&gt;") ==> At(s, i + 1) == 'g'
    ensures LookingAt(s, i, "&lt;") ==> At(s, i + 1) == 'l'
  {
    hide LookingAt, At;
    LookingAtChar(s, i, "&amp;", 1);
    LookingAtChar(s, i, "&apos;", 1);
    LookingAtChar(s, i, "&quot;", 1);
    LookingAtChar(s, i, "&gt;", 1);
    LookingAtChar(s, i, "&lt;", 1);
  }

  lemma LookingAtHash(s: Text, i: nat)
    requires At(s, i) == '&'
    ensures LookingAt(s, i, "&#") <==> At(s, i + 1) == '#'
    ensures LookingAt(s, i, "&#x") <==> At(s, i + 1) == '#' && At(s, i + 2) == 'x'
    ensures At(s, i + 1) == '#' ==> i + 2 <= |s| && (At(s, i + 2) == 'x' ==> i + 3 <= |s|)
  {
  }
}
