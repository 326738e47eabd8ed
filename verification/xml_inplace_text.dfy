/** Reading and rewriting the text buffer the parser works in. `s` is the original text: the
    buffer holds it, zero-terminated, from the cursor on; what lies behind has been rewritten. */
module XmlInPlaceText {
  import opened XmlText

  /** From i on the buffer still holds the original text and its terminator. */
  ghost predicate Intact(buffer: array<char>, s: Text, i: nat)
    reads buffer
  {
    |s| < buffer.Length && forall x :: i <= x <= |s| ==> buffer[x] == At(s, x)
  }

  /** Nothing has changed outside [lo, hi). */
  twostate predicate OnlyChanged(buffer: array<char>, lo: nat, hi: nat)
    reads buffer
  {
    forall x :: 0 <= x < buffer.Length && !(lo <= x < hi) ==> buffer[x] == old(buffer[x])
  }

  /** skip<StopPred>. */
  method SkipChars(buffer: array<char>, ghost s: Text, k: CharClass, text: nat) returns (j: nat)
    requires Intact(buffer, s, text) && text <= |s|
    ensures j == Skip(s, k, text)
  {
    j := text;
    while Test(k, buffer[j])
      invariant text <= j <= |s|
      invariant Skip(s, k, j) == Skip(s, k, text)
      decreases |s| - j
    {
      j := j + 1;
    }
  }

  /** Compares character by character and stops at the first difference, so it never reads
      past the terminator. */
  method Matches(buffer: array<char>, ghost s: Text, i: nat, pattern: Text) returns (b: bool)
    requires Intact(buffer, s, i) && i <= |s|
    requires '\0' !in pattern
    ensures b == LookingAt(s, i, pattern)
  {
    var x := 0;
    while x < |pattern|
      invariant x <= |pattern| && i + x <= |s|
      invariant s[i..i + x] == pattern[..x]
    {
      assert pattern[x] in pattern;
      LookingAtChar(s, i, pattern, x);
      if buffer[i + x] != pattern[x] {
        return false;
      }
      assert s[i..i + x + 1] == s[i..i + x] + [s[i + x]];
      assert pattern[..x + 1] == pattern[..x] + [pattern[x]];
      x := x + 1;
    }
    assert pattern[..x] == pattern;
    return true;
  }

  // ---------------------------------------------------------------- references

  method ScanDigits(buffer: array<char>, ghost s: Text, start: nat, base: nat) returns (code: nat, end: nat)
    requires Intact(buffer, s, start) && start <= |s|
    ensures code == DigitsCode(s, start, base, 0) && end == DigitsEnd(s, start)
  {
    code, end := 0, start;
    while IsDigit(buffer[end])
      invariant start <= end <= |s|
      invariant DigitsCode(s, end, base, code) == DigitsCode(s, start, base, 0)
      invariant DigitsEnd(s, end) == DigitsEnd(s, start)
      decreases |s| - end
    {
      code := (code * base + DigitValue(buffer[end])) % ULONG_MODULUS;
      end := end + 1;
    }
  }

  /** insert_coded_character with UTF-8 handling on, which it is by default. */
  method InsertCodedCharacter(buffer: array<char>, text: nat, code: nat) returns (r: Parsed<()>)
    requires code < UNICODE_LIMIT ==> text + |Utf8(code)| <= buffer.Length
    modifies buffer
    ensures code >= UNICODE_LIMIT ==> r == Err(InvalidNumericEntity, text) && OnlyChanged(buffer, text, text)
    ensures code < UNICODE_LIMIT ==>
              && r == Ok((), text + |Utf8(code)|)
              && buffer[text..text + |Utf8(code)|] == Utf8(code)
              && OnlyChanged(buffer, text, text + |Utf8(code)|)
  {
    if code < 0x80 {
      buffer[text] := code as char;
      r := Ok((), text + 1);
    } else if code < 0x800 {
      buffer[text + 1] := (0x80 + code % 0x40) as char;
      buffer[text] := (0xC0 + code / 0x40) as char;
      r := Ok((), text + 2);
    } else if code < 0x1_0000 {
      buffer[text + 2] := (0x80 + code % 0x40) as char;
      buffer[text + 1] := (0x80 + code / 0x40 % 0x40) as char;
      buffer[text] := (0xE0 + code / 0x1000) as char;
      r := Ok((), text + 3);
    } else if code < 0x11_0000 {
      buffer[text + 3] := (0x80 + code % 0x40) as char;
      buffer[text + 2] := (0x80 + code / 0x40 % 0x40) as char;
      buffer[text + 1] := (0x80 + code / 0x1000 % 0x40) as char;
      buffer[text] := (0xF0 + code / 0x4_0000) as char;
      r := Ok((), text + 4);
    } else {
      r := Err(InvalidNumericEntity, text);
    }
  }

  /** What became of an ampersand. */
  datatype Translation = NotAReference | Translated(src: nat, dest: nat) | Failed(what: ParseError, at: nat)

  /** The outcome the reference at src calls for. */
  ghost function Expected(s: Text, src: nat, dest: nat): Translation {
    match ReferenceAt(s, src)
    case Verbatim => NotAReference
    case Predefined(_, size) => Translated(src + size, dest + 1)
    case Numeric(code, end) =>
      if code >= UNICODE_LIMIT then Failed(InvalidNumericEntity, dest)
      else if At(s, end) != ';' then Failed(ExpectedSemicolon, end)
      else Translated(end + 1, dest + |Utf8(code)|)
  }

  /** The characters it writes. */
  ghost function Written(s: Text, src: nat): Text {
    match ReferenceAt(s, src)
    case Verbatim => []
    case Predefined(c, _) => [c]
    case Numeric(code, _) => if code < UNICODE_LIMIT then Utf8(code) else []
  }

  method TranslateNumeric(buffer: array<char>, ghost s: Text, src: nat, dest: nat, hex: bool) returns (r: Translation)
    requires Intact(buffer, s, src) && dest <= src && src + (if hex then 3 else 2) <= |s|
    requires ReferenceAt(s, src) == Numeric(
               DigitsCode(s, src + (if hex then 3 else 2), if hex then HEX_BASE else DECIMAL_BASE, 0),
               DigitsEnd(s, src + (if hex then 3 else 2)))
    modifies buffer
    ensures r.Failed? ==> OnlyChanged(buffer, dest, |s|)
    ensures r == Expected(s, src, dest)
    ensures r.Translated? ==>
              && dest <= r.dest <= r.src <= |s| && Intact(buffer, s, r.src)
              && OnlyChanged(buffer, dest, r.dest) && buffer[dest..r.dest] == Written(s, src)
  {
    var first := if hex then src + 3 else src + 2;
    var code, end := ScanDigits(buffer, s, first, if hex then HEX_BASE else DECIMAL_BASE);
    if code < UNICODE_LIMIT {
      NumericFits(s, src);
    }
    hide Utf8, ReferenceAt;
    var inserted := InsertCodedCharacter(buffer, dest, code);
    match inserted {
      case Err(what, at) => r := Failed(what, at);
      case Ok(_, next) =>
        if buffer[end] == ';' {
          r := Translated(end + 1, next);
        } else {
          r := Failed(ExpectedSemicolon, end);
        }
    }
  }

  /** The switch on the character behind an ampersand. */
  method TranslateReference(buffer: array<char>, ghost s: Text, src: nat, dest: nat) returns (r: Translation)
    requires Intact(buffer, s, src) && dest <= src < |s| && s[src] == '&'
    modifies buffer
    ensures r.Failed? ==> OnlyChanged(buffer, dest, |s|)
    ensures r == Expected(s, src, dest)
    ensures r.NotAReference? ==> OnlyChanged(buffer, dest, dest)
    ensures r.Translated? ==>
              && dest <= r.dest <= r.src <= |s| && Intact(buffer, s, r.src)
              && OnlyChanged(buffer, dest, r.dest) && buffer[dest..r.dest] == Written(s, src)
  {
    hide LookingAt, ReferenceAt, Written, Utf8;
    OneMatchAtMost(s, src);
    match buffer[src + 1] {
      case 'a' =>
        var amp := Matches(buffer, s, src, "&amp;");
        if amp {
          r := Replace(buffer, s, src, dest, '&', 5);
          return;
        }
        var apos := Matches(buffer, s, src, "&apos;");
        if apos {
          r := Replace(buffer, s, src, dest, '\'', 6);
          return;
        }
      case 'q' =>
        var quot := Matches(buffer, s, src, "&quot;");
        if quot {
          r := Replace(buffer, s, src, dest, '"', 6);
          return;
        }
      case 'g' =>
        var gt := Matches(buffer, s, src, "&gt;");
        if gt {
          r := Replace(buffer, s, src, dest, '>', 4);
          return;
        }
      case 'l' =>
        var lt := Matches(buffer, s, src, "&lt;");
        if lt {
          r := Replace(buffer, s, src, dest, '<', 4);
          return;
        }
      case '#' =>
        r := TranslateNumeric(buffer, s, src, dest, buffer[src + 2] == 'x');
        return;
      case _ =>
    }
    r := NotAReference;
  }

  method Replace(buffer: array<char>, ghost s: Text, src: nat, dest: nat, c: char, size: nat) returns (r: Translation)
    requires Intact(buffer, s, src) && dest <= src && ReferenceAt(s, src) == Predefined(c, size)
    modifies buffer
    ensures r == Expected(s, src, dest) == Translated(src + size, dest + 1)
    ensures Intact(buffer, s, r.src) && r.src <= |s|
    ensures OnlyChanged(buffer, dest, dest + 1) && buffer[dest..dest + 1] == Written(s, src)
  {
    buffer[dest] := c;
    r := Translated(src + size, dest + 1);
  }

  // ---------------------------------------------------------------- skip_and_expand_character_refs

  /** One round of the loop: a reference translated or a character copied. */
  method ExpandOne(buffer: array<char>, ghost s: Text, delimiter: char, src: nat, dest: nat)
    returns (r: Translation, ghost written: Text)
    requires Intact(buffer, s, src) && dest <= src < |s| && Test(Until(delimiter), s[src])
    modifies buffer
    ensures !r.NotAReference?
    ensures r.Failed? ==> OnlyChanged(buffer, dest, |s|)
    ensures r.Failed? ==> Expand(s, delimiter, src, dest) == Err(r.what, r.at)
    ensures r.Translated? ==>
              && dest + |written| == r.dest <= r.src <= |s| && src < r.src && Intact(buffer, s, r.src)
              && OnlyChanged(buffer, dest, r.dest) && buffer[dest..r.dest] == written
              && Expand(s, delimiter, src, dest) == Prepend(written, Expand(s, delimiter, r.src, r.dest))
  {
    hide Expand, Prepend, ReferenceAt, Utf8, Test, Written;
    ExpandStep(s, delimiter, src, dest);
    r := NotAReference;
    written := Written(s, src);
    if buffer[src] == '&' {
      r := TranslateReference(buffer, s, src, dest);
    } else {
      VerbatimAt(s, src);
    }
    if r.Translated? {
      ReferenceMoves(s, src);
    } else if r.NotAReference? {
      written := [s[src]];
      buffer[dest] := buffer[src];
      r := Translated(src + 1, dest + 1);
    }
  }

  lemma ReferenceMoves(s: Text, src: nat)
    ensures forall dest :: Expected(s, src, dest).Translated? ==> Expected(s, src, dest).src > src
  {
  }

  /** The text from the cursor to the delimiter, rewritten in place: `value` is where it ends now,
      `next` where the cursor stands. */
  method SkipAndExpand(buffer: array<char>, ghost s: Text, delimiter: char, text: nat) returns (r: Parsed<nat>)
    requires Intact(buffer, s, text) && text <= |s|
    modifies buffer
    ensures r.Err? ==> OnlyChanged(buffer, text, |s|)
    ensures match Expand(s, delimiter, text, text)
            case Err(what, at) => r == Err(what, at)
            case Ok(v, next) =>
              && r == Ok(text + |v|, next) && r.value <= next <= |s|
              && buffer[text..r.value] == v && Intact(buffer, s, next) && OnlyChanged(buffer, text, next)
  {
    hide ReferenceAt, Utf8, Expand, Prepend, Expected, Written, Skip;
    var src := SkipChars(buffer, s, PureUntil(delimiter), text);
    PureIsExpanded(s, delimiter, text, src);
    var dest := src;
    ghost var done: Text := s[text..src];
    while Test(Until(delimiter), buffer[src])
      invariant text <= dest <= src <= |s| && Intact(buffer, s, src) && OnlyChanged(buffer, text, src)
      invariant dest == text + |done| && buffer[text..dest] == done
      invariant Expand(s, delimiter, text, text) == Prepend(done, Expand(s, delimiter, src, dest))
      decreases |s| - src
    {
      ghost var was := buffer[..];
      var step, written := ExpandOne(buffer, s, delimiter, src, dest);
      if step.Failed? {
        PrependError(done, step.what, step.at);
        return Err(step.what, step.at);
      }
      PrependPrepend(done, written, Expand(s, delimiter, step.src, step.dest));
      Extended(was, buffer, text, dest, step.dest);
      done := done + written;
      src, dest := step.src, step.dest;
    }
    NothingToExpand(s, delimiter, src, dest, done);
    r := Ok(dest, src);
  }

  lemma Extended(was: Text, buffer: array<char>, lo: nat, mid: nat, hi: nat)
    requires lo <= mid <= hi <= buffer.Length == |was|
    requires forall x :: 0 <= x < mid ==> buffer[x] == was[x]
    ensures buffer[lo..hi] == was[lo..mid] + buffer[mid..hi]
  {
  }

  lemma NothingToExpand(s: Text, delimiter: char, src: nat, dest: nat, done: Text)
    requires !Test(Until(delimiter), At(s, src))
    ensures Prepend(done, Expand(s, delimiter, src, dest)) == Ok(done, src)
  {
    assert done + [] == done;
  }

  lemma PrependError(a: Text, what: ParseError, at: nat)
    ensures Prepend(a, Err(what, at)) == Err(what, at)
  {
  }

  lemma PrependNothing(r: Parsed<Text>)
    ensures Prepend([], r) == r
  {
    if r.Ok? {
      assert [] + r.value == r.value;
    }
  }

  lemma PrependPrepend(a: Text, b: Text, r: Parsed<Text>)
    ensures Prepend(a, Prepend(b, r)) == Prepend(a + b, r)
  {
    if r.Ok? {
      assert a + (b + r.value) == a + b + r.value;
    }
  }

  /** One step of the expansion, by the outcome of the reference. */
  lemma ExpandStep(s: Text, delimiter: char, src: nat, dest: nat)
    requires Test(Until(delimiter), At(s, src))
    ensures Expand(s, delimiter, src, dest) ==
            match Expected(s, src, dest)
            case NotAReference => Prepend([s[src]], Expand(s, delimiter, src + 1, dest + 1))
            case Translated(src', dest') => Prepend(Written(s, src), Expand(s, delimiter, src', dest'))
            case Failed(what, at) => Err(what, at)
  {
    hide ReferenceAt, Utf8;
  }

  /** Text without references and delimiters expands to itself. */
  lemma {:induction false} PureIsExpanded(s: Text, delimiter: char, i: nat, end: nat)
    requires end == Skip(s, PureUntil(delimiter), i) && end <= |s|
    ensures Expand(s, delimiter, i, i) == Prepend(s[i..end], Expand(s, delimiter, end, end))
    decreases end - i
  {
    hide ReferenceAt, Utf8;
    if i < end {
      VerbatimAt(s, i);
      ExpandStep(s, delimiter, i, i);
      hide Expand;
      PureIsExpanded(s, delimiter, i + 1, end);
      assert s[i..end] == [s[i]] + s[i + 1..end];
      PrependPrepend([s[i]], s[i + 1..end], Expand(s, delimiter, end, end));
    } else {
      assert s[i..end] == [];
      PrependNothing(Expand(s, delimiter, end, end));
    }
  }
}
