/** Every spelling of the grammar is parsed to what it means. */
module XmlAcceptance {
  import opened XmlText
  import opened XmlTree
  import opened XmlPrinter
  import opened XmlParser
  import opened XmlRoundTrip
  import opened XmlReferences
  import opened XmlGrammar

  // ---------------------------------------------------------------- characters

  lemma SameClasses(c: char)
    ensures Test(Whitespace, c) <==> White(c)
    ensures Test(NodeName, c) <==> NameChar(c)
    ensures Test(AttributeName, c) <==> AttributeChar(c)
  {
  }

  /** A run of one class is skipped. */
  lemma BlankSkipped(s: Text, i: nat, blank: Text)
    requires Blank(blank) && LookingAt(s, i, blank) && !White(At(s, i + |blank|))
    ensures Skip(s, Whitespace, i) == i + |blank|
  {
    SkipRun(s, Whitespace, i, blank);
  }

  // ---------------------------------------------------------------- text with references

  lemma PlainRead(s: Text, i: nat, c: char, delimiter: char, dest: nat)
    requires PieceAt(s, i, Plain(c), delimiter)
    ensures Test(Until(delimiter), At(s, i))
    ensures Expand(s, delimiter, i, dest) == Prepend([c], Expand(s, delimiter, i + 1, dest + 1))
  {
    LookingAtChar(s, i, [c], 0);
    if c == '&' {
      NoReference(s, i);
    } else {
      VerbatimAt(s, i);
    }
    hide ReferenceAt, LookingAt, Prepend, Expand;
    ExpandVerbatim(s, delimiter, i, dest);
  }

  lemma NoReference(s: Text, i: nat)
    requires At(s, i) == '&' && !ReferenceBegins(s, i)
    ensures ReferenceAt(s, i) == Verbatim
  {
    LookingAtHash(s, i);
  }

  lemma NamedRead(s: Text, i: nat, c: char, delimiter: char, dest: nat)
    requires PieceAt(s, i, Named(c), delimiter) && delimiter != '&'
    ensures Test(Until(delimiter), At(s, i))
    ensures Expand(s, delimiter, i, dest) == Prepend([c], Expand(s, delimiter, i + |NamedText(c)|, dest + 1))
  {
    assert NamedText(c) == EscapeChar(c, '\0');
    EntityAt(s, i, c, '\0');
    LookingAtChar(s, i, NamedText(c), 0);
    hide ReferenceAt, LookingAt, Prepend, Expand;
    ExpandPredefined(s, delimiter, i, dest);
  }

  /** The digits of a numeric reference are read to the semicolon. */
  lemma NumberRead(s: Text, i: nat, hex: bool, digits: Text)
    requires LegalDigits(digits) && LookingAt(s, i, NumberedText(hex, digits))
    ensures At(s, i) == '&' && LookingAt(s, i, "&#")
    ensures var end := i + |NumberedText(hex, digits)| - 1;
            At(s, end) == ';' && ReferenceAt(s, i) == Numeric(Code(hex, digits), end)
  {
    var first := if hex then i + 3 else i + 2;
    NumberParts(s, i, hex, digits);
    var end := first + |digits|;
    forall x | first <= x < end
      ensures IsDigit(s[x])
    {
      assert s[x] == s[first..first + |digits|][x - first] == digits[x - first];
    }
    assert s[first..end] == digits;
    hide ReferenceAt, LookingAt, DigitsCode, DigitsEnd, Number, NumberedText;
    DigitRun(s, first, end);
    ParserReads(s, i);
  }

  lemma NumberParts(s: Text, i: nat, hex: bool, digits: Text)
    requires LegalDigits(digits) && LookingAt(s, i, NumberedText(hex, digits))
    ensures var first := if hex then i + 3 else i + 2;
            && At(s, i) == '&' && LookingAt(s, i, "&#") && FirstDigit(s, i) == first
            && BaseOf(s, i) == (if hex then 16 else 10)
            && first + |digits| < |s| && s[first..first + |digits|] == digits && At(s, first + |digits|) == ';'
            && i + |NumberedText(hex, digits)| - 1 == first + |digits|
  {
    var prefix := if hex then "&#x" else "&#";
    LookingAtSplit(s, i, prefix + digits, ";");
    LookingAtSplit(s, i, prefix, digits);
    LookingAtChar(s, i, prefix, 0);
    LookingAtChar(s, i, prefix, 1);
    LookingAtChar(s, i + |prefix| + |digits|, ";", 0);
    LookingAtHash(s, i);
    if hex {
      LookingAtChar(s, i, prefix, 2);
    } else if digits == [] {
      assert At(s, i + 2) == ';';
    } else {
      LookingAtChar(s, i + 2, digits, 0);
    }
  }

  lemma NumberedLegal(s: Text, i: nat, hex: bool, digits: Text, delimiter: char)
    requires PieceAt(s, i, Numbered(hex, digits), delimiter)
    ensures LegalDigits(digits) && Code(hex, digits) < UNICODE_LIMIT && LookingAt(s, i, NumberedText(hex, digits))
    ensures |NumberedText(hex, digits)| > 0
  {
  }

  lemma OtherThan(c: char, delimiter: char, at: char)
    requires at == c && c != delimiter && c != '\0'
    ensures Test(Until(delimiter), at)
  {
  }

  lemma NumberedRead(s: Text, i: nat, hex: bool, digits: Text, delimiter: char, dest: nat)
    requires PieceAt(s, i, Numbered(hex, digits), delimiter) && delimiter != '&'
    ensures Test(Until(delimiter), At(s, i))
    ensures var meaning := Utf8(Code(hex, digits));
            Expand(s, delimiter, i, dest)
            == Prepend(meaning, Expand(s, delimiter, i + |NumberedText(hex, digits)|, dest + |meaning|))
  {
    hide *;
    NumberedLegal(s, i, hex, digits, delimiter);
    NumberRead(s, i, hex, digits);
    OtherThan('&', delimiter, At(s, i));
    ExpandNumeric(s, i, Code(hex, digits), i + |NumberedText(hex, digits)| - 1, delimiter, dest);
  }

  lemma PieceRead(s: Text, i: nat, p: Piece, delimiter: char, dest: nat)
    requires PieceAt(s, i, p, delimiter) && delimiter != '&'
    ensures |PieceText(p)| > 0 && Test(Until(delimiter), At(s, i))
    ensures Expand(s, delimiter, i, dest)
         == Prepend(PieceMeaning(p), Expand(s, delimiter, i + |PieceText(p)|, dest + |PieceMeaning(p)|))
  {
    hide Expand, Prepend, Utf8, Code, LookingAt;
    match p
    case Plain(c) => PlainRead(s, i, c, delimiter, dest);
    case Named(c) => NamedRead(s, i, c, delimiter, dest);
    case Numbered(hex, digits) => NumberedRead(s, i, hex, digits, delimiter, dest);
  }

  /** A run of pieces up to a delimiter expands to what it means. */
  lemma {:induction false} RunRead(s: Text, i: nat, run: seq<Piece>, delimiter: char, dest: nat)
    requires LegalRun(run) && RunAt(s, i, run, delimiter) && delimiter != '&'
    requires At(s, i + RunSize(run)) == delimiter || At(s, i + RunSize(run)) == '\0'
    ensures Expand(s, delimiter, i, dest) == Ok(RunMeaning(run), i + RunSize(run))
    decreases |run|
  {
    hide Expand, PieceAt, PieceText, PieceMeaning, LegalPiece;
    if run == [] {
      ExpandStops(s, delimiter, i, dest);
    } else {
      var p := run[0];
      assert LegalPiece(p);
      PieceRead(s, i, p, delimiter, dest);
      RunRead(s, i + |PieceText(p)|, run[1..], delimiter, dest + |PieceMeaning(p)|);
    }
  }

  // ---------------------------------------------------------------- attributes

  lemma NameRead(s: Text, i: nat, a: AttributeSpelling)
    requires a.StandsAt(s, i)
    ensures Test(AttributeName, At(s, i)) && i + |a.name| <= |s| && s[i..i + |a.name|] == a.name
    ensures Skip(s, AttributeName, i + 1) == i + |a.name|
    ensures Skip(s, Whitespace, i + |a.name|) == a.EqualsAt(i)
  {
    hide LookingAt, RunAt, RunSize, Skip;
    LookingAtChar(s, i, a.name, 0);
    LookingAtSlice(s, i, a.name);
    BlankOrEnd(s, i + |a.name|, a.before, '=');
    SkipRun(s, AttributeName, i, a.name);
    SkipOne(s, AttributeName, i);
    BlankSkipped(s, i + |a.name|, a.before);
  }

  lemma ValueRead(s: Text, i: nat, a: AttributeSpelling)
    requires a.StandsAt(s, i) && LegalRun(a.value)
    ensures At(s, a.EqualsAt(i)) == '=' && Skip(s, Whitespace, a.EqualsAt(i) + 1) == a.OpenAt(i)
    ensures ParseQuoted(s, a.OpenAt(i)) == Ok(RunMeaning(a.value), a.CloseAt(i) + 1)
  {
    hide Expand, LookingAt, RunAt, RunMeaning, RunSize, Skip;
    BlankSkipped(s, a.EqualsAt(i) + 1, a.behind);
    RunRead(s, a.OpenAt(i) + 1, a.value, a.quote, a.OpenAt(i) + 1);
  }

  lemma AttributeRead(s: Text, i: nat, a: AttributeSpelling)
    requires a.StandsAt(s, i) && LegalRun(a.value)
    ensures Test(AttributeName, At(s, i))
    ensures ParseAttribute(s, i) == Ok(Attribute(a.name, RunMeaning(a.value)), a.CloseAt(i) + 1)
  {
    hide AttributeSpelling.StandsAt, ParseQuoted, RunMeaning, RunSize, Skip, LegalRun, AttributeSpelling.EqualsAt,
         AttributeSpelling.OpenAt, AttributeSpelling.CloseAt;
    NameRead(s, i, a);
    ValueRead(s, i, a);
  }

  /** What comes behind a name is white space or the sign, and neither belongs to it. */
  lemma BlankOrEnd(s: Text, i: nat, blank: Text, c: char)
    requires Blank(blank) && LookingAt(s, i, blank) && At(s, i + |blank|) == c
    ensures At(s, i) == c || White(At(s, i))
  {
    if blank != [] {
      LookingAtChar(s, i, blank, 0);
    }
  }

  lemma {:induction false} AttributesRead(s: Text, i: nat, attributes: seq<AttributeSpelling>)
    requires AttributesAt(s, i, attributes) && LegalAttributes(attributes)
    requires !White(At(s, EndOfAttributes(i, attributes))) && !AttributeChar(At(s, EndOfAttributes(i, attributes)))
    ensures !White(At(s, i))
    ensures ParseAttributes(s, i) == Ok(AttributesMeaning(attributes), EndOfAttributes(i, attributes))
    decreases |attributes|
  {
    hide AttributeSpelling.StandsAt, ParseAttribute, LookingAt, Skip, RunMeaning;
    if attributes != [] {
      var a := attributes[0];
      assert LegalRun(a.value);
      AttributeRead(s, i, a);
      AttributesRead(s, a.EndAt(i), attributes[1..]);
      GapSkipped(s, i, a);
    }
  }

  lemma GapSkipped(s: Text, i: nat, a: AttributeSpelling)
    requires a.StandsAt(s, i) && !White(At(s, a.EndAt(i)))
    ensures Skip(s, Whitespace, a.CloseAt(i) + 1) == a.EndAt(i)
  {
    hide LookingAt, RunAt;
    BlankSkipped(s, a.CloseAt(i) + 1, a.gap);
  }

  // ---------------------------------------------------------------- markup

  /** The end mark behind a body is the first one in the text, too. */
  lemma FirstMark(s: Text, i: nat, body: Text, mark: Text)
    requires mark != [] && EndsFirst(body, mark) && LookingAt(s, i, body + mark)
    ensures Find(s, i, mark) == Ok(i + |body|, i + |body| + |mark|)
  {
    LookingAtSplit(s, i, body, mark);
    forall x | i <= x < i + |body|
      ensures !LookingAt(s, x, mark) && At(s, x) != '\0'
    {
      LookingAtChar(s, i, body + mark, x - i);
      if LookingAt(s, x, mark) {
        MarkInside(s, i, body + mark, x, mark);
      }
    }
    FindFirst(s, i, mark, i + |body|);
  }

  lemma MarkInside(s: Text, i: nat, whole: Text, x: nat, mark: Text)
    requires LookingAt(s, i, whole) && LookingAt(s, x, mark) && i <= x && x + |mark| <= i + |whole|
    ensures LookingAt(whole, x - i, mark)
  {
    forall k | 0 <= k < |mark|
      ensures whole[x - i + k] == mark[k]
    {
      assert whole[x - i + k] == s[i..i + |whole|][x - i + k] == s[x + k] == s[x..x + |mark|][k];
    }
  }

  lemma InstructionRead(s: Text, i: nat, body: Text)
    requires EndsFirst(body, "?>") && LookingAt(s, i, "?" + body + "?>")
    ensures i <= |s| && ParseNode(s, i) == Ok([], i + 1 + |body| + 2)
  {
    hide LookingAt;
    LookingAtThree(s, i, "?", body, "?>");
    LookingAtSplit(s, i + 1, body, "?>");
    LookingAtChar(s, i, "?", 0);
    FirstMark(s, i + 1, body, "?>");
    LookingAtSplit(s, i + 1, body, "?>");
    LookingAtChar(s, i + 1 + |body|, "?>", 0);
    if IsXmlDeclaration(s, i + 1) {
      FindLater(s, i + 1, i + 5, "?>");
    }
  }

  /** The search may as well begin later, but not behind the place it finds. */
  lemma {:induction false} FindLater(s: Text, i: nat, j: nat, mark: Text)
    requires mark != [] && i <= j && Find(s, i, mark).Ok? && j <= Find(s, i, mark).value
    ensures Find(s, j, mark) == Find(s, i, mark)
    decreases j - i
  {
    hide LookingAt;
    if i < j {
      FindLater(s, i + 1, j, mark);
    }
  }

  lemma RemarkRead(s: Text, i: nat, body: Text)
    requires EndsFirst(body, "-->") && LookingAt(s, i, "!--" + body + "-->")
    ensures i <= |s| && ParseNode(s, i) == Ok([], i + 3 + |body| + 3)
  {
    hide LookingAt, ParseElement, SkipDoctype, ParseCData;
    LookingAtThree(s, i, "!--", body, "-->");
    LookingAtSplit(s, i + 3, body, "-->");
    LookingAtChar(s, i, "!--", 0);
    LookingAtInside(s, i, "!--");
    FirstMark(s, i + 3, body, "-->");
  }

  lemma LookingAtInside(s: Text, i: nat, pattern: Text)
    requires LookingAt(s, i, pattern)
    ensures i + |pattern| <= |s|
  {
  }

  lemma CDataRead(s: Text, i: nat, value: Text)
    requires EndsFirst(value, "]]>") && LookingAt(s, i, "![CDATA[" + value + "]]>")
    ensures i <= |s| && ParseNode(s, i) == Ok([CDataNode(value)], i + 8 + |value| + 3)
  {
    hide LookingAt, ParseElement, SkipDoctype;
    LookingAtThree(s, i, "![CDATA[", value, "]]>");
    LookingAtSplit(s, i + 8, value, "]]>");
    LookingAtChar(s, i, "![CDATA[", 0);
    LookingAtChar(s, i, "![CDATA[", 1);
    LookingAtChar(s, i, "!--", 1);
    LookingAtInside(s, i, "![CDATA[");
    FirstMark(s, i + 8, value, "]]>");
    LookingAtSplit(s, i + 8, value, "]]>");
    LookingAtSlice(s, i + 8, value);
  }

  lemma {:induction false} DoctypeSkipped(s: Text, i: nat, body: Text, x: nat)
    requires x <= |body| && LookingAt(s, i, body + ">") && OpenBrackets(body, |body|) == 0
    requires forall y :: 0 <= y < |body| ==> body[y] != '\0' && !(body[y] == '>' && OpenBrackets(body, y) == 0)
    ensures SkipDoctype(s, i + x, OpenBrackets(body, x)) == Ok((), i + |body| + 1)
    decreases |body| - x
  {
    LookingAtChar(s, i, body + ">", x);
    if x < |body| {
      DoctypeSkipped(s, i, body, x + 1);
    }
  }

  lemma DoctypeRead(s: Text, i: nat, blank: char, body: Text)
    requires LegalDropped(DocumentType(blank, body)) && LookingAt(s, i, "!DOCTYPE" + [blank] + body + ">")
    ensures i <= |s| && ParseNode(s, i) == Ok([], i + 9 + |body| + 1)
  {
    hide LookingAt, ParseElement, Find, ParseCData, SkipDoctype;
    LookingAtThree(s, i, "!DOCTYPE" + [blank], body, ">");
    LookingAtSplit(s, i, "!DOCTYPE", [blank]);
    LookingAtSplit(s, i + 9, body, ">");
    LookingAtChar(s, i, "!DOCTYPE", 0);
    LookingAtChar(s, i, "!DOCTYPE", 1);
    LookingAtChar(s, i, "!--", 1);
    LookingAtChar(s, i, "![CDATA[", 1);
    LookingAtChar(s, i + 8, [blank], 0);
    LookingAtInside(s, i, "!DOCTYPE");
    DoctypeSkipped(s, i + 9, body, 0);
  }

  /** A pattern in which there is no end of markup lies inside the markup. */
  lemma PatternInside(s: Text, i: nat, body: Text, pattern: Text)
    requires LookingAt(s, i, body + ">") && LookingAt(s, i, pattern) && '>' !in pattern
    ensures pattern <= body
  {
    PatternShort(s, i, body, pattern);
    assert s[i..i + |body + ">"|][..|pattern|] == s[i..i + |pattern|];
    assert (body + ">")[..|pattern|] == body[..|pattern|];
  }

  lemma PatternShort(s: Text, i: nat, body: Text, pattern: Text)
    requires LookingAt(s, i, body + ">") && LookingAt(s, i, pattern) && '>' !in pattern
    ensures |pattern| <= |body|
  {
    hide LookingAt;
    if |body| < |pattern| {
      LookingAtChar(s, i, body + ">", |body|);
      LookingAtChar(s, i, pattern, |body|);
    }
  }

  lemma OtherRead(s: Text, i: nat, body: Text)
    requires LegalDropped(Other(body)) && LookingAt(s, i, "!" + body + ">")
    ensures i <= |s| && ParseNode(s, i) == Ok([], i + 1 + |body| + 1)
  {
    hide LookingAt, ParseElement, ParseCData, SkipDoctype;
    LookingAtThree(s, i, "!", body, ">");
    LookingAtSplit(s, i + 1, body, ">");
    LookingAtChar(s, i, "!", 0);
    LookingAtInside(s, i, "!");
    LookingAtSplit(s, i, "!", "--");
    LookingAtSplit(s, i, "!", "[CDATA[");
    LookingAtSplit(s, i, "!", "DOCTYPE");
    assert "!" + "--" == "!--" && "!" + "[CDATA[" == "![CDATA[" && "!" + "DOCTYPE" == "!DOCTYPE";
    if LookingAt(s, i + 1, "--") {
      PatternInside(s, i + 1, body, "--");
    }
    if LookingAt(s, i + 1, "[CDATA[") {
      PatternInside(s, i + 1, body, "[CDATA[");
    }
    if LookingAt(s, i + 1, "DOCTYPE") {
      PatternInside(s, i + 1, body, "DOCTYPE");
      LookingAtChar(s, i + 1, body + ">", 7);
    }
    FirstMark(s, i + 1, body, ">");
  }

  lemma DroppedRead(s: Text, i: nat, d: Dropped)
    requires LegalDropped(d) && LookingAt(s, i, DroppedText(d))
    ensures i <= |s| && ParseNode(s, i) == Ok([], i + |DroppedText(d)|)
  {
    hide ParseNode, EndsFirst, LookingAt;
    match d
    case Instruction(body) => InstructionRead(s, i, body);
    case Remark(body) => RemarkRead(s, i, body);
    case DocumentType(blank, body) => DoctypeRead(s, i, blank, body);
    case Other(body) => OtherRead(s, i, body);
  }

  // ---------------------------------------------------------------- nodes

  lemma {:induction false} ItemIsLegal(s: Text, i: nat, x: Item)
    requires ItemAt(s, i, x)
    ensures LegalItem(x)
    decreases x, 0
  {
    if x.ElementItem? && x.body.Full? {
      ContentsAreLegal(s, EndOfAttributes(i + 1 + |x.name| + |x.gap|, x.attributes) + 1, x.body.contents);
    }
  }

  lemma {:induction false} ContentsAreLegal(s: Text, i: nat, c: Contents)
    requires ContentsAt(s, i, c)
    ensures LegalContents(c)
    decreases c, 0
  {
    if c.Then? {
      ItemIsLegal(s, i + RunSize(c.run), c.item);
      ContentsAreLegal(s, EndOfItem(i + RunSize(c.run), c.item), c.rest);
    }
  }

  /** An element up to the end of its attributes. */
  lemma TagOpened(s: Text, i: nat, x: Item)
    requires ItemAt(s, i, x) && x.ElementItem?
    ensures var nameEnd := i + 1 + |x.name|;
            && nameEnd <= |s| && s[i + 1..nameEnd] == x.name
            && NameChar(At(s, i + 1)) && At(s, i + 1) != '!'
            && Skip(s, NodeName, i + 1) == nameEnd
            && ParseAttributes(s, Skip(s, Whitespace, nameEnd))
               == Ok(AttributesMeaning(x.attributes), EndOfAttributes(nameEnd + |x.gap|, x.attributes))
  {
    hide LookingAt, Skip, AttributesAt, ParseAttributes, ItemAt, LegalAttributes, EndOfAttributes, AttributesMeaning,
         Blank;
    var nameEnd := i + 1 + |x.name|;
    TagParts(s, i, x);
    LookingAtChar(s, i + 1, x.name, 0);
    LookingAtSlice(s, i + 1, x.name);
    AttributesRead(s, nameEnd + |x.gap|, x.attributes);
    BlankSkipped(s, nameEnd, x.gap);
    SkipRun(s, NodeName, i + 1, x.name);
  }

  lemma TagParts(s: Text, i: nat, x: Item)
    requires ItemAt(s, i, x) && x.ElementItem?
    ensures x.name != [] && x.name[0] != '!' && NameText(x.name) && LookingAt(s, i + 1, x.name)
    ensures Blank(x.gap) && LookingAt(s, i + 1 + |x.name|, x.gap) && !NameChar(At(s, i + 1 + |x.name|))
    ensures AttributesAt(s, i + 1 + |x.name| + |x.gap|, x.attributes) && LegalAttributes(x.attributes)
    ensures var end := EndOfAttributes(i + 1 + |x.name| + |x.gap|, x.attributes);
            !White(At(s, end)) && !AttributeChar(At(s, end))
  {
    hide LookingAt, AttributesAt, ContentsAt, LegalAttributes;
    if x.gap != [] {
      LookingAtChar(s, i + 1 + |x.name|, x.gap, 0);
    }
  }

  /** Text in front of a '<'. */
  lemma {:induction false} RunSkipped(s: Text, i: nat, run: seq<Piece>)
    requires LegalRun(run) && RunAt(s, i, run, '<') && At(s, i + RunSize(run)) == '<'
    ensures i <= |s|
    ensures IsBlankRun(run) ==> Skip(s, Whitespace, i) == i + RunSize(run)
    ensures !IsBlankRun(run) ==> At(s, Skip(s, Whitespace, i)) != '<' && At(s, Skip(s, Whitespace, i)) != '\0'
    decreases |run|
  {
    hide LegalPiece, Expand, PieceText, PieceMeaning, LookingAt;
    if run != [] {
      var p := run[0];
      assert LegalPiece(p);
      PieceRead(s, i, p, '<', i);
      FirstOfPiece(s, i, p);
      RunSkipped(s, i + |PieceText(p)|, run[1..]);
      BlankHead(run);
    }
  }

  lemma BlankHead(run: seq<Piece>)
    requires run != []
    ensures IsBlankRun(run) <==> run[0].Plain? && White(run[0].c) && IsBlankRun(run[1..])
  {
    if run[0].Plain? && White(run[0].c) && IsBlankRun(run[1..]) {
      assert run == [run[0]] + run[1..];
    }
  }

  lemma FirstOfPiece(s: Text, i: nat, p: Piece)
    requires PieceAt(s, i, p, '<')
    ensures White(At(s, i)) <==> p.Plain? && White(p.c)
    ensures p.Plain? ==> |PieceText(p)| == 1
    ensures i < |s|
  {
    LookingAtChar(s, i, PieceText(p), 0);
  }

  lemma ContentsRun(s: Text, i: nat, run: seq<Piece>)
    requires LegalRun(run) && RunAt(s, i, run, '<') && At(s, i + RunSize(run)) == '<'
    ensures i <= |s|
    ensures ParseContents(s, i) ==
            match ParseTag(s, i + RunSize(run))
            case Err(what, at) => Err(what, at)
            case Ok(rest, next) => Ok(RunNodes(run) + rest, next)
  {
    hide Expand, ParseTag, Skip, IsBlankRun, RunAt, RunMeaning;
    RunSkipped(s, i, run);
    var tag := ParseTag(s, i + RunSize(run));
    if IsBlankRun(run) {
      assert tag.Ok? ==> [] + tag.value == tag.value;
    } else {
      RunRead(s, i, run, '<', i);
    }
  }

  lemma ClosingRead(s: Text, i: nat, name: Text, gap: Text)
    requires ClosingAt(s, i, name, gap)
    ensures ParseTag(s, i) == Ok([], i + 2 + |name| + |gap| + 1)
  {
    hide ParseNode, ParseContents, LookingAt, Skip;
    if gap != [] {
      LookingAtChar(s, i + 2 + |name|, gap, 0);
    }
    SkipRun(s, NodeName, i + 2, name);
    BlankSkipped(s, i + 2 + |name|, gap);
  }

  lemma {:induction false} ItemRead(s: Text, i: nat, x: Item)
    requires ItemAt(s, i, x) && LegalItem(x)
    ensures i < |s| && At(s, i) == '<' && At(s, i + 1) != '/'
    ensures ParseNode(s, i + 1) == Ok(ItemNodes(x), EndOfItem(i, x)) && EndOfItem(i, x) <= |s|
    decreases x, 1
  {
    hide ParseElement, LookingAt, ElementNode, ContentsAt, AttributesAt, DroppedText, LegalDropped, EndsFirst;
    match x
    case ElementItem(name, gap, attributes, body) =>
      TagOpened(s, i, x);
      ElementRead(s, i, x);
    case CDataItem(value) =>
      LookingAtChar(s, i + 1, "![CDATA[" + value + "]]>", 0);
      CDataRead(s, i + 1, value);
    case DroppedItem(dropped) =>
      DroppedFirst(dropped);
      LookingAtChar(s, i + 1, DroppedText(dropped), 0);
      DroppedRead(s, i + 1, dropped);
  }

  lemma DroppedFirst(d: Dropped)
    ensures |DroppedText(d)| > 0 && (DroppedText(d)[0] == '?' || DroppedText(d)[0] == '!')
  {
  }

  lemma {:induction false} ElementRead(s: Text, i: nat, x: Item)
    requires ItemAt(s, i, x) && LegalItem(x) && x.ElementItem?
    ensures i < |s| && ParseElement(s, i + 1) == Ok(ItemNodes(x)[0], EndOfItem(i, x))
    decreases x, 0
  {
    hide ParseAttributes, ParseContents, LookingAt, ElementNode, ContentsAt, AttributesAt, Skip, ItemAt, LegalItem,
         EndOfAttributes, AttributesMeaning, EndOfContents, ContentsNodes, NameChar, LegalAttributes, LegalContents;
    TagOpened(s, i, x);
    ElementParts(s, i, x);
    if x.body.Full? {
      ContentsRead(s, EndOfAttributes(i + 1 + |x.name| + |x.gap|, x.attributes) + 1, x.body.contents);
    }
  }

  lemma ElementParts(s: Text, i: nat, x: Item)
    requires ItemAt(s, i, x) && LegalItem(x) && x.ElementItem?
    ensures LegalAttributes(x.attributes) && (x.body.Full? ==> LegalContents(x.body.contents))
    ensures x.name != [] && i < |s|
    ensures BodyAt(s, EndOfAttributes(i + 1 + |x.name| + |x.gap|, x.attributes), x.body)
  {
    hide LookingAt, AttributesAt, ContentsAt, BodyAt, LegalAttributes, LegalContents;
  }

  lemma {:induction false} ContentsRead(s: Text, i: nat, c: Contents)
    requires ContentsAt(s, i, c) && LegalContents(c)
    ensures i <= |s| && ParseContents(s, i) == Ok(ContentsNodes(c), EndOfContents(i, c))
    decreases c, 1
  {
    hide ParseContents, ParseNode, ParseTag, LookingAt, RunAt, ItemAt, ClosingAt, RunNodes, ItemNodes;
    var k := i + RunSize(c.run);
    match c
    case Closing(run, name, gap) =>
      ClosingFirst(s, k, name, gap);
      ContentsRun(s, i, run);
      ClosingRead(s, k, name, gap);
      assert RunNodes(run) + [] == RunNodes(run);
    case Then(run, item, rest) =>
      ItemRead(s, k, item);
      ContentsRun(s, i, run);
      ContentsRead(s, EndOfItem(k, item), rest);
      TagOfItem(s, k, item, rest);
  }

  lemma ClosingFirst(s: Text, i: nat, name: Text, gap: Text)
    requires ClosingAt(s, i, name, gap)
    ensures At(s, i) == '<'
  {
  }

  lemma TagOfItem(s: Text, k: nat, item: Item, rest: Contents)
    requires LegalItem(item) && LegalContents(rest) && At(s, k) == '<' && At(s, k + 1) != '/' && k < |s|
    requires ParseNode(s, k + 1) == Ok(ItemNodes(item), EndOfItem(k, item)) && EndOfItem(k, item) <= |s|
    requires ParseContents(s, EndOfItem(k, item)) == Ok(ContentsNodes(rest), EndOfContents(EndOfItem(k, item), rest))
    ensures ParseTag(s, k)
         == Ok(ItemNodes(item) + ContentsNodes(rest), EndOfContents(EndOfItem(k, item), rest))
  {
    hide ParseNode, ParseContents, ItemNodes, ContentsNodes, EndOfItem, EndOfContents, LegalItem, LegalContents;
  }

  // ---------------------------------------------------------------- documents

  lemma {:induction false} NodesAreLegal(s: Text, i: nat, n: Nodes)
    requires NodesAt(s, i, n)
    ensures LegalNodes(n)
    decreases n
  {
    hide ItemAt, LookingAt, LegalItem, EndOfItem, Blank;
    if n.Next? {
      ItemIsLegal(s, i + |n.blank|, n.item);
      NodesAreLegal(s, EndOfItem(i + |n.blank|, n.item), n.rest);
    }
  }

  lemma {:induction false} NodesRead(s: Text, i: nat, n: Nodes)
    requires NodesAt(s, i, n) && LegalNodes(n)
    ensures i <= |s| && ParseNodes(s, i) == Ok(NodesMeaning(n), EndOfNodes(i, n))
    decreases n
  {
    hide ParseNode, LookingAt, ItemAt, ItemNodes, EndOfItem, LegalItem, Skip;
    LookingAtInside(s, i, n.blank);
    if n.Next? {
      ItemRead(s, i + |n.blank|, n.item);
      NodesRead(s, EndOfItem(i + |n.blank|, n.item), n.rest);
    }
    BlankSkipped(s, i, n.blank);
  }

  /** Every spelling of a document is parsed to that document. */
  lemma SpellingIsParsed(s: Text, n: Nodes, d: Xml, end: nat)
    requires Spells(s, n, d, end)
    ensures Parse(s) == Ok(d, end)
  {
    hide ParseNodes, NodesAt, NodesMeaning, LegalNodes;
    NodesRead(s, Start(s), n);
  }
}
