/** Every text that the parser accepts is spelled by the grammar, so that the two agree exactly. */
module XmlDerivation {
  import opened XmlText
  import opened XmlTree
  import opened XmlParser
  import opened XmlRoundTrip
  import opened XmlReferences
  import opened XmlGrammar
  import opened XmlAcceptance

  // ---------------------------------------------------------------- text with references

  predicate IsDelimiter(c: char) {
    c == '<' || c == '\'' || c == '"'
  }

  lemma SliceIs(s: Text, i: nat, j: nat)
    requires i <= j <= |s|
    ensures LookingAt(s, i, s[i..j])
  {
  }

  lemma CharStands(s: Text, i: nat, c: Text)
    requires |c| == 1 && i < |s| && s[i] == c[0]
    ensures LookingAt(s, i, c)
  {
  }

  predicate NumberFails(s: Text, i: nat)
    requires ReferenceAt(s, i).Numeric?
  {
    ReferenceAt(s, i).code >= UNICODE_LIMIT || At(s, ReferenceAt(s, i).end) != ';'
  }

  /** The first piece of a text, unless that is a numeric reference the parser rejects. */
  lemma HeadPiece(s: Text, i: nat, delimiter: char) returns (p: Piece)
    requires Test(Until(delimiter), At(s, i)) && IsDelimiter(delimiter)
    requires ReferenceAt(s, i).Numeric? ==> !NumberFails(s, i)
    ensures PieceAt(s, i, p, delimiter) && LegalPiece(p) && |PieceText(p)| > 0 && i + |PieceText(p)| <= |s|
  {
    match ReferenceAt(s, i)
    case Verbatim =>
      p := Plain(s[i]);
      PlainDerived(s, i);
    case Predefined(c, size) =>
      p := Named(c);
    case Numeric(code, end) =>
      p := NumberPiece(s, i);
  }

  lemma NumberPiece(s: Text, i: nat) returns (p: Piece)
    requires ReferenceAt(s, i).Numeric? && !NumberFails(s, i)
    ensures LegalPiece(p) && LookingAt(s, i, PieceText(p)) && !p.Plain?
    ensures |PieceText(p)| > 0 && i + |PieceText(p)| <= |s|
  {
    hide ReferenceAt, LookingAt, Number, FirstDigit, BaseOf;
    HashAt(s, i);
    ParserReads(s, i);
    BaseIs(s, i);
    var first, end := FirstDigit(s, i), ReferenceAt(s, i).end;
    p := Numbered(LookingAt(s, i, "&#x"), s[first..end]);
    NumberStands(s, i, LookingAt(s, i, "&#x"), first, end);
  }

  /** So there is one if the text is accepted and does not end here. */
  lemma PieceDerived(s: Text, i: nat, delimiter: char, dest: nat) returns (p: Piece)
    requires Test(Until(delimiter), At(s, i)) && IsDelimiter(delimiter) && Expand(s, delimiter, i, dest).Ok?
    ensures PieceAt(s, i, p, delimiter) && |PieceText(p)| > 0 && i + |PieceText(p)| <= |s|
  {
    if ReferenceAt(s, i).Numeric? {
      NumberAccepted(s, i, delimiter, dest);
    }
    p := HeadPiece(s, i, delimiter);
  }

  lemma PlainDerived(s: Text, i: nat)
    requires i < |s| && ReferenceAt(s, i) == Verbatim
    ensures LookingAt(s, i, [s[i]]) && !ReferenceBegins(s, i)
  {
  }

  lemma NumberAccepted(s: Text, i: nat, delimiter: char, dest: nat)
    requires Test(Until(delimiter), At(s, i)) && ReferenceAt(s, i).Numeric? && Expand(s, delimiter, i, dest).Ok?
    ensures ReferenceAt(s, i).code < UNICODE_LIMIT && At(s, ReferenceAt(s, i).end) == ';'
  {
    hide ReferenceAt, Prepend;
  }

  lemma BaseIs(s: Text, i: nat)
    requires LookingAt(s, i, "&#")
    ensures BaseOf(s, i) == (if LookingAt(s, i, "&#x") then 16 else 10)
    ensures FirstDigit(s, i) == if LookingAt(s, i, "&#x") then i + 3 else i + 2
  {
    hide LookingAt;
  }

  lemma NumberStands(s: Text, i: nat, hex: bool, first: nat, end: nat)
    requires LookingAt(s, i, "&#") && (hex <==> LookingAt(s, i, "&#x")) && first == (if hex then i + 3 else i + 2)
    requires first <= end <= |s| && At(s, end) == ';'
    ensures LookingAt(s, i, NumberedText(hex, s[first..end])) && i + |NumberedText(hex, s[first..end])| <= |s|
  {
    var prefix, digits := if hex then "&#x" else "&#", s[first..end];
    LookingAtSplit(s, i, prefix + digits, ";");
    LookingAtSplit(s, i, prefix, digits);
    SliceIs(s, first, end);
  }

  lemma HashAt(s: Text, i: nat)
    requires ReferenceAt(s, i).Numeric?
    ensures LookingAt(s, i, "&#")
  {
    if LookingAt(s, i, "&#x") {
      LookingAtChar(s, i, "&#x", 0);
      LookingAtChar(s, i, "&#x", 1);
      LookingAtHash(s, i);
    }
  }

  lemma {:induction false} RunDerived(s: Text, i: nat, delimiter: char, dest: nat) returns (run: seq<Piece>)
    requires IsDelimiter(delimiter) && Expand(s, delimiter, i, dest).Ok?
    ensures LegalRun(run) && RunAt(s, i, run, delimiter)
    ensures i + RunSize(run) == Expand(s, delimiter, i, dest).next
    decreases |s| - i
  {
    hide Expand, PieceAt, PieceText, PieceMeaning, LegalPiece, Prepend;
    if Test(Until(delimiter), At(s, i)) {
      var p := PieceDerived(s, i, delimiter, dest);
      PieceLegal(s, i, p, delimiter);
      PieceRead(s, i, p, delimiter, dest);
      PrependOk(PieceMeaning(p), Expand(s, delimiter, i + |PieceText(p)|, dest + |PieceMeaning(p)|));
      var rest := RunDerived(s, i + |PieceText(p)|, delimiter, dest + |PieceMeaning(p)|);
      run := [p] + rest;
      assert run[1..] == rest;
    } else {
      run := [];
      ExpandStops(s, delimiter, i, dest);
    }
  }

  lemma PieceLegal(s: Text, i: nat, p: Piece, delimiter: char)
    requires PieceAt(s, i, p, delimiter)
    ensures LegalPiece(p)
  {
  }

  lemma PrependOk(head: Text, r: Parsed<Text>)
    ensures Prepend(head, r).Ok? <==> r.Ok?
    ensures r.Ok? ==> Prepend(head, r).next == r.next
  {
  }

  // ---------------------------------------------------------------- attributes

  /** White space from i on, as a text. */
  function BlankFrom(s: Text, i: nat): (blank: Text)
    requires i <= |s|
  {
    s[i..Skip(s, Whitespace, i)]
  }

  lemma BlankDerived(s: Text, i: nat)
    requires i <= |s|
    ensures Blank(BlankFrom(s, i)) && LookingAt(s, i, BlankFrom(s, i))
    ensures i + |BlankFrom(s, i)| == Skip(s, Whitespace, i) <= |s|
    ensures !White(At(s, Skip(s, Whitespace, i)))
  {
  }

  lemma AttributeSteps(s: Text, i: nat, nameEnd: nat, equals: nat, open: nat)
    requires Test(AttributeName, At(s, i)) && ParseAttribute(s, i).Ok?
    requires nameEnd == Skip(s, AttributeName, i + 1) && equals == Skip(s, Whitespace, nameEnd)
    requires open == Skip(s, Whitespace, equals + 1)
    ensures i < nameEnd <= equals < open < ParseAttribute(s, i).next <= |s| && At(s, equals) == '='
    ensures ParseQuoted(s, open).Ok? && ParseQuoted(s, open).next == ParseAttribute(s, i).next
  {
    hide Expand;
  }

  lemma AttributeDerived(s: Text, i: nat) returns (a: AttributeSpelling)
    requires Test(AttributeName, At(s, i)) && ParseAttribute(s, i).Ok?
    ensures a.StandsAt(s, i) && LegalRun(a.value) && a.CloseAt(i) + 1 == ParseAttribute(s, i).next
    ensures a.EndAt(i) == Skip(s, Whitespace, ParseAttribute(s, i).next) <= |s| && i < a.EndAt(i)
  {
    hide Skip, ParseAttribute, ParseQuoted, RunAt, RunSize, LookingAt, LegalRun, Blank, AttributeText, BlankFrom, White;
    var nameEnd := Skip(s, AttributeName, i + 1);
    var equals := Skip(s, Whitespace, nameEnd);
    var open := Skip(s, Whitespace, equals + 1);
    var next := ParseAttribute(s, i).next;
    AttributeSteps(s, i, nameEnd, equals, open);
    NameDerived(s, i);
    BlankDerived(s, nameEnd);
    BlankDerived(s, equals + 1);
    BlankDerived(s, next);
    var run := ValueDerived(s, open);
    a := AttributeSpelling(s[i..nameEnd], BlankFrom(s, nameEnd), BlankFrom(s, equals + 1), s[open], run,
                           BlankFrom(s, next));
  }

  lemma NameDerived(s: Text, i: nat)
    requires Test(AttributeName, At(s, i))
    ensures var nameEnd := Skip(s, AttributeName, i + 1);
            i < nameEnd <= |s| && AttributeText(s[i..nameEnd]) && LookingAt(s, i, s[i..nameEnd])
  {
  }

  lemma ValueDerived(s: Text, open: nat) returns (run: seq<Piece>)
    requires ParseQuoted(s, open).Ok?
    ensures open < |s| && (s[open] == '\'' || s[open] == '"')
    ensures LegalRun(run) && RunAt(s, open + 1, run, s[open])
    ensures At(s, open + 1 + RunSize(run)) == s[open] && open + 1 + RunSize(run) + 1 == ParseQuoted(s, open).next
  {
    hide Expand, RunAt;
    run := RunDerived(s, open + 1, s[open], open + 1);
  }

  lemma {:induction false} AttributesDerived(s: Text, i: nat) returns (attributes: seq<AttributeSpelling>)
    requires ParseAttributes(s, i).Ok? && i <= |s|
    ensures AttributesAt(s, i, attributes) && LegalAttributes(attributes)
    ensures EndOfAttributes(i, attributes) == ParseAttributes(s, i).next
    ensures attributes == [] <==> !Test(AttributeName, At(s, i))
    decreases |s| - i
  {
    hide AttributeSpelling.StandsAt, AttributeSpelling.EndAt, AttributeSpelling.CloseAt, ParseAttribute, Skip, LegalRun;
    if Test(AttributeName, At(s, i)) {
      var a := AttributeDerived(s, i);
      var rest := AttributesDerived(s, a.EndAt(i));
      attributes := [a] + rest;
      assert attributes[1..] == rest;
    } else {
      attributes := [];
    }
  }

  // ---------------------------------------------------------------- markup

  lemma FoundFirst(s: Text, i: nat, mark: Text)
    requires mark != [] && Find(s, i, mark).Ok?
    ensures i <= Find(s, i, mark).value && Find(s, i, mark).next <= |s|
    ensures EndsFirst(s[i..Find(s, i, mark).value], mark)
    ensures LookingAt(s, i, s[i..Find(s, i, mark).value] + mark)
  {
    var end := Find(s, i, mark).value;
    var body := s[i..end];
    SliceIs(s, i, end);
    LookingAtSplit(s, i, body, mark);
    forall x | 0 <= x < |body|
      ensures body[x] != '\0' && !LookingAt(body + mark, x, mark)
    {
      assert s[i + x] != '\0' && !LookingAt(s, i + x, mark);
      if LookingAt(body + mark, x, mark) {
        InsideMark(s, i, body + mark, x, mark);
      }
    }
  }

  lemma InsideMark(s: Text, i: nat, whole: Text, x: nat, mark: Text)
    requires LookingAt(s, i, whole) && LookingAt(whole, x, mark)
    ensures LookingAt(s, i + x, mark)
  {
    forall k | 0 <= k < |mark|
      ensures s[i + x + k] == mark[k]
    {
      assert mark[k] == whole[x..x + |mark|][k] == whole[x + k] == s[i..i + |whole|][x + k];
    }
  }

  /** The first characters decide what is parsed. */
  lemma MarkupIs(s: Text, i: nat)
    requires i <= |s|
    ensures At(s, i) == '?' ==>
              ParseNode(s, i) == NoNode(Find(s, if IsXmlDeclaration(s, i + 1) then i + 5 else i + 1, "?>"))
    ensures At(s, i) == '!' ==>
              ParseNode(s, i)
              == if LookingAt(s, i, "!--") then NoNode(Find(s, i + 3, "-->"))
                 else if LookingAt(s, i, "![CDATA[") then ParseCData(s, i + 8)
                 else if LookingAt(s, i, "!DOCTYPE") && Test(Whitespace, At(s, i + 8)) then
                   NoNode(SkipDoctype(s, i + 9, 0))
                 else NoNode(Find(s, i + 1, ">"))
    ensures At(s, i) != '?' && At(s, i) != '!' ==>
              match ParseElement(s, i)
              case Err(what, at) => ParseNode(s, i) == Err(what, at)
              case Ok(element, next) => ParseNode(s, i) == Ok([element], next)
  {
    hide ParseElement, Find, SkipDoctype, ParseCData, LookingAt, IsXmlDeclaration;
  }

  lemma InstructionDerived(s: Text, i: nat) returns (d: Dropped)
    requires i < |s| && s[i] == '?' && ParseNode(s, i).Ok?
    ensures LegalDropped(d) && LookingAt(s, i, DroppedText(d)) && ParseNode(s, i) == Ok([], i + |DroppedText(d)|)
  {
    hide LookingAt, EndsFirst, ParseNode, Find;
    MarkupIs(s, i);
    if IsXmlDeclaration(s, i + 1) {
      FindEarlier(s, i + 1, "?>");
    }
    var end := Find(s, i + 1, "?>").value;
    FoundFirst(s, i + 1, "?>");
    d := Instruction(s[i + 1..end]);
    CharStands(s, i, "?");
    LookingAtSplit(s, i + 1, s[i + 1..end], "?>");
    LookingAtThree(s, i, "?", s[i + 1..end], "?>");
  }

  /** The four characters that begin a declaration hold no end mark. */
  lemma FindEarlier(s: Text, i: nat, mark: Text)
    requires IsXmlDeclaration(s, i) && mark == "?>"
    ensures Find(s, i, mark) == Find(s, i + 4, mark)
  {
    NotThere(s, i);
    NotThere(s, i + 1);
    NotThere(s, i + 2);
    NotThere(s, i + 3);
    hide LookingAt;
  }

  lemma NotThere(s: Text, i: nat)
    requires At(s, i) != '?' && At(s, i) != '\0'
    ensures Find(s, i, "?>") == Find(s, i + 1, "?>")
  {
    LookingAtChar(s, i, "?>", 0);
  }

  lemma {:induction false} DoctypeDerived(s: Text, i: nat, end: nat, x: nat)
    requires i + x <= end < |s| && s[end] == '>'
    requires var r := SkipDoctype(s, i + x, OpenBrackets(s[i..end], x)); r.Ok? && r.next == end + 1
    ensures OpenBrackets(s[i..end], end - i) == 0
    ensures forall y :: x <= y < end - i ==>
              s[i..end][y] != '\0' && !(s[i..end][y] == '>' && OpenBrackets(s[i..end], y) == 0)
    decreases end - x
  {
    if i + x < end {
      DoctypeDerived(s, i, end, x + 1);
    }
  }

  lemma RemarkDerived(s: Text, i: nat) returns (d: Dropped)
    requires LookingAt(s, i, "!--") && ParseNode(s, i).Ok? && i <= |s|
    ensures LegalDropped(d) && LookingAt(s, i, DroppedText(d)) && ParseNode(s, i) == Ok([], i + |DroppedText(d)|)
  {
    hide LookingAt, EndsFirst, ParseNode, Find;
    MarkupIs(s, i);
    LookingAtChar(s, i, "!--", 0);
    var end := Find(s, i + 3, "-->").value;
    FoundFirst(s, i + 3, "-->");
    d := Remark(s[i + 3..end]);
    LookingAtSplit(s, i + 3, s[i + 3..end], "-->");
    LookingAtThree(s, i, "!--", s[i + 3..end], "-->");
  }

  lemma DocumentTypeDerived(s: Text, i: nat) returns (d: Dropped)
    requires LookingAt(s, i, "!DOCTYPE") && Test(Whitespace, At(s, i + 8)) && ParseNode(s, i).Ok? && i <= |s|
    ensures LegalDropped(d) && LookingAt(s, i, DroppedText(d)) && ParseNode(s, i) == Ok([], i + |DroppedText(d)|)
  {
    hide LookingAt, ParseNode, SkipDoctype;
    MarkupIs(s, i);
    LookingAtChar(s, i, "!DOCTYPE", 0);
    LookingAtChar(s, i, "!DOCTYPE", 1);
    LookingAtChar(s, i, "!--", 1);
    LookingAtChar(s, i, "![CDATA[", 1);
    var skipped := SkipDoctype(s, i + 9, 0);
    var end := skipped.next - 1;
    var body := s[i + 9..end];
    assert OpenBrackets(body, 0) == 0;
    DoctypeDerived(s, i + 9, end, 0);
    d := DocumentType(s[i + 8], body);
    SliceIs(s, i + 9, end);
    CharStands(s, i + 8, [s[i + 8]]);
    CharStands(s, end, ">");
    LookingAtSplit(s, i, "!DOCTYPE", [s[i + 8]]);
    LookingAtThree(s, i, "!DOCTYPE" + [s[i + 8]], body, ">");
  }

  lemma OtherDerived(s: Text, i: nat) returns (d: Dropped)
    requires i < |s| && s[i] == '!' && ParseNode(s, i).Ok?
    requires !LookingAt(s, i, "!--") && !LookingAt(s, i, "![CDATA[")
    requires !(LookingAt(s, i, "!DOCTYPE") && Test(Whitespace, At(s, i + 8)))
    ensures LegalDropped(d) && LookingAt(s, i, DroppedText(d)) && ParseNode(s, i) == Ok([], i + |DroppedText(d)|)
  {
    hide LookingAt, EndsFirst, ParseNode, Find;
    MarkupIs(s, i);
    var end := Find(s, i + 1, ">").value;
    var body := s[i + 1..end];
    FoundFirst(s, i + 1, ">");
    d := Other(body);
    MarkupStands(s, i, body);
    OtherIsLegal(s, i, body);
    assert |body| > 7 ==> body[7] == s[i + 8];
  }

  lemma MarkupStands(s: Text, i: nat, body: Text)
    requires i < |s| && s[i] == '!' && LookingAt(s, i + 1, body + ">")
    ensures LookingAt(s, i, "!" + body + ">")
  {
    CharStands(s, i, "!");
    LookingAtSplit(s, i + 1, body, ">");
    LookingAtThree(s, i, "!", body, ">");
  }

  lemma OtherIsLegal(s: Text, i: nat, body: Text)
    requires i < |s| && s[i] == '!' && LookingAt(s, i + 1, body + ">")
    ensures "--" <= body ==> LookingAt(s, i, "!--")
    ensures "[CDATA[" <= body ==> LookingAt(s, i, "![CDATA[")
    ensures "DOCTYPE" <= body ==> LookingAt(s, i, "!DOCTYPE")
  {
    hide LookingAt;
    PrefixStands(s, i, body, "--", "!--");
    PrefixStands(s, i, body, "[CDATA[", "![CDATA[");
    PrefixStands(s, i, body, "DOCTYPE", "!DOCTYPE");
  }

  lemma PrefixStands(s: Text, i: nat, body: Text, pattern: Text, whole: Text)
    requires i < |s| && s[i] == '!' && LookingAt(s, i + 1, body + ">") && whole == "!" + pattern
    ensures pattern <= body ==> LookingAt(s, i, whole)
  {
    if pattern <= body {
      assert body + ">" == pattern + (body[|pattern|..] + ">");
      LookingAtSplit(s, i + 1, pattern, body[|pattern|..] + ">");
      assert s[i..i + 1] == "!";
      LookingAtSplit(s, i, "!", pattern);
    }
  }

  // ---------------------------------------------------------------- nodes

  lemma {:induction false} ItemDerived(s: Text, i: nat) returns (x: Item)
    requires i < |s| && s[i] == '<' && At(s, i + 1) != '/' && ParseNode(s, i + 1).Ok?
    ensures ItemAt(s, i, x) && LegalItem(x) && EndOfItem(i, x) == ParseNode(s, i + 1).next
    decreases |s| - i, 1
  {
    hide LookingAt, ParseNode, ParseElement, ContentsAt, AttributesAt, EndsFirst, DroppedText;
    MarkupIs(s, i + 1);
    if At(s, i + 1) == '?' {
      var d := InstructionDerived(s, i + 1);
      x := DroppedItem(d);
    } else if At(s, i + 1) == '!' {
      if LookingAt(s, i + 1, "!--") {
        var d := RemarkDerived(s, i + 1);
        x := DroppedItem(d);
      } else if LookingAt(s, i + 1, "![CDATA[") {
        x := CDataDerived(s, i);
      } else if LookingAt(s, i + 1, "!DOCTYPE") && Test(Whitespace, At(s, i + 9)) {
        var d := DocumentTypeDerived(s, i + 1);
        x := DroppedItem(d);
      } else {
        var d := OtherDerived(s, i + 1);
        x := DroppedItem(d);
      }
    } else {
      x := ElementDerived(s, i);
    }
  }

  lemma CDataDerived(s: Text, i: nat) returns (x: Item)
    requires i < |s| && s[i] == '<' && LookingAt(s, i + 1, "![CDATA[") && ParseNode(s, i + 1).Ok?
    ensures ItemAt(s, i, x) && LegalItem(x) && EndOfItem(i, x) == ParseNode(s, i + 1).next
  {
    hide LookingAt, EndsFirst, ParseNode, Find, AttributesAt, BodyAt, ContentsAt;
    MarkupIs(s, i + 1);
    LookingAtChar(s, i + 1, "![CDATA[", 0);
    LookingAtChar(s, i + 1, "![CDATA[", 1);
    LookingAtChar(s, i + 1, "!--", 1);
    var end := Find(s, i + 9, "]]>").value;
    FoundFirst(s, i + 9, "]]>");
    x := CDataItem(s[i + 9..end]);
    LookingAtSplit(s, i + 9, s[i + 9..end], "]]>");
    LookingAtThree(s, i + 1, "![CDATA[", s[i + 9..end], "]]>");
  }

  lemma ElementSteps(s: Text, i: nat, nameEnd: nat, tag: nat)
    requires i < |s| && ParseElement(s, i + 1).Ok? && nameEnd == Skip(s, NodeName, i + 1)
    requires tag == Skip(s, Whitespace, nameEnd)
    ensures i + 1 < nameEnd <= tag <= |s| && ParseAttributes(s, tag).Ok?
    ensures var end, next := ParseAttributes(s, tag).next, ParseElement(s, i + 1).next;
            && end <= |s|
            && (if At(s, end) == '>' then ParseContents(s, end + 1).Ok? && ParseContents(s, end + 1).next == next
                else At(s, end) == '/' && At(s, end + 1) == '>' && next == end + 2)
  {
    hide ParseAttributes, ParseContents, ElementNode;
  }

  lemma ElementName(s: Text, i: nat, nameEnd: nat)
    requires i + 1 < nameEnd == Skip(s, NodeName, i + 1) <= |s| && At(s, i + 1) != '!'
    ensures var name := s[i + 1..nameEnd];
            name != [] && name[0] != '!' && NameText(name) && LookingAt(s, i + 1, name)
    ensures !Test(NodeName, At(s, nameEnd))
  {
  }

  lemma {:induction false} ElementDerived(s: Text, i: nat) returns (x: Item)
    requires i < |s| && s[i] == '<' && At(s, i + 1) != '!' && ParseElement(s, i + 1).Ok?
    ensures ItemAt(s, i, x) && LegalItem(x) && EndOfItem(i, x) == ParseElement(s, i + 1).next
    decreases |s| - i, 0
  {
    hide LookingAt, ParseElement, ParseAttributes, ParseContents, Skip, ContentsAt, AttributesAt, LegalAttributes,
         EndOfAttributes, EndOfContents, NameText, Blank, BlankFrom, LegalContents;
    var nameEnd := Skip(s, NodeName, i + 1);
    var tag := Skip(s, Whitespace, nameEnd);
    ElementSteps(s, i, nameEnd, tag);
    ElementName(s, i, nameEnd);
    BlankDerived(s, nameEnd);
    var attributes := AttributesDerived(s, tag);
    NoAttributeYet(s, nameEnd, tag);
    var end := ParseAttributes(s, tag).next;
    var body := Empty;
    if At(s, end) == '>' {
      var contents := ContentsDerived(s, end + 1);
      body := Full(contents);
    }
    x := ElementItem(s[i + 1..nameEnd], BlankFrom(s, nameEnd), attributes, body);
  }

  /** Without white space behind the name there is no attribute. */
  lemma NoAttributeYet(s: Text, nameEnd: nat, tag: nat)
    requires nameEnd <= |s| && !Test(NodeName, At(s, nameEnd)) && tag == Skip(s, Whitespace, nameEnd)
    ensures BlankFrom(s, nameEnd) == [] ==> !Test(AttributeName, At(s, tag))
  {
  }

  lemma {:induction false} ContentsDerived(s: Text, i: nat) returns (c: Contents)
    requires i <= |s| && ParseContents(s, i).Ok?
    ensures ContentsAt(s, i, c) && LegalContents(c) && EndOfContents(i, c) == ParseContents(s, i).next
    decreases |s| - i, 2
  {
    hide LookingAt, ParseTag, Skip, Expand, RunAt, LegalRun, ItemAt, ClosingAt, RunSize, LegalItem;
    var run := ContentsRunDerived(s, i);
    var k := i + RunSize(run);
    if At(s, k + 1) == '/' {
      var name, gap := ClosingDerived(s, k);
      c := Closing(run, name, gap);
    } else {
      TagSteps(s, k);
      var item := ItemDerived(s, k);
      var rest := ContentsDerived(s, ParseNode(s, k + 1).next);
      c := Then(run, item, rest);
    }
  }

  lemma TagSteps(s: Text, k: nat)
    requires At(s, k) == '<' && At(s, k + 1) != '/' && ParseTag(s, k).Ok?
    ensures k < |s| && ParseNode(s, k + 1).Ok? && k < ParseNode(s, k + 1).next <= |s|
    ensures var next := ParseNode(s, k + 1).next;
            ParseContents(s, next).Ok? && ParseContents(s, next).next == ParseTag(s, k).next
  {
    hide ParseNode, ParseContents;
  }

  /** The text in front of the next tag, and where that tag begins. */
  lemma ContentsRunDerived(s: Text, i: nat) returns (run: seq<Piece>)
    requires i <= |s| && ParseContents(s, i).Ok?
    ensures LegalRun(run) && RunAt(s, i, run, '<')
    ensures At(s, i + RunSize(run)) == '<' && i + RunSize(run) < |s|
    ensures ParseTag(s, i + RunSize(run)).Ok? && ParseTag(s, i + RunSize(run)).next == ParseContents(s, i).next
  {
    hide ParseTag, Expand, RunAt, LegalRun;
    var j := Skip(s, Whitespace, i);
    if At(s, j) == '<' {
      BlankDerived(s, i);
      run := BlankPieces(s, i, BlankFrom(s, i));
    } else {
      run := RunDerived(s, i, '<', i);
    }
  }

  lemma {:induction false} BlankPieces(s: Text, i: nat, blank: Text) returns (run: seq<Piece>)
    requires Blank(blank) && LookingAt(s, i, blank)
    ensures LegalRun(run) && RunAt(s, i, run, '<') && RunSize(run) == |blank|
    decreases |blank|
  {
    if blank == [] {
      run := [];
    } else {
      assert blank == [blank[0]] + blank[1..];
      LookingAtSplit(s, i, [blank[0]], blank[1..]);
      var rest := BlankPieces(s, i + 1, blank[1..]);
      run := [Plain(blank[0])] + rest;
      assert run[1..] == rest;
    }
  }

  lemma ClosingDerived(s: Text, k: nat) returns (name: Text, gap: Text)
    requires At(s, k) == '<' && At(s, k + 1) == '/' && ParseTag(s, k).Ok?
    ensures ClosingAt(s, k, name, gap) && k + 2 + |name| + |gap| + 1 == ParseTag(s, k).next
  {
    hide ParseNode, ParseContents;
    var nameEnd := Skip(s, NodeName, k + 2);
    name := s[k + 2..nameEnd];
    SliceIs(s, k + 2, nameEnd);
    BlankDerived(s, nameEnd);
    gap := BlankFrom(s, nameEnd);
  }

  // ---------------------------------------------------------------- documents

  lemma {:induction false} NodesDerived(s: Text, i: nat) returns (n: Nodes)
    requires i <= |s| && ParseNodes(s, i).Ok?
    ensures NodesAt(s, i, n) && LegalNodes(n)
    decreases |s| - i
  {
    hide LookingAt, ParseNode, Skip, ItemAt, LegalItem, Blank, BlankFrom, EndOfItem;
    var j := Skip(s, Whitespace, i);
    BlankDerived(s, i);
    if At(s, j) == '<' {
      NodesSteps(s, i, j);
      var item := ItemDerived(s, j);
      var rest := NodesDerived(s, ParseNode(s, j + 1).next);
      n := Next(BlankFrom(s, i), item, rest);
    } else {
      n := End(BlankFrom(s, i));
    }
  }

  lemma NodesSteps(s: Text, i: nat, j: nat)
    requires i <= |s| && j == Skip(s, Whitespace, i) && At(s, j) == '<' && ParseNodes(s, i).Ok?
    ensures j < |s| && At(s, j + 1) != '/' && ParseNode(s, j + 1).Ok? && j < ParseNode(s, j + 1).next <= |s|
    ensures ParseNodes(s, ParseNode(s, j + 1).next).Ok?
  {
    hide ParseNode, Skip;
    if At(s, j + 1) == '/' {
      NoNameThere(s, j + 1);
    }
  }

  lemma NoNameThere(s: Text, i: nat)
    requires i <= |s| && At(s, i) == '/'
    ensures ParseNode(s, i).Err?
  {
    hide ParseContents, ParseAttributes;
    MarkupIs(s, i);
    SkipNone(s, NodeName, i);
  }

  /** The parser accepts exactly the spellings of the grammar, and takes each for what it means. */
  lemma ParsesIffSpelled(s: Text, d: Xml, end: nat)
    ensures Parse(s) == Ok(d, end) <==> exists n :: Spells(s, n, d, end)
  {
    hide ParseNodes, NodesAt, LegalNodes, NodesMeaning, EndOfNodes, Spells;
    if Parse(s) == Ok(d, end) {
      var n := DocumentDerived(s);
      SpellingIsParsed(s, n, d, end);
    }
    forall n | Spells(s, n, d, end)
      ensures Parse(s) == Ok(d, end)
    {
      SpellingIsParsed(s, n, d, end);
    }
  }

  lemma DocumentDerived(s: Text) returns (n: Nodes)
    requires Parse(s).Ok?
    ensures Spells(s, n, Parse(s).value, Parse(s).next)
  {
    hide ParseNodes, NodesAt, LegalNodes, NodesMeaning, EndOfNodes;
    n := NodesDerived(s, Start(s));
    NodesRead(s, Start(s), n);
  }
}
