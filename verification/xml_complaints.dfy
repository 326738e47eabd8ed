/** What the parser complains of, and where: for each message, what stands at the place it names and
    what leads up to it. */
module XmlComplaints {
  import opened XmlText
  import opened XmlTree
  import opened XmlParser
  import opened XmlRoundTrip
  import opened XmlReferences
  import opened XmlGrammar
  import opened XmlAcceptance
  import opened XmlDerivation

  /** From k to i there is only white space. */
  ghost predicate BlankBetween(s: Text, k: nat, i: nat) {
    k <= i <= |s| && Blank(s[k..i])
  }

  /** Behind the name of an attribute, and white space if any, there is no sign. */
  ghost predicate NoEquals(s: Text, at: nat) {
    && At(s, at) != '=' && !White(At(s, at))
    && exists k :: 0 < k <= at && BlankBetween(s, k, at) && AttributeChar(s[k - 1]) && !AttributeChar(At(s, k))
  }

  /** Behind the sign of an attribute, and white space if any, there is no quote. */
  ghost predicate NoOpeningQuote(s: Text, at: nat) {
    && At(s, at) != '\'' && At(s, at) != '"' && !White(At(s, at))
    && exists k :: 0 < k <= at && BlankBetween(s, k, at) && s[k - 1] == '='
  }

  /** The text ends inside a value. */
  ghost predicate NoClosingQuote(s: Text, at: nat) {
    && at <= |s| && At(s, at) == '\0'
    && exists open :: 0 <= open < at && (s[open] == '\'' || s[open] == '"')
                   && forall x :: open < x < at ==> s[x] != s[open] && s[x] != '\0'
  }

  /** Behind the digits of a numeric reference, whose code is in range, there is no semicolon. */
  ghost predicate NoSemicolon(s: Text, at: nat) {
    && At(s, at) != ';' && at <= |s|
    && exists k :: LookingAt(s, k, "&#") && FirstDigit(s, k) <= at
                && LegalDigits(s[FirstDigit(s, k)..at])
                && !LegalDigits([At(s, at)])
                && Code(LookingAt(s, k, "&#x"), s[FirstDigit(s, k)..at]) < 0x11_0000
  }

  /** A reference to a code out of range, at k; `at` is where its character would have been written. */
  ghost predicate OutOfRange(s: Text, at: nat) {
    exists start: nat, run, delimiter ::
      && LegalRun(run) && RunAt(s, start, run, delimiter) && at == start + |RunMeaning(run)|
      && ReferenceOutOfRange(s, start + RunSize(run))
  }

  ghost predicate ReferenceOutOfRange(s: Text, k: nat) {
    && LookingAt(s, k, "&#")
    && exists end :: FirstDigit(s, k) <= end <= |s| && LegalDigits(s[FirstDigit(s, k)..end])
                  && !LegalDigits([At(s, end)])
                  && Code(LookingAt(s, k, "&#x"), s[FirstDigit(s, k)..end]) >= 0x11_0000
  }

  /** Behind the name or the last attribute of an element, and white space if any, its tag does not
      end. */
  ghost predicate NoTagEnd(s: Text, at: nat) {
    && At(s, at) != '>' && At(s, at) != '/' && !White(At(s, at)) && !AttributeChar(At(s, at))
    && exists k :: 0 < k <= at && BlankBetween(s, k, at)
                && ((NameChar(s[k - 1]) && !NameChar(At(s, k))) || s[k - 1] == '\'' || s[k - 1] == '"')
  }

  /** Behind the slash of an empty element. */
  ghost predicate NoEmptyEnd(s: Text, at: nat) {
    0 < at <= |s| && s[at - 1] == '/' && At(s, at) != '>'
  }

  /** Behind the name of a closing tag, and white space if any. */
  ghost predicate NoClosingEnd(s: Text, at: nat) {
    && At(s, at) != '>' && !White(At(s, at))
    && exists k: nat, m: nat :: k + 2 <= m <= at <= |s| && BlankBetween(s, m, at) && s[k] == '<' && s[k + 1] == '/'
                   && NameText(s[k + 2..m]) && !NameChar(At(s, m))
  }

  ghost predicate Complaint(s: Text, what: ParseError, at: nat) {
    match what
    case UnexpectedEnd => at <= |s| && At(s, at) == '\0'
    case ExpectedLt => At(s, at) != '<' && At(s, at) != '\0' && !White(At(s, at))
    case ExpectedElementName =>
      0 < at <= |s| && s[at - 1] == '<' && !NameChar(At(s, at)) && At(s, at) != '?' && At(s, at) != '!'
    case ExpectedEquals => NoEquals(s, at)
    case ExpectedQuote => NoOpeningQuote(s, at) || NoClosingQuote(s, at)
    case ExpectedSemicolon => NoSemicolon(s, at)
    case InvalidNumericEntity => OutOfRange(s, at)
    case ExpectedGt => NoTagEnd(s, at) || NoEmptyEnd(s, at) || NoClosingEnd(s, at)
  }

  // ---------------------------------------------------------------- text

  /** Expansion fails at a reference, after the pieces in front of it. */
  lemma {:induction false} ExpandFails(s: Text, delimiter: char, i: nat, dest: nat) returns (run: seq<Piece>)
    requires IsDelimiter(delimiter) && Expand(s, delimiter, i, dest).Err?
    ensures LegalRun(run) && RunAt(s, i, run, delimiter)
    ensures var k, r := i + RunSize(run), Expand(s, delimiter, i, dest);
            && ReferenceAt(s, k).Numeric?
            && r == (if ReferenceAt(s, k).code >= UNICODE_LIMIT then
                       Err(InvalidNumericEntity, dest + |RunMeaning(run)|)
                     else Err(ExpectedSemicolon, ReferenceAt(s, k).end))
            && (ReferenceAt(s, k).code < UNICODE_LIMIT ==> At(s, ReferenceAt(s, k).end) != ';')
    decreases |s| - i
  {
    hide PieceAt, PieceText, PieceMeaning, LegalPiece, Expand, ReferenceAt, Prepend;
    ExpandHead(s, delimiter, i, dest);
    if ReferenceAt(s, i).Numeric? && NumberFails(s, i) {
      run := [];
    } else {
      var p := HeadPiece(s, i, delimiter);
      PieceRead(s, i, p, delimiter, dest);
      PrependOk(PieceMeaning(p), Expand(s, delimiter, i + |PieceText(p)|, dest + |PieceMeaning(p)|));
      PrependFails(PieceMeaning(p), Expand(s, delimiter, i + |PieceText(p)|, dest + |PieceMeaning(p)|));
      var rest := ExpandFails(s, delimiter, i + |PieceText(p)|, dest + |PieceMeaning(p)|);
      run := [p] + rest;
      assert run[1..] == rest;
    }
  }

  lemma PrependFails(head: Text, r: Parsed<Text>)
    ensures r.Err? ==> Prepend(head, r) == Err(r.what, r.at)
  {
  }

  lemma ExpandHead(s: Text, delimiter: char, i: nat, dest: nat)
    requires Expand(s, delimiter, i, dest).Err?
    ensures Test(Until(delimiter), At(s, i))
    ensures ReferenceAt(s, i).Numeric? && NumberFails(s, i) ==>
              Expand(s, delimiter, i, dest)
              == if ReferenceAt(s, i).code >= UNICODE_LIMIT then Err(InvalidNumericEntity, dest)
                 else Err(ExpectedSemicolon, ReferenceAt(s, i).end)
  {
    hide ReferenceAt, Prepend;
  }

  /** The digits of a reference as the parser reads them. */
  lemma DigitsRead(s: Text, k: nat)
    requires ReferenceAt(s, k).Numeric?
    ensures LookingAt(s, k, "&#")
    ensures var first, end := FirstDigit(s, k), ReferenceAt(s, k).end;
            && first <= end <= |s| && LegalDigits(s[first..end]) && !LegalDigits([At(s, end)])
            && Code(LookingAt(s, k, "&#x"), s[first..end]) == ReferenceAt(s, k).code
  {
    HashAt(s, k);
    NoDigitBehind(s, k);
    hide ReferenceAt, LookingAt, Number, FirstDigit, BaseOf;
    ParserReads(s, k);
    BaseIs(s, k);
  }

  lemma NoDigitBehind(s: Text, k: nat)
    requires ReferenceAt(s, k).Numeric?
    ensures !LegalDigits([At(s, ReferenceAt(s, k).end)])
  {
    hide LookingAt, DigitsCode, DigitsEnd;
    var end := ReferenceAt(s, k).end;
    assert !IsDigit(At(s, end));
    assert [At(s, end)][0] == At(s, end);
  }

  lemma ExpandComplains(s: Text, delimiter: char, i: nat)
    requires IsDelimiter(delimiter) && Expand(s, delimiter, i, i).Err?
    ensures Complaint(s, Expand(s, delimiter, i, i).what, Expand(s, delimiter, i, i).at)
  {
    hide Expand, ReferenceAt, LookingAt, RunAt, RunSize, RunMeaning, LegalRun, FirstDigit, Code, LegalDigits;
    var run := ExpandFails(s, delimiter, i, i);
    var k := i + RunSize(run);
    DigitsRead(s, k);
    if ReferenceAt(s, k).code >= UNICODE_LIMIT {
      RangeComplaint(s, i, run, delimiter, ReferenceAt(s, k).end);
    } else {
      SemicolonComplaint(s, k, ReferenceAt(s, k).end);
    }
  }

  lemma RangeComplaint(s: Text, i: nat, run: seq<Piece>, delimiter: char, end: nat)
    requires LegalRun(run) && RunAt(s, i, run, delimiter) && LookingAt(s, i + RunSize(run), "&#")
    requires var k := i + RunSize(run);
             && FirstDigit(s, k) <= end <= |s| && LegalDigits(s[FirstDigit(s, k)..end]) && !LegalDigits([At(s, end)])
             && Code(LookingAt(s, k, "&#x"), s[FirstDigit(s, k)..end]) >= 0x11_0000
    ensures OutOfRange(s, i + |RunMeaning(run)|)
  {
    hide RunAt, RunSize, RunMeaning, LegalRun, LookingAt, FirstDigit, Code, LegalDigits;
    assert ReferenceOutOfRange(s, i + RunSize(run));
  }

  lemma SemicolonComplaint(s: Text, k: nat, end: nat)
    requires LookingAt(s, k, "&#") && FirstDigit(s, k) <= end <= |s| && At(s, end) != ';'
    requires LegalDigits(s[FirstDigit(s, k)..end]) && !LegalDigits([At(s, end)])
    requires Code(LookingAt(s, k, "&#x"), s[FirstDigit(s, k)..end]) < 0x11_0000
    ensures NoSemicolon(s, end)
  {
    hide LookingAt, FirstDigit, Code, LegalDigits;
  }

  // ---------------------------------------------------------------- marks and declarations

  lemma {:induction false} FindComplains(s: Text, i: nat, mark: Text)
    requires mark != [] && i <= |s| && Find(s, i, mark).Err?
    ensures Complaint(s, Find(s, i, mark).what, Find(s, i, mark).at)
    decreases |s| - i
  {
    hide LookingAt;
    if At(s, i) != '\0' {
      FindComplains(s, i + 1, mark);
    }
  }

  lemma DoctypeComplains(s: Text, i: nat)
    requires i <= |s| && SkipDoctype(s, i, 0).Err?
    ensures Complaint(s, SkipDoctype(s, i, 0).what, SkipDoctype(s, i, 0).at)
  {
    DoctypeEnds(s, i, i);
  }

  // ---------------------------------------------------------------- attributes

  lemma BlankSkippedOver(s: Text, i: nat)
    requires i <= |s|
    ensures BlankBetween(s, i, Skip(s, Whitespace, i)) && !White(At(s, Skip(s, Whitespace, i)))
  {
  }

  lemma QuotedComplains(s: Text, k: nat, open: nat)
    requires 0 < k <= open && BlankBetween(s, k, open) && s[k - 1] == '=' && !White(At(s, open))
    requires ParseQuoted(s, open).Err?
    ensures Complaint(s, ParseQuoted(s, open).what, ParseQuoted(s, open).at)
  {
    hide Expand;
    if IsQuote(At(s, open)) {
      if Expand(s, s[open], open + 1, open + 1).Err? {
        ExpandComplains(s, s[open], open + 1);
      } else {
        ValueUnclosed(s, open, s[open]);
      }
    }
  }

  /** Text that ends before its delimiter holds neither the delimiter nor a terminator. */
  lemma ValueUnclosed(s: Text, open: nat, quote: char)
    requires open < |s| && s[open] == quote && IsQuote(quote)
    requires Expand(s, quote, open + 1, open + 1).Ok?
    requires At(s, Expand(s, quote, open + 1, open + 1).next) != quote
    ensures NoClosingQuote(s, Expand(s, quote, open + 1, open + 1).next)
  {
    PassedOver(s, quote, open + 1, open + 1);
  }

  lemma {:induction false} PassedOver(s: Text, delimiter: char, i: nat, dest: nat)
    requires IsDelimiter(delimiter) && i <= |s| && Expand(s, delimiter, i, dest).Ok?
    ensures var end := Expand(s, delimiter, i, dest).next;
            && end <= |s| && forall x :: i <= x < end ==> s[x] != delimiter && s[x] != '\0'
    decreases |s| - i
  {
    hide Expand, PieceText, PieceMeaning, Prepend, LegalPiece, LookingAt;
    if Test(Until(delimiter), At(s, i)) {
      var p := PieceDerived(s, i, delimiter, dest);
      PieceLegal(s, i, p, delimiter);
      PieceRead(s, i, p, delimiter, dest);
      PrependOk(PieceMeaning(p), Expand(s, delimiter, i + |PieceText(p)|, dest + |PieceMeaning(p)|));
      PassedOver(s, delimiter, i + |PieceText(p)|, dest + |PieceMeaning(p)|);
      PieceClean(s, i, p, delimiter);
    } else {
      ExpandStops(s, delimiter, i, dest);
    }
  }

  lemma PieceClean(s: Text, i: nat, p: Piece, delimiter: char)
    requires PieceAt(s, i, p, delimiter) && IsDelimiter(delimiter) && i + |PieceText(p)| <= |s|
    ensures forall x :: i <= x < i + |PieceText(p)| ==> s[x] != delimiter && s[x] != '\0'
  {
    hide LookingAt, PieceText;
    forall x | i <= x < i + |PieceText(p)|
      ensures s[x] != delimiter && s[x] != '\0'
    {
      TextClean(p, delimiter, x - i);
      LookingAtChar(s, i, PieceText(p), x - i);
    }
  }

  lemma TextClean(p: Piece, delimiter: char, x: nat)
    requires LegalPiece(p) && x < |PieceText(p)| && IsDelimiter(delimiter)
    requires p.Plain? ==> p.c != delimiter && p.c != '\0'
    ensures PieceText(p)[x] != delimiter && PieceText(p)[x] != '\0'
  {
    hide NumberedText, NamedText;
    match p
    case Plain(c) =>
    case Named(c) => NamedClean(c, x);
    case Numbered(hex, digits) => NumberedClean(hex, digits, x);
  }

  lemma NamedClean(c: char, x: nat)
    requires HasName(c) && x < |NamedText(c)|
    ensures !IsDelimiter(NamedText(c)[x]) && NamedText(c)[x] != '\0'
  {
  }

  lemma NumberedClean(hex: bool, digits: Text, x: nat)
    requires LegalDigits(digits) && x < |NumberedText(hex, digits)|
    ensures !IsDelimiter(NumberedText(hex, digits)[x]) && NumberedText(hex, digits)[x] != '\0'
  {
    var prefix := if hex then "&#x" else "&#";
    if x >= |prefix| && x < |prefix| + |digits| {
      assert NumberedText(hex, digits)[x] == digits[x - |prefix|];
    }
  }

  lemma AttributeComplains(s: Text, i: nat)
    requires Test(AttributeName, At(s, i)) && ParseAttribute(s, i).Err?
    ensures Complaint(s, ParseAttribute(s, i).what, ParseAttribute(s, i).at)
  {
    hide ParseQuoted, Skip, Complaint;
    var nameEnd := Skip(s, AttributeName, i + 1);
    var equals := Skip(s, Whitespace, nameEnd);
    NameDerived(s, i);
    BlankSkippedOver(s, nameEnd);
    if At(s, equals) != '=' {
      EqualsComplaint(s, i, nameEnd, equals);
    } else {
      BlankSkippedOver(s, equals + 1);
      QuotedComplains(s, equals + 1, Skip(s, Whitespace, equals + 1));
    }
  }

  lemma EqualsComplaint(s: Text, i: nat, nameEnd: nat, equals: nat)
    requires Test(AttributeName, At(s, i)) && nameEnd == Skip(s, AttributeName, i + 1)
    requires BlankBetween(s, nameEnd, equals) && At(s, equals) != '=' && !White(At(s, equals))
    ensures Complaint(s, ExpectedEquals, equals)
  {
    assert Test(AttributeName, At(s, nameEnd - 1));
    assert AttributeChar(s[nameEnd - 1]) && !AttributeChar(At(s, nameEnd));
  }

  lemma {:induction false} AttributesComplain(s: Text, i: nat)
    requires i <= |s| && ParseAttributes(s, i).Err?
    ensures Complaint(s, ParseAttributes(s, i).what, ParseAttributes(s, i).at)
    decreases |s| - i
  {
    hide ParseAttribute, Skip, Complaint;
    if ParseAttribute(s, i).Err? {
      AttributeComplains(s, i);
    } else {
      AttributesComplain(s, Skip(s, Whitespace, ParseAttribute(s, i).next));
    }
  }

  /** The last attribute ends with a quote, and with white space behind it. */
  lemma {:induction false} AttributesTail(s: Text, i: nat) returns (k: nat)
    requires i <= |s| && ParseAttributes(s, i).Ok? && Test(AttributeName, At(s, i))
    ensures 0 < k <= ParseAttributes(s, i).next && BlankBetween(s, k, ParseAttributes(s, i).next)
    ensures (s[k - 1] == '\'' || s[k - 1] == '"') && !White(At(s, ParseAttributes(s, i).next))
    decreases |s| - i
  {
    hide ParseAttribute, Skip;
    var a := AttributeDerived(s, i);
    var next := ParseAttribute(s, i).next;
    BlankSkippedOver(s, next);
    if Test(AttributeName, At(s, Skip(s, Whitespace, next))) {
      k := AttributesTail(s, Skip(s, Whitespace, next));
    } else {
      k := next;
      QuoteBefore(s, i, a);
    }
  }

  lemma QuoteBefore(s: Text, i: nat, a: AttributeSpelling)
    requires a.StandsAt(s, i)
    ensures a.CloseAt(i) < |s| && (s[a.CloseAt(i)] == '\'' || s[a.CloseAt(i)] == '"')
  {
    hide LookingAt, RunAt, RunSize;
  }

  // ---------------------------------------------------------------- nodes

  lemma {:induction false} NodeComplains(s: Text, i: nat)
    requires i <= |s| && 0 < i && s[i - 1] == '<' && ParseNode(s, i).Err?
    ensures Complaint(s, ParseNode(s, i).what, ParseNode(s, i).at)
    decreases |s| - i, 2
  {
    hide ParseNode, ParseElement, Find, SkipDoctype, LookingAt, Complaint;
    MarkupIs(s, i);
    if At(s, i) == '?' {
      FindComplains(s, if IsXmlDeclaration(s, i + 1) then i + 5 else i + 1, "?>");
    } else if At(s, i) == '!' {
      MarkupComplains(s, i);
    } else {
      ElementComplains(s, i);
    }
  }

  lemma MarkupComplains(s: Text, i: nat)
    requires i < |s| && s[i] == '!' && ParseNode(s, i).Err?
    ensures Complaint(s, ParseNode(s, i).what, ParseNode(s, i).at)
  {
    hide ParseNode, Find, SkipDoctype, LookingAt, Complaint;
    MarkupIs(s, i);
    if LookingAt(s, i, "!--") {
      LookingAtInside(s, i, "!--");
      FindComplains(s, i + 3, "-->");
    } else if LookingAt(s, i, "![CDATA[") {
      LookingAtInside(s, i, "![CDATA[");
      FindComplains(s, i + 8, "]]>");
    } else if LookingAt(s, i, "!DOCTYPE") && Test(Whitespace, At(s, i + 8)) {
      DoctypeComplains(s, i + 9);
    } else {
      FindComplains(s, i + 1, ">");
    }
  }

  lemma {:induction false} ElementComplains(s: Text, i: nat)
    requires i <= |s| && 0 < i && s[i - 1] == '<' && ParseElement(s, i).Err?
    requires At(s, i) != '?' && At(s, i) != '!'
    ensures Complaint(s, ParseElement(s, i).what, ParseElement(s, i).at)
    decreases |s| - i, 1
  {
    hide ParseAttributes, ParseContents, Skip, Complaint;
    var nameEnd := Skip(s, NodeName, i);
    if nameEnd == i {
      NameComplaint(s, i);
    } else {
      var tag := Skip(s, Whitespace, nameEnd);
      BlankSkippedOver(s, nameEnd);
      if ParseAttributes(s, tag).Err? {
        AttributesComplain(s, tag);
      } else {
        var end := ParseAttributes(s, tag).next;
        if At(s, end) == '>' {
          ContentsComplain(s, end + 1);
        } else if At(s, end) != '/' {
          TagComplaint(s, i, nameEnd, tag);
        } else {
          assert Complaint(s, ExpectedGt, end + 1) by { EmptyComplaint(s, end + 1); }
        }
      }
    }
  }

  lemma NameComplaint(s: Text, i: nat)
    requires i <= |s| && 0 < i && s[i - 1] == '<' && Skip(s, NodeName, i) == i && At(s, i) != '?' && At(s, i) != '!'
    ensures Complaint(s, ExpectedElementName, i)
  {
  }

  lemma EmptyComplaint(s: Text, at: nat)
    requires 0 < at <= |s| && s[at - 1] == '/' && At(s, at) != '>'
    ensures Complaint(s, ExpectedGt, at)
  {
  }

  lemma TagComplaint(s: Text, i: nat, nameEnd: nat, tag: nat)
    requires i < nameEnd == Skip(s, NodeName, i) && nameEnd <= |s| && tag == Skip(s, Whitespace, nameEnd)
    requires ParseAttributes(s, tag).Ok?
    requires At(s, ParseAttributes(s, tag).next) != '>' && At(s, ParseAttributes(s, tag).next) != '/'
    ensures Complaint(s, ExpectedGt, ParseAttributes(s, tag).next)
  {
    hide ParseAttribute;
    BlankSkippedOver(s, nameEnd);
    if Test(AttributeName, At(s, tag)) {
      var k := AttributesTail(s, tag);
      assert NoTagEnd(s, ParseAttributes(s, tag).next);
    } else {
      assert NameChar(s[nameEnd - 1]) && !NameChar(At(s, nameEnd));
      assert NoTagEnd(s, tag);
    }
  }

  lemma {:induction false} ContentsComplain(s: Text, i: nat)
    requires i <= |s| && ParseContents(s, i).Err?
    ensures Complaint(s, ParseContents(s, i).what, ParseContents(s, i).at)
    decreases |s| - i, 1
  {
    hide ParseTag, Expand, Skip, Complaint;
    var j := Skip(s, Whitespace, i);
    if At(s, j) == '<' {
      TagComplains(s, j);
    } else if At(s, j) == '\0' {
      EndComplaint(s, j);
    } else if Expand(s, '<', i, i).Err? {
      ExpandComplains(s, '<', i);
    } else {
      var end := Expand(s, '<', i, i).next;
      if At(s, end) != '<' {
        PassedOver(s, '<', i, i);
        EndComplaint(s, end);
      } else {
        TagComplains(s, end);
      }
    }
  }

  lemma EndComplaint(s: Text, at: nat)
    requires at <= |s| && At(s, at) == '\0'
    ensures Complaint(s, UnexpectedEnd, at)
  {
  }

  lemma {:induction false} TagComplains(s: Text, i: nat)
    requires At(s, i) == '<' && ParseTag(s, i).Err?
    ensures Complaint(s, ParseTag(s, i).what, ParseTag(s, i).at)
    decreases |s| - i, 0
  {
    hide ParseNode, ParseContents, Complaint;
    if At(s, i + 1) == '/' {
      ClosingComplaint(s, i);
    } else if ParseNode(s, i + 1).Err? {
      NodeComplains(s, i + 1);
    } else {
      ContentsComplain(s, ParseNode(s, i + 1).next);
    }
  }

  lemma ClosingComplaint(s: Text, i: nat)
    requires At(s, i) == '<' && At(s, i + 1) == '/'
    requires At(s, Skip(s, Whitespace, Skip(s, NodeName, i + 2))) != '>'
    ensures Complaint(s, ExpectedGt, Skip(s, Whitespace, Skip(s, NodeName, i + 2)))
  {
    var m := Skip(s, NodeName, i + 2);
    BlankSkippedOver(s, m);
    assert NameText(s[i + 2..m]) && !NameChar(At(s, m));
    assert NoClosingEnd(s, Skip(s, Whitespace, m));
  }

  lemma {:induction false} NodesComplain(s: Text, i: nat)
    requires i <= |s| && ParseNodes(s, i).Err?
    ensures Complaint(s, ParseNodes(s, i).what, ParseNodes(s, i).at)
    decreases |s| - i
  {
    hide ParseNode, Skip, Complaint;
    var j := Skip(s, Whitespace, i);
    BlankSkippedOver(s, i);
    if At(s, j) != '\0' {
      if At(s, j) != '<' {
        LtComplaint(s, j);
      } else if ParseNode(s, j + 1).Err? {
        NodeComplains(s, j + 1);
      } else {
        NodesComplain(s, ParseNode(s, j + 1).next);
      }
    }
  }

  lemma LtComplaint(s: Text, at: nat)
    requires At(s, at) != '<' && At(s, at) != '\0' && !White(At(s, at))
    ensures Complaint(s, ExpectedLt, at)
  {
  }

  /** Whatever the text: if the parser does not accept it, the message fits the place. */
  lemma ParseComplains(s: Text)
    requires Parse(s).Err?
    ensures Complaint(s, Parse(s).what, Parse(s).at)
  {
    hide ParseNodes, Complaint;
    NodesComplain(s, Start(s));
  }
}
