/** Everything the parser builds can be printed and parsed again. */
module XmlReparse {
  import opened XmlText
  import opened XmlTree
  import opened XmlPrinter
  import opened XmlParser
  import opened XmlRoundTrip
  import opened XmlDocument
  import opened XmlTerminators

  lemma ParsedAttribute(s: Text, i: nat)
    requires Test(AttributeName, At(s, i)) && ParseAttribute(s, i).Ok?
    ensures ShapedAttribute(ParseAttribute(s, i).value)
  {
    hide Expand;
    var end := Skip(s, AttributeName, i + 1);
    assert forall x :: 0 <= x < end - i ==> s[i..end][x] == s[i + x] && Test(AttributeName, s[i + x]);
  }

  lemma {:induction false} ParsedAttributes(s: Text, i: nat)
    requires ParseAttributes(s, i).Ok?
    ensures forall a <- ParseAttributes(s, i).value :: ShapedAttribute(a)
    decreases |s| - i
  {
    if Test(AttributeName, At(s, i)) {
      hide ParseAttribute, ShapedAttribute;
      ParsedAttribute(s, i);
      ParsedAttributes(s, Skip(s, Whitespace, ParseAttribute(s, i).next));
    }
  }

  lemma ParsedCData(s: Text, i: nat)
    requires ParseCData(s, i).Ok?
    ensures forall t <- ParseCData(s, i).value :: t.kind == CData && Shaped(t)
  {
    hide LookingAt;
    var end := Find(s, i, "]]>").value;
    LookingAtBounds(s, end, "]]>");
    forall x | 0 <= x < end - i
      ensures s[i..end][x] != '\0' && !LookingAt(s[i..end], x, "]]>")
    {
      assert s[i..end][x] == s[i + x] && !LookingAt(s, i + x, "]]>");
      LookingAtInside(s, i, end, x, "]]>");
    }
  }

  lemma LookingAtBounds(s: Text, i: nat, pattern: Text)
    ensures LookingAt(s, i, pattern) ==> i + |pattern| <= |s|
  {
  }

  lemma LookingAtInside(s: Text, i: nat, end: nat, x: nat, pattern: Text)
    requires i <= end <= |s|
    ensures LookingAt(s[i..end], x, pattern) ==> LookingAt(s, i + x, pattern)
  {
    if LookingAt(s[i..end], x, pattern) {
      var part := s[i..end][x..x + |pattern|];
      assert forall k :: 0 <= k < |pattern| ==> part[k] == s[i + x + k];
      assert s[i + x..i + x + |pattern|] == pattern;
    }
  }

  lemma {:induction false} ParsedNode(s: Text, i: nat)
    requires i <= |s| && ParseNode(s, i).Ok?
    ensures forall t <- ParseNode(s, i).value :: t.kind != Data && Shaped(t)
    decreases |s| - i, 2
  {
    hide Shaped, Find, ParseCData, ParseElement, SkipDoctype, IsXmlDeclaration, LookingAt;
    if At(s, i) == '?' {
    } else if At(s, i) == '!' {
      if LookingAt(s, i, "!--") {
      } else if LookingAt(s, i, "![CDATA[") {
        ParsedCData(s, i + 8);
      }
    } else {
      ParsedElement(s, i);
    }
  }

  lemma {:induction false} ParsedElement(s: Text, i: nat)
    requires i <= |s| && ParseElement(s, i).Ok? && At(s, i) != '!'
    ensures ParseElement(s, i).value.kind == Element && Shaped(ParseElement(s, i).value)
    decreases |s| - i, 1
  {
    hide ParseAttributes, ParseContents, ShapedAttribute, ElementValue, Test;
    var nameEnd := Skip(s, NodeName, i);
    var attributes := Skip(s, Whitespace, nameEnd);
    var end := ParseAttributes(s, attributes).next;
    ParsedAttributes(s, attributes);
    NameIsLegal(s, i, nameEnd);
    NoChildrenNoValue();
    if At(s, end) == '>' {
      ParsedContents(s, end + 1);
      ElementShaped(s[i..nameEnd], ParseAttributes(s, attributes).value, ParseContents(s, end + 1).value);
    } else {
      ElementShaped(s[i..nameEnd], ParseAttributes(s, attributes).value, []);
    }
  }

  lemma NameIsLegal(s: Text, i: nat, end: nat)
    requires end == Skip(s, NodeName, i) && i < end <= |s| && At(s, i) != '!'
    ensures LegalName(s[i..end])
  {
    assert forall x :: 0 <= x < end - i ==> s[i..end][x] == s[i + x] && Test(NodeName, s[i + x]);
  }

  lemma ElementShaped(name: Text, attributes: seq<Attribute<Text>>, children: seq<Xml>)
    requires LegalName(name)
    requires forall a <- attributes :: ShapedAttribute(a)
    requires forall t <- children :: Shaped(t)
    ensures Shaped(ElementNode(name, attributes, children))
  {
    hide LegalName, ShapedAttribute, LegalCData;
    NoChildrenNoValue();
    var t := ElementNode(name, attributes, children);
    assert children == [] ==> t.value == [];
  }

  lemma {:induction false} ParsedContents(s: Text, i: nat)
    requires i <= |s| && ParseContents(s, i).Ok?
    ensures forall t <- ParseContents(s, i).value :: Shaped(t)
    decreases |s| - i, 1
  {
    hide Expand, ParseTag;
    var j := Skip(s, Whitespace, i);
    if At(s, j) == '<' {
      ParsedTag(s, j);
    } else {
      var text := Expand(s, '<', i, i);
      ParsedTag(s, text.next);
      assert Shaped(DataNode(text.value));
    }
  }

  lemma {:induction false} ParsedTag(s: Text, i: nat)
    requires At(s, i) == '<' && ParseTag(s, i).Ok?
    ensures forall t <- ParseTag(s, i).value :: Shaped(t)
    decreases |s| - i, 0
  {
    hide Shaped, ParseNode, ParseContents;
    if At(s, i + 1) != '/' {
      ParsedNode(s, i + 1);
      ParsedContents(s, ParseNode(s, i + 1).next);
    }
  }

  lemma {:induction false} ParsedNodes(s: Text, i: nat)
    requires i <= |s| && ParseNodes(s, i).Ok?
    ensures forall t <- ParseNodes(s, i).value :: t.kind != Data && Shaped(t)
    decreases |s| - i
  {
    hide Shaped, ParseNode;
    var j := Skip(s, Whitespace, i);
    if At(s, j) != '\0' {
      ParsedNode(s, j + 1);
      ParsedNodes(s, ParseNode(s, j + 1).next);
    }
  }

  lemma ParsedDocument(s: Text)
    requires Parse(s).Ok?
    ensures Parse(s).value == DocumentNode(Parse(s).value.children)
    ensures forall t <- Parse(s).value.children :: t.kind != Data && Shaped(t)
  {
    hide ParseNodes;
    ParsedNodes(s, SkipByteOrderMark(s));
  }

  lemma DocumentTerminators(children: seq<Xml>)
    ensures NoTerminators(DocumentNode(children)) <==> forall child <- children :: NoTerminators(child)
  {
    var d := DocumentNode(children);
    assert d.attributes == [] && d.kind != Data;
  }

  /** The printout of a parsed document parses if and only if no reference has put a terminator
      character into it; then it gives the normal form, and from then on printing and parsing
      reproduce the document. */
  lemma ReparseIsStable(s: Text)
    requires Parse(s).Ok?
    ensures var d := Parse(s).value;
            && (Parse(PrintNode(d, false, 0)).Ok? <==> NoTerminators(d))
            && (NoTerminators(d) ==>
                  && Parse(PrintNode(d, false, 0)).value == Normal(d)
                  && Canonical(Normal(d))
                  && (Normal(d) == d <==> Canonical(d)))
  {
    var d := Parse(s).value;
    ParsedDocument(s);
    DocumentTerminators(d.children);
    hide Parse, Normal, PrintNode, Canonical, Legal, NoTerminators, ParseNodes, Shaped;
    PrintoutParsesIff(d);
    if NoTerminators(d) {
      forall child | child in d.children
        ensures Legal(child) && child.kind != Data
      {
        ShapedIsLegal(child);
      }
      assert LegalDocument(d);
      DocumentRoundTrip(d);
      NormalDocumentIsCanonical(d);
      NormalIffCanonical(d);
    }
  }

  // ---------------------------------------------------------------- a document that does not come back

  const ZERO_REFERENCE: Text := "<a>&#0;</a>"

  lemma ZeroReference()
    ensures ReferenceAt(ZERO_REFERENCE, 3) == Numeric(0, 6)
  {
    var s := ZERO_REFERENCE;
    LookingAtChar(s, 3, "&amp;", 1);
    LookingAtChar(s, 3, "&apos;", 1);
    LookingAtChar(s, 3, "&quot;", 1);
    LookingAtChar(s, 3, "&gt;", 1);
    LookingAtChar(s, 3, "&lt;", 1);
    LookingAtChar(s, 3, "&#x", 2);
    assert s[3..5] == "&#";
  }

  lemma ZeroExpanded()
    ensures Expand(ZERO_REFERENCE, '<', 3, 3) == Ok("\0", 7)
  {
    hide ReferenceAt;
    var s := ZERO_REFERENCE;
    ZeroReference();
    ExpandStops(s, '<', 7, 4);
    assert Utf8(0) == "\0" && "\0" + [] == "\0";
  }

  lemma ZeroContents()
    ensures ParseContents(ZERO_REFERENCE, 3) == Ok([DataNode("\0")], 11)
  {
    hide Expand, ParseNode;
    var s := ZERO_REFERENCE;
    ZeroExpanded();
    SkipNone(s, Whitespace, 3);
    assert Skip(s, NodeName, 9) == 10 == Skip(s, Whitespace, 10);
    assert [DataNode("\0")] + [] == [DataNode("\0")];
  }

  lemma ZeroElement()
    ensures ParseElement(ZERO_REFERENCE, 1) == Ok(ElementNode("a", [], [DataNode("\0")]), 11)
  {
    hide ParseContents, ElementNode;
    var s := ZERO_REFERENCE;
    ZeroContents();
    assert Skip(s, NodeName, 1) == 2 && Skip(s, Whitespace, 2) == 2 && s[1..2] == "a";
  }

  lemma ZeroParsed()
    ensures Parse(ZERO_REFERENCE) == Ok(DocumentNode([ElementNode("a", [], [DataNode("\0")])]), 11)
  {
    hide ParseElement, ElementNode, Skip, ParseContents;
    var s := ZERO_REFERENCE;
    ZeroElement();
    assert ParseNode(s, 1) == Ok([ElementNode("a", [], [DataNode("\0")])], 11);
    hide ParseNode;
    SkipNone(s, Whitespace, 0);
    SkipNone(s, Whitespace, 11);
    assert ParseNodes(s, 11) == Ok([], 11);
    assert [ElementNode("a", [], [DataNode("\0")])] + [] == [ElementNode("a", [], [DataNode("\0")])];
  }

  /** A reference to character zero is accepted, and the document it yields has a printout that the
      parser rejects. */
  lemma TerminatorWitness()
    ensures Parse(ZERO_REFERENCE).Ok?
    ensures !NoTerminators(Parse(ZERO_REFERENCE).value)
    ensures Parse(PrintNode(Parse(ZERO_REFERENCE).value, false, 0)).Err?
  {
    hide Parse, PrintNode, Normal, Canonical;
    ZeroParsed();
    var data := DataNode("\0");
    assert !NoTerminators(data) by { assert data.value[0] == '\0'; }
    var element := ElementNode("a", [], [data]);
    assert data in element.children;
    assert !NoTerminators(element);
    var d := DocumentNode([element]);
    assert element in d.children;
    ReparseIsStable(ZERO_REFERENCE);
  }
}
