/** What printouts look like, character by character, and how they fit the grammar. */
module XmlLayout {
  import opened XmlText
  import opened XmlTree
  import opened XmlPrinter
  import opened XmlParser
  import opened XmlRoundTrip
  import opened XmlDocument
  import opened XmlGrammar
  import opened XmlAcceptance
  import opened XmlDerivation

  /** The unindented printout of a legal document is a spelling of its normal form. */
  lemma PrintoutSpells(d: Xml)
    requires LegalDocument(d)
    ensures exists n :: Spells(PrintNode(d, false, 0), n, Normal(d), |PrintNode(d, false, 0)|)
  {
    hide Parse, PrintNode, Normal, Legal, Spells;
    DocumentRoundTrip(d);
    var n := DocumentDerived(PrintNode(d, false, 0));
  }

  // ---------------------------------------------------------------- characters

  /** Five characters are printed by their names, unless they are to be left alone. */
  lemma EscapedByName(c: char, noexpand: char)
    ensures EscapeChar(c, noexpand) == if HasName(c) && c != noexpand then NamedText(c) else [c]
  {
  }

  // ---------------------------------------------------------------- lines

  /** An indented node is a line or more: as many tabs as it is deep, the node, and a line break. */
  lemma LineOfNode(t: Xml, indent: nat)
    requires t.kind != NodeKind.Document
    ensures var p := PrintNode(t, true, indent);
            && |p| == indent + |PrintBody(t, true, indent)| + 1
            && (forall x :: 0 <= x < indent ==> p[x] == '\t')
            && p[indent..|p| - 1] == PrintBody(t, true, indent)
            && p[|p| - 1] == '\n'
  {
    hide PrintBody;
  }

  /** Children are one deeper than their element, whose closing tag stands under its opening one. */
  lemma LinesOfChildren(t: Xml, indent: nat)
    requires t.children != [] && !IsSoleData(t.children)
    ensures var c := PrintContent(t, true, indent);
            && c[0] == '\n'
            && |c| == 1 + |PrintChildren(t.children, true, indent + 1)| + indent
            && c[1..|c| - indent] == PrintChildren(t.children, true, indent + 1)
            && forall x :: |c| - indent <= x < |c| ==> c[x] == '\t'
  {
    hide PrintChildren;
  }

  // ---------------------------------------------------------------- samples

  const ATTRIBUTE: Attribute<Text> := Attribute("b", "c\"<")

  /** A value with a double quote stands between single ones. */
  lemma AttributeSample()
    ensures PrintAttribute(ATTRIBUTE) == " b='c\"&lt;'"
  {
    assert Escape("<", '"') == "&lt;";
    assert "\"<"[1..] == "<" && "c\"<"[1..] == "\"<";
    assert Escape("\"<", '"') == "\"" + "&lt;";
    assert Escape("c\"<", '"') == "c" + ("\"" + "&lt;");
    assert ATTRIBUTE.value[1] == '"';
  }

  lemma PlainAttributeSample()
    ensures PrintAttribute(Attribute("b", "c")) == " b=\"c\""
  {
    assert Escape("c", '\'') == "c";
  }

  const EMPTY: Xml := Tree(Element, "a", [], [], [])

  lemma EmptySample()
    ensures PrintNode(EMPTY, false, 0) == "<a/>" && PrintNode(EMPTY, true, 1) == "\t<a/>\n"
  {
  }

  lemma ValueSample()
    ensures PrintNode(Tree(Element, "a", ">", [], []), true, 1) == "\t<a>&gt;</a>\n"
  {
    assert Escape(">", '\0') == "&gt;";
  }

  lemma ChildSample()
    ensures PrintNode(Tree(Element, "a", [], [], [EMPTY]), true, 0) == "<a>\n\t<a/>\n</a>\n"
  {
    EmptySample();
    assert PrintChildren([EMPTY], true, 1) == PrintNode(EMPTY, true, 1) + PrintChildren([EMPTY][1..], true, 1);
    hide PrintChildren;
    var t := Tree(Element, "a", [], [], [EMPTY]);
    assert PrintContent(t, true, 0) == "\n" + "\t<a/>\n" + [];
    assert PrintElement(t, true, 0) == "<a>" + ("\n" + "\t<a/>\n") + "</a>";
  }

  // ---------------------------------------------------------------- nodes that the parser drops

  /** Comments, document types and processing instructions are printed as the grammar writes them. */
  lemma DroppedPrinted(t: Xml, indented: bool, indent: nat)
    ensures t.kind == Comment ==> PrintBody(t, indented, indent) == "<" + DroppedText(Remark(t.value))
    ensures t.kind == Doctype ==> PrintBody(t, indented, indent) == "<" + DroppedText(DocumentType(' ', t.value))
    ensures t.kind == Pi ==>
              PrintBody(t, indented, indent) == "<" + DroppedText(Instruction(t.name + " " + t.value))
    ensures t.kind == Declaration ==>
              PrintBody(t, indented, indent) == "<" + DroppedText(Instruction("xml" + PrintAttributes(t.attributes)))
    ensures t.kind == CData ==> PrintBody(t, indented, indent) == "<" + ("![CDATA[" + t.value + "]]>")
  {
    hide PrintAttributes;
  }

  /** So the parser passes over a printed comment whose text does not hold the end mark, wherever it
      stands, and likewise over the others. */
  lemma CommentPassedOver(s: Text, i: nat, t: Xml, indented: bool, indent: nat)
    requires t.kind == Comment && EndsFirst(t.value, "-->") && LookingAt(s, i, PrintBody(t, indented, indent))
    ensures At(s, i) == '<' && i + 1 <= |s| && ParseNode(s, i + 1) == Ok([], i + |PrintBody(t, indented, indent)|)
  {
    DroppedPrinted(t, indented, indent);
    DroppedPassedOver(s, i, Remark(t.value));
  }

  lemma DroppedPassedOver(s: Text, i: nat, d: Dropped)
    requires LegalDropped(d) && LookingAt(s, i, "<" + DroppedText(d))
    ensures At(s, i) == '<' && i + 1 <= |s| && ParseNode(s, i + 1) == Ok([], i + 1 + |DroppedText(d)|)
  {
    hide LookingAt, DroppedText, LegalDropped, ParseNode;
    LookingAtSplit(s, i, "<", DroppedText(d));
    LookingAtChar(s, i, "<", 0);
    LookingAtInside(s, i, "<");
    DroppedRead(s, i + 1, d);
  }

  lemma InstructionPassedOver(s: Text, i: nat, t: Xml, indented: bool, indent: nat)
    requires t.kind == Pi && EndsFirst(t.name + " " + t.value, "?>")
    requires LookingAt(s, i, PrintBody(t, indented, indent))
    ensures At(s, i) == '<' && i + 1 <= |s| && ParseNode(s, i + 1) == Ok([], i + |PrintBody(t, indented, indent)|)
  {
    DroppedPrinted(t, indented, indent);
    DroppedPassedOver(s, i, Instruction(t.name + " " + t.value));
  }

  lemma DoctypePassedOver(s: Text, i: nat, t: Xml, indented: bool, indent: nat)
    requires t.kind == Doctype && LegalDropped(DocumentType(' ', t.value))
    requires LookingAt(s, i, PrintBody(t, indented, indent))
    ensures At(s, i) == '<' && i + 1 <= |s| && ParseNode(s, i + 1) == Ok([], i + |PrintBody(t, indented, indent)|)
  {
    DroppedPrinted(t, indented, indent);
    DroppedPassedOver(s, i, DocumentType(' ', t.value));
  }

  lemma DeclarationPassedOver(s: Text, i: nat, t: Xml, indented: bool, indent: nat)
    requires t.kind == Declaration && EndsFirst("xml" + PrintAttributes(t.attributes), "?>")
    requires LookingAt(s, i, PrintBody(t, indented, indent))
    ensures At(s, i) == '<' && i + 1 <= |s| && ParseNode(s, i + 1) == Ok([], i + |PrintBody(t, indented, indent)|)
  {
    DroppedPrinted(t, indented, indent);
    DroppedPassedOver(s, i, Instruction("xml" + PrintAttributes(t.attributes)));
  }

  // ---------------------------------------------------------------- element values

  predicate LooksEmpty(v: Text) {
    v == [] || v[0] == '\0'
  }

  /** The value of an element is that of its first data child that does not look empty; if all look
      empty, it is that of the last one. k is the place of that child, or the number of children. */
  lemma {:induction false} ElementValueIs(value: Text, children: seq<Xml>, k: nat)
    requires LooksEmpty(value) && k <= |children| && (k < |children| ==> children[k].kind == Data)
    requires forall i :: 0 <= i < k && children[i].kind == Data ==> LooksEmpty(children[i].value)
    requires k < |children| && LooksEmpty(children[k].value) ==>
               forall i :: k < i < |children| ==> children[i].kind != Data
    requires k == |children| ==> forall i :: 0 <= i < |children| ==> children[i].kind != Data
    ensures ElementValue(value, children) == if k < |children| then children[k].value else value
    decreases |children|
  {
    if children != [] {
      var first, rest := children[0], children[1..];
      assert forall i :: 0 <= i < |rest| ==> rest[i] == children[i + 1];
      if k == 0 {
        if LooksEmpty(first.value) {
          ElementValueIs(first.value, rest, |rest|);
        } else {
          ValueStays(first.value, rest);
        }
      } else {
        ElementValueIs(if first.kind == Data then first.value else value, rest, k - 1);
      }
    }
  }

  lemma {:induction false} ValueStays(value: Text, children: seq<Xml>)
    requires !LooksEmpty(value)
    ensures ElementValue(value, children) == value
    decreases |children|
  {
    if children != [] {
      ValueStays(value, children[1..]);
    }
  }
}
