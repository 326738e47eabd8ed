/** What the printer writes, as a function of the tree. */
module XmlPrinter {
  import opened Basics
  import opened XmlText
  import opened XmlTree

  function EscapeChar(c: char, noexpand: char): Text {
    if c == noexpand then [c]
    else if c == '<' then "&lt;"
    else if c == '>' then "&gt;"
    else if c == '\'' then "&apos;"
    else if c == '"' then "&quot;"
    else if c == '&' then "&amp;"
    else [c]
  }

  function Escape(v: Text, noexpand: char): Text {
    if v == [] then [] else EscapeChar(v[0], noexpand) + Escape(v[1..], noexpand)
  }

  /** The quote an attribute value is delimited with, and the one left alone inside it. */
  function QuoteFor(value: Text): char {
    if '"' in value then '\'' else '"'
  }

  function KeptQuote(value: Text): char {
    if '"' in value then '"' else '\''
  }

  function PrintAttribute(a: Attribute<Text>): Text {
    " " + a.name + "=" + [QuoteFor(a.value)] + Escape(a.value, KeptQuote(a.value)) + [QuoteFor(a.value)]
  }

  function PrintAttributes(attributes: seq<Attribute<Text>>): Text {
    if attributes == [] then [] else PrintAttribute(attributes[0]) + PrintAttributes(attributes[1..])
  }

  function Tabs(indented: bool, indent: nat): Text {
    if indented then seq(indent, _ => '\t') else []
  }

  function LineBreak(indented: bool): Text {
    if indented then "\n" else []
  }

  predicate IsSoleData(children: seq<Xml>) {
    |children| == 1 && children[0].kind == Data
  }

  function PrintNode(t: Xml, indented: bool, indent: nat): Text
    decreases t, 3
  {
    (if t.kind == Document then PrintChildren(t.children, indented, indent)
     else Tabs(indented, indent) + PrintBody(t, indented, indent))
    + LineBreak(indented)
  }

  function PrintBody(t: Xml, indented: bool, indent: nat): Text
    requires t.kind != Document
    decreases t, 2
  {
    match t.kind
    case Element => PrintElement(t, indented, indent)
    case Data => Escape(t.value, '\0')
    case CData => "<![CDATA[" + t.value + "]]>"
    case Comment => "<!--" + t.value + "-->"
    case Declaration => "<?xml" + PrintAttributes(t.attributes) + "?>"
    case Doctype => "<!DOCTYPE " + t.value + ">"
    case Pi => "<?" + t.name + " " + t.value + "?>"
  }

  function PrintChildren(children: seq<Xml>, indented: bool, indent: nat): Text
    decreases children
  {
    if children == [] then []
    else PrintNode(children[0], indented, indent) + PrintChildren(children[1..], indented, indent)
  }

  function PrintElement(t: Xml, indented: bool, indent: nat): Text
    decreases t, 1
  {
    "<" + t.name + PrintAttributes(t.attributes)
    + if t.value == [] && t.children == [] then "/>"
      else ">" + PrintContent(t, indented, indent) + "</" + t.name + ">"
  }

  function PrintContent(t: Xml, indented: bool, indent: nat): Text
    decreases t, 0
  {
    if t.children == [] then Escape(t.value, '\0')
    else if IsSoleData(t.children) then Escape(t.children[0].value, '\0')
    else LineBreak(indented) + PrintChildren(t.children, indented, indent + 1) + Tabs(indented, indent)
  }

  lemma {:induction false} PrintChildrenConcat(a: seq<Xml>, b: seq<Xml>, indented: bool, indent: nat)
    ensures PrintChildren(a + b, indented, indent)
         == PrintChildren(a, indented, indent) + PrintChildren(b, indented, indent)
  {
    hide PrintNode;
    if a == [] {
      assert a + b == b;
    } else {
      assert (a + b)[1..] == a[1..] + b;
      PrintChildrenConcat(a[1..], b, indented, indent);
      ConcatAssociative(PrintNode(a[0], indented, indent), PrintChildren(a[1..], indented, indent),
                        PrintChildren(b, indented, indent));
    }
  }
}
