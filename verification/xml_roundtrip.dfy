/** Parsing what the printer wrote: what comes back is the normal form of the tree. */
module XmlRoundTrip {
  import opened Basics
  import opened XmlText
  import opened XmlTree
  import opened XmlPrinter
  import opened XmlParser

  // ---------------------------------------------------------------- which trees, and what they become

  predicate NulFree(v: Text) {
    forall x :: 0 <= x < |v| ==> v[x] != '\0'
  }

  predicate IsBlank(v: Text) {
    forall x :: 0 <= x < |v| ==> Test(Whitespace, v[x])
  }

  predicate LegalName(name: Text) {
    name != [] && name[0] != '!' && forall x :: 0 <= x < |name| ==> Test(NodeName, name[x])
  }

  predicate LegalAttribute(a: Attribute<Text>) {
    a.name != [] && (forall x :: 0 <= x < |a.name| ==> Test(AttributeName, a.name[x])) && NulFree(a.value)
  }

  predicate LegalCData(v: Text) {
    NulFree(v) && forall x :: 0 <= x < |v| ==> !LookingAt(v, x, "]]>")
  }

  /** Trees of elements, text and CDATA whose strings can be written in XML at all. */
  predicate Legal(t: Xml) {
    match t.kind
    case Element =>
      && LegalName(t.name)
      && (forall a <- t.attributes :: LegalAttribute(a))
      && (t.children == [] ==> NulFree(t.value))
      && (forall child <- t.children :: Legal(child))
    case Data => NulFree(t.value)
    case CData => LegalCData(t.value)
    case _ => false
  }

  predicate LegalDocument(d: Xml) {
    d.kind == Document && forall child <- d.children :: Legal(child) && (child.kind == Data ==> IsBlank(child.value))
  }

  /** A run of text between two tags: white space alone leaves no node. */
  function TextNodes(run: Text): seq<Xml> {
    if IsBlank(run) then [] else [DataNode(run)]
  }

  /** Neighbouring data nodes merge and blank runs vanish. `run` is the text already passed. */
  function NormalChildren(run: Text, children: seq<Xml>): seq<Xml>
    decreases children
  {
    if children == [] then TextNodes(run)
    else
      var first := children[0];
      if first.kind == Data then NormalChildren(run + first.value, children[1..])
      else TextNodes(run) + [Normal(first)] + NormalChildren([], children[1..])
  }

  /** The tree that survives printing: an element value counts only where there are no children,
      and then it is a data node; afterwards it is the text of the first data node. */
  function Normal(t: Xml): Xml
    decreases t
  {
    match t.kind
    case Element =>
      ElementNode(t.name, t.attributes, if t.children == [] then TextNodes(t.value) else NormalChildren([], t.children))
    case Document => DocumentNode(NormalChildren([], t.children))
    case CData => CDataNode(t.value)
    case _ => t
  }

  // ---------------------------------------------------------------- escaping and expanding

  /** The delimiters escaped text is enclosed in, with the character the printer leaves alone. */
  predicate Encloses(delimiter: char, noexpand: char) {
    || (delimiter == '<' && noexpand == '\0')
    || (delimiter == '"' && noexpand == '\'')
    || (delimiter == '\'' && noexpand == '"')
  }

  lemma {:induction false} EscapeConcat(a: Text, b: Text, noexpand: char)
    ensures Escape(a + b, noexpand) == Escape(a, noexpand) + Escape(b, noexpand)
  {
    if a == [] {
      assert a + b == b;
    } else {
      assert (a + b)[1..] == a[1..] + b;
      EscapeConcat(a[1..], b, noexpand);
      ConcatAssociative(EscapeChar(a[0], noexpand), Escape(a[1..], noexpand), Escape(b, noexpand));
    }
  }

  lemma {:induction false} EscapeBlank(v: Text)
    requires IsBlank(v)
    ensures Escape(v, '\0') == v
  {
    if v != [] {
      EscapeBlank(v[1..]);
    }
  }

  /** The escaped form never contains the delimiter it will be enclosed in. */
  lemma {:induction false} EscapeHidesDelimiter(v: Text, noexpand: char, delimiter: char)
    requires Encloses(delimiter, noexpand)
    ensures delimiter !in Escape(v, noexpand)
  {
    if v != [] {
      EscapeHidesDelimiter(v[1..], noexpand, delimiter);
    }
  }

  /** What one escaped character reads back as. */
  lemma ExpandChar(s: Text, i: nat, dest: nat, c: char, noexpand: char, delimiter: char)
    requires LookingAt(s, i, EscapeChar(c, noexpand))
    requires Encloses(delimiter, noexpand)
    requires c != '\0'
    ensures Expand(s, delimiter, i, dest)
         == Prepend([c], Expand(s, delimiter, i + |EscapeChar(c, noexpand)|, dest + 1))
  {
    hide ReferenceAt, LookingAt, Expand, Prepend;
    LookingAtChar(s, i, EscapeChar(c, noexpand), 0);
    if c == noexpand || !IsSpecial(c) {
      VerbatimAt(s, i);
      ExpandVerbatim(s, delimiter, i, dest);
    } else {
      EntityAt(s, i, c, noexpand);
      ExpandPredefined(s, delimiter, i, dest);
    }
  }

  predicate IsSpecial(c: char) {
    c == '<' || c == '>' || c == '\'' || c == '"' || c == '&'
  }

  lemma EntityAt(s: Text, i: nat, c: char, noexpand: char)
    requires IsSpecial(c) && c != noexpand
    requires LookingAt(s, i, EscapeChar(c, noexpand))
    ensures ReferenceAt(s, i) == Predefined(c, |EscapeChar(c, noexpand)|)
  {
    var e := EscapeChar(c, noexpand);
    LookingAtChar(s, i, e, 1);
    LookingAtChar(s, i, e, 2);
    LookingAtChar(s, i, "&amp;", 2);
    LookingAtChar(s, i, "&apos;", 2);
    LookingAtChar(s, i, "&quot;", 1);
    LookingAtChar(s, i, "&gt;", 1);
  }

  /** Escaping then expanding is the identity on every text without terminators. */
  lemma {:induction false} ExpandEscape(s: Text, i: nat, dest: nat, v: Text, noexpand: char, delimiter: char)
    requires LookingAt(s, i, Escape(v, noexpand))
    requires !Test(Until(delimiter), At(s, i + |Escape(v, noexpand)|))
    requires Encloses(delimiter, noexpand)
    requires NulFree(v)
    ensures Expand(s, delimiter, i, dest) == Ok(v, i + |Escape(v, noexpand)|)
    decreases |v|
  {
    hide Expand, EscapeChar, LookingAt, At;
    if v == [] {
      ExpandStops(s, delimiter, i, dest);
    } else {
      var e := EscapeChar(v[0], noexpand);
      var rest := Escape(v[1..], noexpand);
      assert Escape(v, noexpand) == e + rest;
      LookingAtSplit(s, i, e, rest);
      ExpandChar(s, i, dest, v[0], noexpand, delimiter);
      assert i + |e + rest| == i + |e| + |rest|;
      ExpandEscape(s, i + |e|, dest + 1, v[1..], noexpand, delimiter);
      assert [v[0]] + v[1..] == v;
    }
  }

  // ---------------------------------------------------------------- attributes

  lemma QuotesEnclose(value: Text)
    ensures Encloses(QuoteFor(value), KeptQuote(value)) && IsQuote(QuoteFor(value))
  {
  }

  /** One printed attribute, from the space before it to the quote behind it. */
  lemma AttributeParts(s: Text, i: nat, a: Attribute<Text>, rest: Text)
    requires LookingAt(s, i, PrintAttribute(a) + rest)
    ensures var nameEnd := i + 1 + |a.name|;
            var close := nameEnd + 2 + |Escape(a.value, KeptQuote(a.value))|;
            && At(s, i) == ' '
            && LookingAt(s, i + 1, a.name)
            && At(s, nameEnd) == '='
            && At(s, nameEnd + 1) == QuoteFor(a.value)
            && LookingAt(s, nameEnd + 2, Escape(a.value, KeptQuote(a.value)))
            && At(s, close) == QuoteFor(a.value)
            && LookingAt(s, close + 1, rest)
            && i + |PrintAttribute(a)| == close + 1
  {
    hide Escape, QuoteFor, KeptQuote, LookingAt;
    var body := Escape(a.value, KeptQuote(a.value));
    var q := [QuoteFor(a.value)];
    LookingAtSplit(s, i, PrintAttribute(a), rest);
    LookingAtSplit(s, i, " " + a.name + "=" + q + body, q);
    LookingAtSplit(s, i, " " + a.name + "=" + q, body);
    LookingAtSplit(s, i, " " + a.name + "=", q);
    LookingAtSplit(s, i, " " + a.name, "=");
    LookingAtSplit(s, i, " ", a.name);
    LookingAtChar(s, i, " ", 0);
    LookingAtChar(s, i + 1 + |a.name|, "=", 0);
    LookingAtChar(s, i + 2 + |a.name|, q, 0);
    LookingAtChar(s, i + 3 + |a.name| + |body|, q, 0);
  }

  /** Reading one attribute and the white space before it. */
  lemma AttributeRoundTrip(s: Text, i: nat, a: Attribute<Text>, rest: Text)
    requires LookingAt(s, i, PrintAttribute(a) + rest)
    requires LegalAttribute(a)
    ensures Skip(s, Whitespace, i) == i + 1
    ensures Test(AttributeName, At(s, i + 1))
    ensures ParseAttribute(s, i + 1) == Ok(a, i + |PrintAttribute(a)|)
  {
    hide PrintAttribute, Escape, QuoteFor, KeptQuote, Expand, LookingAt, Skip;
    AttributeParts(s, i, a, rest);
    var body := Escape(a.value, KeptQuote(a.value));
    var nameEnd := i + 1 + |a.name|;
    LookingAtChar(s, i + 1, a.name, 0);
    LookingAtSlice(s, i + 1, a.name);
    SkipNone(s, Whitespace, i + 1);
    SkipOne(s, Whitespace, i);
    SkipRun(s, AttributeName, i + 1, a.name);
    SkipOne(s, AttributeName, i + 1);
    SkipNone(s, Whitespace, nameEnd);
    QuotesEnclose(a.value);
    SkipNone(s, Whitespace, nameEnd + 1);
    ExpandEscape(s, nameEnd + 2, nameEnd + 2, a.value, KeptQuote(a.value), QuoteFor(a.value));
  }

  lemma SkipNone(s: Text, k: CharClass, i: nat)
    requires !Test(k, At(s, i))
    ensures Skip(s, k, i) == i
  {
  }

  lemma SkipOne(s: Text, k: CharClass, i: nat)
    requires Test(k, At(s, i))
    ensures Skip(s, k, i) == Skip(s, k, i + 1)
  {
  }

  lemma {:induction false} AttributesRoundTrip(s: Text, i: nat, attributes: seq<Attribute<Text>>)
    requires LookingAt(s, i, PrintAttributes(attributes))
    requires forall a <- attributes :: LegalAttribute(a)
    requires At(s, i + |PrintAttributes(attributes)|) == '/' || At(s, i + |PrintAttributes(attributes)|) == '>'
    ensures ParseAttributes(s, Skip(s, Whitespace, i)) == Ok(attributes, i + |PrintAttributes(attributes)|)
    decreases |attributes|
  {
    hide PrintAttribute, LookingAt, At, Skip, LegalAttribute, ParseAttribute;
    if attributes == [] {
      SkipNone(s, Whitespace, i);
    } else {
      var a, rest := attributes[0], PrintAttributes(attributes[1..]);
      assert PrintAttributes(attributes) == PrintAttribute(a) + rest;
      AttributeRoundTrip(s, i, a, rest);
      LookingAtSplit(s, i, PrintAttribute(a), rest);
      assert i + |PrintAttribute(a) + rest| == i + |PrintAttribute(a)| + |rest|;
      AttributesRoundTrip(s, i + |PrintAttribute(a)|, attributes[1..]);
      assert [a] + attributes[1..] == attributes;
    }
  }

  // ---------------------------------------------------------------- text between tags

  lemma BlankPrefix(v: Text) returns (k: nat)
    requires !IsBlank(v)
    ensures k < |v| && IsBlank(v[..k]) && !Test(Whitespace, v[k])
  {
    k := 0;
    while Test(Whitespace, v[k])
      invariant k < |v| && IsBlank(v[..k])
      invariant exists x :: k <= x < |v| && !Test(Whitespace, v[x])
      decreases |v| - k
    {
      assert v[..k + 1] == v[..k] + [v[k]];
      k := k + 1;
    }
  }

  /** A blank run is passed over. */
  lemma BlankRun(s: Text, i: nat, run: Text)
    requires IsBlank(run) && LookingAt(s, i, Escape(run, '\0'))
    requires At(s, i + |Escape(run, '\0')|) == '<'
    ensures Skip(s, Whitespace, i) == i + |Escape(run, '\0')|
  {
    EscapeBlank(run);
    SkipRun(s, Whitespace, i, run);
  }

  /** White space stops at the first other character, which is neither a tag nor the end. */
  lemma TextRun(s: Text, i: nat, run: Text)
    requires !IsBlank(run) && NulFree(run) && LookingAt(s, i, Escape(run, '\0'))
    ensures var c := At(s, Skip(s, Whitespace, i)); c != '<' && c != '\0'
  {
    hide LookingAt, Escape;
    var k := BlankPrefix(run);
    assert run == run[..k] + run[k..];
    EscapeConcat(run[..k], run[k..], '\0');
    EscapeBlank(run[..k]);
    LookingAtSplit(s, i, run[..k], Escape(run[k..], '\0'));
    FirstEscaped(s, i + k, run[k..]);
    SkipRun(s, Whitespace, i, run[..k]);
  }

  lemma FirstEscaped(s: Text, i: nat, v: Text)
    requires v != [] && NulFree(v) && !Test(Whitespace, v[0]) && LookingAt(s, i, Escape(v, '\0'))
    ensures var c := At(s, i); c != '<' && c != '\0' && !Test(Whitespace, c)
  {
    var e := EscapeChar(v[0], '\0');
    assert Escape(v, '\0')[0] == e[0];
    LookingAtChar(s, i, Escape(v, '\0'), 0);
  }

  /** Text in front of a tag is dropped if blank and becomes one data node otherwise. */
  lemma ContentsText(s: Text, i: nat, run: Text)
    requires NulFree(run) && LookingAt(s, i, Escape(run, '\0'))
    requires At(s, i + |Escape(run, '\0')|) == '<'
    ensures i <= |s|
    ensures ParseContents(s, i) ==
            match ParseTag(s, i + |Escape(run, '\0')|)
            case Err(what, at) => Err(what, at)
            case Ok(rest, next) => Ok(TextNodes(run) + rest, next)
  {
    hide Escape, Expand, ParseTag, Skip, IsBlank;
    if IsBlank(run) {
      BlankRun(s, i, run);
      var tag := ParseTag(s, i + |Escape(run, '\0')|);
      assert tag.Ok? ==> [] + tag.value == tag.value;
    } else {
      TextRun(s, i, run);
      ExpandEscape(s, i, i, run, '\0', '<');
    }
  }

  // ---------------------------------------------------------------- nodes

  function ClosingTag(name: Text): Text {
    "</" + name + ">"
  }

  lemma ClosingTagRead(s: Text, i: nat, name: Text)
    requires LegalName(name) && LookingAt(s, i, ClosingTag(name))
    ensures At(s, i) == '<'
    ensures ParseTag(s, i) == Ok([], i + |ClosingTag(name)|)
  {
    hide ParseNode, ParseContents;
    LookingAtSplit(s, i, "</" + name, ">");
    LookingAtSplit(s, i, "</", name);
    LookingAtChar(s, i, "</", 0);
    LookingAtChar(s, i, "</", 1);
    LookingAtChar(s, i + 2 + |name|, ">", 0);
    SkipRun(s, NodeName, i + 2, name);
    SkipNone(s, Whitespace, i + 2 + |name|);
  }

  lemma {:induction false} FindFirst(s: Text, i: nat, pattern: Text, end: nat)
    requires pattern != [] && i <= end
    requires LookingAt(s, end, pattern)
    requires forall x :: i <= x < end ==> !LookingAt(s, x, pattern) && At(s, x) != '\0'
    ensures Find(s, i, pattern) == Ok(end, end + |pattern|)
    decreases end - i
  {
    hide LookingAt;
    if i < end {
      FindFirst(s, i + 1, pattern, end);
    }
  }

  /** An end mark that begins inside the value lies inside it, because its last character differs
      from the first one of the end mark behind the value. */
  lemma EndMarkInside(s: Text, i: nat, value: Text, x: nat)
    requires LookingAt(s, i, value) && LookingAt(s, i + |value|, "]]>") && i <= x < i + |value|
    ensures LookingAt(s, x, "]]>") ==> LookingAt(value, x - i, "]]>")
  {
    if LookingAt(s, x, "]]>") {
      LookingAtChar(s, x, "]]>", 2);
      LookingAtChar(s, i + |value|, "]]>", 0);
      LookingAtChar(s, i + |value|, "]]>", 1);
      assert x + 2 < i + |value|;
      assert s[x..x + 3] == s[i..i + |value|][x - i..x - i + 3] == value[x - i..x - i + 3];
    }
  }

  /** The end mark of a CDATA section does not occur earlier, not even by way of the
      brackets its value ends with. */
  lemma CDataEnd(s: Text, i: nat, value: Text)
    requires LegalCData(value) && LookingAt(s, i, value + "]]>")
    ensures Find(s, i, "]]>") == Ok(i + |value|, i + |value| + 3)
  {
    LookingAtSplit(s, i, value, "]]>");
    forall x | i <= x < i + |value|
      ensures !LookingAt(s, x, "]]>") && At(s, x) != '\0'
    {
      LookingAtChar(s, i, value, x - i);
      EndMarkInside(s, i, value, x);
    }
    FindFirst(s, i, "]]>", i + |value|);
  }

  lemma PrintedBody(t: Xml, indent: nat)
    requires t.kind != Document
    ensures PrintNode(t, false, indent) == PrintBody(t, false, indent)
  {
    hide PrintBody;
    assert [] + PrintBody(t, false, indent) + [] == PrintBody(t, false, indent);
  }

  lemma CDataRoundTrip(s: Text, i: nat, t: Xml, indent: nat)
    requires t.kind == CData && Legal(t) && LookingAt(s, i, PrintNode(t, false, indent))
    ensures At(s, i) == '<' && At(s, i + 1) != '/'
    ensures ParseNode(s, i + 1) == Ok([Normal(t)], i + |PrintNode(t, false, indent)|)
  {
    hide PrintNode, ParseElement, Escape, LookingAt, Find, IsXmlDeclaration, LegalCData;
    var end := t.value + "]]>";
    PrintedBody(t, indent);
    assert "<![CDATA[" + t.value + "]]>" == "<" + ("![CDATA[" + end);
    LookingAtSplit(s, i, "<", "![CDATA[" + end);
    LookingAtSplit(s, i + 1, "![CDATA[", end);
    LookingAtSplit(s, i + 9, t.value, "]]>");
    LookingAtChar(s, i, "<", 0);
    LookingAtChar(s, i + 1, "![CDATA[", 0);
    LookingAtChar(s, i + 1, "![CDATA[", 1);
    LookingAtChar(s, i + 1, "!--", 1);
    LookingAtSlice(s, i + 9, t.value);
    CDataEnd(s, i + 9, t.value);
  }

  /** What an element prints between its tags when nothing is indented. */
  function Content(t: Xml, indent: nat): Text {
    if t.children == [] then Escape(t.value, '\0') else PrintChildren(t.children, false, indent + 1)
  }

  lemma ContentIsPrinted(t: Xml, indent: nat)
    ensures PrintContent(t, false, indent) == Content(t, indent)
  {
    hide Escape;
    if t.children != [] && IsSoleData(t.children) {
      assert PrintChildren(t.children, false, indent + 1)
          == PrintNode(t.children[0], false, indent + 1) + PrintChildren(t.children[1..], false, indent + 1);
    }
  }

  lemma PrintedElement(t: Xml, indent: nat)
    requires t.kind == Element
    ensures PrintNode(t, false, indent) ==
            "<" + t.name + PrintAttributes(t.attributes)
            + if t.value == [] && t.children == [] then "/>" else ">" + Content(t, indent) + ClosingTag(t.name)
  {
    hide PrintAttributes, Content, PrintContent, PrintNode;
    ContentIsPrinted(t, indent);
    PrintedBody(t, indent);
    assert ">" + Content(t, indent) + "</" + t.name + ">" == ">" + Content(t, indent) + ClosingTag(t.name);
  }

  function NormalContent(t: Xml): seq<Xml> {
    if t.children == [] then TextNodes(t.value) else NormalChildren([], t.children)
  }

  /** The name in an opening tag. */
  lemma OpeningName(s: Text, i: nat, name: Text, attributes: seq<Attribute<Text>>, tail: Text)
    requires LegalName(name) && tail != [] && (tail[0] == '/' || tail[0] == '>')
    requires LookingAt(s, i, "<" + name + PrintAttributes(attributes) + tail)
    ensures var nameEnd := i + 1 + |name|;
            var end := nameEnd + |PrintAttributes(attributes)|;
            && At(s, i) == '<' && At(s, i + 1) != '/' && At(s, i + 1) != '?' && At(s, i + 1) != '!'
            && nameEnd <= |s| && s[i + 1..nameEnd] == name
            && Skip(s, NodeName, i + 1) == nameEnd
            && LookingAt(s, nameEnd, PrintAttributes(attributes))
            && LookingAt(s, end, tail) && At(s, end) == tail[0]
  {
    hide LookingAt, Skip, PrintAttributes;
    var printed := PrintAttributes(attributes);
    LookingAtSplit(s, i, "<" + name + printed, tail);
    LookingAtSplit(s, i, "<" + name, printed);
    LookingAtSplit(s, i, "<", name);
    LookingAtChar(s, i, "<", 0);
    LookingAtChar(s, i + 1, name, 0);
    LookingAtSlice(s, i + 1, name);
    LookingAtChar(s, i + 1 + |name| + |printed|, tail, 0);
    NameEndsAt(s, i + 1 + |name|, attributes);
    SkipRun(s, NodeName, i + 1, name);
  }

  /** The opening tag, up to its '>' or '/'. */
  lemma OpeningTag(s: Text, i: nat, t: Xml, tail: Text)
    requires t.kind == Element && Legal(t)
    requires tail != [] && (tail[0] == '/' || tail[0] == '>')
    requires LookingAt(s, i, "<" + t.name + PrintAttributes(t.attributes) + tail)
    ensures var nameEnd := i + 1 + |t.name|;
            var end := nameEnd + |PrintAttributes(t.attributes)|;
            && At(s, i) == '<' && At(s, i + 1) != '/' && At(s, i + 1) != '?' && At(s, i + 1) != '!'
            && nameEnd <= |s| && s[i + 1..nameEnd] == t.name
            && Skip(s, NodeName, i + 1) == nameEnd
            && ParseAttributes(s, Skip(s, Whitespace, nameEnd)) == Ok(t.attributes, end)
            && LookingAt(s, end, tail) && At(s, end) == tail[0]
  {
    hide LookingAt, Skip, ParseAttributes, PrintAttributes, LegalAttribute, LegalName;
    OpeningName(s, i, t.name, t.attributes, tail);
    AttributesRoundTrip(s, i + 1 + |t.name|, t.attributes);
  }

  lemma NameEndsAt(s: Text, i: nat, attributes: seq<Attribute<Text>>)
    requires LookingAt(s, i, PrintAttributes(attributes))
    requires At(s, i + |PrintAttributes(attributes)|) == '/' || At(s, i + |PrintAttributes(attributes)|) == '>'
    ensures !Test(NodeName, At(s, i))
  {
    if attributes != [] {
      LookingAtChar(s, i, PrintAttributes(attributes), 0);
      assert PrintAttributes(attributes)[0] == PrintAttribute(attributes[0])[0] == ' ';
    }
  }

  lemma {:induction false} NodeRoundTrip(s: Text, i: nat, t: Xml, indent: nat)
    requires Legal(t) && t.kind != Data && LookingAt(s, i, PrintNode(t, false, indent))
    ensures At(s, i) == '<' && At(s, i + 1) != '/' && i + 1 <= |s|
    ensures ParseNode(s, i + 1) == Ok([Normal(t)], i + |PrintNode(t, false, indent)|)
    decreases t, 1
  {
    hide PrintNode, PrintAttributes, ParseAttributes, LookingAt, Skip, ParseContents, Content, ClosingTag;
    if t.kind == CData {
      CDataRoundTrip(s, i, t, indent);
    } else {
      PrintedElement(t, indent);
      if t.value == [] && t.children == [] {
        OpeningTag(s, i, t, "/>");
        LookingAtChar(s, i + 1 + |t.name| + |PrintAttributes(t.attributes)|, "/>", 1);
      } else {
        var inside := Content(t, indent) + ClosingTag(t.name);
        assert PrintNode(t, false, indent) == "<" + t.name + PrintAttributes(t.attributes) + (">" + inside);
        OpeningTag(s, i, t, ">" + inside);
        var end := i + 1 + |t.name| + |PrintAttributes(t.attributes)|;
        LookingAtSplit(s, end, ">", inside);
        ContentRoundTrip(s, end + 1, t, indent);
      }
    }
  }

  lemma {:induction false} ContentRoundTrip(s: Text, i: nat, t: Xml, indent: nat)
    requires t.kind == Element && Legal(t)
    requires LookingAt(s, i, Content(t, indent) + ClosingTag(t.name))
    ensures i <= |s|
    ensures ParseContents(s, i) == Ok(NormalContent(t), i + |Content(t, indent) + ClosingTag(t.name)|)
    decreases t, 0
  {
    hide LookingAt, ParseContents, ClosingTag;
    LookingAtSplit(s, i, Content(t, indent), ClosingTag(t.name));
    if t.children == [] {
      LookingAtEmpty(s, i + |Content(t, indent)|, ClosingTag(t.name));
      ChildrenRoundTrip(s, i, t.value, [], indent + 1, t.name);
    } else {
      LookingAtEmpty(s, i, Content(t, indent));
      ChildrenRoundTrip(s, i, [], t.children, indent + 1, t.name);
    }
  }

  lemma LookingAtEmpty(s: Text, i: nat, pattern: Text)
    requires LookingAt(s, i, pattern)
    ensures LookingAt(s, i, [])
  {
  }

  lemma TagWithChild(s: Text, i: nat, node: seq<Xml>, next: nat, rest: seq<Xml>, end: nat)
    requires At(s, i) == '<' && At(s, i + 1) != '/'
    requires ParseNode(s, i + 1) == Ok(node, next) && ParseContents(s, next) == Ok(rest, end)
    ensures ParseTag(s, i) == Ok(node + rest, end)
  {
    hide ParseNode, ParseContents;
  }

  lemma DataPrinted(t: Xml, indent: nat)
    requires t.kind == Data
    ensures PrintNode(t, false, indent) == Escape(t.value, '\0')
  {
    PrintedBody(t, indent);
  }

  /** Three texts, each behind the other. */
  predicate InARow(s: Text, i: nat, a: Text, b: Text, c: Text) {
    LookingAt(s, i, a) && LookingAt(s, i + |a|, b) && LookingAt(s, i + |a| + |b|, c)
  }

  lemma Regroup(s: Text, i: nat, a: Text, b: Text, b': Text, c: Text)
    requires InARow(s, i, a, b + b', c)
    ensures LookingAt(s, i + |a|, b)
    ensures InARow(s, i, a + b, b', c)
    ensures InARow(s, i + |a| + |b|, [], b', c)
  {
    hide LookingAt;
    assert i + |a| + |b + b'| == i + |a + b| + |b'|;
    LookingAtSplit(s, i + |a|, b, b');
    LookingAtSplit(s, i, a, b);
    LookingAtEmpty(s, i + |a| + |b|, b');
  }

  /** A run of text, children, and the closing tag. */
  predicate Printed(s: Text, i: nat, run: Text, children: seq<Xml>, indent: nat, name: Text) {
    && NulFree(run)
    && InARow(s, i, Escape(run, '\0'), PrintChildren(children, false, indent), ClosingTag(name))
  }

  function PrintedEnd(i: nat, run: Text, children: seq<Xml>, indent: nat, name: Text): nat {
    i + |Escape(run, '\0')| + |PrintChildren(children, false, indent)| + |ClosingTag(name)|
  }

  /** Text can be taken into the run in front of it. */
  lemma PrintedData(s: Text, i: nat, run: Text, children: seq<Xml>, indent: nat, name: Text)
    requires children != [] && children[0].kind == Data && Legal(children[0])
    requires Printed(s, i, run, children, indent, name)
    ensures Printed(s, i, run + children[0].value, children[1..], indent, name)
    ensures PrintedEnd(i, run + children[0].value, children[1..], indent, name)
              == PrintedEnd(i, run, children, indent, name)
  {
    hide InARow, Escape, PrintNode, ClosingTag;
    var value := children[0].value;
    DataPrinted(children[0], indent);
    EscapeConcat(run, value, '\0');
    Regroup(s, i, Escape(run, '\0'), Escape(value, '\0'), PrintChildren(children[1..], false, indent),
            ClosingTag(name));
  }

  /** Any other child ends the run. */
  lemma PrintedChild(s: Text, i: nat, run: Text, children: seq<Xml>, indent: nat, name: Text, p: nat, next: nat)
    requires children != [] && Printed(s, i, run, children, indent, name)
    requires p == i + |Escape(run, '\0')| && next == p + |PrintNode(children[0], false, indent)|
    ensures LookingAt(s, p, PrintNode(children[0], false, indent))
    ensures Printed(s, next, [], children[1..], indent, name)
    ensures PrintedEnd(next, [], children[1..], indent, name) == PrintedEnd(i, run, children, indent, name)
  {
    assert Escape([], '\0') == [];
    hide InARow, LookingAt, Escape, PrintNode, ClosingTag;
    var first, rest := PrintNode(children[0], false, indent), PrintChildren(children[1..], false, indent);
    Regroup(s, i, Escape(run, '\0'), first, rest, ClosingTag(name));
  }

  lemma ContentsOfChild(s: Text, i: nat, run: Text, child: Xml, next: nat, rest: seq<Xml>, end: nat)
    requires NulFree(run) && LookingAt(s, i, Escape(run, '\0'))
    requires var p := i + |Escape(run, '\0')|;
             At(s, p) == '<' && At(s, p + 1) != '/' && p + 1 <= |s| && ParseNode(s, p + 1) == Ok([child], next)
    requires next <= |s| && ParseContents(s, next) == Ok(rest, end)
    ensures i <= |s| && ParseContents(s, i) == Ok(TextNodes(run) + [child] + rest, end)
  {
    hide LookingAt, Escape, ParseNode, ParseContents, ParseTag, TextNodes;
    ContentsText(s, i, run);
    TagWithChild(s, i + |Escape(run, '\0')|, [child], next, rest, end);
    ConcatAssociative(TextNodes(run), [child], rest);
  }

  lemma ContentsEnd(s: Text, i: nat, run: Text, indent: nat, name: Text)
    requires LegalName(name) && Printed(s, i, run, [], indent, name)
    ensures i <= |s| && ParseContents(s, i) == Ok(TextNodes(run), PrintedEnd(i, run, [], indent, name))
  {
    hide LookingAt, Escape, ParseContents, ParseTag, ClosingTag, TextNodes, LegalName;
    ClosingTagRead(s, i + |Escape(run, '\0')|, name);
    ContentsText(s, i, run);
    assert TextNodes(run) + [] == TextNodes(run);
  }

  lemma {:induction false} ChildrenRoundTrip(s: Text, i: nat, run: Text, children: seq<Xml>, indent: nat, name: Text)
    requires LegalName(name) && forall child <- children :: Legal(child)
    requires Printed(s, i, run, children, indent, name)
    ensures i <= |s|
    ensures ParseContents(s, i) == Ok(NormalChildren(run, children), PrintedEnd(i, run, children, indent, name))
    decreases children, 0
  {
    hide LookingAt, Escape, PrintNode, ParseNode, ParseContents, ParseTag, ClosingTag, At, Normal, TextNodes, Legal,
         Printed, PrintedEnd;
    if children == [] {
      ContentsEnd(s, i, run, indent, name);
    } else {
      var child := children[0];
      assert Legal(child);
      if child.kind == Data {
        PrintedData(s, i, run, children, indent, name);
        ChildrenRoundTrip(s, i, run + child.value, children[1..], indent, name);
      } else {
        var p := i + |Escape(run, '\0')|;
        var next := p + |PrintNode(child, false, indent)|;
        PrintedChild(s, i, run, children, indent, name, p, next);
        NodeRoundTrip(s, p, child, indent);
        ChildrenRoundTrip(s, next, [], children[1..], indent, name);
        PrintedRun(s, i, run, children, indent, name);
        ContentsOfChild(s, i, run, Normal(child), next, NormalChildren([], children[1..]),
                        PrintedEnd(next, [], children[1..], indent, name));
      }
    }
  }

  lemma PrintedRun(s: Text, i: nat, run: Text, children: seq<Xml>, indent: nat, name: Text)
    requires Printed(s, i, run, children, indent, name)
    ensures NulFree(run) && LookingAt(s, i, Escape(run, '\0'))
  {
  }
}
