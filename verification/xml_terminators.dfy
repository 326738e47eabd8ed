/** Printouts with a terminator character in a text or attribute value: they never parse. */
module XmlTerminators {
  import opened XmlText
  import opened XmlTree
  import opened XmlPrinter
  import opened XmlParser
  import opened XmlRoundTrip
  import opened XmlDocument

  /** No terminator characters in text or attribute values: only a reference to character zero
      can have put one there. */
  predicate NoTerminators(t: Xml) {
    && (t.kind == Data ==> NulFree(t.value))
    && (forall a <- t.attributes :: NulFree(a.value))
    && (forall child <- t.children :: NoTerminators(child))
  }

  predicate ShapedAttribute(a: Attribute<Text>) {
    a.name != [] && forall x :: 0 <= x < |a.name| ==> Test(AttributeName, a.name[x])
  }

  /** What the parser can build: legal but for terminator characters. */
  predicate Shaped(t: Xml) {
    match t.kind
    case Element =>
      && LegalName(t.name)
      && (forall a <- t.attributes :: ShapedAttribute(a))
      && (t.children == [] ==> NulFree(t.value))
      && (forall child <- t.children :: Shaped(child))
    case Data => t == DataNode(t.value)
    case CData => t == CDataNode(t.value) && LegalCData(t.value)
    case _ => false
  }

  lemma {:induction false} ShapedIsLegal(t: Xml)
    requires Shaped(t) && NoTerminators(t)
    ensures Legal(t)
    decreases t
  {
    forall child | child in t.children
      ensures Legal(child)
    {
      assert NoTerminators(child);
      if t.kind == Element {
        ShapedIsLegal(child);
      }
    }
  }

  // ---------------------------------------------------------------- expansion stops there

  lemma FirstNul(v: Text) returns (k: nat)
    requires !NulFree(v)
    ensures k < |v| && v[k] == '\0' && NulFree(v[..k])
  {
    k := 0;
    while v[k] != '\0'
      invariant k < |v| && NulFree(v[..k])
      invariant exists x :: k <= x < |v| && v[x] == '\0'
      decreases |v| - k
    {
      k := k + 1;
    }
  }

  lemma EscapedNul(s: Text, i: nat, v: Text, noexpand: char, k: nat)
    requires LookingAt(s, i, Escape(v, noexpand)) && k < |v| && v[k] == '\0'
    ensures LookingAt(s, i, Escape(v[..k], noexpand)) && At(s, i + |Escape(v[..k], noexpand)|) == '\0'
  {
    hide LookingAt;
    var a, b := v[..k], v[k..];
    assert v == a + b;
    EscapeConcat(a, b, noexpand);
    LookingAtSplit(s, i, Escape(a, noexpand), Escape(b, noexpand));
    assert Escape(b, noexpand)[0] == '\0';
    LookingAtChar(s, i + |Escape(a, noexpand)|, Escape(b, noexpand), 0);
  }

  lemma ExpandToNul(s: Text, i: nat, v: Text, noexpand: char, delimiter: char)
    requires LookingAt(s, i, Escape(v, noexpand)) && !NulFree(v) && Encloses(delimiter, noexpand)
    ensures Expand(s, delimiter, i, i).Ok? && At(s, Expand(s, delimiter, i, i).next) == '\0'
  {
    hide Expand, Escape, LookingAt, NulFree;
    var k := FirstNul(v);
    EscapedNul(s, i, v, noexpand, k);
    ExpandEscape(s, i, i, v[..k], noexpand, delimiter);
  }

  // ---------------------------------------------------------------- attributes

  lemma AttributeFails(s: Text, i: nat, a: Attribute<Text>, rest: Text)
    requires LookingAt(s, i, PrintAttribute(a) + rest) && ShapedAttribute(a) && !NulFree(a.value)
    ensures Skip(s, Whitespace, i) == i + 1 && Test(AttributeName, At(s, i + 1))
    ensures ParseAttribute(s, i + 1).Err?
  {
    hide PrintAttribute, Escape, QuoteFor, KeptQuote, Expand, LookingAt, Skip, NulFree;
    AttributeParts(s, i, a, rest);
    var nameEnd := i + 1 + |a.name|;
    LookingAtChar(s, i + 1, a.name, 0);
    LookingAtSlice(s, i + 1, a.name);
    SkipNone(s, Whitespace, i + 1);
    SkipOne(s, Whitespace, i);
    SkipRun(s, AttributeName, i + 1, a.name);
    SkipOne(s, AttributeName, i + 1);
    SkipNone(s, Whitespace, nameEnd);
    QuotesEnclose(a.value);
    SkipNone(s, Whitespace, nameEnd + 1);
    ExpandToNul(s, nameEnd + 2, a.value, KeptQuote(a.value), QuoteFor(a.value));
  }

  lemma {:induction false} AttributesFail(s: Text, i: nat, attributes: seq<Attribute<Text>>)
    requires LookingAt(s, i, PrintAttributes(attributes))
    requires forall a <- attributes :: ShapedAttribute(a)
    requires exists a <- attributes :: !NulFree(a.value)
    ensures ParseAttributes(s, Skip(s, Whitespace, i)).Err?
    decreases |attributes|
  {
    hide PrintAttribute, LookingAt, At, Skip, ShapedAttribute, ParseAttribute, NulFree;
    var a, rest := attributes[0], PrintAttributes(attributes[1..]);
    assert PrintAttributes(attributes) == PrintAttribute(a) + rest;
    assert ShapedAttribute(a);
    if NulFree(a.value) {
      ShapedAttributeIsLegal(a);
      AttributeRoundTrip(s, i, a, rest);
      LookingAtSplit(s, i, PrintAttribute(a), rest);
      assert attributes == [a] + attributes[1..];
      AttributesFail(s, i + |PrintAttribute(a)|, attributes[1..]);
    } else {
      AttributeFails(s, i, a, rest);
    }
  }

  lemma ShapedAttributeIsLegal(a: Attribute<Text>)
    requires ShapedAttribute(a) && NulFree(a.value)
    ensures LegalAttribute(a)
  {
  }

  // ---------------------------------------------------------------- contents

  /** A run of text with a terminator character in it ends the contents too early. */
  lemma RunFails(s: Text, i: nat, run: Text)
    requires LookingAt(s, i, Escape(run, '\0')) && !NulFree(run)
    ensures i <= |s| && ParseContents(s, i).Err?
  {
    hide Escape, Expand, Skip, IsBlank, ParseTag, LookingAt, NulFree;
    InsideText(s, i, Escape(run, '\0'));
    var k := FirstNul(run);
    EscapedNul(s, i, run, '\0', k);
    if IsBlank(run[..k]) {
      EscapeBlank(run[..k]);
      BlankToNul(s, i, run[..k]);
    } else {
      TextRun(s, i, run[..k]);
      ExpandEscape(s, i, i, run[..k], '\0', '<');
    }
  }

  lemma InsideText(s: Text, i: nat, pattern: Text)
    requires LookingAt(s, i, pattern)
    ensures i <= |s|
  {
  }

  lemma BlankToNul(s: Text, i: nat, blank: Text)
    requires LookingAt(s, i, blank) && IsBlank(blank) && At(s, i + |blank|) == '\0'
    ensures At(s, Skip(s, Whitespace, i)) == '\0'
  {
    SkipRun(s, Whitespace, i, blank);
  }

  /** A run of text, which may hold terminator characters, and children behind it. */
  predicate Follows(s: Text, i: nat, run: Text, children: seq<Xml>, indent: nat) {
    InARow(s, i, Escape(run, '\0'), PrintChildren(children, false, indent), [])
  }

  lemma FollowsData(s: Text, i: nat, run: Text, children: seq<Xml>, indent: nat)
    requires children != [] && children[0].kind == Data && Follows(s, i, run, children, indent)
    ensures Follows(s, i, run + children[0].value, children[1..], indent)
  {
    hide InARow, Escape, PrintNode;
    var value := children[0].value;
    DataPrinted(children[0], indent);
    EscapeConcat(run, value, '\0');
    Regroup(s, i, Escape(run, '\0'), Escape(value, '\0'), PrintChildren(children[1..], false, indent), []);
  }

  lemma FollowsChild(s: Text, i: nat, run: Text, children: seq<Xml>, indent: nat, p: nat, next: nat)
    requires children != [] && Follows(s, i, run, children, indent)
    requires p == i + |Escape(run, '\0')| && next == p + |PrintNode(children[0], false, indent)|
    ensures LookingAt(s, p, PrintNode(children[0], false, indent))
    ensures Follows(s, next, [], children[1..], indent)
  {
    assert Escape([], '\0') == [];
    hide InARow, LookingAt, Escape, PrintNode;
    Regroup(s, i, Escape(run, '\0'), PrintNode(children[0], false, indent), PrintChildren(children[1..], false, indent),
            []);
  }

  lemma FollowsRun(s: Text, i: nat, run: Text, children: seq<Xml>, indent: nat)
    requires Follows(s, i, run, children, indent)
    ensures LookingAt(s, i, Escape(run, '\0')) && i <= |s|
  {
  }

  /** A failing child makes its parent's contents fail. */
  lemma ChildFails(s: Text, i: nat, run: Text)
    requires NulFree(run) && LookingAt(s, i, Escape(run, '\0'))
    requires var p := i + |Escape(run, '\0')|; At(s, p) == '<' && At(s, p + 1) != '/' && ParseNode(s, p + 1).Err?
    ensures i <= |s| && ParseContents(s, i).Err?
  {
    hide LookingAt, Escape, ParseNode, ParseContents;
    ContentsText(s, i, run);
  }

  lemma LaterFails(s: Text, i: nat, run: Text, node: seq<Xml>, next: nat)
    requires NulFree(run) && LookingAt(s, i, Escape(run, '\0'))
    requires var p := i + |Escape(run, '\0')|;
             At(s, p) == '<' && At(s, p + 1) != '/' && p + 1 <= |s| && ParseNode(s, p + 1) == Ok(node, next)
    requires next <= |s| && ParseContents(s, next).Err?
    ensures i <= |s| && ParseContents(s, i).Err?
  {
    hide LookingAt, Escape, ParseNode, ParseContents;
    ContentsText(s, i, run);
  }

  lemma {:induction false} ChildrenFail(s: Text, i: nat, run: Text, children: seq<Xml>, indent: nat)
    requires forall child <- children :: Shaped(child)
    requires Follows(s, i, run, children, indent)
    requires !NulFree(run) || exists child <- children :: !NoTerminators(child)
    ensures i <= |s| && ParseContents(s, i).Err?
    decreases children, 0
  {
    hide LookingAt, Escape, PrintNode, ParseNode, ParseContents, At, Shaped, Follows, NulFree, NoTerminators;
    FollowsRun(s, i, run, children, indent);
    if !NulFree(run) {
      RunFails(s, i, run);
    } else {
      var child, rest := children[0], children[1..];
      assert Shaped(child) && children == [child] + rest;
      if child.kind == Data {
        FollowsData(s, i, run, children, indent);
        DataTerminators(child, run);
        ChildrenFail(s, i, run + child.value, rest, indent);
      } else {
        var p := i + |Escape(run, '\0')|;
        var next := p + |PrintNode(child, false, indent)|;
        FollowsChild(s, i, run, children, indent, p, next);
        if NoTerminators(child) {
          ShapedIsLegal(child);
          NodeRoundTrip(s, p, child, indent);
          NothingFree();
          ChildrenFail(s, next, [], rest, indent);
          LaterFails(s, i, run, [Normal(child)], next);
        } else {
          NodeFails(s, p, child, indent);
          ChildFails(s, i, run);
        }
      }
    }
  }

  lemma NothingFree()
    ensures NulFree([])
  {
  }

  lemma DataTerminators(t: Xml, run: Text)
    requires t.kind == Data && Shaped(t) && NulFree(run)
    ensures NoTerminators(t) <==> NulFree(run + t.value)
  {
    var all := run + t.value;
    assert forall x :: 0 <= x < |t.value| ==> all[|run| + x] == t.value[x];
  }

  /** A printed node that holds a terminator character does not parse. */
  lemma {:induction false} NodeFails(s: Text, i: nat, t: Xml, indent: nat)
    requires Shaped(t) && t.kind != Data && !NoTerminators(t) && LookingAt(s, i, PrintNode(t, false, indent))
    ensures At(s, i) == '<' && At(s, i + 1) != '/' && i + 1 <= |s|
    ensures ParseNode(s, i + 1).Err?
    decreases t, 1
  {
    hide PrintNode, PrintAttributes, ParseAttributes, LookingAt, Skip, ParseContents, Content, ClosingTag, LegalName,
         ShapedAttribute, NulFree, PrintChildren;
    assert t.kind == Element;
    PrintedElement(t, indent);
    var nameEnd := i + 1 + |t.name|;
    var end := nameEnd + |PrintAttributes(t.attributes)|;
    var inside := Content(t, indent) + ClosingTag(t.name);
    var tail := if t.value == [] && t.children == [] then "/>" else ">" + inside;
    assert PrintNode(t, false, indent) == "<" + t.name + PrintAttributes(t.attributes) + tail;
    OpeningName(s, i, t.name, t.attributes, tail);
    if exists a <- t.attributes :: !NulFree(a.value) {
      AttributesFail(s, nameEnd, t.attributes);
    } else {
      assert t.children != [];
      forall a | a in t.attributes
        ensures LegalAttribute(a)
      {
        assert NulFree(a.value);
        ShapedAttributeIsLegal(a);
      }
      AttributesRoundTrip(s, nameEnd, t.attributes);
      LookingAtSplit(s, end, ">", inside);
      LookingAtSplit(s, end + 1, Content(t, indent), ClosingTag(t.name));
      ContentFollows(s, end + 1, t, indent);
      ChildrenFail(s, end + 1, [], t.children, indent + 1);
    }
  }

  lemma ContentFollows(s: Text, i: nat, t: Xml, indent: nat)
    requires t.children != [] && LookingAt(s, i, Content(t, indent))
    ensures Follows(s, i, [], t.children, indent + 1)
  {
    hide PrintChildren;
  }

  // ---------------------------------------------------------------- documents

  lemma {:induction false} NodesFail(s: Text, i: nat, children: seq<Xml>, indent: nat)
    requires forall child <- children :: Shaped(child) && child.kind != Data
    requires LookingAt(s, i, PrintChildren(children, false, indent))
    requires exists child <- children :: !NoTerminators(child)
    ensures At(s, i) == '<' && i <= |s| && ParseNodes(s, i).Err?
    decreases |children|
  {
    hide LookingAt, PrintNode, ParseNode, Shaped, NoTerminators, Skip, Normal, Legal;
    var child, rest := children[0], children[1..];
    var first := PrintNode(child, false, indent);
    assert Shaped(child) && children == [child] + rest;
    LookingAtSplit(s, i, first, PrintChildren(rest, false, indent));
    if NoTerminators(child) {
      ShapedIsLegal(child);
      NodeRoundTrip(s, i, child, indent);
      NodesFail(s, i + |first|, rest, indent);
    } else {
      NodeFails(s, i, child, indent);
    }
    SkipNone(s, Whitespace, i);
  }

  /** A document of elements and CDATA can be read back from its printout if and only if it holds
      no terminator character. */
  lemma PrintoutParsesIff(d: Xml)
    requires d.kind == Document && forall child <- d.children :: Shaped(child) && child.kind != Data
    ensures Parse(PrintNode(d, false, 0)).Ok? <==> forall child <- d.children :: NoTerminators(child)
  {
    hide ParseNodes, PrintChildren, Normal, NoTerminators, Shaped, Legal;
    var s := PrintNode(d, false, 0);
    if forall child <- d.children :: NoTerminators(child) {
      forall child | child in d.children
        ensures Legal(child)
      {
        ShapedIsLegal(child);
      }
      DocumentRoundTrip(d);
    } else {
      assert s == PrintChildren(d.children, false, 0) + [] == PrintChildren(d.children, false, 0);
      LookingAtWhole(s);
      NodesFail(s, 0, d.children, 0);
    }
  }
}
