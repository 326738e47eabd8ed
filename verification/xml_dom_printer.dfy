/** The printer: it walks the linked nodes and appends to an output text. */
module XmlDomPrinter {
  import opened Basics
  import opened XmlText
  import opened XmlTree
  import opened XmlDom
  import opened XmlMemory
  import opened XmlClone
  import Spec = XmlPrinter

  method CopyChars(memory: Text, s: Str, out: Text) returns (r: Text)
    requires InMemory(memory, s)
    ensures r == out + Deref(memory, s)
  {
    r := out;
    if s.Span? {
      var begin := s.start;
      while begin != s.start + s.size
        invariant s.start <= begin <= s.start + s.size
        invariant r == out + memory[s.start..begin]
        decreases s.start + s.size - begin
      {
        assert memory[s.start..begin + 1] == memory[s.start..begin] + [memory[begin]];
        r := r + [memory[begin]];
        begin := begin + 1;
      }
    }
  }

  method CopyAndExpandChars(memory: Text, s: Str, noexpand: char, out: Text) returns (r: Text)
    requires InMemory(memory, s)
    ensures r == out + Spec.Escape(Deref(memory, s), noexpand)
  {
    hide Spec.EscapeChar;
    r := out;
    if s.Span? {
      ghost var v := Deref(memory, s);
      var begin := s.start;
      assert memory[begin..s.start + s.size] == v;
      while begin != s.start + s.size
        invariant s.start <= begin <= s.start + s.size
        invariant r + Spec.Escape(memory[begin..s.start + s.size], noexpand) == out + Spec.Escape(v, noexpand)
        decreases s.start + s.size - begin
      {
        ghost var rest := memory[begin..s.start + s.size];
        assert rest[0] == memory[begin] && rest[1..] == memory[begin + 1..s.start + s.size];
        ghost var before := r;
        r := ExpandChar(memory[begin], noexpand, r);
        ConcatAssociative(before, Spec.EscapeChar(memory[begin], noexpand), Spec.Escape(rest[1..], noexpand));
        begin := begin + 1;
      }
    }
  }

  /** The body of the loop of copy_and_expand_chars. */
  method ExpandChar(c: char, noexpand: char, out: Text) returns (r: Text)
    ensures r == out + Spec.EscapeChar(c, noexpand)
  {
    if c == noexpand {
      r := out + [c];
    } else {
      match c {
        case '<' => r := out + "&lt;";
        case '>' => r := out + "&gt;";
        case '\'' => r := out + "&apos;";
        case '"' => r := out + "&quot;";
        case '&' => r := out + "&amp;";
        case _ => r := out + [c];
      }
    }
  }

  method FillChars(out: Text, n: nat, c: char) returns (r: Text)
    ensures r == out + seq(n, _ => c)
  {
    r := out;
    for i := 0 to n
      invariant r == out + seq(i, _ => c)
    {
      r := r + [c];
    }
  }

  method FindChar(memory: Text, s: Str, c: char) returns (found: bool)
    requires InMemory(memory, s)
    ensures found <==> c in Deref(memory, s)
  {
    if s.Span? {
      var begin := s.start;
      while begin != s.start + s.size
        invariant s.start <= begin <= s.start + s.size
        invariant c !in memory[s.start..begin]
        decreases s.start + s.size - begin
      {
        assert memory[s.start..begin + 1] == memory[s.start..begin] + [memory[begin]];
        if memory[begin] == c {
          assert Deref(memory, s)[begin - s.start] == c;
          return true;
        }
        begin := begin + 1;
      }
    }
    return false;
  }

  method PrintTabs(indented: bool, indent: nat, out: Text) returns (r: Text)
    ensures r == out + Spec.Tabs(indented, indent)
  {
    r := out;
    if indented {
      r := FillChars(out, indent, '\t');
    } else {
      assert out + [] == out;
    }
  }

  method PrintLineBreak(indented: bool, out: Text) returns (r: Text)
    ensures r == out + Spec.LineBreak(indented)
  {
    r := out;
    if indented {
      r := out + "\n";
    } else {
      assert out + [] == out;
    }
  }

  /** One attribute; the quote depends on what the value contains. */
  method PrintAttribute(memory: Text, a: XmlAttribute, out: Text) returns (r: Text)
    requires InMemory(memory, a.name) && InMemory(memory, a.value)
    ensures r == out + Spec.PrintAttribute(Attribute(Deref(memory, Read(a.name)), Deref(memory, Read(a.value))))
  {
    hide Spec.Escape, Deref;
    ghost var name, value := Deref(memory, Read(a.name)), Deref(memory, Read(a.value));
    r := out + " ";
    r := CopyChars(memory, Read(a.name), r);
    r := r + "=";
    var doubleQuote := FindChar(memory, Read(a.value), '"');
    var quote, kept := if doubleQuote then '\'' else '"', if doubleQuote then '"' else '\'';
    r := r + [quote];
    assert quote == Spec.QuoteFor(value) && kept == Spec.KeptQuote(value);
    assert r == out + (" " + name + "=" + [quote]);
    r := CopyAndExpandChars(memory, Read(a.value), kept, r);
    ConcatAssociative(out, " " + name + "=" + [quote], Spec.Escape(value, kept));
    r := r + [quote];
    ConcatAssociative(out, " " + name + "=" + [quote] + Spec.Escape(value, kept), [quote]);
  }

  lemma NullInMemory(memory: Text, s: Str)
    ensures InMemory(memory, Read(s)) == InMemory(memory, s)
  {
  }

  lemma {:induction false} PrintAttributesConcat(a: seq<Attribute<Text>>, b: seq<Attribute<Text>>)
    ensures Spec.PrintAttributes(a + b) == Spec.PrintAttributes(a) + Spec.PrintAttributes(b)
  {
    hide Spec.PrintAttribute;
    if a == [] {
      assert a + b == b;
    } else {
      assert (a + b)[1..] == a[1..] + b;
      PrintAttributesConcat(a[1..], b);
      ConcatAssociative(Spec.PrintAttribute(a[0]), Spec.PrintAttributes(a[1..]), Spec.PrintAttributes(b));
    }
  }

  lemma PrintAttributesNext(attributes: seq<Attribute<Text>>, i: nat)
    requires i < |attributes|
    ensures Spec.PrintAttributes(attributes[..i + 1])
              == Spec.PrintAttributes(attributes[..i]) + Spec.PrintAttribute(attributes[i])
  {
    hide Spec.PrintAttribute;
    assert attributes[..i + 1] == attributes[..i] + [attributes[i]];
    PrintAttributesConcat(attributes[..i], [attributes[i]]);
    assert Spec.PrintAttributes([attributes[i]])
           == Spec.PrintAttribute(attributes[i]) + Spec.PrintAttributes([attributes[i]][1..]);
  }

  lemma PrintChildrenNext(children: seq<Xml>, i: nat, indented: bool, indent: nat)
    requires i < |children|
    ensures Spec.PrintChildren(children[..i + 1], indented, indent)
         == Spec.PrintChildren(children[..i], indented, indent) + Spec.PrintNode(children[i], indented, indent)
  {
    hide Spec.PrintNode;
    assert children[..i + 1] == children[..i] + [children[i]];
    Spec.PrintChildrenConcat(children[..i], [children[i]], indented, indent);
    assert Spec.PrintChildren([children[i]], indented, indent)
        == Spec.PrintNode(children[i], indented, indent) + Spec.PrintChildren([children[i]][1..], indented, indent);
  }

  method PrintAttributes(memory: Text, node: XmlNode, out: Text) returns (r: Text)
    requires node.Valid() && TreeInMemory(memory, node.tree)
    ensures r == out + Spec.PrintAttributes(Resolve(memory, node.tree).attributes)
  {
    hide XmlNode.Valid, Spec.PrintAttribute, Deref, InMemory;
    FirstChild(node);
    ghost var attributes := Resolve(memory, node.tree).attributes;
    ResolveAttributesAt(memory, node.tree.attributes);
    hide Resolve, ResolveAttributes;
    var attribute := node.firstAttribute;
    ghost var i := 0;
    r := out;
    assert out + [] == out;
    while attribute != null
      invariant i <= |node.attributes| && attribute == AttributeAt(node, i)
      invariant r == out + Spec.PrintAttributes(attributes[..i])
      decreases |node.attributes| - i
    {
      NextAttribute(node, i);
      assert node.tree.attributes[i] in node.tree.attributes;
      NullInMemory(memory, attribute.name);
      NullInMemory(memory, attribute.value);
      r := PrintAttribute(memory, attribute, r);
      PrintAttributesNext(attributes, i);
      ConcatAssociative(out, Spec.PrintAttributes(attributes[..i]), Spec.PrintAttribute(attributes[i]));
      attribute := attribute.next;
      i := i + 1;
    }
    assert attributes[..i] == attributes;
  }

  function Size(s: Str): nat {
    if s.Span? then s.size else 0
  }

  /** What the printer uses of a node. */
  lemma NodeFacts(memory: Text, node: XmlNode)
    requires node.Valid() && TreeInMemory(memory, node.tree)
    ensures InMemory(memory, Read(node.name)) && InMemory(memory, Read(node.value))
    ensures node.first == ChildAt(node, 0)
    ensures var t := Resolve(memory, node.tree);
            && t.kind == node.kind
            && t.name == Deref(memory, Read(node.name)) && t.value == Deref(memory, Read(node.value))
            && |t.children| == |node.children| && (t.value == [] <==> Size(Read(node.value)) == 0)
  {
    hide XmlNode.Valid, ResolveAttributes, ResolveAll;
    FirstChild(node);
    NullInMemory(memory, node.name);
    NullInMemory(memory, node.value);
    ResolveAllAt(memory, node.tree.children);
  }

  /** What it uses of a child. */
  lemma ChildFacts(memory: Text, node: XmlNode, i: nat)
    requires node.Valid() && TreeInMemory(memory, node.tree) && i < |node.children|
    ensures var c := node.children[i];
            && c.Valid() && TreeInMemory(memory, c.tree) && c.below < node.below && c.next == ChildAt(node, i + 1)
            && |Resolve(memory, node.tree).children| == |node.children|
            && Resolve(memory, c.tree) == Resolve(memory, node.tree).children[i]
  {
    hide XmlNode.Valid, InMemory, Deref;
    FirstChild(node);
    NextChild(node, i);
    ResolveAllAt(memory, node.tree.children);
    assert node.tree.children[i] in node.tree.children;
  }

  /** print_node: every kind of node, with a line break behind it if indenting. */
  method PrintNode(memory: Text, node: XmlNode, indented: bool, indent: nat, out: Text) returns (r: Text)
    requires node.Valid() && TreeInMemory(memory, node.tree)
    ensures r == out + Spec.PrintNode(Resolve(memory, node.tree), indented, indent)
    decreases node.below, 4
  {
    hide XmlNode.Valid, Spec.PrintBody, Spec.PrintChildren, Spec.Tabs, TreeInMemory, Resolve, Deref;
    NodeFacts(memory, node);
    ghost var t := Resolve(memory, node.tree);
    if node.kind == Document {
      r := PrintChildren(memory, node, indented, indent, out);
    } else {
      r := PrintTabs(indented, indent, out);
      r := PrintBody(memory, node, indented, indent, r);
      ConcatAssociative(out, Spec.Tabs(indented, indent), Spec.PrintBody(t, indented, indent));
    }
    ghost var printed := if t.kind == Document then Spec.PrintChildren(t.children, indented, indent)
                         else Spec.Tabs(indented, indent) + Spec.PrintBody(t, indented, indent);
    r := PrintLineBreak(indented, r);
    ConcatAssociative(out, printed, Spec.LineBreak(indented));
  }

  method PrintChildren(memory: Text, node: XmlNode, indented: bool, indent: nat, out: Text) returns (r: Text)
    requires node.Valid() && TreeInMemory(memory, node.tree)
    ensures r == out + Spec.PrintChildren(Resolve(memory, node.tree).children, indented, indent)
    decreases node.below, 0
  {
    hide XmlNode.Valid, Spec.PrintNode, Resolve, TreeInMemory, Deref, InMemory;
    NodeFacts(memory, node);
    ghost var children := Resolve(memory, node.tree).children;
    var child := node.first;
    ghost var i := 0;
    r := out;
    assert out + [] == out;
    while child != null
      invariant i <= |node.children| && child == ChildAt(node, i)
      invariant r == out + Spec.PrintChildren(children[..i], indented, indent)
      decreases |node.children| - i
    {
      ChildFacts(memory, node, i);
      r := PrintNode(memory, child, indented, indent, r);
      PrintChildrenNext(children, i, indented, indent);
      ConcatAssociative(out, Spec.PrintChildren(children[..i], indented, indent),
                        Spec.PrintNode(children[i], indented, indent));
      child := child.next;
      i := i + 1;
    }
    assert children[..i] == children;
  }

  /** What the functions for the single kinds print between indentation and line break. */
  method PrintBody(memory: Text, node: XmlNode, indented: bool, indent: nat, out: Text) returns (r: Text)
    requires node.Valid() && TreeInMemory(memory, node.tree) && node.kind != Document
    ensures Resolve(memory, node.tree).kind == node.kind
    ensures r == out + Spec.PrintBody(Resolve(memory, node.tree), indented, indent)
    decreases node.below, 3
  {
    hide XmlNode.Valid, Spec.PrintElement, Spec.PrintAttributes, Spec.Escape, Resolve, TreeInMemory, Deref, InMemory;
    NodeFacts(memory, node);
    var name, value := Read(node.name), Read(node.value);
    match node.kind {
      case Element =>
        r := PrintElement(memory, node, indented, indent, out);
      case Data =>
        r := CopyAndExpandChars(memory, value, '\0', out);
      case CData =>
        r := CopyChars(memory, value, out + "<![CDATA[");
        r := r + "]]>";
        assert r == out + ("<![CDATA[" + Deref(memory, value) + "]]>");
      case Comment =>
        r := CopyChars(memory, value, out + "<!--");
        r := r + "-->";
        assert r == out + ("<!--" + Deref(memory, value) + "-->");
      case Declaration =>
        r := PrintAttributes(memory, node, out + "<?xml");
        r := r + "?>";
        assert r == out + ("<?xml" + Spec.PrintAttributes(Resolve(memory, node.tree).attributes) + "?>");
      case Doctype =>
        r := CopyChars(memory, value, out + "<!DOCTYPE ");
        r := r + ">";
        assert r == out + ("<!DOCTYPE " + Deref(memory, value) + ">");
      case Pi =>
        r := CopyChars(memory, name, out + "<?");
        r := CopyChars(memory, value, r + " ");
        r := r + "?>";
        assert r == out + ("<?" + Deref(memory, name) + " " + Deref(memory, value) + "?>");
    }
  }

  lemma Regroup(out: Text, opening: Text, content: Text, name: Text)
    ensures out + opening + ">" + content + "</" + name + ">" == out + (opening + (">" + content + "</" + name + ">"))
  {
  }

  method PrintElement(memory: Text, node: XmlNode, indented: bool, indent: nat, out: Text) returns (r: Text)
    requires node.Valid() && TreeInMemory(memory, node.tree) && node.kind == Element
    ensures r == out + Spec.PrintElement(Resolve(memory, node.tree), indented, indent)
    decreases node.below, 2
  {
    hide XmlNode.Valid, Spec.PrintContent, Spec.PrintAttributes, Resolve, TreeInMemory, Deref, InMemory, Read, Size;
    NodeFacts(memory, node);
    ghost var t := Resolve(memory, node.tree);
    r := CopyChars(memory, Read(node.name), out + "<");
    r := PrintAttributes(memory, node, r);
    ghost var opening := "<" + t.name + Spec.PrintAttributes(t.attributes);
    assert r == out + opening;
    if Size(Read(node.value)) == 0 && node.first == null {
      r := r + "/>";
      ConcatAssociative(out, opening, "/>");
    } else {
      r := PrintContent(memory, node, indented, indent, r + ">");
      r := CopyChars(memory, Read(node.name), r + "</");
      r := r + ">";
      Regroup(out, opening, Spec.PrintContent(t, indented, indent), t.name);
    }
  }

  method PrintContent(memory: Text, node: XmlNode, indented: bool, indent: nat, out: Text) returns (r: Text)
    requires node.Valid() && TreeInMemory(memory, node.tree) && node.kind == Element
    ensures r == out + Spec.PrintContent(Resolve(memory, node.tree), indented, indent)
    decreases node.below, 1
  {
    hide XmlNode.Valid, Spec.PrintChildren, Spec.Escape, Spec.Tabs, Resolve, TreeInMemory, Deref, InMemory, Read;
    NodeFacts(memory, node);
    ghost var t := Resolve(memory, node.tree);
    var child := node.first;
    if child == null {
      r := CopyAndExpandChars(memory, Read(node.value), '\0', out);
      return;
    }
    ChildFacts(memory, node, 0);
    NodeFacts(memory, child);
    if child.next == null && child.kind == Data {
      r := CopyAndExpandChars(memory, Read(child.value), '\0', out);
    } else {
      r := PrintLineBreak(indented, out);
      r := PrintChildren(memory, node, indented, indent + 1, r);
      r := PrintTabs(indented, indent, r);
      ConcatAssociative(out, Spec.LineBreak(indented), Spec.PrintChildren(t.children, indented, indent + 1));
      ConcatAssociative(out, Spec.LineBreak(indented) + Spec.PrintChildren(t.children, indented, indent + 1),
                        Spec.Tabs(indented, indent));
    }
  }

  /** print() with a document or any other node. */
  method Print(memory: Text, node: XmlNode, indented: bool) returns (r: Text)
    requires node.Valid() && TreeInMemory(memory, node.tree)
    ensures r == Spec.PrintNode(Resolve(memory, node.tree), indented, 0)
  {
    r := PrintNode(memory, node, indented, 0, []);
  }
}
