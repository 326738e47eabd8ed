/** Cloning a tree of linked nodes. */
module XmlClone {
  import opened XmlText
  import opened XmlTree
  import opened XmlDom

  // ---------------------------------------------------------------- strings in memory

  /** Distance to the first terminator; the end of memory counts as one. */
  function Measure(memory: Text, start: nat): nat
    decreases |memory| - start
  {
    if At(memory, start) == '\0' then 0 else 1 + Measure(memory, start + 1)
  }

  lemma {:induction false} MeasureIs(memory: Text, start: nat)
    requires start <= |memory|
    ensures var end := start + Measure(memory, start);
            && end <= |memory| && At(memory, end) == '\0'
            && forall x :: start <= x < end ==> memory[x] != '\0'
    decreases |memory| - start
  {
    if At(memory, start) != '\0' {
      MeasureIs(memory, start + 1);
    }
  }

  /** allocate_attribute takes a size of zero to mean that it has to measure the string. */
  function Measured(memory: Text, s: Str): Str {
    if s.Span? && s.size == 0 then Span(s.start, Measure(memory, s.start)) else s
  }

  function MeasuredAttribute(memory: Text, a: Attribute<Str>): Attribute<Str> {
    Attribute(Measured(memory, a.name), Measured(memory, a.value))
  }

  function MeasuredAttributes(memory: Text, attributes: seq<Attribute<Str>>): seq<Attribute<Str>> {
    if attributes == [] then []
    else [MeasuredAttribute(memory, attributes[0])] + MeasuredAttributes(memory, attributes[1..])
  }

  /** What a clone of the tree amounts to. */
  function Cloned(memory: Text, t: Tree<Str>): Tree<Str>
    decreases t, 1
  {
    Tree(t.kind, t.name, t.value, MeasuredAttributes(memory, t.attributes), ClonedAll(memory, t.children))
  }

  function ClonedAll(memory: Text, children: seq<Tree<Str>>): seq<Tree<Str>>
    decreases children, 0
  {
    if children == [] then [] else [Cloned(memory, children[0])] + ClonedAll(memory, children[1..])
  }

  /** Every empty attribute name or value is followed by its terminator. */
  predicate EmptyTerminated(memory: Text, s: Str) {
    s.Span? && s.size == 0 ==> At(memory, s.start) == '\0'
  }

  predicate EmptiesTerminated(memory: Text, t: Tree<Str>)
    decreases t
  {
    && (forall a <- t.attributes :: EmptyTerminated(memory, a.name) && EmptyTerminated(memory, a.value))
    && (forall c <- t.children :: EmptiesTerminated(memory, c))
  }

  lemma {:induction false} AttributesClonedExactly(memory: Text, attributes: seq<Attribute<Str>>)
    ensures |MeasuredAttributes(memory, attributes)| == |attributes|
    ensures MeasuredAttributes(memory, attributes) == attributes
       <==> forall a <- attributes :: EmptyTerminated(memory, a.name) && EmptyTerminated(memory, a.value)
  {
    if attributes != [] {
      var a, rest := attributes[0], attributes[1..];
      AttributesClonedExactly(memory, rest);
      assert attributes == [a] + rest;
      var more := MeasuredAttributes(memory, rest);
      assert ([MeasuredAttribute(memory, a)] + more)[1..] == more;
    }
  }

  /** A clone equals its source exactly if the empty attribute strings are zero-terminated, which
      they are unless the parser was told not to place terminators. */
  lemma {:induction false} ClonedExactly(memory: Text, t: Tree<Str>)
    ensures Cloned(memory, t) == t <==> EmptiesTerminated(memory, t)
    decreases t, 1
  {
    AttributesClonedExactly(memory, t.attributes);
    ClonedAllExactly(memory, t.children);
  }

  /** Behind the empty value of this attribute stands an x, and the clone takes it for the value. */
  lemma EmptyValueGrows()
    ensures var t := Tree(Element, Span(0, 1), EmptyStr, [Attribute(Span(0, 1), Span(0, 0))], []);
            Cloned("x", t) == t.(attributes := [Attribute(Span(0, 1), Span(0, 1))]) != t
  {
    assert Measure("x", 0) == 1 + Measure("x", 1) == 1;
    var empty := Attribute(Span(0, 1), Span(0, 0));
    assert MeasuredAttributes("x", [empty]) == [MeasuredAttribute("x", empty)];
  }

  lemma {:induction false} ClonedAllExactly(memory: Text, children: seq<Tree<Str>>)
    ensures |ClonedAll(memory, children)| == |children|
    ensures ClonedAll(memory, children) == children <==> forall c <- children :: EmptiesTerminated(memory, c)
    decreases children, 0
  {
    if children != [] {
      hide Cloned, EmptiesTerminated;
      var c, rest := children[0], children[1..];
      ClonedExactly(memory, c);
      ClonedAllExactly(memory, rest);
      assert children == [c] + rest;
      var more := ClonedAll(memory, rest);
      assert ([Cloned(memory, c)] + more)[1..] == more;
    }
  }

  lemma {:induction false} MeasuredConcat(memory: Text, a: seq<Attribute<Str>>, b: seq<Attribute<Str>>)
    ensures MeasuredAttributes(memory, a + b) == MeasuredAttributes(memory, a) + MeasuredAttributes(memory, b)
  {
    if a == [] {
      assert a + b == b;
    } else {
      assert (a + b)[1..] == a[1..] + b;
      MeasuredConcat(memory, a[1..], b);
    }
  }

  lemma {:induction false} ClonedConcat(memory: Text, a: seq<Tree<Str>>, b: seq<Tree<Str>>)
    ensures ClonedAll(memory, a + b) == ClonedAll(memory, a) + ClonedAll(memory, b)
  {
    hide Cloned;
    if a == [] {
      assert a + b == b;
    } else {
      assert (a + b)[1..] == a[1..] + b;
      ClonedConcat(memory, a[1..], b);
    }
  }

  lemma ClonedNext(memory: Text, children: seq<Tree<Str>>, i: nat)
    requires i < |children|
    ensures ClonedAll(memory, children[..i + 1]) == ClonedAll(memory, children[..i]) + [Cloned(memory, children[i])]
  {
    assert children[..i + 1] == children[..i] + [children[i]];
    ClonedConcat(memory, children[..i], [children[i]]);
    assert ClonedAll(memory, [children[i]]) == [Cloned(memory, children[i])] + ClonedAll(memory, [children[i]][1..]);
  }

  lemma MeasuredNext(memory: Text, attributes: seq<Attribute<Str>>, i: nat)
    requires i < |attributes|
    ensures MeasuredAttributes(memory, attributes[..i + 1])
         == MeasuredAttributes(memory, attributes[..i]) + [MeasuredAttribute(memory, attributes[i])]
  {
    assert attributes[..i + 1] == attributes[..i] + [attributes[i]];
    MeasuredConcat(memory, attributes[..i], [attributes[i]]);
    assert MeasuredAttributes(memory, [attributes[i]])
        == [MeasuredAttribute(memory, attributes[i])] + MeasuredAttributes(memory, [attributes[i]][1..]);
  }

  // ---------------------------------------------------------------- walking the lists

  lemma {:induction false} AbstractAt(attributes: seq<XmlAttribute>, i: nat)
    requires i < |attributes|
    ensures |AbstractAttributes(attributes)| == |attributes|
    ensures AbstractAttributes(attributes)[i] == attributes[i].Abstract()
  {
    AbstractLength(attributes);
    if i > 0 {
      AbstractAt(attributes[1..], i - 1);
    }
  }

  /** Child number i, as the loops over first_node and next_sibling meet it; null at the end. */
  ghost function ChildAt(node: XmlNode, i: nat): XmlNode?
    reads node`children
  {
    if i < |node.children| then node.children[i] else null
  }

  ghost function AttributeAt(node: XmlNode, i: nat): XmlAttribute?
    reads node`attributes
  {
    if i < |node.attributes| then node.attributes[i] else null
  }

  lemma FirstChild(node: XmlNode)
    requires node.Valid()
    ensures node.first == ChildAt(node, 0) && node.firstAttribute == AttributeAt(node, 0)
    ensures |node.tree.children| == |node.children| && |node.tree.attributes| == |node.attributes|
    ensures node.tree.kind == node.kind && node.tree.name == Read(node.name) && node.tree.value == Read(node.value)
  {
    TreesLength(node.children);
    AbstractLength(node.attributes);
  }

  lemma NextChild(node: XmlNode, i: nat)
    requires node.Valid() && i < |node.children|
    ensures var c := node.children[i];
            && c.next == ChildAt(node, i + 1) && c.Valid() && c.kind != Document
            && c in node.below && c.below < node.below
            && |node.tree.children| == |node.children| && c.tree == node.tree.children[i]
  {
    TreesAt(node.children, i);
    assert node.children[i] in node.children;
  }

  lemma NextAttribute(node: XmlNode, i: nat)
    requires node.Valid() && i < |node.attributes|
    ensures var a := node.attributes[i];
            && a.next == AttributeAt(node, i + 1)
            && |node.tree.attributes| == |node.attributes| && a.Abstract() == node.tree.attributes[i]
  {
    AbstractAt(node.attributes, i);
  }

  // ---------------------------------------------------------------- clone_node

  method MeasureString(memory: Text, start: nat) returns (size: nat)
    ensures size == Measure(memory, start)
  {
    size := 0;
    while At(memory, start + size) != '\0'
      invariant size + Measure(memory, start + size) == Measure(memory, start)
      decreases |memory| - start - size
    {
      size := size + 1;
    }
  }

  /** How allocate_attribute takes over a name or value. */
  method TakeOver(memory: Text, s: Str) returns (r: Str)
    ensures r == Measured(memory, s)
  {
    r := s;
    if s.Span? && s.size == 0 {
      var size := MeasureString(memory, s.start);
      r := Span(s.start, size);
    }
  }

  method AllocateAttribute(memory: Text, name: Str, value: Str) returns (attribute: XmlAttribute)
    requires name != NoStr && value != NoStr
    ensures fresh(attribute) && attribute.parent == null
    ensures attribute.Abstract() == MeasuredAttribute(memory, Attribute(name, value))
  {
    attribute := new XmlAttribute();
    attribute.name := TakeOver(memory, name);
    attribute.value := TakeOver(memory, value);
  }

  /** A copy of the tree below `source`, made of new objects only. */
  method CloneNode(memory: Text, source: XmlNode) returns (result: XmlNode)
    requires source.Valid()
    ensures result.Valid() && fresh(result) && fresh(result.below)
    ensures result.parent == null && result.kind == source.kind
    ensures result.tree == Cloned(memory, source.tree)
    decreases source.below, 2
  {
    result := new XmlNode(source.kind);
    CloneContents(memory, source, result);
  }

  /** Names, values, children and attributes; the children come first. */
  method CloneContents(memory: Text, source: XmlNode, result: XmlNode)
    requires source.Valid() && result.Valid()
    requires result.children == [] && result.attributes == [] && result.below == {} && result.kind == source.kind
    requires result != source && result !in source.below
    modifies result`name, result`value, result`tree, result`below, result`children, result`attributes
    modifies result`first, result`last, result`firstAttribute, result`lastAttribute
    ensures result.Valid() && fresh(result.below)
    ensures result.tree == Cloned(memory, source.tree)
    decreases source.below, 1
  {
    hide XmlNode.Sound, ClonedAll, MeasuredAttributes;
    FirstChild(source);
    FirstChild(result);
    result.SetName(Read(source.name));
    result.SetValue(Read(source.value));
    CloneChildren(memory, source, result);
    CloneAttributes(memory, source, result);
  }

  method CloneChildren(memory: Text, source: XmlNode, result: XmlNode)
    requires source.Valid() && result.Valid()
    requires result.children == [] && result.tree.children == [] && result.below == {}
    requires result != source && result !in source.below
    modifies result`tree, result`below, result`children, result`first, result`last
    ensures result.Valid() && fresh(result.below)
    ensures result.tree == old(result.tree).(children := ClonedAll(memory, source.tree.children))
    decreases source.below, 0
  {
    hide XmlNode.Valid, XmlNode.Sound, Cloned, ClonedAll;
    FirstChild(source);
    assert ClonedAll(memory, []) == [] by { ClonedAllExactly(memory, []); }
    var child := source.first;
    ghost var i := 0;
    while child != null
      invariant i <= |source.children| && child == ChildAt(source, i)
      invariant source.Valid() && source.tree == old(source.tree) && source.children == old(source.children)
      invariant source.below == old(source.below)
      invariant result.Valid() && fresh(result.below) && fresh(result.children)
      invariant |source.tree.children| == |source.children|
      invariant result.tree == old(result.tree).(children := ClonedAll(memory, source.tree.children[..i]))
      decreases |source.children| - i
    {
      NextChild(source, i);
      var copy := CloneNode(memory, child);
      result.AppendNode(copy);
      ClonedNext(memory, source.tree.children, i);
      child := child.next;
      i := i + 1;
    }
    assert source.tree.children[..i] == source.tree.children;
  }

  method CloneAttributes(memory: Text, source: XmlNode, result: XmlNode)
    requires source.Valid() && result.Valid()
    requires result.attributes == [] && result.tree.attributes == []
    requires result != source && result !in source.below
    modifies result`tree, result`below, result`attributes, result`firstAttribute, result`lastAttribute
    ensures result.Valid() && fresh(result.below - old(result.below))
    ensures result.tree == old(result.tree).(attributes := MeasuredAttributes(memory, source.tree.attributes))
  {
    hide XmlNode.Valid, XmlNode.Sound, MeasuredAttributes, MeasuredAttribute;
    FirstChild(source);
    assert MeasuredAttributes(memory, []) == [] by { AttributesClonedExactly(memory, []); }
    var attribute := source.firstAttribute;
    ghost var i := 0;
    while attribute != null
      invariant i <= |source.attributes| && attribute == AttributeAt(source, i)
      invariant source.Valid() && source.tree == old(source.tree) && source.attributes == old(source.attributes)
      invariant result.Valid() && fresh(result.below - old(result.below)) && fresh(result.attributes)
      invariant |source.tree.attributes| == |source.attributes|
      invariant result.tree == old(result.tree).(attributes := MeasuredAttributes(memory, source.tree.attributes[..i]))
      decreases |source.attributes| - i
    {
      NextAttribute(source, i);
      var copy := AllocateAttribute(memory, Read(attribute.name), Read(attribute.value));
      result.AppendAttribute(copy);
      MeasuredNext(memory, source.tree.attributes, i);
      attribute := attribute.next;
      i := i + 1;
    }
    assert source.tree.attributes[..i] == source.tree.attributes;
  }

  /** The form with a second argument: the contents of `result` are replaced. */
  method CloneInto(memory: Text, source: XmlNode, result: XmlNode)
    requires source.Valid() && result.Valid()
    requires result.below + {result} !! source.below + {source}
    modifies result`kind, result`name, result`value, result`tree, result`below, result`children, result`attributes
    modifies result`first, result`last, result`firstAttribute, result`lastAttribute
    modifies result.children`parent, result.attributes`parent
    ensures result.Valid() && fresh(result.below) && result.kind == source.kind
    ensures result.tree == Cloned(memory, source.tree)
    ensures source.Valid() && source.tree == old(source.tree)
  {
    hide XmlNode.Sound, Cloned;
    FirstChild(result);
    result.RemoveAllAttributes();
    result.RemoveAllNodes();
    result.SetKind(source.kind);
    CloneContents(memory, source, result);
  }
}
