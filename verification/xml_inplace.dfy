/** The parser with default flags as it works: in place, writing terminators behind names and
    values into the buffer it is still reading, and hanging nodes into a linked tree. Every method
    is proved against the function of the same name in XmlParser, which reads an immutable copy. */
module XmlInPlace {
  import opened XmlText
  import opened XmlTree
  import opened XmlDom
  import opened XmlMemory
  import opened XmlSettled
  import opened XmlInPlaceText
  import Pure = XmlParser

  // ---------------------------------------------------------------- passing over

  /** Comments, processing instructions, declarations and CDATA end at a fixed pattern. */
  method Find(buffer: array<char>, ghost s: Text, text: nat, pattern: Text) returns (r: Parsed<nat>)
    requires Intact(buffer, s, text) && text <= |s| && pattern != [] && '\0' !in pattern
    ensures r == Pure.Find(s, text, pattern)
  {
    hide LookingAt;
    var i := text;
    while true
      invariant text <= i <= |s| && Pure.Find(s, i, pattern) == Pure.Find(s, text, pattern)
      decreases |s| - i
    {
      var found := Matches(buffer, s, i, pattern);
      if found {
        return Ok(i, i + |pattern|);
      }
      if buffer[i] == '\0' {
        return Err(UnexpectedEnd, i);
      }
      i := i + 1;
    }
  }

  /** From behind "!DOCTYPE " to behind the '>' outside all brackets. */
  method SkipDoctype(buffer: array<char>, ghost s: Text, text: nat) returns (r: Parsed<()>)
    requires Intact(buffer, s, text) && text <= |s|
    ensures r == Pure.SkipDoctype(s, text, 0)
  {
    var i := text;
    while buffer[i] != '>'
      invariant text <= i <= |s| && Pure.SkipDoctype(s, i, 0) == Pure.SkipDoctype(s, text, 0)
      decreases |s| - i
    {
      if buffer[i] == '[' {
        i := i + 1;
        var depth := 1;
        while depth > 0
          invariant text <= i <= |s| && depth >= 0 && Pure.SkipDoctype(s, i, depth) == Pure.SkipDoctype(s, text, 0)
          decreases |s| - i
        {
          match buffer[i] {
            case '[' => depth := depth + 1;
            case ']' => depth := depth - 1;
            case '\0' => return Err(UnexpectedEnd, i);
            case _ =>
          }
          i := i + 1;
        }
      } else if buffer[i] == '\0' {
        return Err(UnexpectedEnd, i);
      } else {
        i := i + 1;
      }
    }
    r := Ok((), i + 1);
  }

  // ---------------------------------------------------------------- attributes

  ghost function DerefAttribute(memory: Text, a: Attribute<Str>): Attribute<Text> {
    Attribute(Deref(memory, a.name), Deref(memory, a.value))
  }

  lemma DerefSlice(buffer: array<char>, start: nat, size: nat)
    requires start + size <= buffer.Length
    ensures Deref(buffer[..], Span(start, size)) == buffer[start..start + size]
  {
    assert buffer[..][start..start + size] == buffer[start..start + size];
  }

  lemma NameInPlace(buffer: array<char>, s: Text, start: nat, end: nat)
    requires start <= end <= |s| < buffer.Length
    requires forall x :: start <= x < end ==> buffer[x] == s[x]
    ensures Deref(buffer[..], Span(start, end - start)) == s[start..end]
  {
    assert buffer[..][start..end] == s[start..end];
  }

  lemma AttributeInPlace(buffer: array<char>, s: Text, start: nat, nameEnd: nat, value: Str, lo: nat, hi: nat)
    requires start <= nameEnd < hi && nameEnd <= |s| < buffer.Length && start <= lo && buffer[nameEnd] == '\0'
    requires forall x :: start <= x < nameEnd ==> buffer[x] == s[x]
    requires Placed(buffer[..], value, lo, hi)
    ensures AttributePlaced(buffer[..], Attribute(Span(start, nameEnd - start), value), start, hi)
    ensures DerefAttribute(buffer[..], Attribute(Span(start, nameEnd - start), value))
         == Attribute(s[start..nameEnd], Deref(buffer[..], value))
  {
    hide Deref;
    NameInPlace(buffer, s, start, nameEnd);
  }

  /** A value between quotes; its terminator overwrites the closing quote or what is left of the
      value before it. */
  method ReadQuoted(buffer: array<char>, ghost s: Text, text: nat) returns (r: Parsed<Str>)
    requires Intact(buffer, s, text) && text <= |s|
    modifies buffer
    ensures r.Err? ==> OnlyChanged(buffer, text, |s|)
    ensures match Pure.ParseQuoted(s, text)
            case Err(what, at) => r == Err(what, at)
            case Ok(v, next) =>
              && r.Ok? && r.next == next && Intact(buffer, s, next) && OnlyChanged(buffer, text, next)
              && r.value.Span? && Placed(buffer[..], r.value, text, next) && Deref(buffer[..], r.value) == v
  {
    hide Expand, Deref;
    var quote := buffer[text];
    if !Pure.IsQuote(quote) {
      return Err(ExpectedQuote, text);
    }
    var expanded := SkipAndExpand(buffer, s, quote, text + 1);
    if expanded.Err? {
      return Err(expanded.what, expanded.at);
    }
    var end, close := expanded.value, expanded.next;
    if buffer[close] != quote {
      return Err(ExpectedQuote, close);
    }
    ghost var value := buffer[text + 1..end];
    buffer[end] := '\0';
    assert buffer[text + 1..end] == value;
    DerefSlice(buffer, text + 1, end - text - 1);
    r := Ok(Span(text + 1, end - text - 1), close + 1);
  }

  /** One attribute, from its name to behind its closing quote; the terminator of the name
      overwrites the character behind it. */
  method ReadAttribute(buffer: array<char>, ghost s: Text, text: nat) returns (r: Parsed<Attribute<Str>>)
    requires Intact(buffer, s, text) && Test(AttributeName, At(s, text))
    modifies buffer
    ensures r.Err? ==> OnlyChanged(buffer, text, |s|)
    ensures match Pure.ParseAttribute(s, text)
            case Err(what, at) => r == Err(what, at)
            case Ok(a, next) =>
              && r.Ok? && r.next == next && Intact(buffer, s, next) && OnlyChanged(buffer, text, next)
              && AttributePlaced(buffer[..], r.value, text, next) && DerefAttribute(buffer[..], r.value) == a
              && r.value.name.Span? && r.value.value.Span?
  {
    hide Pure.ParseQuoted, Skip, Deref, Placed, AttributePlaced, DerefAttribute;
    var nameEnd := SkipChars(buffer, s, AttributeName, text + 1);
    var eq := SkipChars(buffer, s, Whitespace, nameEnd);
    if buffer[eq] != '=' {
      return Err(ExpectedEquals, eq);
    }
    buffer[nameEnd] := '\0';
    var open := SkipChars(buffer, s, Whitespace, eq + 1);
    var value := ReadQuoted(buffer, s, open);
    if value.Err? {
      return Err(value.what, value.at);
    }
    AttributeInPlace(buffer, s, text, nameEnd, value.value, open, value.next);
    r := Ok(Attribute(Span(text, nameEnd - text), value.value), value.next);
  }

  /** What is left to parse comes behind what has been parsed. */
  function Behind<T>(done: seq<T>, r: Parsed<seq<T>>): Parsed<seq<T>> {
    match r
    case Ok(rest, next) => Ok(done + rest, next)
    case Err(what, at) => Err(what, at)
  }

  lemma BehindBehind<T>(a: seq<T>, b: seq<T>, r: Parsed<seq<T>>)
    ensures Behind(a, Behind(b, r)) == Behind(a + b, r)
  {
    if r.Ok? {
      assert a + (b + r.value) == a + b + r.value;
    }
  }

  lemma BehindNothing<T>(r: Parsed<seq<T>>)
    ensures Behind([], r) == r
  {
    if r.Ok? {
      assert [] + r.value == r.value;
    }
  }

  lemma AttributesStep(s: Text, i: nat)
    requires Test(AttributeName, At(s, i))
    ensures Pure.ParseAttributes(s, i) ==
            match Pure.ParseAttribute(s, i)
            case Err(what, at) => Err(what, at)
            case Ok(a, next) => Behind([a], Pure.ParseAttributes(s, Skip(s, Whitespace, next)))
  {
    hide Pure.ParseAttribute, Skip;
  }

  lemma AttributesEnd(s: Text, i: nat, done: seq<Attribute<Text>>)
    requires !Test(AttributeName, At(s, i))
    ensures Behind(done, Pure.ParseAttributes(s, i)) == Ok(done, i)
  {
    assert done + [] == done;
  }

  lemma AttributesExtended(m: Text, n: Text, attributes: seq<Attribute<Str>>, a: Attribute<Str>, lo: nat, mid: nat,
                           end: nat, hi: nat)
    requires Agree(m, n, lo, mid) && lo <= mid <= end <= hi
    requires AttributesPlaced(m, attributes, lo, mid) && AttributePlaced(n, a, mid, end)
    ensures AttributesPlaced(n, attributes + [a], lo, hi)
    ensures ResolveAttributes(n, attributes + [a]) == ResolveAttributes(m, attributes) + [DerefAttribute(n, a)]
  {
    hide Agree, Deref;
    AttributesFrame(m, n, attributes, lo, mid, lo, hi);
    AttributesPlacedConcat(n, attributes, [a], lo, hi);
    ResolveAttributesConcat(n, attributes, [a]);
  }

  method AddAttribute(node: XmlNode, a: Attribute<Str>)
    requires node.Valid() && a.name.Span? && a.value.Span?
    modifies node`firstAttribute, node`lastAttribute, node`attributes, node`tree, node`below, node.attributes`next
    ensures node.Valid() && fresh(node.below - old(node.below))
    ensures forall i :: 0 <= i < |node.attributes| ==>
              node.attributes[i] in old(node.attributes) || fresh(node.attributes[i])
    ensures node.tree == old(node.tree).(attributes := old(node.tree.attributes) + [a])
  {
    hide XmlNode.Valid;
    var attribute := new XmlAttribute();
    attribute.name, attribute.value := a.name, a.value;
    node.AppendAttribute(attribute);
  }

  method ParseNodeAttributes(buffer: array<char>, ghost s: Text, text: nat, node: XmlNode) returns (r: Parsed<()>)
    requires Intact(buffer, s, text) && text <= |s|
    requires node.Valid() && buffer !in node.below && node.attributes == [] && node.tree.attributes == []
    modifies buffer, node`firstAttribute, node`lastAttribute, node`attributes, node`tree, node`below
    ensures r.Err? ==> OnlyChanged(buffer, text, |s|)
    ensures match Pure.ParseAttributes(s, text)
            case Err(what, at) => r == Err(what, at)
            case Ok(attributes, next) =>
              && r == Ok((), next) && Intact(buffer, s, next) && OnlyChanged(buffer, text, next)
              && node.Valid() && fresh(node.below - old(node.below))
              && node.tree == old(node.tree).(attributes := node.tree.attributes)
              && AttributesPlaced(buffer[..], node.tree.attributes, text, next)
              && ResolveAttributes(buffer[..], node.tree.attributes) == attributes
  {
    hide XmlNode.Valid, AttributesPlaced, ResolveAttributes, Skip, Pure.ParseAttribute, Pure.ParseAttributes,
         AttributePlaced, DerefAttribute, Behind;
    var i := text;
    ghost var done: seq<Attribute<Text>> := [];
    NoAttributes(buffer[..], text, text);
    BehindNothing(Pure.ParseAttributes(s, text));
    while Test(AttributeName, buffer[i])
      invariant text <= i <= |s| && Intact(buffer, s, i) && OnlyChanged(buffer, text, i)
      invariant node.Valid() && fresh(node.below - old(node.below)) && fresh(node.attributes)
      invariant node.tree == old(node.tree).(attributes := node.tree.attributes)
      invariant AttributesPlaced(buffer[..], node.tree.attributes, text, i)
      invariant ResolveAttributes(buffer[..], node.tree.attributes) == done
      invariant Pure.ParseAttributes(s, text) == Behind(done, Pure.ParseAttributes(s, i))
      decreases |s| - i
    {
      ghost var was, attributes := buffer[..], node.tree.attributes;
      AttributesStep(s, i);
      var a := ReadAttribute(buffer, s, i);
      if a.Err? {
        BehindError(done, a.what, a.at);
        return Err(a.what, a.at);
      }
      var next := SkipChars(buffer, s, Whitespace, a.next);
      AttributesExtended(was, buffer[..], attributes, a.value, text, i, a.next, next);
      BehindBehind(done, [DerefAttribute(buffer[..], a.value)], Pure.ParseAttributes(s, next));
      done := done + [DerefAttribute(buffer[..], a.value)];
      AddAttribute(node, a.value);
      i := next;
    }
    AttributesEnd(s, i, done);
    r := Ok((), i);
  }

  lemma NoAttributes(m: Text, lo: nat, hi: nat)
    ensures AttributesPlaced(m, [], lo, hi) && ResolveAttributes(m, []) == []
  {
  }

  lemma BehindError<T>(done: seq<T>, what: ParseError, at: nat)
    ensures Behind(done, Err(what, at)) == Err(what, at)
  {
  }

  // ---------------------------------------------------------------- contents of an element

  /** The children and the value of the node stand in [lo, hi) and denote what has been parsed. */
  ghost predicate Filled(memory: Text, t: Tree<Str>, done: seq<Xml>, lo: nat, hi: nat) {
    && AllSettled(memory, t.children, lo, hi) && ResolveAll(memory, t.children) == done
    && Placed(memory, t.value, lo, hi) && Deref(memory, t.value) == ElementValue([], done)
  }

  lemma FilledFrame(m: Text, n: Text, t: Tree<Str>, done: seq<Xml>, lo: nat, hi: nat, hi': nat)
    requires Filled(m, t, done, lo, hi) && Agree(m, n, lo, hi) && hi <= hi'
    ensures Filled(n, t, done, lo, hi')
  {
    AllSettledFrame(m, n, t.children, lo, hi, lo, hi');
    PlacedFrame(m, n, t.value, lo, hi, lo, hi');
  }

  lemma {:induction false} ElementValueConcat(value: Text, a: seq<Xml>, b: seq<Xml>)
    ensures ElementValue(value, a + b) == ElementValue(ElementValue(value, a), b)
    decreases |a|
  {
    hide ValueAfter;
    if a == [] {
      assert a + b == b;
    } else {
      assert (a + b)[1..] == a[1..] + b;
      ElementValueConcat(if a[0].kind == Data then ValueAfter(value, a[0].value) else value, a[1..], b);
    }
  }

  /** A data or CDATA node. */
  function Leaf(kind: NodeKind, value: Str): Tree<Str> {
    Tree(kind, EmptyStr, value, [], [])
  }

  lemma LeafSettled(m: Text, kind: NodeKind, value: Str, lo: nat, hi: nat)
    requires Placed(m, value, lo, hi)
    ensures Settled(m, Leaf(kind, value), lo, hi)
    ensures Resolve(m, Leaf(kind, value)) == Tree(kind, [], Deref(m, value), [], [])
  {
  }

  lemma SingleSettled(m: Text, t: Tree<Str>, lo: nat, hi: nat)
    requires Settled(m, t, lo, hi)
    ensures AllSettled(m, [t], lo, hi) && ResolveAll(m, [t]) == [Resolve(m, t)]
  {
    hide Settled, Resolve;
    assert [t][1..] == [];
  }

  lemma ChildrenExtended(m: Text, a: seq<Tree<Str>>, b: seq<Tree<Str>>, lo: nat, mid: nat, hi: nat)
    requires lo <= mid <= hi <= |m| && AllSettled(m, a, lo, hi) && AllSettled(m, b, mid, hi)
    ensures AllSettled(m, a + b, lo, hi) && ResolveAll(m, a + b) == ResolveAll(m, a) + ResolveAll(m, b)
  {
    AllSettledFrame(m, m, b, mid, hi, lo, hi);
    AllSettledConcat(m, a, b, lo, hi);
    ResolveConcat(m, a, b);
  }

  /** The parser looks at the first character of the value to see whether there is one. */
  lemma LooksEmpty(m: Text, value: Str, lo: nat, hi: nat)
    requires Placed(m, value, lo, hi) && hi <= |m| && value.Span?
    ensures value.start < |m|
    ensures m[value.start] == '\0' <==> Deref(m, value) == [] || Deref(m, value)[0] == '\0'
  {
  }

  lemma FilledWithData(m: Text, n: Text, t: Tree<Str>, done: seq<Xml>, value: Str, kept: Str, lo: nat, mid: nat,
                       hi: nat)
    requires lo <= mid <= hi && Filled(m, t, done, lo, mid) && Agree(m, n, lo, mid) && hi <= |n|
    requires Placed(n, value, mid, hi)
    requires kept == if LookedEmpty(m, t.value) then value else t.value
    ensures Filled(n, t.(children := t.children + [Leaf(Data, value)], value := kept),
                   done + [DataNode(Deref(n, value))], lo, hi)
  {
    hide AllSettled, ResolveAll, ElementValue, Settled, Resolve;
    LeafSettled(n, Data, value, mid, hi);
    SingleSettled(n, Leaf(Data, value), mid, hi);
    FilledFrame(m, n, t, done, lo, mid, hi);
    ChildrenExtended(n, t.children, [Leaf(Data, value)], lo, mid, hi);
    ElementValueConcat([], done, [DataNode(Deref(n, value))]);
    DataValue(ElementValue([], done), Deref(n, value));
    if t.value.Span? {
      LooksEmpty(m, t.value, lo, mid);
      PlacedFrame(m, n, t.value, lo, mid, lo, hi);
    }
    PlacedFrame(n, n, value, mid, hi, lo, hi);
  }

  lemma DataValue(value: Text, data: Text)
    ensures ElementValue(value, [DataNode(data)]) == ValueAfter(value, data)
  {
  }

  predicate LookedEmpty(m: Text, value: Str) {
    !value.Span? || At(m, value.start) == '\0'
  }

  method AddData(node: XmlNode, value: Str)
    requires node.Valid() && value.Span?
    modifies node`first, node`last, node`children, node`tree, node`below, node.children`next
    ensures node.Valid() && fresh(node.below - old(node.below))
    ensures forall i :: 0 <= i < |node.children| ==> node.children[i] in old(node.children) || fresh(node.children[i])
    ensures node.tree == old(node.tree).(children := old(node.tree.children) + [Leaf(Data, value)])
  {
    hide XmlNode.Valid;
    var data := new XmlNode(Data);
    EmptyTree(data);
    data.SetValue(value);
    node.AppendNode(data);
  }

  lemma EmptyTree(node: XmlNode)
    requires node.Valid() && node.children == [] && node.attributes == [] && node.name == NoStr && node.value == NoStr
    ensures node.tree == Tree(node.kind, EmptyStr, EmptyStr, [], [])
  {
  }

  lemma ValueInTree(node: XmlNode)
    requires node.Valid()
    ensures node.tree.value == Read(node.value)
  {
  }

  /** A data node from the end of the last tag to the next one. Its terminator may overwrite the
      '<' that ends it, so that character is returned. */
  method ParseAndAppendData(buffer: array<char>, ghost s: Text, text: nat, node: XmlNode, ghost lo: nat,
                            ghost done: seq<Xml>)
    returns (r: Parsed<char>)
    requires Intact(buffer, s, text) && lo <= text <= |s|
    requires node.Valid() && buffer !in node.below && Filled(buffer[..], node.tree, done, lo, text)
    modifies buffer, node`first, node`last, node`children, node`tree, node`below, node`value, node.children`next
    ensures OnlyChanged(buffer, text, |s|)
    ensures match Expand(s, '<', text, text)
            case Err(what, at) => r == Err(what, at)
            case Ok(v, next) =>
              && r == Ok(At(s, next), next) && Intact(buffer, s, next + 1) && OnlyChanged(buffer, text, next + 1)
              && node.Valid() && fresh(node.below - old(node.below))
              && (forall i :: 0 <= i < |node.children| ==>
                    node.children[i] in old(node.children) || fresh(node.children[i]))
              && node.tree == old(node.tree).(children := node.tree.children, value := node.tree.value)
              && Filled(buffer[..], node.tree, done + [DataNode(v)], lo, next + 1)
  {
    hide XmlNode.Valid, Filled, Expand;
    ghost var m, t := buffer[..], node.tree;
    var expanded := SkipAndExpand(buffer, s, '<', text);
    if expanded.Err? {
      return Err(expanded.what, expanded.at);
    }
    var end, next := expanded.value, expanded.next;
    var value := Span(text, end - text);
    AddData(node, value);
    ValueInTree(node);
    ValuePlaced(m, t, done, lo, text);
    if !node.value.Span? || buffer[node.value.start] == '\0' {
      node.SetValue(value);
    }
    ghost var v := buffer[text..end];
    var ch := buffer[next];
    buffer[end] := '\0';
    assert buffer[text..end] == v;
    DerefSlice(buffer, text, end - text);
    FilledWithData(m, buffer[..], t, done, value, node.tree.value, lo, text, next + 1);
    r := Ok(ch, next);
  }

  lemma ValuePlaced(m: Text, t: Tree<Str>, done: seq<Xml>, lo: nat, hi: nat)
    requires Filled(m, t, done, lo, hi)
    ensures t.value.Span? ==> t.value.start < hi
  {
  }

  // ---------------------------------------------------------------- nodes

  /** A detached node whose strings stand in [lo, hi) and that denotes x. */
  ghost predicate Stands(buffer: array<char>, node: XmlNode, x: Xml, lo: nat, hi: nat)
    reads buffer, node, node.below
  {
    && node.Valid() && node.parent == null && node.kind != Document && node.kind != Data
    && Settled(buffer[..], node.tree, lo, hi) && Resolve(buffer[..], node.tree) == x
  }

  lemma WhatStands(buffer: array<char>, node: XmlNode, x: Xml, lo: nat, hi: nat)
    requires Stands(buffer, node, x, lo, hi)
    ensures node.Valid() && node.parent == null && node.kind != Document && node.tree.kind != Data
    ensures Settled(buffer[..], node.tree, lo, hi) && Resolve(buffer[..], node.tree) == x
  {
    hide Settled, Resolve;
  }

  method ParseCData(buffer: array<char>, ghost s: Text, text: nat) returns (r: Parsed<XmlNode?>)
    requires Intact(buffer, s, text) && text <= |s|
    modifies buffer
    ensures r.Err? ==> OnlyChanged(buffer, text, |s|)
    ensures match Pure.ParseCData(s, text)
            case Err(what, at) => r == Err(what, at)
            case Ok(nodes, next) =>
              && r.Ok? && r.next == next && Intact(buffer, s, next) && OnlyChanged(buffer, text, next)
              && r.value != null && fresh(r.value) && fresh(r.value.below)
              && |nodes| == 1 && Stands(buffer, r.value, nodes[0], text, next)
  {
    hide XmlNode.Valid, Pure.Find, Settled, Resolve, Deref;
    var found := Find(buffer, s, text, "]]>");
    if found.Err? {
      return Err(found.what, found.at);
    }
    var end := found.value;
    var cdata := new XmlNode(CData);
    EmptyTree(cdata);
    cdata.SetValue(Span(text, end - text));
    buffer[end] := '\0';
    NameInPlace(buffer, s, text, end);
    LeafSettled(buffer[..], CData, Span(text, end - text), text, found.next);
    r := Ok(cdata, found.next);
  }

  /** From behind a '<': at most one node. */
  method ParseNode(buffer: array<char>, ghost s: Text, text: nat) returns (r: Parsed<XmlNode?>)
    requires Intact(buffer, s, text) && text <= |s|
    modifies buffer
    ensures r.Err? ==> OnlyChanged(buffer, text, |s|)
    ensures match Pure.ParseNode(s, text)
            case Err(what, at) => r == Err(what, at)
            case Ok(nodes, next) =>
              && r.Ok? && r.next == next && Intact(buffer, s, next) && OnlyChanged(buffer, text, next)
              && (r.value == null ==> nodes == [])
              && (r.value != null ==>
                    && fresh(r.value) && fresh(r.value.below)
                    && |nodes| == 1 && Stands(buffer, r.value, nodes[0], text, next))
    decreases |s| - text, 4
  {
    hide Stands, Pure.Find, Pure.ParseElement, Pure.ParseCData, LookingAt;
    match buffer[text] {
      case '?' =>
        var declaration := XmlDeclarationAhead(buffer, s, text + 1);
        var end := Find(buffer, s, if declaration then text + 5 else text + 1, "?>");
        r := NoNode(end);
      case '!' =>
        r := ParseMarkup(buffer, s, text);
      case _ =>
        var element := ParseElement(buffer, s, text);
        match element {
          case Err(what, at) => r := Err(what, at);
          case Ok(node, next) => r := Ok(node, next);
        }
    }
  }

  function NoNode<T>(r: Parsed<T>): Parsed<XmlNode?> {
    match r
    case Ok(_, next) => Ok(null, next)
    case Err(what, at) => Err(what, at)
  }

  method XmlDeclarationAhead(buffer: array<char>, ghost s: Text, text: nat) returns (b: bool)
    requires Intact(buffer, s, text) && text <= |s|
    ensures b == Pure.IsXmlDeclaration(s, text)
    ensures b ==> text + 4 <= |s|
  {
    b := && (buffer[text] == 'x' || buffer[text] == 'X')
         && (buffer[text + 1] == 'm' || buffer[text + 1] == 'M')
         && (buffer[text + 2] == 'l' || buffer[text + 2] == 'L')
         && Test(Whitespace, buffer[text + 3]);
  }

  /** Markup that starts with "<!": only CDATA becomes a node. */
  method ParseMarkup(buffer: array<char>, ghost s: Text, text: nat) returns (r: Parsed<XmlNode?>)
    requires Intact(buffer, s, text) && text < |s| && s[text] == '!'
    modifies buffer
    ensures r.Err? ==> OnlyChanged(buffer, text, |s|)
    ensures match Pure.ParseNode(s, text)
            case Err(what, at) => r == Err(what, at)
            case Ok(nodes, next) =>
              && r.Ok? && r.next == next && Intact(buffer, s, next) && OnlyChanged(buffer, text, next)
              && (r.value == null ==> nodes == [])
              && (r.value != null ==>
                    && fresh(r.value) && fresh(r.value.below)
                    && |nodes| == 1 && Stands(buffer, r.value, nodes[0], text, next))
  {
    hide Pure.Find, Pure.ParseElement, Pure.ParseCData, Pure.SkipDoctype, LookingAt;
    MarkupPatterns(s, text);
    var comment := Matches(buffer, s, text, "!--");
    if comment {
      var end := Find(buffer, s, text + 3, "-->");
      return NoNode(end);
    }
    var cdata := Matches(buffer, s, text, "![CDATA[");
    if cdata {
      r := ParseCData(buffer, s, text + 8);
      if r.Ok? {
        StandsWider(buffer, r.value, text + 8, text, r.next);
      }
      return;
    }
    var doctype := Matches(buffer, s, text, "!DOCTYPE");
    if doctype && Test(Whitespace, buffer[text + 8]) {
      var end := SkipDoctype(buffer, s, text + 9);
      return NoNode(end);
    }
    var end := Find(buffer, s, text + 1, ">");
    r := NoNode(end);
  }

  lemma MarkupPatterns(s: Text, i: nat)
    ensures LookingAt(s, i, "!--") ==> i + 3 <= |s|
    ensures LookingAt(s, i, "![CDATA[") ==> i + 8 <= |s|
    ensures LookingAt(s, i, "!DOCTYPE") ==> i + 8 <= |s|
  {
  }

  lemma StandsWider(buffer: array<char>, node: XmlNode, lo: nat, lo': nat, hi: nat)
    requires lo' <= lo && hi <= buffer.Length && Settled(buffer[..], node.tree, lo, hi)
    ensures Settled(buffer[..], node.tree, lo', hi)
  {
    SettledFrame(buffer[..], buffer[..], node.tree, lo, hi, lo', hi);
  }

  /** Parsing from behind the attributes of an element. */
  function Rest(s: Text, i: nat): Parsed<seq<Xml>>
    requires i <= |s|
  {
    if At(s, i) == '>' then Pure.ParseContents(s, i + 1)
    else if At(s, i) != '/' then Err(ExpectedGt, i)
    else if At(s, i + 1) != '>' then Err(ExpectedGt, i + 1)
    else Ok([], i + 2)
  }

  lemma ElementByParts(s: Text, i: nat, nameEnd: nat)
    requires i <= |s| && nameEnd == Skip(s, NodeName, i)
    ensures nameEnd == i ==> Pure.ParseElement(s, i) == Err(ExpectedElementName, i)
    ensures nameEnd > i ==>
              Pure.ParseElement(s, i)
              == WithRest(s, s[i..nameEnd], Pure.ParseAttributes(s, Skip(s, Whitespace, nameEnd)))
  {
    hide Pure.ParseContents, Pure.ParseAttributes, ElementNode, Skip;
  }

  function WithRest(s: Text, name: Text, attributes: Parsed<seq<Attribute<Text>>>): Parsed<Xml>
    requires attributes.Ok? ==> attributes.next <= |s|
  {
    match attributes
    case Err(what, at) => Err(what, at)
    case Ok(list, i) =>
      match Rest(s, i)
      case Err(what, at) => Err(what, at)
      case Ok(children, next) => Ok(ElementNode(name, list, children), next)
  }

  method ParseElement(buffer: array<char>, ghost s: Text, text: nat) returns (r: Parsed<XmlNode>)
    requires Intact(buffer, s, text) && text <= |s|
    modifies buffer
    ensures r.Err? ==> OnlyChanged(buffer, text, |s|)
    ensures match Pure.ParseElement(s, text)
            case Err(what, at) => r == Err(what, at)
            case Ok(x, next) =>
              && r.Ok? && r.next == next && Intact(buffer, s, next) && OnlyChanged(buffer, text, next)
              && fresh(r.value) && fresh(r.value.below) && Stands(buffer, r.value, x, text, next)
    decreases |s| - text, 3
  {
    ElementByParts(s, text, Skip(s, NodeName, text));
    hide XmlNode.Valid, WithRest, Pure.ParseElement, Pure.ParseAttributes, Skip, Filled, AttributesPlaced,
         ResolveAttributes;
    hide ElementNode, Stands;
    var element := new XmlNode(Element);
    EmptyTree(element);
    var nameEnd := SkipChars(buffer, s, NodeName, text);
    if nameEnd == text {
      return Err(ExpectedElementName, text);
    }
    element.SetName(Span(text, nameEnd - text));
    var end := FinishElement(buffer, s, text, nameEnd, element);
    if end.Err? {
      return Err(end.what, end.at);
    }
    r := Ok(element, end.next);
  }

  /** From behind the name of an element to its end; the name is terminated last. */
  method FinishElement(buffer: array<char>, ghost s: Text, ghost text: nat, nameEnd: nat, node: XmlNode)
    returns (r: Parsed<()>)
    requires Intact(buffer, s, text) && text < nameEnd <= |s| && !Test(NodeName, At(s, nameEnd))
    requires node.Valid() && node.below == {} && node.attributes == [] && node.children == []
    requires node.parent == null && node.kind == Element
    requires node.tree == Tree(Element, Span(text, nameEnd - text), EmptyStr, [], [])
    modifies buffer, node`first, node`last, node`children, node`tree, node`below, node`value
    modifies node`firstAttribute, node`lastAttribute, node`attributes
    ensures r.Err? ==> OnlyChanged(buffer, nameEnd, |s|)
    ensures match WithRest(s, s[text..nameEnd], Pure.ParseAttributes(s, Skip(s, Whitespace, nameEnd)))
            case Err(what, at) => r == Err(what, at)
            case Ok(x, next) =>
              && r == Ok((), next) && Intact(buffer, s, next) && OnlyChanged(buffer, nameEnd, next)
              && fresh(node.below) && Stands(buffer, node, x, text, next)
    decreases |s| - text, 2
  {
    hide XmlNode.Valid, WithRest, Pure.ParseAttributes, Skip, Filled, AttributesPlaced, ResolveAttributes,
         ElementNode, Stands;
    var end, attributes, children, mid := ParseBehindName(buffer, s, text, nameEnd, node);
    if end.Err? {
      return Err(end.what, end.at);
    }
    TerminateName(buffer, s, text, nameEnd, node, attributes, children, mid, end.next);
    r := Ok((), end.next);
  }

  /** Attributes and contents of an element whose name has been read. */
  method ParseBehindName(buffer: array<char>, ghost s: Text, ghost text: nat, nameEnd: nat, node: XmlNode)
    returns (r: Parsed<()>, ghost attributes: seq<Attribute<Text>>, ghost children: seq<Xml>, ghost mid: nat)
    requires Intact(buffer, s, nameEnd) && text < nameEnd <= |s| && !Test(NodeName, At(s, nameEnd))
    requires node.Valid() && node.below == {} && node.attributes == [] && node.children == []
    requires node.tree.attributes == [] && node.tree.children == [] && node.tree.value == EmptyStr
    modifies buffer, node`first, node`last, node`children, node`tree, node`below, node`value
    modifies node`firstAttribute, node`lastAttribute, node`attributes
    ensures r.Err? ==> OnlyChanged(buffer, nameEnd, |s|)
    ensures r.Err? ==>
              WithRest(s, s[text..nameEnd], Pure.ParseAttributes(s, Skip(s, Whitespace, nameEnd))) == Err(r.what, r.at)
    ensures r.Ok? ==>
              && WithRest(s, s[text..nameEnd], Pure.ParseAttributes(s, Skip(s, Whitespace, nameEnd)))
                 == Ok(ElementNode(s[text..nameEnd], attributes, children), r.next)
              && nameEnd < mid <= r.next <= |s| && Intact(buffer, s, r.next) && OnlyChanged(buffer, nameEnd, r.next)
              && node.Valid() && fresh(node.below)
              && node.tree.kind == old(node.tree.kind) && node.tree.name == old(node.tree.name)
              && AttributesPlaced(buffer[..], node.tree.attributes, nameEnd + 1, r.next)
              && ResolveAttributes(buffer[..], node.tree.attributes) == attributes
              && Filled(buffer[..], node.tree, children, mid, r.next)
    decreases |s| - text, 1
  {
    hide XmlNode.Valid, Rest, Pure.ParseElement, Pure.ParseAttributes, Skip, Filled, AttributesPlaced, ResolveAttributes;
    hide ElementNode;
    attributes, children, mid := [], [], 0;
    var parsed := ParseAttributesBehind(buffer, s, nameEnd, node);
    if parsed.Err? {
      r := Err(parsed.what, parsed.at);
      return;
    }
    attributes := Pure.ParseAttributes(s, Skip(s, Whitespace, nameEnd)).value;
    ghost var m, end := buffer[..], parsed.next;
    r := ParseRest(buffer, s, parsed.next, node);
    if r.Ok? {
      children, mid := Rest(s, end).value, end + 1;
      AttributesFrame(m, buffer[..], node.tree.attributes, nameEnd + 1, end, nameEnd + 1, r.next);
    }
  }

  /** White space and attributes behind the name of an element. */
  method ParseAttributesBehind(buffer: array<char>, ghost s: Text, nameEnd: nat, node: XmlNode) returns (r: Parsed<()>)
    requires Intact(buffer, s, nameEnd) && nameEnd <= |s| && !Test(NodeName, At(s, nameEnd))
    requires node.Valid() && buffer !in node.below && node.attributes == [] && node.tree.attributes == []
    modifies buffer, node`firstAttribute, node`lastAttribute, node`attributes, node`tree, node`below
    ensures r.Err? ==> OnlyChanged(buffer, nameEnd, |s|)
    ensures match Pure.ParseAttributes(s, Skip(s, Whitespace, nameEnd))
            case Err(what, at) => r == Err(what, at)
            case Ok(attributes, next) =>
              && r == Ok((), next) && nameEnd <= next && Intact(buffer, s, next) && OnlyChanged(buffer, nameEnd, next)
              && node.Valid() && fresh(node.below - old(node.below))
              && node.tree == old(node.tree).(attributes := node.tree.attributes)
              && AttributesPlaced(buffer[..], node.tree.attributes, nameEnd + 1, next)
              && ResolveAttributes(buffer[..], node.tree.attributes) == attributes
  {
    hide XmlNode.Valid, Pure.ParseAttributes, Skip, AttributesPlaced, ResolveAttributes;
    var i := SkipChars(buffer, s, Whitespace, nameEnd);
    r := ParseNodeAttributes(buffer, s, i, node);
    if r.Ok? {
      BehindName(buffer[..], node.tree.attributes, s, nameEnd, i, r.next);
    }
  }

  /** The last step for an element: the terminator behind its name. */
  method TerminateName(buffer: array<char>, ghost s: Text, ghost start: nat, nameEnd: nat, element: XmlNode,
                       ghost attributes: seq<Attribute<Text>>, ghost children: seq<Xml>, ghost mid: nat, ghost hi: nat)
    requires element.Valid() && element.parent == null && element.kind == Element && buffer !in element.below
    requires start <= nameEnd < mid <= hi <= buffer.Length && nameEnd <= |s| < buffer.Length
    requires forall x :: start <= x < nameEnd ==> buffer[x] == s[x]
    requires element.tree.name == Span(start, nameEnd - start) && element.tree.kind == Element
    requires AttributesPlaced(buffer[..], element.tree.attributes, nameEnd + 1, hi)
    requires ResolveAttributes(buffer[..], element.tree.attributes) == attributes
    requires Filled(buffer[..], element.tree, children, mid, hi)
    modifies buffer
    ensures OnlyChanged(buffer, nameEnd, nameEnd + 1)
    ensures Stands(buffer, element, ElementNode(s[start..nameEnd], attributes, children), start, hi)
  {
    hide XmlNode.Valid, Filled, Settled, Resolve, AttributesPlaced, ResolveAttributes, ElementNode, Deref;
    ghost var m := buffer[..];
    buffer[nameEnd] := '\0';
    AttributesFrame(m, buffer[..], element.tree.attributes, nameEnd + 1, hi, start, hi);
    FilledFrame(m, buffer[..], element.tree, children, mid, hi, hi);
    NameInPlace(buffer, s, start, nameEnd);
    ElementSettled(buffer[..], element.tree, s[start..nameEnd], attributes, children, start, nameEnd, mid, hi);
  }

  /** Attributes do not start at the character that ends the name. */
  lemma BehindName(m: Text, attributes: seq<Attribute<Str>>, s: Text, nameEnd: nat, i: nat, end: nat)
    requires !Test(NodeName, At(s, nameEnd)) && i == Skip(s, Whitespace, nameEnd)
    requires Pure.ParseAttributes(s, i).Ok? && Pure.ParseAttributes(s, i).next == end && i <= end <= |m|
    requires AttributesPlaced(m, attributes, i, end)
    requires ResolveAttributes(m, attributes) == Pure.ParseAttributes(s, i).value
    ensures AttributesPlaced(m, attributes, nameEnd + 1, end)
  {
    hide Skip, AttributesPlaced, ResolveAttributes, Pure.ParseAttributes, Deref;
    if i == nameEnd {
      NoneParsed(s, i);
      ResolveAttributesAt(m, attributes);
      NoAttributes(m, nameEnd + 1, end);
    } else {
      AttributesFrame(m, m, attributes, i, end, nameEnd + 1, end);
    }
  }

  lemma NoneParsed(s: Text, i: nat)
    requires !Test(NodeName, At(s, i))
    ensures Pure.ParseAttributes(s, i) == Ok([], i)
  {
  }

  lemma ElementSettled(m: Text, t: Tree<Str>, name: Text, attributes: seq<Attribute<Text>>, children: seq<Xml>,
                       lo: nat, nameEnd: nat, mid: nat, hi: nat)
    requires lo <= nameEnd < hi <= |m| && lo <= mid <= hi && At(m, nameEnd) == '\0'
    requires t.kind == Element && t.name == Span(lo, nameEnd - lo) && Deref(m, t.name) == name
    requires AttributesPlaced(m, t.attributes, lo, hi) && ResolveAttributes(m, t.attributes) == attributes
    requires Filled(m, t, children, mid, hi)
    ensures Settled(m, t, lo, hi) && Resolve(m, t) == ElementNode(name, attributes, children)
  {
    hide AttributesPlaced, ResolveAttributes, AllSettled, ResolveAll, Deref, ElementValue;
    AllSettledFrame(m, m, t.children, mid, hi, lo, hi);
    PlacedFrame(m, m, t.value, mid, hi, lo, hi);
  }

  /** The end of the opening tag, and the contents if the element has any. */
  method ParseRest(buffer: array<char>, ghost s: Text, text: nat, node: XmlNode) returns (r: Parsed<()>)
    requires Intact(buffer, s, text) && text <= |s|
    requires node.Valid() && buffer !in node.below && node.children == []
    requires node.tree.children == [] && node.tree.value == EmptyStr
    modifies buffer, node`first, node`last, node`children, node`tree, node`below, node`value
    ensures r.Err? ==> OnlyChanged(buffer, text, |s|)
    ensures match Rest(s, text)
            case Err(what, at) => r == Err(what, at)
            case Ok(children, next) =>
              && r == Ok((), next) && text < next <= |s| && Intact(buffer, s, next) && OnlyChanged(buffer, text + 1, next)
              && node.Valid() && fresh(node.below - old(node.below))
              && node.tree == old(node.tree).(children := node.tree.children, value := node.tree.value)
              && Filled(buffer[..], node.tree, children, text + 1, next)
    decreases |s| - text, 1
  {
    hide XmlNode.Valid, Filled, Pure.ParseContents;
    if buffer[text] == '>' {
      NothingFilled(buffer[..], node.tree, text + 1, text + 1);
      r := ParseNodeContents(buffer, s, text + 1, node);
    } else if buffer[text] == '/' {
      if buffer[text + 1] != '>' {
        return Err(ExpectedGt, text + 1);
      }
      NothingFilled(buffer[..], node.tree, text + 1, text + 2);
      r := Ok((), text + 2);
    } else {
      r := Err(ExpectedGt, text);
    }
  }

  lemma NothingFilled(m: Text, t: Tree<Str>, lo: nat, hi: nat)
    requires t.children == [] && t.value == EmptyStr
    ensures Filled(m, t, [], lo, hi)
  {
  }

  /** Children and text up to and including the closing tag. */
  method ParseNodeContents(buffer: array<char>, ghost s: Text, text: nat, node: XmlNode) returns (r: Parsed<()>)
    requires Intact(buffer, s, text) && text <= |s|
    requires node.Valid() && buffer !in node.below && node.children == [] && Filled(buffer[..], node.tree, [], text, text)
    modifies buffer, node`first, node`last, node`children, node`tree, node`below, node`value
    ensures r.Err? ==> OnlyChanged(buffer, text, |s|)
    ensures match Pure.ParseContents(s, text)
            case Err(what, at) => r == Err(what, at)
            case Ok(children, next) =>
              && r == Ok((), next) && Intact(buffer, s, next) && OnlyChanged(buffer, text, next)
              && node.Valid() && fresh(node.below - old(node.below))
              && node.tree == old(node.tree).(children := node.tree.children, value := node.tree.value)
              && Filled(buffer[..], node.tree, children, text, next)
    decreases |s| - text, 1
  {
    hide XmlNode.Valid, Filled, Skip, Expand, Pure.ParseContents, Pure.ParseTag, Behind;
    var i := text;
    ghost var done: seq<Xml> := [];
    BehindNothing(Pure.ParseContents(s, text));
    while true
      invariant text <= i <= |s| && Intact(buffer, s, i) && OnlyChanged(buffer, text, i)
      invariant node.Valid() && fresh(node.below - old(node.below)) && fresh(node.children)
      invariant node.tree == old(node.tree).(children := node.tree.children, value := node.tree.value)
      invariant Filled(buffer[..], node.tree, done, text, i)
      invariant Pure.ParseContents(s, text) == Behind(done, Pure.ParseContents(s, i))
      decreases |s| - i
    {
      var tag, data := ParseUpToTag(buffer, s, i, node, text, done);
      if tag.Err? {
        BehindError(done, tag.what, tag.at);
        return Err(tag.what, tag.at);
      }
      BehindBehind(done, data, Pure.ParseTag(s, tag.next));
      done := done + data;
      var closed, more := ParseTag(buffer, s, tag.next, node, text, done);
      if closed.Err? {
        BehindError(done, closed.what, closed.at);
        return Err(closed.what, closed.at);
      }
      i := closed.next;
      if closed.value {
        BehindEnd(done, i);
        assert done + more == done;
        return Ok((), i);
      }
      BehindBehind(done, more, Pure.ParseContents(s, i));
      done := done + more;
    }
  }

  lemma BehindEnd<T>(done: seq<T>, next: nat)
    ensures Behind(done, Ok([], next)) == Ok(done, next)
  {
    assert done + [] == done;
  }

  /** White space, or a data node, up to the '<' of the next tag. That '<' may be overwritten. */
  method ParseUpToTag(buffer: array<char>, ghost s: Text, text: nat, node: XmlNode, ghost lo: nat, ghost done: seq<Xml>)
    returns (r: Parsed<()>, ghost data: seq<Xml>)
    requires Intact(buffer, s, text) && lo <= text <= |s|
    requires node.Valid() && buffer !in node.below && Filled(buffer[..], node.tree, done, lo, text)
    modifies buffer, node`first, node`last, node`children, node`tree, node`below, node`value, node.children`next
    ensures r.Err? ==> OnlyChanged(buffer, text, |s|)
    ensures r.Err? ==> Pure.ParseContents(s, text) == Err(r.what, r.at)
    ensures r.Ok? ==>
              && text <= r.next < |s| && s[r.next] == '<'
              && Intact(buffer, s, r.next + 1) && OnlyChanged(buffer, text, r.next + 1)
              && node.Valid() && fresh(node.below - old(node.below))
              && (forall i :: 0 <= i < |node.children| ==>
                    node.children[i] in old(node.children) || fresh(node.children[i]))
              && node.tree == old(node.tree).(children := node.tree.children, value := node.tree.value)
              && Filled(buffer[..], node.tree, done + data, lo, r.next + 1)
              && Pure.ParseContents(s, text) == Behind(data, Pure.ParseTag(s, r.next))
  {
    hide XmlNode.Valid, Filled, Skip, Expand, Pure.ParseTag;
    var j := SkipChars(buffer, s, Whitespace, text);
    var next := buffer[j];
    data := [];
    if next == '<' {
      BehindNothing(Pure.ParseTag(s, j));
      FilledFrame(buffer[..], buffer[..], node.tree, done, lo, text, j + 1);
      assert done + [] == done;
      return Ok((), j), [];
    }
    if next == '\0' {
      return Err(UnexpectedEnd, j), [];
    }
    var ended := ParseAndAppendData(buffer, s, text, node, lo, done);
    if ended.Err? {
      return Err(ended.what, ended.at), [];
    }
    if ended.value != '<' {
      return Err(UnexpectedEnd, ended.next), [];
    }
    data := [DataNode(Expand(s, '<', text, text).value)];
    r := Ok((), ended.next);
  }

  /** At a '<' that may have been overwritten: the closing tag, or a child node. */
  method ParseTag(buffer: array<char>, ghost s: Text, text: nat, node: XmlNode, ghost lo: nat, ghost done: seq<Xml>)
    returns (r: Parsed<bool>, ghost more: seq<Xml>)
    requires At(s, text) == '<' && Intact(buffer, s, text + 1) && lo <= text
    requires node.Valid() && buffer !in node.below && Filled(buffer[..], node.tree, done, lo, text + 1)
    modifies buffer, node`first, node`last, node`children, node`tree, node`below, node.children`next
    ensures r.Err? ==> OnlyChanged(buffer, text, |s|)
    ensures r.Err? ==> Pure.ParseTag(s, text) == Err(r.what, r.at)
    ensures r.Ok? ==>
              && text < r.next <= |s| && Intact(buffer, s, r.next) && OnlyChanged(buffer, text + 1, r.next)
              && node.Valid() && fresh(node.below - old(node.below))
              && (forall i :: 0 <= i < |node.children| ==>
                    node.children[i] in old(node.children) || fresh(node.children[i]))
              && node.tree == old(node.tree).(children := node.tree.children)
              && Filled(buffer[..], node.tree, done + more, lo, r.next)
              && (if r.value then more == [] && Pure.ParseTag(s, text) == Ok([], r.next)
                  else Pure.ParseTag(s, text) == Behind(more, Pure.ParseContents(s, r.next)))
    decreases |s| - text, 0
  {
    hide XmlNode.Valid, Filled, Skip, Stands, Settled, Resolve, Pure.ParseNode, Pure.ParseContents;
    ghost var m := buffer[..];
    more := [];
    assert done + [] == done;
    if buffer[text + 1] == '/' {
      var end := SkipChars(buffer, s, NodeName, text + 2);
      end := SkipChars(buffer, s, Whitespace, end);
      if buffer[end] != '>' {
        return Err(ExpectedGt, end), [];
      }
      FilledFrame(m, m, node.tree, done, lo, text + 1, end + 1);
      return Ok(true, end + 1), [];
    }
    var child := ParseNode(buffer, s, text + 1);
    if child.Err? {
      return Err(child.what, child.at), [];
    }
    FilledFrame(m, buffer[..], node.tree, done, lo, text + 1, child.next);
    more := Pure.ParseNode(s, text + 1).value;
    if child.value != null {
      WhatStands(buffer, child.value, more[0], text + 1, child.next);
      assert more == [more[0]];
      FilledWithChild(buffer[..], node.tree, done, child.value.tree, lo, text + 1, child.next);
      node.AppendNode(child.value);
    }
    r := Ok(false, child.next);
  }

  lemma FilledWithChild(m: Text, t: Tree<Str>, done: seq<Xml>, child: Tree<Str>, lo: nat, mid: nat, hi: nat)
    requires lo <= mid <= hi <= |m| && Filled(m, t, done, lo, hi) && Settled(m, child, mid, hi) && child.kind != Data
    ensures Filled(m, t.(children := t.children + [child]), done + [Resolve(m, child)], lo, hi)
  {
    hide Settled, Placed, Deref, AllSettled, ResolveAll;
    SingleSettled(m, child, mid, hi);
    ChildrenExtended(m, t.children, [child], lo, mid, hi);
    ElementValueConcat([], done, [Resolve(m, child)]);
    NoValue(ElementValue([], done), Resolve(m, child));
  }

  lemma NoValue(value: Text, x: Xml)
    requires x.kind != Data
    ensures ElementValue(value, [x]) == value
  {
  }

  // ---------------------------------------------------------------- the document

  /** The nodes at the top level that come before the end, or before an error. */
  ghost function NodesBefore(s: Text, i: nat): seq<Xml>
    requires i <= |s|
    decreases |s| - i
  {
    var j := Skip(s, Whitespace, i);
    if At(s, j) != '<' then []
    else match Pure.ParseNode(s, j + 1)
      case Err(_, _) => []
      case Ok(nodes, next) => nodes + NodesBefore(s, next)
  }

  /** If there is no error, these are all. */
  lemma {:induction false} AllNodesBefore(s: Text, i: nat)
    requires i <= |s|
    ensures Pure.ParseNodes(s, i).Ok? ==> Pure.ParseNodes(s, i).value == NodesBefore(s, i)
    decreases |s| - i
  {
    hide Pure.ParseNode, Skip;
    var j := Skip(s, Whitespace, i);
    if At(s, j) == '<' && Pure.ParseNode(s, j + 1).Ok? {
      AllNodesBefore(s, Pure.ParseNode(s, j + 1).next);
    }
  }

  /** A node at the top level, from its '<' on. */
  method ParseTopLevel(buffer: array<char>, ghost s: Text, text: nat, doc: XmlNode)
    returns (r: Parsed<()>, ghost more: seq<Xml>)
    requires Intact(buffer, s, text) && text < |s|
    requires doc.Valid() && buffer !in doc.below && AllSettled(buffer[..], doc.tree.children, 0, text)
    modifies buffer, doc`first, doc`last, doc`children, doc`tree, doc`below, doc.children`next
    ensures r.Err? ==>
              && OnlyChanged(buffer, text, |s|)
              && doc.Valid() && doc.tree == old(doc.tree) && doc.below == old(doc.below)
    ensures r.Err? ==> Pure.ParseNode(s, text + 1) == Err(r.what, r.at)
    ensures r.Ok? ==>
              && Pure.ParseNode(s, text + 1) == Ok(more, r.next)
              && text < r.next <= |s| && Intact(buffer, s, r.next) && OnlyChanged(buffer, text, r.next)
              && doc.Valid() && fresh(doc.below - old(doc.below))
              && (forall i :: 0 <= i < |doc.children| ==> doc.children[i] in old(doc.children) || fresh(doc.children[i]))
              && doc.tree == old(doc.tree).(children := doc.tree.children)
              && AllSettled(buffer[..], doc.tree.children, 0, r.next)
              && ResolveAll(buffer[..], doc.tree.children) == ResolveAll(old(buffer[..]), old(doc.tree.children)) + more
  {
    hide XmlNode.Valid, AllSettled, ResolveAll, Stands, Settled, Resolve, Pure.ParseNode;
    ghost var m, trees := buffer[..], doc.tree.children;
    more := [];
    var node := ParseNode(buffer, s, text + 1);
    if node.Err? {
      return Err(node.what, node.at), [];
    }
    more := Pure.ParseNode(s, text + 1).value;
    AllSettledFrame(m, buffer[..], trees, 0, text, 0, node.next);
    if node.value != null {
      WhatStands(buffer, node.value, more[0], text + 1, node.next);
      assert more == [more[0]];
      SingleSettled(buffer[..], node.value.tree, text + 1, node.next);
      ChildrenExtended(buffer[..], trees, [node.value.tree], 0, text + 1, node.next);
      doc.AppendNode(node.value);
    } else {
      assert ResolveAll(m, trees) + [] == ResolveAll(m, trees);
    }
    r := Ok((), node.next);
  }

  lemma NodesStep(s: Text, i: nat, j: nat)
    requires i <= |s| && j == Skip(s, Whitespace, i)
    ensures At(s, j) == '\0' ==> Pure.ParseNodes(s, i) == Ok([], j)
    ensures At(s, j) != '\0' && At(s, j) != '<' ==> Pure.ParseNodes(s, i) == Err(ExpectedLt, j)
    ensures At(s, j) == '<' ==>
              match Pure.ParseNode(s, j + 1)
              case Err(what, at) => Pure.ParseNodes(s, i) == Err(what, at)
              case Ok(nodes, next) => Pure.ParseNodes(s, i) == Behind(nodes, Pure.ParseNodes(s, next))
  {
    hide Pure.ParseNode, Skip;
  }

  method ParseAllNodes(buffer: array<char>, ghost s: Text, text: nat, doc: XmlNode) returns (r: Parsed<()>)
    requires Intact(buffer, s, text) && text <= |s|
    requires doc.Valid() && doc.below == {} && doc.children == [] && doc.tree.children == []
    modifies buffer, doc`first, doc`last, doc`children, doc`tree, doc`below
    ensures match Pure.ParseNodes(s, text)
            case Err(what, at) => r == Err(what, at)
            case Ok(_, next) =>
              && r == Ok((), next) && next <= |s| && OnlyChanged(buffer, text, next)
              && AllSettled(buffer[..], doc.tree.children, 0, next)
    ensures OnlyChanged(buffer, text, |s|) && doc.Valid() && fresh(doc.below)
    ensures doc.tree == old(doc.tree).(children := doc.tree.children)
    ensures AllSettled(buffer[..], doc.tree.children, 0, |s|)
    ensures ResolveAll(buffer[..], doc.tree.children) == NodesBefore(s, text)
  {
    hide XmlNode.Valid, AllSettled, ResolveAll, Skip, Behind, Pure.ParseNodes, Pure.ParseNode, NodesBefore;
    var i := text;
    ghost var done: seq<Xml> := [];
    NoneSettled(buffer[..], text);
    BehindNothing(Pure.ParseNodes(s, text));
    assert [] + NodesBefore(s, text) == NodesBefore(s, text);
    while true
      invariant text <= i <= |s| && Intact(buffer, s, i) && OnlyChanged(buffer, text, i)
      invariant doc.Valid() && fresh(doc.below) && fresh(doc.children)
      invariant doc.tree == old(doc.tree).(children := doc.tree.children)
      invariant AllSettled(buffer[..], doc.tree.children, 0, i) && ResolveAll(buffer[..], doc.tree.children) == done
      invariant Pure.ParseNodes(s, text) == Behind(done, Pure.ParseNodes(s, i))
      invariant NodesBefore(s, text) == done + NodesBefore(s, i)
      decreases |s| - i
    {
      var j := SkipChars(buffer, s, Whitespace, i);
      NodesStep(s, i, j);
      BeforeStep(s, i, j, done);
      AllSettledFrame(buffer[..], buffer[..], doc.tree.children, 0, i, 0, j);
      AllSettledFrame(buffer[..], buffer[..], doc.tree.children, 0, i, 0, |s|);
      if buffer[j] == '\0' {
        BehindEnd(done, j);
        return Ok((), j);
      }
      if buffer[j] != '<' {
        BehindError(done, ExpectedLt, j);
        return Err(ExpectedLt, j);
      }
      ghost var was := buffer[..];
      var node, more := ParseTopLevel(buffer, s, j, doc);
      if node.Err? {
        AllSettledFrame(was, buffer[..], doc.tree.children, 0, j, 0, |s|);
        BehindError(done, node.what, node.at);
        return Err(node.what, node.at);
      }
      BehindBehind(done, more, Pure.ParseNodes(s, node.next));
      done := done + more;
      i := node.next;
    }
  }

  lemma BeforeStep(s: Text, i: nat, j: nat, done: seq<Xml>)
    requires i <= |s| && j == Skip(s, Whitespace, i)
    ensures At(s, j) == '<' && Pure.ParseNode(s, j + 1).Ok? ==>
              var r := Pure.ParseNode(s, j + 1);
              done + NodesBefore(s, i) == (done + r.value) + NodesBefore(s, r.next)
    ensures At(s, j) != '<' || Pure.ParseNode(s, j + 1).Err? ==> done + NodesBefore(s, i) == done
  {
    hide Pure.ParseNode, Skip;
  }

  lemma NoneSettled(m: Text, hi: nat)
    ensures AllSettled(m, [], 0, hi) && ResolveAll(m, []) == []
  {
  }

  /** Parses the zero-terminated text in the buffer into the document, whose former contents are
      unlinked first. The tree is the one that parsing an immutable copy yields, and at the end all
      its names and values still stand in the buffer, each with its terminator. After an error the
      document is well-formed and has the nodes that come before the one with the error. */
  method Parse(buffer: array<char>, ghost s: Text, doc: XmlNode) returns (r: Parsed<()>)
    requires Intact(buffer, s, 0)
    requires doc.Valid() && buffer !in doc.below && doc.kind == Document
    modifies buffer, doc`first, doc`last, doc`children, doc`tree, doc`below, doc`firstAttribute, doc`attributes
    modifies doc.children`parent, doc.attributes`parent
    ensures match Pure.Parse(s)
            case Err(what, at) => r == Err(what, at)
            case Ok(x, next) =>
              && r == Ok((), next) && next <= |s| && OnlyChanged(buffer, 0, next)
              && AllSettled(buffer[..], doc.tree.children, 0, next)
              && x == Pure.DocumentNode(ResolveAll(buffer[..], doc.tree.children))
              && (doc.name == doc.value == NoStr ==>
                    Settled(buffer[..], doc.tree, 0, next) && Resolve(buffer[..], doc.tree) == x)
    ensures OnlyChanged(buffer, 0, |s|) && doc.Valid() && fresh(doc.below)
    ensures doc.tree == old(doc.tree).(attributes := [], children := doc.tree.children)
    ensures AllSettled(buffer[..], doc.tree.children, 0, |s|)
    ensures ResolveAll(buffer[..], doc.tree.children) == NodesBefore(s, Pure.SkipByteOrderMark(s))
  {
    hide XmlNode.Valid, AllSettled, ResolveAll, Pure.ParseNodes, NodesBefore;
    doc.RemoveAllNodes();
    doc.RemoveAllAttributes();
    DocumentTree(doc);
    var text := SkipByteOrderMark(buffer, s);
    AllNodesBefore(s, text);
    r := ParseAllNodes(buffer, s, text, doc);
  }

  lemma DocumentTree(doc: XmlNode)
    requires doc.Valid()
    ensures doc.tree.kind == doc.kind && doc.tree.name == Read(doc.name) && doc.tree.value == Read(doc.value)
  {
  }

  method SkipByteOrderMark(buffer: array<char>, ghost s: Text) returns (text: nat)
    requires Intact(buffer, s, 0)
    ensures text == Pure.SkipByteOrderMark(s)
  {
    text := 0;
    if buffer[0] as int == 0xEF && buffer[1] as int == 0xBB && buffer[2] as int == 0xBF {
      text := 3;
    }
  }
}
