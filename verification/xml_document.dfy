/** Round trips of whole documents: unindented, indented, and starting from a parsed text. */
module XmlDocument {
  import opened Basics
  import opened XmlText
  import opened XmlTree
  import opened XmlPrinter
  import opened XmlParser
  import opened XmlRoundTrip

  // ---------------------------------------------------------------- unindented documents

  predicate LegalTopLevel(t: Xml) {
    Legal(t) && (t.kind == Data ==> IsBlank(t.value))
  }

  /** The rest of a document: white space, then printed nodes up to the end of the text. */
  predicate PrintedNodes(s: Text, i: nat, run: Text, children: seq<Xml>, indent: nat) {
    && IsBlank(run)
    && InARow(s, i, run, PrintChildren(children, false, indent), [])
    && i + |run| + |PrintChildren(children, false, indent)| == |s|
  }

  lemma {:induction false} NodesRoundTrip(s: Text, i: nat, run: Text, children: seq<Xml>, indent: nat)
    requires forall child <- children :: LegalTopLevel(child)
    requires PrintedNodes(s, i, run, children, indent)
    ensures i <= |s| && ParseNodes(s, i) == Ok(NormalChildren(run, children), |s|)
    decreases children
  {
    hide InARow, LookingAt, Escape, PrintNode, ParseNode, ParseNodes, Normal, Legal, TextNodes;
    if children == [] {
      RunInARow(s, i, run, [], []);
      NodesEnd(s, i, run);
    } else {
      var child, first := children[0], PrintNode(children[0], false, indent);
      assert LegalTopLevel(child);
      assert PrintChildren(children, false, indent) == first + PrintChildren(children[1..], false, indent);
      Regroup(s, i, run, first, PrintChildren(children[1..], false, indent), []);
      if child.kind == Data {
        DataPrinted(child, indent);
        EscapeBlank(child.value);
        NodesRoundTrip(s, i, run + child.value, children[1..], indent);
      } else {
        NodeRoundTrip(s, i + |run|, child, indent);
        NodesRoundTrip(s, i + |run| + |first|, [], children[1..], indent);
        RunInARow(s, i, run, PrintChildren(children, false, indent), []);
        NodesOfChild(s, i, run, Normal(child), i + |run| + |first|, NormalChildren([], children[1..]));
      }
    }
  }

  lemma NodesEnd(s: Text, i: nat, run: Text)
    requires IsBlank(run) && LookingAt(s, i, run) && i + |run| == |s|
    ensures ParseNodes(s, i) == Ok(TextNodes(run), |s|)
  {
    SkipRun(s, Whitespace, i, run);
  }

  lemma RunInARow(s: Text, i: nat, a: Text, b: Text, c: Text)
    requires InARow(s, i, a, b, c)
    ensures LookingAt(s, i, a)
  {
  }

  lemma NodesOfChild(s: Text, i: nat, run: Text, child: Xml, next: nat, rest: seq<Xml>)
    requires IsBlank(run) && LookingAt(s, i, run) && At(s, i + |run|) == '<'
    requires ParseNode(s, i + |run| + 1) == Ok([child], next)
    requires next <= |s| && ParseNodes(s, next) == Ok(rest, |s|)
    ensures ParseNodes(s, i) == Ok(TextNodes(run) + [child] + rest, |s|)
  {
    hide ParseNode, ParseNodes, LookingAt;
    SkipRun(s, Whitespace, i, run);
    NodesAt(s, i, i + |run|, child, next, rest);
    assert TextNodes(run) + [child] == [child];
  }

  lemma NodesAt(s: Text, i: nat, j: nat, child: Xml, next: nat, rest: seq<Xml>)
    requires i <= |s| && j == Skip(s, Whitespace, i) && At(s, j) == '<' && ParseNode(s, j + 1) == Ok([child], next)
    requires next <= |s| && ParseNodes(s, next) == Ok(rest, |s|)
    ensures ParseNodes(s, i) == Ok([child] + rest, |s|)
  {
    hide ParseNode, Skip;
  }

  /** A printed document cannot be mistaken for one that starts with a byte order mark. */
  lemma {:induction false} NoByteOrderMark(children: seq<Xml>, indent: nat)
    requires forall child <- children :: LegalTopLevel(child)
    ensures SkipByteOrderMark(PrintChildren(children, false, indent)) == 0
  {
    hide Escape;
    if children != [] {
      var child := children[0];
      var first, rest := PrintNode(child, false, indent), PrintChildren(children[1..], false, indent);
      assert LegalTopLevel(child);
      if child.kind == Data {
        DataPrinted(child, indent);
        EscapeBlank(child.value);
        if child.value == [] {
          assert first + rest == rest;
          NoByteOrderMark(children[1..], indent);
        } else {
          assert (first + rest)[0] == child.value[0];
        }
      } else {
        hide PrintNode;
        LookingAtWhole(first);
        NodeRoundTrip(first, 0, child, indent);
        assert (first + rest)[0] == first[0];
      }
    }
  }

  lemma LookingAtWhole(pattern: Text)
    ensures LookingAt(pattern, 0, pattern)
  {
  }

  /** Printing and parsing a document yields its normal form, whatever the document. */
  lemma DocumentRoundTrip(d: Xml)
    requires LegalDocument(d)
    ensures Parse(PrintNode(d, false, 0)) == Ok(Normal(d), |PrintNode(d, false, 0)|)
  {
    hide ParseNodes, PrintChildren, NormalChildren, Legal, IsBlank;
    var s := PrintNode(d, false, 0);
    var printed := PrintChildren(d.children, false, 0);
    assert s == printed + [] == printed;
    assert forall child <- d.children :: LegalTopLevel(child);
    NoByteOrderMark(d.children, 0);
    LookingAtWhole(s);
    assert PrintedNodes(s, 0, [], d.children, 0) by {
      BlankEmpty();
    }
    NodesRoundTrip(s, 0, [], d.children, 0);
  }

  lemma BlankEmpty()
    ensures IsBlank([])
  {
  }

  // ---------------------------------------------------------------- which trees survive unchanged

  /** No neighbouring data nodes, no blank ones, nothing set that is not printed, and element
      values as the parser sets them. */
  predicate Canonical(t: Xml)
    decreases t, 1
  {
    match t.kind
    case Element => t.value == ElementValue([], t.children) && CanonicalChildren(t.children)
    case Document => t == DocumentNode(t.children) && CanonicalChildren(t.children)
    case CData => t == CDataNode(t.value)
    case Data => t == DataNode(t.value) && !IsBlank(t.value)
    case _ => true
  }

  predicate CanonicalChildren(children: seq<Xml>)
    decreases children, 0
  {
    children != [] ==>
      && Canonical(children[0])
      && (|children| > 1 && children[0].kind == Data ==> children[1].kind != Data)
      && CanonicalChildren(children[1..])
  }

  lemma RunThenTag(run: Text, children: seq<Xml>)
    requires children == [] || children[0].kind != Data
    ensures NormalChildren(run, children) == TextNodes(run) + NormalChildren([], children)
  {
    hide Normal;
    assert TextNodes([]) == [];
    if children == [] {
      assert TextNodes(run) + [] == TextNodes(run);
    } else {
      assert [] + [Normal(children[0])] == [Normal(children[0])];
      ConcatAssociative(TextNodes(run), [Normal(children[0])], NormalChildren([], children[1..]));
    }
  }

  lemma {:induction false} NormalChildrenCount(run: Text, children: seq<Xml>)
    ensures |NormalChildren(run, children)| <= |TextNodes(run)| + |children|
    decreases children
  {
    hide Normal;
    if children != [] {
      NormalChildrenCount(if children[0].kind == Data then run + children[0].value else [], children[1..]);
    }
  }

  lemma {:induction false} NormalIffCanonical(t: Xml)
    ensures Normal(t) == t <==> t.kind == Data || Canonical(t)
    decreases t, 1
  {
    hide ElementValue, NormalChildren;
    if t.kind == Element && t.children == [] {
      assert ElementValue([], []) == [] by { NoChildrenNoValue(); }
    } else if t.kind == Element || t.kind == Document {
      ChildrenIffCanonical(t.children);
    }
  }

  lemma NoChildrenNoValue()
    ensures ElementValue([], []) == []
  {
  }

  lemma ConsEqual<T>(a: T, s: seq<T>, b: T, t: seq<T>)
    ensures [a] + s == [b] + t <==> a == b && s == t
  {
    assert ([a] + s)[0] == a && ([a] + s)[1..] == s;
    assert ([b] + t)[0] == b && ([b] + t)[1..] == t;
  }

  lemma {:induction false} ChildrenIffCanonical(children: seq<Xml>)
    ensures NormalChildren([], children) == children <==> CanonicalChildren(children)
    decreases children, 0
  {
    assert forall t: Xml :: t.kind == Data ==> (Canonical(t) <==> t == DataNode(t.value) && !IsBlank(t.value));
    hide Normal, Canonical;
    if children != [] {
      var child, rest := children[0], children[1..];
      ChildrenIffCanonical(rest);
      NormalIffCanonical(child);
      assert children == [child] + rest;
      if child.kind != Data {
        assert TextNodes([]) + [Normal(child)] == [Normal(child)];
        ConsEqual(Normal(child), NormalChildren([], rest), child, rest);
      } else if rest != [] && rest[0].kind == Data {
        NormalChildrenCount([] + child.value + rest[0].value, rest[1..]);
      } else {
        assert [] + child.value == child.value;
        RunThenTag(child.value, rest);
        NormalChildrenCount([], rest);
        ConsEqual(DataNode(child.value), NormalChildren([], rest), child, rest);
      }
    }
  }

  /** The exact class of documents that printing and parsing reproduces. */
  lemma RoundTripExactlyCanonical(d: Xml)
    requires LegalDocument(d)
    ensures Parse(PrintNode(d, false, 0)) == Ok(d, |PrintNode(d, false, 0)|) <==> Canonical(d)
  {
    hide Parse, PrintNode, Normal, Canonical, Legal;
    DocumentRoundTrip(d);
    NormalIffCanonical(d);
  }

  /** What comes back from a printout is canonical, so printing and parsing again changes nothing. */
  lemma {:induction false} NormalIsCanonical(t: Xml)
    requires Legal(t) && t.kind != Data
    ensures Canonical(Normal(t)) && Normal(t).kind == t.kind
    decreases t, 1
  {
    assert t.kind == Element || t.kind == CData;
    hide ElementValue, Legal, CanonicalChildren, NormalChildren;
    if t.kind == Element {
      LegalChildren(t);
      if t.children == [] {
        RunIsCanonical(t.value, []);
        assert TextNodes(t.value) + [] == TextNodes(t.value);
      } else {
        NormalChildrenCanonical([], t.children);
      }
    }
  }

  lemma LegalChildren(t: Xml)
    requires Legal(t) && t.kind == Element
    ensures forall child <- t.children :: Legal(child)
  {
  }

  lemma RunIsCanonical(run: Text, rest: seq<Xml>)
    requires CanonicalChildren(rest) && (rest == [] || rest[0].kind != Data)
    ensures CanonicalChildren(TextNodes(run) + rest)
  {
    assert [] + rest == rest;
    assert ([DataNode(run)] + rest)[1..] == rest;
  }

  lemma {:induction false} NormalChildrenCanonical(run: Text, children: seq<Xml>)
    requires forall child <- children :: Legal(child)
    ensures CanonicalChildren(NormalChildren(run, children))
    decreases children, 0
  {
    hide Normal, Canonical, Legal, TextNodes;
    if children == [] {
      RunIsCanonical(run, []);
      assert TextNodes(run) + [] == TextNodes(run);
    } else {
      var child, rest := children[0], children[1..];
      assert Legal(child);
      if child.kind == Data {
        NormalChildrenCanonical(run + child.value, rest);
      } else {
        NormalIsCanonical(child);
        NormalChildrenCanonical([], rest);
        var normal := [Normal(child)] + NormalChildren([], rest);
        assert normal[1..] == NormalChildren([], rest);
        RunIsCanonical(run, normal);
        ConcatAssociative(TextNodes(run), [Normal(child)], NormalChildren([], rest));
      }
    }
  }

  lemma NormalDocumentIsCanonical(d: Xml)
    requires LegalDocument(d)
    ensures Canonical(Normal(d))
  {
    hide NormalChildren, CanonicalChildren, Legal;
    NormalChildrenCanonical([], d.children);
  }
}
