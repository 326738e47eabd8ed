/** Indented printouts: printing with indentation is printing, without it, a tree into which
    blank data nodes have been inserted. */
module XmlIndented {
  import opened XmlText
  import opened XmlTree
  import opened XmlPrinter
  import opened XmlParser
  import opened XmlRoundTrip
  import opened XmlDocument

  function Blank(indent: nat): Xml {
    DataNode(Tabs(true, indent))
  }

  /** The white space the printer writes around children, as data nodes. */
  function Indent(t: Xml, indent: nat): Xml
    decreases t
  {
    if t.kind == Element && t.children != [] && !IsSoleData(t.children) then
      t.(children := [DataNode("\n")] + IndentChildren(t.children, indent + 1) + [Blank(indent)])
    else t
  }

  function IndentChildren(children: seq<Xml>, indent: nat): seq<Xml>
    decreases children
  {
    if children == [] then []
    else [Blank(indent), Indent(children[0], indent), DataNode("\n")] + IndentChildren(children[1..], indent)
  }

  function IndentDocument(d: Xml): Xml {
    d.(children := IndentChildren(d.children, 0) + [DataNode("\n")])
  }

  lemma PrintSole(t: Xml, indent: nat)
    ensures PrintChildren([t], false, indent) == PrintNode(t, false, indent)
  {
    hide PrintNode;
    assert PrintChildren([t], false, indent) == PrintNode(t, false, indent) + PrintChildren([t][1..], false, indent);
  }

  lemma PrintBlank(v: Text, indent: nat)
    requires IsBlank(v)
    ensures PrintNode(DataNode(v), false, indent) == v
  {
    hide IsBlank, Escape;
    EscapeBlank(v);
  }

  lemma TabsBlank(indent: nat)
    ensures IsBlank(Tabs(true, indent)) && IsBlank("\n")
  {
  }

  /** A node printed with indentation at depth `indent`; `other` does not matter. */
  lemma {:induction false} IndentedNode(t: Xml, indent: nat, other: nat)
    requires t.kind != Document && NoDocuments(t)
    ensures PrintNode(t, true, indent) == Tabs(true, indent) + PrintNode(Indent(t, indent), false, other) + "\n"
    decreases t, 1
  {
    assert Tabs(false, other) == [];
    hide Tabs, Escape, PrintAttributes, PrintContent, PrintBody, NoDocuments;
    if t.kind == Element {
      IndentedContent(t, indent, other);
    }
    SameBody(t, indent, other);
  }

  lemma SameBody(t: Xml, indent: nat, other: nat)
    requires t.kind != Document
    requires t.kind == Element ==> PrintContent(t, true, indent) == PrintContent(Indent(t, indent), false, other)
    ensures PrintBody(t, true, indent) == PrintBody(Indent(t, indent), false, other)
  {
    hide Tabs, Escape, PrintAttributes, PrintContent;
  }

  /** A document node, which prints no indentation of its own, occurs only at the root. */
  predicate NoDocuments(t: Xml) {
    t.kind == Element || t.kind == Document ==>
      forall child <- t.children :: child.kind != Document && NoDocuments(child)
  }

  lemma {:induction false} IndentedContent(t: Xml, indent: nat, other: nat)
    requires t.kind == Element && NoDocuments(t)
    ensures PrintContent(t, true, indent) == PrintContent(Indent(t, indent), false, other)
    decreases t, 0
  {
    hide PrintNode, Escape;
    if t.children != [] && !IsSoleData(t.children) {
      var inner := IndentChildren(t.children, indent + 1);
      IndentedChildren(t.children, indent + 1, other + 1);
      TabsBlank(indent);
      PrintBlank("\n", other + 1);
      PrintBlank(Tabs(true, indent), other + 1);
      PrintSole(DataNode("\n"), other + 1);
      PrintSole(Blank(indent), other + 1);
      PrintChildrenConcat([DataNode("\n")] + inner, [Blank(indent)], false, other + 1);
      PrintChildrenConcat([DataNode("\n")], inner, false, other + 1);
      var printed := PrintChildren(Indent(t, indent).children, false, other + 1);
      assert printed == "\n" + PrintChildren(t.children, true, indent + 1) + Tabs(true, indent);
      assert [] + printed + [] == printed;
    }
  }

  lemma {:induction false} IndentedChildren(children: seq<Xml>, indent: nat, other: nat)
    requires forall child <- children :: child.kind != Document && NoDocuments(child)
    ensures PrintChildren(children, true, indent) == PrintChildren(IndentChildren(children, indent), false, other)
    decreases children, 0
  {
    hide PrintNode, Indent, Tabs;
    if children != [] {
      var first := [Blank(indent), Indent(children[0], indent), DataNode("\n")];
      IndentedNode(children[0], indent, other);
      IndentedChildren(children[1..], indent, other);
      PrintChildrenConcat(first, IndentChildren(children[1..], indent), false, other);
      IndentedTriple(children[0], indent, other);
    }
  }

  lemma IndentedTriple(t: Xml, indent: nat, other: nat)
    ensures PrintChildren([Blank(indent), Indent(t, indent), DataNode("\n")], false, other)
         == Tabs(true, indent) + PrintNode(Indent(t, indent), false, other) + "\n"
  {
    hide PrintNode, PrintChildren, Indent, Tabs;
    var a, b, c := [Blank(indent)], [Indent(t, indent)], [DataNode("\n")];
    assert [Blank(indent), Indent(t, indent), DataNode("\n")] == a + b + c;
    TabsBlank(indent);
    PrintBlank(Tabs(true, indent), other);
    PrintBlank("\n", other);
    PrintSole(Blank(indent), other);
    PrintSole(Indent(t, indent), other);
    PrintSole(DataNode("\n"), other);
    PrintChildrenConcat(a + b, c, false, other);
    PrintChildrenConcat(a, b, false, other);
  }

  lemma IndentedDocument(d: Xml)
    requires d.kind == Document && NoDocuments(d)
    ensures PrintNode(d, true, 0) == PrintNode(IndentDocument(d), false, 0)
  {
    hide Indent, PrintChildren;
    IndentedChildren(d.children, 0, 0);
    TabsBlank(0);
    PrintBlank("\n", 0);
    PrintSole(DataNode("\n"), 0);
    PrintChildrenConcat(IndentChildren(d.children, 0), [DataNode("\n")], false, 0);
  }

  // ---------------------------------------------------------------- which trees indentation preserves

  /** Text occurs only as the sole child of an element. */
  predicate SoleText(t: Xml)
    decreases t, 1
  {
    IsSoleData(t.children) || TextFree(t.children)
  }

  predicate TextFree(children: seq<Xml>)
    decreases children, 0
  {
    children != [] ==> children[0].kind != Data && SoleText(children[0]) && TextFree(children[1..])
  }

  /** Children with the white space around them: a blank run in front, one blank behind the last. */
  function Padded(children: seq<Xml>, indent: nat, tail: Text): seq<Xml> {
    IndentChildren(children, indent) + [DataNode(tail)]
  }

  lemma BlankConcat(a: Text, b: Text)
    requires IsBlank(a) && IsBlank(b)
    ensures IsBlank(a + b)
  {
  }

  lemma PaddedCons(run: Text, children: seq<Xml>, indent: nat, tail: Text)
    requires children != []
    ensures NormalChildren(run, Padded(children, indent, tail)) ==
            if children[0].kind == Data then
              NormalChildren(run + Tabs(true, indent) + children[0].value + "\n", Padded(children[1..], indent, tail))
            else
              TextNodes(run + Tabs(true, indent)) + [Normal(Indent(children[0], indent))]
              + NormalChildren("\n", Padded(children[1..], indent, tail))
  {
    hide Normal, Tabs, TextNodes;
    var rest := Padded(children[1..], indent, tail);
    var child, br := Indent(children[0], indent), DataNode("\n");
    var padded := Padded(children, indent, tail);
    assert padded == [Blank(indent)] + ([child] + ([br] + rest));
    assert padded[1..] == [child] + ([br] + rest);
    assert ([child] + ([br] + rest))[1..] == [br] + rest && ([br] + rest)[1..] == rest;
    NormalCons(run, Blank(indent), [child] + ([br] + rest));
    NormalCons(run + Tabs(true, indent), child, [br] + rest);
    NormalCons([], br, rest);
    NormalCons(run + Tabs(true, indent) + children[0].value, br, rest);
    assert [] + "\n" == "\n";
  }

  lemma NormalCons(run: Text, first: Xml, rest: seq<Xml>)
    ensures NormalChildren(run, [first] + rest) ==
            if first.kind == Data then NormalChildren(run + first.value, rest)
            else TextNodes(run) + [Normal(first)] + NormalChildren([], rest)
  {
    hide Normal, TextNodes;
    assert ([first] + rest)[1..] == rest;
  }

  lemma PaddedEnd(run: Text, indent: nat, tail: Text)
    ensures NormalChildren(run, Padded([], indent, tail)) == TextNodes(run + tail)
  {
    assert Padded([], indent, tail) == [DataNode(tail)] + [];
    NormalCons(run, DataNode(tail), []);
  }

  /** Without text the padding vanishes. */
  lemma {:induction false} PaddingVanishes(run: Text, children: seq<Xml>, indent: nat, tail: Text)
    requires IsBlank(run) && IsBlank(tail) && TextFree(children)
    ensures NormalChildren(run, Padded(children, indent, tail)) == NormalChildren([], children)
    decreases children, 0
  {
    hide Normal, Indent, Tabs, Padded, IsBlank;
    BlankEmpty();
    TabsBlank(indent);
    if children == [] {
      PaddedEnd(run, indent, tail);
      BlankConcat(run, tail);
    } else {
      PaddedCons(run, children, indent, tail);
      BlankConcat(run, Tabs(true, indent));
      PaddingVanishes("\n", children[1..], indent, tail);
      IndentPreserves(children[0], indent);
    }
  }

  lemma {:induction false} IndentPreserves(t: Xml, indent: nat)
    requires SoleText(t)
    ensures Normal(Indent(t, indent)) == Normal(t)
    decreases t, 1
  {
    hide ElementValue, IndentChildren, Padded, IsBlank;
    if t.kind == Element && t.children != [] && !IsSoleData(t.children) {
      IndentedKids(t, indent);
      TabsBlank(indent);
      PaddingVanishes("\n", t.children, indent + 1, Tabs(true, indent));
    }
  }

  lemma IndentedKids(t: Xml, indent: nat)
    requires t.kind == Element && t.children != [] && !IsSoleData(t.children)
    ensures NormalChildren([], Indent(t, indent).children)
         == NormalChildren("\n", Padded(t.children, indent + 1, Tabs(true, indent)))
  {
    hide Normal, IndentChildren, Tabs;
    var padded := Padded(t.children, indent + 1, Tabs(true, indent));
    assert Indent(t, indent).children == [DataNode("\n")] + padded;
    NormalCons([], DataNode("\n"), padded);
    assert [] + "\n" == "\n";
  }

  lemma NotBlank(a: Text, b: Text, v: Text, c: Text, d: Text)
    requires !IsBlank(v)
    ensures !IsBlank(a + b + v + c + d)
  {
    var x :| 0 <= x < |v| && !Test(Whitespace, v[x]);
    assert (a + b + v + c + d)[|a| + |b| + x] == v[x];
  }

  /** Text between tags does not: it comes back with the padding attached. */
  lemma {:induction false} PaddingReveals(run: Text, children: seq<Xml>, indent: nat, tail: Text)
    requires IsBlank(run) && IsBlank(tail) && CanonicalChildren(children)
    requires forall child <- children :: Legal(child)
    requires NormalChildren(run, Padded(children, indent, tail)) == children
    ensures TextFree(children)
    decreases children, 0
  {
    assert forall t: Xml :: t.kind == Data && Canonical(t) ==> !IsBlank(t.value);
    hide Normal, Indent, Tabs, Padded, IsBlank, Canonical, Legal;
    if children != [] {
      var child, rest, tabs := children[0], children[1..], Tabs(true, indent);
      assert Legal(child);
      assert children == [child] + rest;
      PaddedCons(run, children, indent, tail);
      TabsBlank(indent);
      if child.kind == Data {
        var w := run + tabs + child.value + "\n";
        if rest == [] {
          PaddedEnd(w, indent, tail);
          NotBlank(run, tabs, child.value, "\n", tail);
        } else {
          PaddedCons(w, rest, indent, tail);
          NotBlank(run, tabs, child.value, "\n", tabs);
        }
      } else {
        BlankConcat(run, tabs);
        assert TextNodes(run + tabs) + [Normal(Indent(child, indent))] == [Normal(Indent(child, indent))];
        ConsEqual(Normal(Indent(child, indent)), NormalChildren("\n", Padded(rest, indent, tail)), child, rest);
        IndentReveals(child, indent);
        PaddingReveals("\n", rest, indent, tail);
      }
    }
  }

  lemma {:induction false} IndentReveals(t: Xml, indent: nat)
    requires t.kind != Data && Legal(t) && Canonical(t) && Normal(Indent(t, indent)) == t
    ensures SoleText(t)
    decreases t, 1
  {
    assert t.kind == Element || t.kind == CData;
    hide ElementValue, IndentChildren, Padded, IsBlank, Legal;
    if t.kind == Element && t.children != [] && !IsSoleData(t.children) {
      LegalChildren(t);
      IndentedKids(t, indent);
      TabsBlank(indent);
      PaddingReveals("\n", t.children, indent + 1, Tabs(true, indent));
    }
  }

  // ---------------------------------------------------------------- indented documents

  lemma {:induction false} IndentLegal(t: Xml, indent: nat)
    requires Legal(t)
    ensures Legal(Indent(t, indent)) && Indent(t, indent).kind == t.kind && NoDocuments(t)
    decreases t, 1
  {
    hide LegalName, LegalAttribute, LegalCData, NulFree, Tabs;
    if t.kind == Element {
      IndentChildrenLegal(t.children, indent + 1);
      BlankLegal(indent);
    }
  }

  lemma BlankLegal(indent: nat)
    ensures LegalTopLevel(Blank(indent)) && LegalTopLevel(DataNode("\n"))
  {
    TabsBlank(indent);
  }

  lemma {:induction false} IndentChildrenLegal(children: seq<Xml>, indent: nat)
    requires forall child <- children :: Legal(child)
    ensures forall child <- children :: child.kind != Document && NoDocuments(child)
    ensures forall child <- IndentChildren(children, indent) :: Legal(child)
    ensures forall child <- IndentChildren(children, indent) :: child.kind == Data ==>
              child in children || IsBlank(child.value)
    decreases children, 0
  {
    if children != [] {
      assert forall t: Xml :: Legal(t) ==> t.kind != Document;
      hide Legal, NoDocuments, Indent, Tabs, IsBlank;
      BlankLegal(indent);
      assert Legal(children[0]);
      IndentLegal(children[0], indent);
      IndentChildrenLegal(children[1..], indent);
      IndentedData(children[0], indent);
    }
  }

  lemma IndentedData(t: Xml, indent: nat)
    ensures Indent(t, indent).kind == Data ==> Indent(t, indent) == t
  {
  }

  lemma IndentDocumentLegal(d: Xml)
    requires LegalDocument(d)
    ensures LegalDocument(IndentDocument(d)) && NoDocuments(d)
  {
    hide Legal, IndentChildren;
    IndentChildrenLegal(d.children, 0);
    BlankLegal(0);
  }

  /** Parsing an indented printout: the normal form of the padded document. */
  lemma IndentedRoundTrip(d: Xml)
    requires LegalDocument(d)
    ensures Parse(PrintNode(d, true, 0)) == Ok(Normal(IndentDocument(d)), |PrintNode(d, true, 0)|)
  {
    hide Parse, PrintNode, Normal, LegalDocument, NoDocuments;
    assert d.kind == Document by { DocumentKind(d); }
    IndentDocumentLegal(d);
    IndentedDocument(d);
    DocumentRoundTrip(IndentDocument(d));
  }

  lemma DocumentKind(d: Xml)
    requires LegalDocument(d)
    ensures d.kind == Document && forall child <- d.children :: Legal(child)
  {
  }

  /** Where text occurs only as sole child, indentation is invisible to the parser. */
  lemma IndentationInvisible(d: Xml)
    requires LegalDocument(d) && TextFree(d.children)
    ensures Parse(PrintNode(d, true, 0)).Ok? && Parse(PrintNode(d, false, 0)).Ok?
    ensures Parse(PrintNode(d, true, 0)).value == Parse(PrintNode(d, false, 0)).value
  {
    hide Parse, PrintNode, TextFree, Legal, IndentChildren, NormalChildren, IsBlank;
    IndentedRoundTrip(d);
    DocumentRoundTrip(d);
    PaddedDocument(d);
    TabsBlank(0);
    BlankEmpty();
    PaddingVanishes([], d.children, 0, "\n");
  }

  lemma PaddedDocument(d: Xml)
    requires d.kind == Document
    ensures Normal(IndentDocument(d)) == DocumentNode(NormalChildren([], Padded(d.children, 0, "\n")))
  {
    hide IndentChildren, NormalChildren;
  }

  /** The exact class of documents an indented printout reproduces. */
  lemma IndentedRoundTripExactly(d: Xml)
    requires LegalDocument(d)
    ensures Parse(PrintNode(d, true, 0)) == Ok(d, |PrintNode(d, true, 0)|) <==> Canonical(d) && TextFree(d.children)
  {
    hide Parse, PrintNode, TextFree, Legal, IndentChildren, NormalChildren, IsBlank, CanonicalChildren, Padded;
    IndentedRoundTrip(d);
    PaddedDocument(d);
    IndentDocumentLegal(d);
    NormalDocumentIsCanonical(IndentDocument(d));
    TabsBlank(0);
    BlankEmpty();
    DocumentKind(d);
    if Normal(IndentDocument(d)) == d {
      PaddingReveals([], d.children, 0, "\n");
    }
    if Canonical(d) && TextFree(d.children) {
      PaddingVanishes([], d.children, 0, "\n");
      ChildrenIffCanonical(d.children);
    }
  }
}
