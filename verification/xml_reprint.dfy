/** Parser and printer at work together: the objects, the links and the buffer drop out. */
module XmlReprint {
  import opened XmlText
  import opened XmlTree
  import opened XmlDom
  import opened XmlMemory
  import opened XmlSettled
  import opened XmlRoundTrip
  import opened XmlClone
  import opened XmlDocument
  import opened XmlGrammar
  import opened XmlAcceptance
  import opened XmlDerivation
  import opened XmlComplaints
  import InPlace = XmlInPlaceText
  import Pure = XmlParser
  import Spec = XmlPrinter
  import Parser = XmlInPlace
  import Printer = XmlDomPrinter

  /** Parses the buffer in place and prints the linked tree that comes of it. Text that is itself
      the printout of a canonical document comes back character by character. */
  method ParseAndPrint(buffer: array<char>, ghost s: Text, doc: XmlNode, indented: bool) returns (r: Parsed<Text>)
    requires InPlace.Intact(buffer, s, 0)
    requires doc.Valid() && buffer !in doc.below && doc.kind == Document && doc.name == NoStr && doc.value == NoStr
    modifies buffer, doc`first, doc`last, doc`children, doc`tree, doc`below, doc`firstAttribute, doc`attributes
    modifies doc.children`parent, doc.attributes`parent
    ensures match Pure.Parse(s)
            case Err(what, at) => r == Err(what, at)
            case Ok(x, next) => r == Ok(Spec.PrintNode(x, indented, 0), next)
    ensures forall d :: LegalDocument(d) && Canonical(d) && !indented && s == Spec.PrintNode(d, false, 0) ==>
              r == Ok(s, |s|)
  {
    hide XmlNode.Valid, Settled, Resolve, Pure.Parse, Spec.PrintNode, Canonical, LegalDocument;
    forall d | LegalDocument(d) && Canonical(d) && s == Spec.PrintNode(d, false, 0)
      ensures Pure.Parse(s) == Ok(d, |s|)
    {
      RoundTripExactlyCanonical(d);
    }
    var parsed := Parser.Parse(buffer, s, doc);
    if parsed.Err? {
      return Err(parsed.what, parsed.at);
    }
    SettledInMemory(buffer[..], doc.tree, 0, parsed.next);
    var printed := Printer.Print(buffer[..], doc, indented);
    r := Ok(printed, parsed.next);
  }

  /** Prints a linked document and parses the text into a new one, in a buffer of its own: what
      arrives is the normal form of what was sent, and the very tree if that is canonical. */
  method Transfer(memory: Text, source: XmlNode) returns (buffer: array<char>, doc: XmlNode)
    requires source.Valid() && TreeInMemory(memory, source.tree)
    requires LegalDocument(Resolve(memory, source.tree))
    ensures fresh(buffer) && fresh(doc) && doc.Valid()
    ensures Resolve(buffer[..], doc.tree) == Normal(Resolve(memory, source.tree))
    ensures Resolve(buffer[..], doc.tree) == Resolve(memory, source.tree) <==> Canonical(Resolve(memory, source.tree))
  {
    hide XmlNode.Valid, Settled, Resolve, Pure.Parse, Spec.PrintNode, Canonical, Legal, TreeInMemory, Normal;
    ghost var d := Resolve(memory, source.tree);
    var s := Printer.Print(memory, source, false);
    buffer := new char[|s| + 1](i requires 0 <= i => if i < |s| then s[i] else '\0');
    doc := new XmlNode(Document);
    DocumentRoundTrip(d);
    NormalIffCanonical(d);
    var parsed := Parser.Parse(buffer, s, doc);
  }

  /** Parsing in place and the grammar: a spelling of a document becomes that document, at whatever place
      its text stands, and what is accepted is the spelling of what comes of it. */
  method ParseSpelling(buffer: array<char>, ghost s: Text, doc: XmlNode) returns (r: Parsed<()>)
    requires InPlace.Intact(buffer, s, 0)
    requires doc.Valid() && buffer !in doc.below && doc.kind == NodeKind.Document
    requires doc.name == NoStr && doc.value == NoStr
    modifies buffer, doc`first, doc`last, doc`children, doc`tree, doc`below, doc`firstAttribute, doc`attributes
    modifies doc.children`parent, doc.attributes`parent
    ensures r.Ok? ==> doc.Valid() && exists n :: Spells(s, n, Resolve(buffer[..], doc.tree), r.next)
    ensures forall n, d, end :: Spells(s, n, d, end) ==> r == Ok((), end) && Resolve(buffer[..], doc.tree) == d
    ensures r.Err? ==> Complaint(s, r.what, r.at)
  {
    hide XmlNode.Valid, Settled, Resolve, Pure.Parse, Spells, Complaint;
    r := Parser.Parse(buffer, s, doc);
    if r.Ok? {
      var n := DocumentDerived(s);
    } else {
      ParseComplains(s);
    }
    forall n, d, end | Spells(s, n, d, end)
      ensures Pure.Parse(s) == Ok(d, end)
    {
      SpellingIsParsed(s, n, d, end);
    }
  }

  // ---------------------------------------------------------------- clones of parsed trees

  /** Parsing leaves a terminator behind every string, so cloning a parsed tree is exact. */
  lemma ParsedClonesExactly(memory: Text, t: Tree<Str>, lo: nat, hi: nat)
    requires Settled(memory, t, lo, hi)
    ensures Cloned(memory, t) == t
  {
    hide Cloned, Settled, EmptiesTerminated;
    SettledTerminated(memory, t, lo, hi);
    ClonedExactly(memory, t);
  }

  lemma {:induction false} SettledTerminated(memory: Text, t: Tree<Str>, lo: nat, hi: nat)
    requires Settled(memory, t, lo, hi)
    ensures EmptiesTerminated(memory, t)
    decreases t, 1
  {
    AttributesTerminated(memory, t.attributes, lo, hi);
    AllTerminated(memory, t.children, lo, hi);
  }

  lemma {:induction false} AttributesTerminated(memory: Text, attributes: seq<Attribute<Str>>, lo: nat, hi: nat)
    requires AttributesPlaced(memory, attributes, lo, hi)
    ensures forall a <- attributes :: EmptyTerminated(memory, a.name) && EmptyTerminated(memory, a.value)
  {
    if attributes != [] {
      AttributesTerminated(memory, attributes[1..], lo, hi);
      assert attributes == [attributes[0]] + attributes[1..];
    }
  }

  lemma {:induction false} AllTerminated(memory: Text, trees: seq<Tree<Str>>, lo: nat, hi: nat)
    requires AllSettled(memory, trees, lo, hi)
    ensures forall t <- trees :: EmptiesTerminated(memory, t)
    decreases trees, 0
  {
    hide Settled, EmptiesTerminated;
    if trees != [] {
      SettledTerminated(memory, trees[0], lo, hi);
      AllTerminated(memory, trees[1..], lo, hi);
      assert trees == [trees[0]] + trees[1..];
    }
  }
}
