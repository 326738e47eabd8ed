/** Trees whose strings are places in memory, and the trees they denote. */
module XmlMemory {
  import opened XmlText
  import opened XmlTree
  import opened XmlDom

  predicate InMemory(memory: Text, s: Str) {
    s.Span? ==> s.start + s.size <= |memory|
  }

  function Deref(memory: Text, s: Str): Text {
    if s.Span? && InMemory(memory, s) then memory[s.start..s.start + s.size] else []
  }

  function ResolveAttributes(memory: Text, attributes: seq<Attribute<Str>>): seq<Attribute<Text>> {
    if attributes == [] then []
    else [Attribute(Deref(memory, attributes[0].name), Deref(memory, attributes[0].value))]
         + ResolveAttributes(memory, attributes[1..])
  }

  /** The tree that names and values denote when memory holds the given text. */
  function Resolve(memory: Text, t: Tree<Str>): Xml
    decreases t, 1
  {
    Tree(t.kind, Deref(memory, t.name), Deref(memory, t.value),
         ResolveAttributes(memory, t.attributes), ResolveAll(memory, t.children))
  }

  function ResolveAll(memory: Text, children: seq<Tree<Str>>): seq<Xml>
    decreases children, 0
  {
    if children == [] then [] else [Resolve(memory, children[0])] + ResolveAll(memory, children[1..])
  }

  predicate TreeInMemory(memory: Text, t: Tree<Str>)
    decreases t
  {
    && InMemory(memory, t.name) && InMemory(memory, t.value)
    && (forall a <- t.attributes :: InMemory(memory, a.name) && InMemory(memory, a.value))
    && (forall c <- t.children :: TreeInMemory(memory, c))
  }

  lemma {:induction false} ResolveAttributesConcat(memory: Text, a: seq<Attribute<Str>>, b: seq<Attribute<Str>>)
    ensures ResolveAttributes(memory, a + b) == ResolveAttributes(memory, a) + ResolveAttributes(memory, b)
  {
    if a == [] {
      assert a + b == b;
    } else {
      assert (a + b)[1..] == a[1..] + b;
      ResolveAttributesConcat(memory, a[1..], b);
    }
  }

  lemma {:induction false} ResolveConcat(memory: Text, a: seq<Tree<Str>>, b: seq<Tree<Str>>)
    ensures ResolveAll(memory, a + b) == ResolveAll(memory, a) + ResolveAll(memory, b)
  {
    hide Resolve;
    if a == [] {
      assert a + b == b;
    } else {
      assert (a + b)[1..] == a[1..] + b;
      ResolveConcat(memory, a[1..], b);
    }
  }

  lemma {:induction false} ResolveAllAt(memory: Text, children: seq<Tree<Str>>)
    ensures |ResolveAll(memory, children)| == |children|
    ensures forall i :: 0 <= i < |children| ==> ResolveAll(memory, children)[i] == Resolve(memory, children[i])
  {
    hide Resolve;
    if children != [] {
      ResolveAllAt(memory, children[1..]);
    }
  }

  lemma {:induction false} ResolveAttributesAt(memory: Text, attributes: seq<Attribute<Str>>)
    ensures |ResolveAttributes(memory, attributes)| == |attributes|
    ensures forall i :: 0 <= i < |attributes| ==>
              ResolveAttributes(memory, attributes)[i]
              == Attribute(Deref(memory, attributes[i].name), Deref(memory, attributes[i].value))
  {
    hide Deref;
    if attributes != [] {
      ResolveAttributesAt(memory, attributes[1..]);
    }
  }
}
