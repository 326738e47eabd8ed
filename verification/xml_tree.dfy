/** The document tree, over any representation S of its strings. */
module XmlTree {
  import opened XmlText

  datatype NodeKind = Document | Element | Data | CData | Comment | Declaration | Doctype | Pi

  datatype Attribute<+S> = Attribute(name: S, value: S)

  datatype Tree<+S> = Tree(kind: NodeKind, name: S, value: S,
                           attributes: seq<Attribute<S>>, children: seq<Tree<S>>)

  /** A tree that owns its strings, as opposed to one that points into a buffer. */
  type Xml = Tree<Text>

  function DataNode(value: Text): Xml {
    Tree(Data, [], value, [], [])
  }

  function CDataNode(value: Text): Xml {
    Tree(CData, [], value, [], [])
  }

  /** The element value the parser leaves behind: each data node replaces a value that looks
      empty, that is one that starts with the terminator character. */
  function ValueAfter(value: Text, data: Text): Text {
    if value == [] || value[0] == '\0' then data else value
  }

  function ElementValue(value: Text, children: seq<Xml>): Text
    decreases children
  {
    if children == [] then value
    else
      var first := children[0];
      ElementValue(if first.kind == Data then ValueAfter(value, first.value) else value, children[1..])
  }

  function ElementNode(name: Text, attributes: seq<Attribute<Text>>, children: seq<Xml>): Xml {
    Tree(Element, name, ElementValue([], children), attributes, children)
  }
}
