/** Editing a node anywhere in a tree: the whole tree stays well-formed, and what it stands for is
    edited at that place. */
module XmlEdit {
  import opened XmlTree
  import opened XmlDom

  // ---------------------------------------------------------------- on trees

  /** The edits, as a tree sees them: places are numbers. */
  datatype TreeEdit =
    | InsertTree(k: nat, x: Tree<Str>)
    | RemoveTree(k: nat)
    | RemoveTrees
    | InsertPair(k: nat, a: Attribute<Str>)
    | RemovePair(k: nat)
    | RemovePairs

  function EditedHere(t: Tree<Str>, e: TreeEdit): Tree<Str> {
    match e
    case InsertTree(k, x) => if k <= |t.children| then t.(children := InsertAt(t.children, k, x)) else t
    case RemoveTree(k) => if k < |t.children| then t.(children := RemoveAt(t.children, k)) else t
    case RemoveTrees => t.(children := [])
    case InsertPair(k, a) => if k <= |t.attributes| then t.(attributes := InsertAt(t.attributes, k, a)) else t
    case RemovePair(k) => if k < |t.attributes| then t.(attributes := RemoveAt(t.attributes, k)) else t
    case RemovePairs => t.(attributes := [])
  }

  /** The tree with the node at the end of the path edited, and nothing else. */
  function Edited(t: Tree<Str>, path: seq<nat>, e: TreeEdit): Tree<Str>
    decreases |path|
  {
    if path == [] then EditedHere(t, e)
    else if path[0] >= |t.children| then t
    else t.(children := t.children[path[0] := Edited(t.children[path[0]], path[1..], e)])
  }

  lemma EditedStep(t: Tree<Str>, path: seq<nat>, e: TreeEdit)
    ensures path == [] ==> Edited(t, path, e) == EditedHere(t, e)
    ensures path != [] && path[0] < |t.children| ==>
              Edited(t, path, e) == t.(children := t.children[path[0] := Edited(t.children[path[0]], path[1..], e)])
  {
  }

  // ---------------------------------------------------------------- on linked nodes

  /** The same edits with the objects they are given. */
  datatype Edit =
    | InsertNode(nodeBehind: XmlNode?, child: XmlNode)
    | RemoveNode(node: XmlNode)
    | RemoveAllNodes
    | InsertAttribute(attributeBehind: XmlAttribute?, attribute: XmlAttribute)
    | RemoveAttribute(listed: XmlAttribute)
    | RemoveAllAttributes
  {
    /** The objects that are hung in or listed. */
    function Nodes(): set<XmlNode> {
      if InsertNode? then {child} else {}
    }

    function Attributes(): set<XmlAttribute> {
      if InsertAttribute? then {attribute} else {}
    }

    ghost function More(): set<object>
      reads Nodes()`below
    {
      match this
      case InsertNode(_, child) => {child} + child.below
      case InsertAttribute(_, attribute) => {attribute}
      case _ => {}
    }

    ghost function Meaning(k: nat): TreeEdit
      reads Nodes()`tree, Attributes()`name, Attributes()`value
    {
      match this
      case InsertNode(_, child) => InsertTree(k, child.tree)
      case RemoveNode(_) => RemoveTree(k)
      case RemoveAllNodes => RemoveTrees
      case InsertAttribute(_, attribute) => InsertPair(k, attribute.Abstract())
      case RemoveAttribute(_) => RemovePair(k)
      case RemoveAllAttributes => RemovePairs
    }

    /** What is inserted is free and in no part of the tree below this node. */
    ghost predicate Free(node: XmlNode)
      reads node`below, Nodes(), set c <- Nodes(), o <- c.below :: o, Attributes()`parent
    {
      match this
      case InsertNode(_, child) => node.Attachable(child)
      case InsertAttribute(_, attribute) => node.Listable(attribute)
      case _ => true
    }

    /** The place is number k of the node's children or attributes. */
    ghost predicate At(node: XmlNode, k: nat)
      reads node`children, node`attributes
    {
      match this
      case InsertNode(behind, _) =>
        k <= |node.children| && behind == if k < |node.children| then node.children[k] else null
      case RemoveNode(child) => k < |node.children| && child == node.children[k]
      case InsertAttribute(behind, _) =>
        k <= |node.attributes| && behind == if k < |node.attributes| then node.attributes[k] else null
      case RemoveAttribute(attribute) => k < |node.attributes| && attribute == node.attributes[k]
      case _ => true
    }

    /** The objects that are no longer below the node afterwards. */
    ghost function Gone(node: XmlNode): set<object>
      reads node`below, node`children, node`attributes, node.children`below, if RemoveNode? then {this.node} else {}
    {
      match this
      case RemoveNode(child) => {child} + child.below
      case RemoveAllNodes => node.below - set a: object | a in node.attributes
      case RemoveAttribute(attribute) => {attribute}
      case RemoveAllAttributes => set a: object | a in node.attributes
      case _ => {}
    }
  }

  lemma InsertedIn<T>(s: seq<T>, k: nat, x: T)
    requires k <= |s|
    ensures x in InsertAt(s, k, x)
  {
    assert InsertAt(s, k, x)[k] == x;
  }

  /** The edit by the method of that name. */
  method EditHere(node: XmlNode, e: Edit, ghost k: nat)
    requires node.Valid() && e.Free(node) && e.At(node, k)
    modifies node`first, node`last, node`children, node`tree, node`below
    modifies node`firstAttribute, node`lastAttribute, node`attributes
    modifies node.children`parent, node.children`prev, node.children`next
    modifies node.attributes`parent, node.attributes`prev, node.attributes`next
    modifies e.Nodes()`parent, e.Nodes()`prev, e.Nodes()`next
    modifies e.Attributes()`parent, e.Attributes()`prev, e.Attributes()`next
    ensures node.Valid() && old(e.Gone(node)) <= old(node.below)
    ensures node.below == old(node.below) - old(e.Gone(node)) + e.More()
    ensures node.tree == EditedHere(old(node.tree), e.Meaning(k))
    ensures e.InsertNode? ==> e.child.parent == node
  {
    hide XmlNode.Sound, InsertAt, RemoveAt;
    match e {
      case InsertNode(behind, child) =>
        ghost var nodes: seq<XmlNode> := node.children;
        node.InsertNode(behind, child, k);
        node.Parents();
        InsertedIn<XmlNode>(nodes, k, child);
      case RemoveNode(child) => node.RemoveNode(child, k);
      case RemoveAllNodes => node.RemoveAllNodes();
      case InsertAttribute(behind, attribute) => node.InsertAttribute(behind, attribute, k);
      case RemoveAttribute(attribute) => node.RemoveAttribute(attribute, k);
      case RemoveAllAttributes => node.RemoveAllAttributes();
    }
  }

  function Target(root: XmlNode, line: seq<XmlNode>): XmlNode {
    if line == [] then root else line[|line| - 1]
  }

  lemma LineStep(root: XmlNode, line: seq<XmlNode>, path: seq<nat>)
    requires root.Leads(path, line)
    ensures line == [] ==> path == [] && Target(root, line) == root
    ensures line != [] ==>
              && path != [] && path[0] < |root.children| && root.children[path[0]] == line[0]
              && line[0].Leads(path[1..], line[1..]) && Target(root, line) == Target(line[0], line[1..])
  {
  }

  lemma FreeBelow(e: Edit, root: XmlNode, c: XmlNode)
    requires e.Free(root) && c in root.below && c.below <= root.below
    ensures e.Free(c)
  {
    hide XmlNode.Valid;
  }

  lemma MoreIsNew(e: Edit, root: XmlNode)
    requires e.Free(root)
    ensures e.More() !! root.below && root !in e.More()
    ensures root !in e.Nodes() && forall x <- e.Nodes() :: x !in root.below
    ensures forall a <- e.Attributes() :: a !in root.below
  {
    hide XmlNode.Valid;
  }

  /** The edit at the last node of `line`, which leads down from the root. */
  method EditBelow(root: XmlNode, line: seq<XmlNode>, e: Edit, ghost k: nat, ghost path: seq<nat>)
    requires root.Valid() && root.Leads(path, line) && e.Free(root) && e.At(Target(root, line), k)
    modifies root`first, root`last, root`children, root`tree, root`below
    modifies root`firstAttribute, root`lastAttribute, root`attributes, root.below
    modifies e.Nodes()`parent, e.Nodes()`prev, e.Nodes()`next
    modifies e.Attributes()`parent, e.Attributes()`prev, e.Attributes()`next
    ensures root.Valid() && old(e.Gone(Target(root, line))) <= old(root.below)
    ensures root.below == old(root.below) - old(e.Gone(Target(root, line))) + e.More()
    ensures root.tree == Edited(old(root.tree), path, e.Meaning(k))
    ensures e.InsertNode? ==> e.child.parent == Target(root, line)
    decreases |line|, 1
  {
    hide Edited, Edit.Free, Edit.At, Edit.Gone, Edit.More, Edit.Meaning, XmlNode.Valid, XmlNode.Leads, Target;
    LineStep(root, line, path);
    if line == [] {
      EditedStep(root.tree, path, e.Meaning(k));
      root.Parts();
      OwningApart(root.children, root.attributes, root.below);
      MoreIsNew(e, root);
      EditHere(root, e, k);
    } else {
      EditFurther(root, line, e, k, path);
    }
  }

  /** At least one node further down: the root need only be brought up to date. */
  method EditFurther(root: XmlNode, line: seq<XmlNode>, e: Edit, ghost k: nat, ghost path: seq<nat>)
    requires root.Valid() && root.Leads(path, line) && e.Free(root) && e.At(Target(root, line), k)
    requires line != []
    modifies root`first, root`last, root`children, root`tree, root`below
    modifies root`firstAttribute, root`lastAttribute, root`attributes, root.below
    modifies e.Nodes()`parent, e.Nodes()`prev, e.Nodes()`next
    modifies e.Attributes()`parent, e.Attributes()`prev, e.Attributes()`next
    ensures root.Valid() && old(e.Gone(Target(root, line))) <= old(root.below)
    ensures root.below == old(root.below) - old(e.Gone(Target(root, line))) + e.More()
    ensures root.tree == Edited(old(root.tree), path, e.Meaning(k))
    ensures e.InsertNode? ==> e.child.parent == Target(root, line)
    decreases |line|, 0
  {
    hide Edited, Edit.Free, Edit.At, Edit.Gone, Edit.More, Edit.Meaning, XmlNode.Valid, XmlNode.Linked,
         XmlNode.AttributesLinked, XmlNode.Leads, XmlNode.Attachable, XmlNode.Listable, Owning, OwningSets,
         Trees, AbstractAttributes, Target;
    LineStep(root, line, path);
    EditedStep(root.tree, path, e.Meaning(k));
    root.Parts();
    OwningApart(root.children, root.attributes, root.below);
    MoreIsNew(e, root);
    var c := line[0];
    ghost var i, nodes: seq<XmlNode> := path[0], root.children;
    ghost var was := seq(|nodes|, j requires 0 <= j < |nodes| reads nodes => nodes[j].below);
    ghost var before, gone, more := Trees(nodes), e.Gone(Target(root, line)), e.More();
    ghost var edited := Edited(c.tree, path[1..], e.Meaning(k));
    FreeBelow(e, root, c);
    TreesAre(nodes);
    OwningIsSets(nodes, was, root.attributes, root.below);
    OwningSiblings(nodes, root.attributes, root.below, i);
    EditBelow(c, line[1..], e, k, path[1..]);
    SetsChange(nodes, was, root.attributes, root.below, i, gone, more);
    forall d | d in nodes
      ensures d.Valid() && d.kind != Document
    {
      assert old(d.Valid());
    }
    forall j | 0 <= j < |nodes| && j != i
      ensures nodes[j].below == was[j] && nodes[j].tree == before[j]
    {
      assert nodes[j] in nodes;
    }
    assert c.tree == edited;
    root.RefreshChild(i, was, root.below - gone + more, before);
    assert root.tree == old(root.tree).(children := before[i := edited]);
  }

  /** Appending, for one. */
  method AppendBelow(root: XmlNode, line: seq<XmlNode>, child: XmlNode, ghost path: seq<nat>)
    requires root.Valid() && root.Leads(path, line) && root.Attachable(child)
    modifies root`first, root`last, root`children, root`tree, root`below
    modifies root`firstAttribute, root`lastAttribute, root`attributes, root.below
    modifies child`parent, child`prev, child`next
    ensures root.Valid() && root.below == old(root.below) + {child} + child.below
    ensures root.tree == Edited(old(root.tree), path, InsertTree(old(|Target(root, line).children|), child.tree))
    ensures child.parent == Target(root, line)
  {
    hide Edited, XmlNode.Valid, XmlNode.Attachable, XmlNode.Leads, Target;
    EditBelow(root, line, InsertNode(null, child), |Target(root, line).children|, path);
  }
}
