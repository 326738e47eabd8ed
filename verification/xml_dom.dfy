/** Nodes and attributes as linked objects: every node heads a doubly linked list of children
    and one of attributes. The ghost fields say which sequences the links stand for. */
module XmlDom {
  import opened XmlTree

  /** A name or value as a node holds it: a null pointer, the static empty string, or a place in
      memory with a size. */
  datatype Str = NoStr | EmptyStr | Span(start: nat, size: nat)

  /** What name() and value() return. */
  function Read(s: Str): Str {
    if s == NoStr then EmptyStr else s
  }

  function InsertAt<T>(s: seq<T>, k: nat, x: T): seq<T>
    requires k <= |s|
  {
    s[..k] + [x] + s[k..]
  }

  lemma InsertAtEnd<T>(s: seq<T>, x: T)
    ensures InsertAt(s, |s|, x) == s + [x]
  {
  }

  lemma InsertAtStart<T>(s: seq<T>, x: T)
    ensures InsertAt(s, 0, x) == [x] + s
  {
  }

  lemma InsertAtDistinct<T>(s: seq<T>, k: nat, x: T)
    requires k <= |s| && x !in s
    requires forall i, j :: 0 <= i < j < |s| ==> s[i] != s[j]
    ensures forall i, j :: 0 <= i < j < |InsertAt(s, k, x)| ==> InsertAt(s, k, x)[i] != InsertAt(s, k, x)[j]
  {
  }

  lemma InsertAtIndex<T>(s: seq<T>, k: nat, x: T)
    requires k <= |s|
    ensures |InsertAt(s, k, x)| == |s| + 1
    ensures forall i {:trigger InsertAt(s, k, x)[i]} :: 0 <= i <= |s| ==>
              InsertAt(s, k, x)[i] == if i < k then s[i] else if i == k then x else s[i - 1]
  {
  }

  function RemoveAt<T>(s: seq<T>, k: nat): seq<T>
    requires k < |s|
  {
    s[..k] + s[k + 1..]
  }

  class XmlAttribute {
    var name: Str
    var value: Str
    var parent: XmlNode?
    var prev: XmlAttribute?
    var next: XmlAttribute?

    constructor ()
      ensures name == NoStr && value == NoStr && parent == null
    {
      name, value, parent := NoStr, NoStr, null;
    }

    ghost function Abstract(): Attribute<Str>
      reads this`name, this`value
    {
      Attribute(Read(name), Read(value))
    }
  }

  ghost function AbstractAttributes(attributes: seq<XmlAttribute>): seq<Attribute<Str>>
    reads attributes`name, attributes`value
  {
    if attributes == [] then [] else [attributes[0].Abstract()] + AbstractAttributes(attributes[1..])
  }

  ghost function Trees(nodes: seq<XmlNode>): seq<Tree<Str>>
    reads nodes`tree
  {
    if nodes == [] then [] else [nodes[0].tree] + Trees(nodes[1..])
  }

  lemma InsertAtMembers<T>(s: seq<T>, k: nat, x: T)
    requires k <= |s|
    ensures forall i :: 0 <= i < |InsertAt(s, k, x)| ==> InsertAt(s, k, x)[i] == x || InsertAt(s, k, x)[i] in s
    ensures forall y <- InsertAt(s, k, x) :: y == x || y in s
  {
  }

  lemma RemoveAtStart<T>(s: seq<T>)
    ensures s != [] ==> RemoveAt(s, 0) == s[1..]
  {
  }

  lemma RemoveAtEnd<T>(s: seq<T>)
    ensures s != [] ==> RemoveAt(s, |s| - 1) == s[..|s| - 1]
  {
  }

  lemma RemoveAtMembers<T>(s: seq<T>, k: nat)
    requires k < |s|
    ensures forall i :: 0 <= i < |RemoveAt(s, k)| ==> RemoveAt(s, k)[i] in s
    ensures forall y <- RemoveAt(s, k) :: y in s
  {
  }

  lemma {:induction false} TreesConcat(a: seq<XmlNode>, b: seq<XmlNode>)
    ensures Trees(a + b) == Trees(a) + Trees(b)
  {
    if a == [] {
      assert a + b == b;
    } else {
      assert (a + b)[1..] == a[1..] + b;
      TreesConcat(a[1..], b);
    }
  }

  lemma {:induction false} TreesLength(nodes: seq<XmlNode>)
    ensures |Trees(nodes)| == |nodes|
  {
    if nodes != [] {
      TreesLength(nodes[1..]);
    }
  }

  lemma {:induction false} TreesAt(nodes: seq<XmlNode>, i: nat)
    requires i < |nodes|
    ensures |Trees(nodes)| == |nodes| && Trees(nodes)[i] == nodes[i].tree
  {
    TreesLength(nodes);
    if i > 0 {
      TreesAt(nodes[1..], i - 1);
    }
  }

  lemma TreesAre(nodes: seq<XmlNode>)
    ensures |Trees(nodes)| == |nodes|
    ensures forall i :: 0 <= i < |nodes| ==> Trees(nodes)[i] == nodes[i].tree
  {
    TreesLength(nodes);
    forall i | 0 <= i < |nodes|
      ensures Trees(nodes)[i] == nodes[i].tree
    {
      TreesAt(nodes, i);
    }
  }

  lemma TreesInsert(nodes: seq<XmlNode>, k: nat, x: XmlNode)
    requires k <= |nodes|
    ensures k <= |Trees(nodes)| && Trees(InsertAt(nodes, k, x)) == InsertAt(Trees(nodes), k, x.tree)
  {
    hide Trees;
    TreesConcat(nodes[..k], nodes[k..]);
    assert nodes == nodes[..k] + nodes[k..];
    TreesLength(nodes[..k]);
    TreesConcat(nodes[..k] + [x], nodes[k..]);
    TreesConcat(nodes[..k], [x]);
    TreesSingle(x);
  }

  lemma TreesSingle(x: XmlNode)
    ensures Trees([x]) == [x.tree]
  {
  }

  lemma TreesRemove(nodes: seq<XmlNode>, k: nat)
    requires k < |nodes|
    ensures k < |Trees(nodes)| && Trees(RemoveAt(nodes, k)) == RemoveAt(Trees(nodes), k)
  {
    hide Trees;
    assert nodes == InsertAt(RemoveAt(nodes, k), k, nodes[k]);
    TreesInsert(RemoveAt(nodes, k), k, nodes[k]);
  }

  lemma {:induction false} AbstractConcat(a: seq<XmlAttribute>, b: seq<XmlAttribute>)
    ensures AbstractAttributes(a + b) == AbstractAttributes(a) + AbstractAttributes(b)
  {
    if a == [] {
      assert a + b == b;
    } else {
      assert (a + b)[1..] == a[1..] + b;
      AbstractConcat(a[1..], b);
    }
  }

  lemma {:induction false} AbstractLength(attributes: seq<XmlAttribute>)
    ensures |AbstractAttributes(attributes)| == |attributes|
  {
    if attributes != [] {
      AbstractLength(attributes[1..]);
    }
  }

  lemma AbstractInsert(attributes: seq<XmlAttribute>, k: nat, x: XmlAttribute)
    requires k <= |attributes|
    ensures k <= |AbstractAttributes(attributes)|
    ensures AbstractAttributes(InsertAt(attributes, k, x)) == InsertAt(AbstractAttributes(attributes), k, x.Abstract())
  {
    hide AbstractAttributes;
    AbstractConcat(attributes[..k], attributes[k..]);
    assert attributes == attributes[..k] + attributes[k..];
    AbstractLength(attributes[..k]);
    AbstractConcat(attributes[..k] + [x], attributes[k..]);
    AbstractConcat(attributes[..k], [x]);
    AbstractSingle(x);
  }

  lemma AbstractRemove(attributes: seq<XmlAttribute>, k: nat)
    requires k < |attributes|
    ensures k < |AbstractAttributes(attributes)|
    ensures AbstractAttributes(RemoveAt(attributes, k)) == RemoveAt(AbstractAttributes(attributes), k)
  {
    hide AbstractAttributes;
    assert attributes == InsertAt(RemoveAt(attributes, k), k, attributes[k]);
    AbstractInsert(RemoveAt(attributes, k), k, attributes[k]);
  }

  lemma AbstractSingle(x: XmlAttribute)
    ensures AbstractAttributes([x]) == [x.Abstract()]
  {
  }

  // ---------------------------------------------------------------- ownership

  ghost predicate Apart(a: XmlNode, b: XmlNode)
    reads a`below, b`below
  {
    a != b && a !in b.below && b !in a.below && a.below !! b.below
  }

  /** Of the objects in `below`, each belongs to one node at most, and no attribute to any. */
  ghost predicate Owning(nodes: seq<XmlNode>, attributes: seq<XmlAttribute>, below: set<object>)
    reads nodes`below
  {
    && (forall a <- attributes :: a in below)
    && (forall c <- nodes :: c in below && c !in c.below && c.below <= below)
    && (forall i, j :: 0 <= i < j < |nodes| ==> Apart(nodes[i], nodes[j]))
    && (forall a <- attributes, c <- nodes :: a !in c.below)
  }

  lemma OwningInsert(nodes: seq<XmlNode>, k: nat, x: XmlNode, attributes: seq<XmlAttribute>, below: set<object>)
    requires Owning(nodes, attributes, below) && k <= |nodes|
    requires x !in x.below && x !in below && x.below !! below
    ensures Owning(InsertAt(nodes, k, x), attributes, below + {x} + x.below)
  {
    var all := InsertAt(nodes, k, x);
    assert forall c <- all :: c == x || c in nodes;
    forall i, j | 0 <= i < j < |all|
      ensures Apart(all[i], all[j])
    {
      var i', j' := if i < k then i else i - 1, if j < k then j else j - 1;
      assert i != k ==> all[i] == nodes[i'];
      assert j != k ==> all[j] == nodes[j'];
    }
  }

  lemma OwningRemove(nodes: seq<XmlNode>, k: nat, attributes: seq<XmlAttribute>, below: set<object>)
    requires Owning(nodes, attributes, below) && k < |nodes|
    ensures Owning(RemoveAt(nodes, k), attributes, below - {nodes[k]} - nodes[k].below)
  {
    var rest := RemoveAt(nodes, k);
    forall i | 0 <= i < |rest|
      ensures rest[i] in nodes && Apart(rest[i], nodes[k])
    {
      assert rest[i] == nodes[if i < k then i else i + 1];
    }
    forall i, j | 0 <= i < j < |rest|
      ensures Apart(rest[i], rest[j])
    {
      assert rest[i] == nodes[if i < k then i else i + 1] && rest[j] == nodes[if j < k then j else j + 1];
    }
  }

  /** The same when the i-th node has the objects of was[i] below it. */
  ghost predicate OwningSets(nodes: seq<XmlNode>, was: seq<set<object>>, attributes: seq<XmlAttribute>,
                             below: set<object>)
    requires |was| == |nodes|
  {
    && (forall a <- attributes :: a in below)
    && (forall i :: 0 <= i < |nodes| ==> nodes[i] in below && nodes[i] !in was[i] && was[i] <= below)
    && (forall i, j :: 0 <= i < j < |nodes| ==>
          nodes[i] != nodes[j] && nodes[i] !in was[j] && nodes[j] !in was[i] && was[i] !! was[j])
    && (forall a <- attributes, i | 0 <= i < |nodes| :: a !in was[i])
  }

  lemma OwningIsSets(nodes: seq<XmlNode>, was: seq<set<object>>, attributes: seq<XmlAttribute>, below: set<object>)
    requires |was| == |nodes| && forall i :: 0 <= i < |nodes| ==> was[i] == nodes[i].below
    ensures Owning(nodes, attributes, below) <==> OwningSets(nodes, was, attributes, below)
  {
    assert forall i :: 0 <= i < |nodes| ==> nodes[i] in nodes;
    assert forall c <- nodes :: exists i :: 0 <= i < |nodes| && nodes[i] == c && was[i] == c.below;
  }

  /** Objects below one node may come and go. */
  lemma SetsChange(nodes: seq<XmlNode>, was: seq<set<object>>, attributes: seq<XmlAttribute>, below: set<object>,
                   k: nat, gone: set<object>, more: set<object>)
    requires |was| == |nodes| && OwningSets(nodes, was, attributes, below)
    requires k < |nodes| && gone <= was[k] && more !! below
    ensures OwningSets(nodes, was[k := was[k] - gone + more], attributes, below - gone + more)
  {
  }

  lemma OwningSiblings(nodes: seq<XmlNode>, attributes: seq<XmlAttribute>, below: set<object>, k: nat)
    requires Owning(nodes, attributes, below) && k < |nodes|
    ensures forall i :: 0 <= i < |nodes| && i != k ==> Apart(nodes[i], nodes[k])
    ensures forall c <- nodes :: c == nodes[k] || Apart(c, nodes[k])
  {
  }

  lemma OwningNone(attributes: seq<XmlAttribute>)
    ensures Owning([], attributes, set a: object | a in attributes)
  {
  }

  lemma OwningAttribute(nodes: seq<XmlNode>, attributes: seq<XmlAttribute>, k: nat, a: XmlAttribute, below: set<object>)
    requires Owning(nodes, attributes, below) && k <= |attributes| && a !in below
    ensures Owning(nodes, InsertAt(attributes, k, a), below + {a})
  {
    InsertAtMembers(attributes, k, a);
  }

  lemma OwningLessAttribute(nodes: seq<XmlNode>, attributes: seq<XmlAttribute>, k: nat, below: set<object>)
    requires Owning(nodes, attributes, below) && k < |attributes|
    requires forall i, j :: 0 <= i < j < |attributes| ==> attributes[i] != attributes[j]
    ensures Owning(nodes, RemoveAt(attributes, k), below - {attributes[k]})
  {
    assert attributes[k] in attributes;
    forall i | 0 <= i < |RemoveAt(attributes, k)|
      ensures RemoveAt(attributes, k)[i] in attributes && RemoveAt(attributes, k)[i] != attributes[k]
    {
      assert RemoveAt(attributes, k)[i] == attributes[if i < k then i else i + 1];
    }
  }

  lemma OwningNoAttributes(nodes: seq<XmlNode>, attributes: seq<XmlAttribute>, below: set<object>)
    requires Owning(nodes, attributes, below)
    ensures Owning(nodes, [], below - set a: object | a in attributes)
  {
  }

  lemma OwningApart(nodes: seq<XmlNode>, attributes: seq<XmlAttribute>, below: set<object>)
    requires Owning(nodes, attributes, below)
    ensures forall c <- nodes :: c.below !! (set d: object | d in nodes)
    ensures forall c <- nodes :: c in below && c !in c.below && c.below <= below
    ensures forall a <- attributes :: a in below
    ensures forall c <- nodes :: c.below !! (set a: object | a in attributes)
  {
  }

  class XmlNode {
    var kind: NodeKind
    var name: Str
    var value: Str
    var parent: XmlNode?
    var first: XmlNode?
    var last: XmlNode?
    var prev: XmlNode?
    var next: XmlNode?
    var firstAttribute: XmlAttribute?
    var lastAttribute: XmlAttribute?

    ghost var children: seq<XmlNode>
    ghost var attributes: seq<XmlAttribute>
    /** The tree this node is the root of. */
    ghost var tree: Tree<Str>
    /** All nodes and attributes below this one. */
    ghost var below: set<object>

    /** The child links stand for `children`. As in the source, `last` means nothing without a
        first child, and sibling links mean nothing without a parent. */
    ghost predicate Linked()
      reads this`first, this`last, this`children, children`parent, children`prev, children`next
    {
      && (first == null <==> children == [])
      && (children != [] ==> first == children[0] && last == children[|children| - 1])
      && (forall i, j :: 0 <= i < j < |children| ==> children[i] != children[j])
      && (forall i :: 0 <= i < |children| ==> children[i].parent == this)
      && (forall i {:trigger children[i].prev} :: 0 <= i < |children| ==>
            children[i].prev == if i == 0 then null else children[i - 1])
      && (forall i {:trigger children[i].next} :: 0 <= i < |children| ==>
            children[i].next == if i == |children| - 1 then null else children[i + 1])
    }

    /** The same for the attribute list. */
    ghost predicate AttributesLinked()
      reads this`firstAttribute, this`lastAttribute, this`attributes, attributes
    {
      && (firstAttribute == null <==> attributes == [])
      && (attributes != [] ==> firstAttribute == attributes[0] && lastAttribute == attributes[|attributes| - 1])
      && (forall i, j :: 0 <= i < j < |attributes| ==> attributes[i] != attributes[j])
      && (forall i :: 0 <= i < |attributes| ==> attributes[i].parent == this)
      && (forall i {:trigger attributes[i].prev} :: 0 <= i < |attributes| ==>
            attributes[i].prev == if i == 0 then null else attributes[i - 1])
      && (forall i {:trigger attributes[i].next} :: 0 <= i < |attributes| ==>
            attributes[i].next == if i == |attributes| - 1 then null else attributes[i + 1])
    }

    /** This node is in order, whatever hangs below its children. */
    ghost predicate Sound()
      reads this`kind, this`name, this`value, this`first, this`last, this`firstAttribute, this`lastAttribute
      reads this`children, this`attributes, this`tree, this`below, children, attributes
    {
      && this !in below
      && Owning(children, attributes, below)
      && Linked()
      && AttributesLinked()
      && tree == Tree(kind, Read(name), Read(value), AbstractAttributes(attributes), Trees(children))
    }

    /** A well-formed tree hangs below this node; nothing is said about the links of the node itself. */
    ghost predicate Valid()
      reads this`kind, this`name, this`value, this`first, this`last, this`firstAttribute, this`lastAttribute
      reads this`children, this`attributes, this`tree, this`below, below
      decreases below
    {
      && (forall c <- children :: c in below && c !in c.below && c.below <= below && c.kind != Document)
      && (forall a <- attributes :: a in below)
      && Sound()
      && (forall c <- children :: c.Valid())
    }

    constructor (kind: NodeKind)
      ensures Valid() && below == {}
      ensures this.kind == kind && name == NoStr && value == NoStr && parent == null
      ensures children == [] && attributes == []
    {
      this.kind, name, value, parent := kind, NoStr, NoStr, null;
      first, firstAttribute := null, null;
      children, attributes := [], [];
      tree := Tree(kind, EmptyStr, EmptyStr, [], []);
      below := {};
    }

    method SetKind(k: NodeKind)
      requires Valid()
      modifies this`kind, this`tree
      ensures Valid() && kind == k && tree == old(tree).(kind := k)
    {
      hide Owning, Linked, AttributesLinked, Trees, AbstractAttributes;
      kind := k;
      tree := tree.(kind := k);
    }

    method SetName(s: Str)
      requires Valid()
      modifies this`name, this`tree
      ensures Valid() && name == s && tree == old(tree).(name := Read(s))
    {
      hide Owning, Linked, AttributesLinked, Trees, AbstractAttributes;
      name := s;
      tree := tree.(name := Read(s));
    }

    method SetValue(s: Str)
      requires Valid()
      modifies this`value, this`tree
      ensures Valid() && value == s && tree == old(tree).(value := Read(s))
    {
      hide Owning, Linked, AttributesLinked, Trees, AbstractAttributes;
      value := s;
      tree := tree.(value := Read(s));
    }

    // -------------------------------------------------------------- inserting children

    /** A tree that can be hung below this node. */
    ghost predicate Attachable(child: XmlNode)
      reads this`below, child`kind, child`parent, child`name, child`value, child`first, child`last
      reads child`firstAttribute, child`lastAttribute
      reads child`children, child`attributes, child`tree, child`below, child.below
    {
      && child.Valid() && child.parent == null && child.kind != Document
      && below + {this} !! child.below + {child}
    }

    /** The pointer assignments of append_node, and the new values of the ghost fields. */
    method LinkLast(child: XmlNode, ghost newTree: Tree<Str>, ghost newBelow: set<object>)
      requires Linked() && child !in children && child != this && this !in children
      modifies this`first, this`last, this`children, this`tree, this`below
      modifies child`parent, child`prev, child`next, children`next
      ensures Linked() && children == old(children) + [child] && tree == newTree && below == newBelow
    {
      if first != null {
        child.prev := last;
        last.next := child;
      } else {
        child.prev := null;
        first := child;
      }
      last := child;
      child.parent := this;
      child.next := null;
      children, tree, below := children + [child], newTree, newBelow;
    }

    method AppendNode(child: XmlNode)
      requires Valid() && Attachable(child)
      modifies this`first, this`last, this`children, this`tree, this`below
      modifies child`parent, child`prev, child`next, children`next
      ensures Valid()
      ensures children == old(children) + [child]
      ensures below == old(below) + {child} + child.below
      ensures tree == old(tree).(children := old(tree.children) + [child.tree])
    {
      hide Owning, Linked, AttributesLinked, Trees, AbstractAttributes, InsertAt;
      OwningApart(children, attributes, below);
      OwningInsert(children, |children|, child, attributes, below);
      TreesInsert(children, |children|, child);
      TreesLength(children);
      InsertAtEnd(children, child);
      InsertAtEnd(Trees(children), child.tree);
      ghost var nodes: seq<XmlNode> := children;
      LinkLast(child, tree.(children := tree.children + [child.tree]), below + {child} + child.below);
      assert Sound();
      forall c | c in nodes
        ensures c.Valid()
      {
        assert old(c.Valid());
      }
    }

    /** The pointer assignments of prepend_node. */
    method LinkFirst(child: XmlNode, ghost newTree: Tree<Str>, ghost newBelow: set<object>)
      requires Linked() && child !in children && child != this && this !in children
      modifies this`first, this`last, this`children, this`tree, this`below
      modifies child`parent, child`prev, child`next, children`prev
      ensures Linked() && children == [child] + old(children) && tree == newTree && below == newBelow
    {
      if first != null {
        child.next := first;
        first.prev := child;
      } else {
        child.next := null;
        last := child;
      }
      first := child;
      child.parent := this;
      child.prev := null;
      children, tree, below := [child] + children, newTree, newBelow;
    }

    method PrependNode(child: XmlNode)
      requires Valid() && Attachable(child)
      modifies this`first, this`last, this`children, this`tree, this`below
      modifies child`parent, child`prev, child`next, children`prev
      ensures Valid()
      ensures children == [child] + old(children)
      ensures below == old(below) + {child} + child.below
      ensures tree == old(tree).(children := [child.tree] + old(tree.children))
    {
      hide Owning, Linked, AttributesLinked, Trees, AbstractAttributes, InsertAt;
      OwningApart(children, attributes, below);
      OwningInsert(children, 0, child, attributes, below);
      TreesInsert(children, 0, child);
      InsertAtStart(children, child);
      InsertAtStart(Trees(children), child.tree);
      ghost var nodes: seq<XmlNode> := children;
      LinkFirst(child, tree.(children := [child.tree] + tree.children), below + {child} + child.below);
      assert Sound();
      forall c | c in nodes
        ensures c.Valid()
      {
        assert old(c.Valid());
      }
    }

    /** The pointer assignments of insert_node in front of a child that is not the first. */
    method LinkBefore(where: XmlNode, child: XmlNode, ghost k: nat, ghost newTree: Tree<Str>,
                      ghost newBelow: set<object>)
      requires Linked() && child !in children && child != this && this !in children
      requires 0 < k < |children| && where == children[k]
      modifies this`children, this`tree, this`below
      modifies child`parent, child`prev, child`next, children`prev, children`next
      ensures Linked() && children == InsertAt<XmlNode>(old(children), k, child) && tree == newTree && below == newBelow
    {
      hide InsertAt;
      InsertAtDistinct<XmlNode>(children, k, child);
      InsertAtIndex<XmlNode>(children, k, child);
      child.prev := where.prev;
      child.next := where;
      where.prev.next := child;
      where.prev := child;
      child.parent := this;
      children, tree, below := InsertAt<XmlNode>(children, k, child), newTree, newBelow;
    }

    method InsertBefore(where: XmlNode, child: XmlNode, ghost k: nat)
      requires Valid() && Attachable(child)
      requires 0 < k < |children| && where == children[k]
      modifies this`first, this`last, this`children, this`tree, this`below
      modifies child`parent, child`prev, child`next, children`prev, children`next
      ensures Valid()
      ensures children == InsertAt(old(children), k, child)
      ensures below == old(below) + {child} + child.below
      ensures k <= |old(tree.children)| && tree == old(tree).(children := InsertAt(old(tree.children), k, child.tree))
    {
      hide Owning, Linked, AttributesLinked, Trees, AbstractAttributes, InsertAt, Valid;
      Parts();
      child.Parts();
      OwningApart(children, attributes, below);
      OwningInsert(children, k, child, attributes, below);
      TreesInsert(children, k, child);
      ghost var nodes: seq<XmlNode> := children;
      LinkBefore(where, child, k, tree.(children := InsertAt(tree.children, k, child.tree)),
                 below + {child} + child.below);
      InsertAtMembers(nodes, k, child);
      assert Sound();
      forall c | c in nodes
        ensures c.Valid() && c.kind != Document
      {
        assert old(c.Valid());
      }
      Whole();
    }

    lemma Parts()
      requires Valid()
      ensures Sound() && forall c <- children :: c.Valid() && c.kind != Document
    {
    }

    lemma Parents()
      requires Valid()
      ensures forall c <- children :: c.parent == this
    {
    }

    lemma Whole()
      requires Sound() && forall c <- children :: c.Valid() && c.kind != Document
      ensures Valid()
    {
      OwningApart(children, attributes, below);
    }

    /** Inserts in front of `where`, which is child number k, or behind the last child if it is null. */
    method InsertNode(where: XmlNode?, child: XmlNode, ghost k: nat)
      requires Valid() && Attachable(child)
      requires k <= |children| && where == if k < |children| then children[k] else null
      modifies this`first, this`last, this`children, this`tree, this`below
      modifies child`parent, child`prev, child`next, children`prev, children`next
      ensures Valid()
      ensures children == InsertAt(old(children), k, child)
      ensures below == old(below) + {child} + child.below
      ensures k <= |old(tree.children)| && tree == old(tree).(children := InsertAt(old(tree.children), k, child.tree))
    {
      FirstIsZero(k);
      TreesLength(children);
      hide *;
      InsertAtEnd(children, child);
      InsertAtEnd(Trees(children), child.tree);
      InsertAtStart(children, child);
      InsertAtStart(Trees(children), child.tree);
      if where == first {
        PrependNode(child);
      } else if where == null {
        AppendNode(child);
        assert k == |old(tree.children)|;
      } else {
        InsertBefore(where, child, k);
      }
    }

    lemma FirstIsZero(k: nat)
      requires Valid() && k <= |children|
      ensures tree.children == Trees(children)
      ensures (if k < |children| then children[k] else null) == first <==> k == 0
    {
    }

    // -------------------------------------------------------------- editing further down

    /** The nodes of `line` lead from this one downwards; the places among the children are `path`. */
    ghost predicate Leads(path: seq<nat>, line: seq<XmlNode>)
      reads this`children, line`children
      decreases |path|
    {
      && |path| == |line|
      && (path != [] ==>
            && path[0] < |children| && children[path[0]] == line[0]
            && line[0].Leads(path[1..], line[1..]))
    }

    /** After any edit below, the ghost fields of a node can be brought up to date. */
    ghost method Refresh(newBelow: set<object>)
      requires Linked() && AttributesLinked() && Owning(children, attributes, newBelow) && this !in newBelow
      requires forall c <- children :: c.Valid() && c.kind != Document
      modifies this`tree, this`below
      ensures Valid() && below == newBelow
      ensures tree == Tree(kind, Read(name), Read(value), AbstractAttributes(attributes), Trees(children))
    {
      hide Linked, AttributesLinked, AbstractAttributes, Trees, Valid;
      OwningApart(children, attributes, newBelow);
      ghost var nodes: seq<XmlNode> := children;
      tree, below := Tree(kind, Read(name), Read(value), AbstractAttributes(attributes), Trees(children)), newBelow;
      forall c | c in nodes
        ensures c.Valid()
      {
        assert old(c.Valid());
      }
      Whole();
    }

    /** The same when only child number k has changed; `was` is what the others have below them. */
    ghost method RefreshChild(k: nat, was: seq<set<object>>, newBelow: set<object>, before: seq<Tree<Str>>)
      requires Linked() && AttributesLinked() && this !in newBelow && k < |children| == |was| == |before|
      requires OwningSets(children, was[k := children[k].below], attributes, newBelow)
      requires forall i :: 0 <= i < |children| && i != k ==> children[i].below == was[i] && children[i].tree == before[i]
      requires forall c <- children :: c.Valid() && c.kind != Document
      requires tree == Tree(kind, Read(name), Read(value), AbstractAttributes(attributes), before)
      modifies this`tree, this`below
      ensures Valid() && below == newBelow
      ensures tree == old(tree).(children := before[k := children[k].tree])
    {
      hide Owning, OwningSets, Linked, AttributesLinked, Trees, AbstractAttributes, Valid;
      OwningIsSets(children, was[k := children[k].below], attributes, newBelow);
      OwningApart(children, attributes, newBelow);
      TreesAre(children);
      assert Trees(children) == before[k := children[k].tree];
      Refresh(newBelow);
    }

    // -------------------------------------------------------------- removing children

    /** The pointer assignments of remove_first_node. */
    method UnlinkFirst(ghost newTree: Tree<Str>, ghost newBelow: set<object>)
      requires Linked() && children != [] && this !in children
      modifies this`first, this`last, this`children, this`tree, this`below, children`parent, children`prev
      ensures Linked() && children == old(children)[1..] && old(children)[0].parent == null
      ensures tree == newTree && below == newBelow
    {
      var child := first;
      first := child.next;
      if child.next != null {
        child.next.prev := null;
      } else {
        last := null;
      }
      child.parent := null;
      children, tree, below := children[1..], newTree, newBelow;
    }

    method RemoveFirstNode()
      requires Valid() && children != []
      modifies this`first, this`last, this`children, this`tree, this`below, children`parent, children`prev
      ensures Valid() && Attachable(old(children)[0])
      ensures children == old(children)[1..]
      ensures below == old(below) - {old(children)[0]} - old(children)[0].below
      ensures tree == old(tree).(children := old(tree.children)[1..])
    {
      hide Owning, Linked, AttributesLinked, Trees, AbstractAttributes, RemoveAt;
      OwningApart(children, attributes, below);
      OwningRemove(children, 0, attributes, below);
      TreesRemove(children, 0);
      RemoveAtStart(children);
      RemoveAtStart(Trees(children));
      ghost var nodes: seq<XmlNode> := children;
      UnlinkFirst(tree.(children := tree.children[1..]), below - {nodes[0]} - nodes[0].below);
      assert Sound();
      forall c | c in nodes
        ensures c.Valid()
      {
        assert old(c.Valid());
      }
    }

    /** The pointer assignments of remove_last_node. */
    method UnlinkLast(ghost newTree: Tree<Str>, ghost newBelow: set<object>)
      requires Linked() && children != [] && this !in children
      modifies this`first, this`last, this`children, this`tree, this`below, children`parent, children`next
      ensures Linked() && children == old(children)[..|old(children)| - 1]
      ensures old(children)[|old(children)| - 1].parent == null
      ensures tree == newTree && below == newBelow
    {
      var child := last;
      if child.prev != null {
        last := child.prev;
        child.prev.next := null;
      } else {
        first := null;
      }
      child.parent := null;
      children, tree, below := children[..|children| - 1], newTree, newBelow;
    }

    method RemoveLastNode()
      requires Valid() && children != []
      modifies this`first, this`last, this`children, this`tree, this`below, children`parent, children`next
      ensures var removed := old(children)[|old(children)| - 1];
              && Attachable(removed)
              && below == old(below) - {removed} - removed.below
      ensures Valid()
      ensures children == old(children)[..|old(children)| - 1]
      ensures |old(tree.children)| == |old(children)|
      ensures tree == old(tree).(children := old(tree.children)[..|old(children)| - 1])
    {
      hide Owning, Linked, AttributesLinked, Trees, AbstractAttributes, RemoveAt;
      ghost var k := |children| - 1;
      OwningApart(children, attributes, below);
      OwningRemove(children, k, attributes, below);
      TreesRemove(children, k);
      TreesLength(children);
      RemoveAtEnd(children);
      RemoveAtEnd(Trees(children));
      ghost var nodes: seq<XmlNode> := children;
      UnlinkLast(tree.(children := tree.children[..k]), below - {nodes[k]} - nodes[k].below);
      assert Sound();
      forall c | c in nodes
        ensures c.Valid()
      {
        assert old(c.Valid());
      }
    }

    /** The pointer assignments of remove_node for a child that is neither first nor last. */
    method Unlink(where: XmlNode, ghost k: nat, ghost newTree: Tree<Str>, ghost newBelow: set<object>)
      requires Linked() && 0 < k < |children| - 1 && where == children[k] && this !in children
      modifies this`children, this`tree, this`below, children`parent, children`prev, children`next
      ensures Linked() && children == RemoveAt(old(children), k) && where.parent == null
      ensures tree == newTree && below == newBelow
    {
      where.prev.next := where.next;
      where.next.prev := where.prev;
      where.parent := null;
      children, tree, below := RemoveAt(children, k), newTree, newBelow;
    }

    method RemoveInner(where: XmlNode, ghost k: nat)
      requires Valid() && 0 < k < |children| - 1 && where == children[k]
      modifies this`first, this`last, this`children, this`tree, this`below, children`parent, children`prev, children`next
      ensures Valid() && Attachable(where)
      ensures children == RemoveAt(old(children), k)
      ensures below == old(below) - {where} - where.below
      ensures k < |old(tree.children)| && tree == old(tree).(children := RemoveAt(old(tree.children), k))
    {
      hide Owning, Linked, AttributesLinked, Trees, AbstractAttributes, RemoveAt;
      OwningApart(children, attributes, below);
      OwningRemove(children, k, attributes, below);
      TreesRemove(children, k);
      ghost var nodes: seq<XmlNode> := children;
      Unlink(where, k, tree.(children := RemoveAt(tree.children, k)), below - {where} - where.below);
      RemoveAtMembers(nodes, k);
      OwningApart(children, attributes, below);
      assert Sound();
      forall c | c in nodes
        ensures c.Valid()
      {
        assert old(c.Valid());
      }
    }

    /** Removes `where`, which is child number k; afterwards it can be attached again. */
    method RemoveNode(where: XmlNode, ghost k: nat)
      requires Valid() && k < |children| && where == children[k]
      modifies this`first, this`last, this`children, this`tree, this`below, children`parent, children`prev, children`next
      ensures Valid() && Attachable(where)
      ensures children == RemoveAt(old(children), k)
      ensures below == old(below) - {where} - where.below
      ensures k < |old(tree.children)| && tree == old(tree).(children := RemoveAt(old(tree.children), k))
    {
      EndsAre(k);
      TreesLength(children);
      hide Valid, Sound, RemoveAt, Trees;
      RemoveAtEnd(children);
      RemoveAtEnd(Trees(children));
      RemoveAtStart(children);
      RemoveAtStart(Trees(children));
      if where == first {
        RemoveFirstNode();
      } else if where == last {
        RemoveLastNode();
      } else {
        RemoveInner(where, k);
      }
    }

    lemma EndsAre(k: nat)
      requires Valid() && k < |children|
      ensures tree.children == Trees(children)
      ensures children[k] == first <==> k == 0
      ensures children[k] == last <==> k == |children| - 1
    {
    }

    /** Unhooks all children; the source leaves their sibling links and `last` as they were. */
    method RemoveAllNodes()
      requires Valid()
      modifies this`first, this`children, this`tree, this`below, children`parent
      ensures Valid() && children == [] && tree == old(tree).(children := [])
      ensures below == set a: object | a in attributes
      ensures forall c <- old(children) :: Attachable(c)
    {
      hide Owning, AttributesLinked, Trees, AbstractAttributes;
      OwningApart(children, attributes, below);
      OwningNone(attributes);
      ghost var nodes: seq<XmlNode> := children;
      UnlinkAll(tree.(children := []), set a: object | a in attributes);
      assert Trees([]) == [] by { TreesLength([]); }
      assert Sound();
      forall c | c in nodes
        ensures c.Valid()
      {
        assert old(c.Valid());
      }
    }

    /** The loop of remove_all_nodes. */
    method UnlinkAll(ghost newTree: Tree<Str>, ghost newBelow: set<object>)
      requires Linked() && this !in children
      modifies this`first, this`children, this`tree, this`below, children`parent
      ensures Linked() && children == [] && tree == newTree && below == newBelow
      ensures forall c <- old(children) :: c.parent == null
    {
      var node := first;
      ghost var i := 0;
      while node != null
        invariant children == old(children) && 0 <= i <= |children|
        invariant node == if i < |children| then children[i] else null
        invariant forall j :: 0 <= j < i ==> children[j].parent == null
        decreases |children| - i
      {
        node.parent := null;
        node := node.next;
        i := i + 1;
      }
      first := null;
      children, tree, below := [], newTree, newBelow;
    }

    // -------------------------------------------------------------- attributes

    /** An attribute that can be listed here. */
    ghost predicate Listable(attribute: XmlAttribute)
      reads this`below, attribute`parent
    {
      attribute.parent == null && attribute !in below
    }

    /** The pointer assignments of append_attribute. */
    method LinkLastAttribute(attribute: XmlAttribute, ghost newTree: Tree<Str>, ghost newBelow: set<object>)
      requires AttributesLinked() && attribute !in attributes
      modifies this`firstAttribute, this`lastAttribute, this`attributes, this`tree, this`below
      modifies attribute`parent, attribute`prev, attribute`next, attributes`next
      ensures AttributesLinked() && attributes == old(attributes) + [attribute] && tree == newTree && below == newBelow
    {
      if firstAttribute != null {
        attribute.prev := lastAttribute;
        lastAttribute.next := attribute;
      } else {
        attribute.prev := null;
        firstAttribute := attribute;
      }
      lastAttribute := attribute;
      attribute.parent := this;
      attribute.next := null;
      attributes, tree, below := attributes + [attribute], newTree, newBelow;
    }

    method AppendAttribute(attribute: XmlAttribute)
      requires Valid() && Listable(attribute)
      modifies this`firstAttribute, this`lastAttribute, this`attributes, this`tree, this`below
      modifies attribute`parent, attribute`prev, attribute`next, attributes`next
      ensures Valid()
      ensures attributes == old(attributes) + [attribute]
      ensures below == old(below) + {attribute}
      ensures tree == old(tree).(attributes := old(tree.attributes) + [attribute.Abstract()])
    {
      hide Owning, Linked, AttributesLinked, Trees, AbstractAttributes, InsertAt;
      OwningApart(children, attributes, below);
      OwningAttribute(children, attributes, |attributes|, attribute, below);
      AbstractInsert(attributes, |attributes|, attribute);
      AbstractLength(attributes);
      InsertAtEnd(attributes, attribute);
      InsertAtEnd(AbstractAttributes(attributes), attribute.Abstract());
      LinkLastAttribute(attribute, tree.(attributes := tree.attributes + [attribute.Abstract()]), below + {attribute});
      assert Sound();
      forall c | c in children
        ensures c.Valid()
      {
        assert old(c.Valid());
      }
    }

    /** The pointer assignments of prepend_attribute. */
    method LinkFirstAttribute(attribute: XmlAttribute, ghost newTree: Tree<Str>, ghost newBelow: set<object>)
      requires AttributesLinked() && attribute !in attributes
      modifies this`firstAttribute, this`lastAttribute, this`attributes, this`tree, this`below
      modifies attribute`parent, attribute`prev, attribute`next, attributes`prev
      ensures AttributesLinked() && attributes == [attribute] + old(attributes) && tree == newTree && below == newBelow
    {
      if firstAttribute != null {
        attribute.next := firstAttribute;
        firstAttribute.prev := attribute;
      } else {
        attribute.next := null;
        lastAttribute := attribute;
      }
      firstAttribute := attribute;
      attribute.parent := this;
      attribute.prev := null;
      attributes, tree, below := [attribute] + attributes, newTree, newBelow;
    }

    method PrependAttribute(attribute: XmlAttribute)
      requires Valid() && Listable(attribute)
      modifies this`firstAttribute, this`lastAttribute, this`attributes, this`tree, this`below
      modifies attribute`parent, attribute`prev, attribute`next, attributes`prev
      ensures Valid()
      ensures attributes == [attribute] + old(attributes)
      ensures below == old(below) + {attribute}
      ensures tree == old(tree).(attributes := [attribute.Abstract()] + old(tree.attributes))
    {
      hide Owning, Linked, AttributesLinked, Trees, AbstractAttributes, InsertAt;
      OwningApart(children, attributes, below);
      OwningAttribute(children, attributes, 0, attribute, below);
      AbstractInsert(attributes, 0, attribute);
      InsertAtStart(attributes, attribute);
      InsertAtStart(AbstractAttributes(attributes), attribute.Abstract());
      LinkFirstAttribute(attribute, tree.(attributes := [attribute.Abstract()] + tree.attributes), below + {attribute});
      assert Sound();
      forall c | c in children
        ensures c.Valid()
      {
        assert old(c.Valid());
      }
    }

    /** The pointer assignments of insert_attribute in front of one that is not the first. */
    method LinkBeforeAttribute(where: XmlAttribute, attribute: XmlAttribute, ghost k: nat,
                               ghost newTree: Tree<Str>, ghost newBelow: set<object>)
      requires AttributesLinked() && attribute !in attributes
      requires 0 < k < |attributes| && where == attributes[k]
      modifies this`attributes, this`tree, this`below
      modifies attribute`parent, attribute`prev, attribute`next, attributes`prev, attributes`next
      ensures AttributesLinked() && attributes == InsertAt<XmlAttribute>(old(attributes), k, attribute)
      ensures tree == newTree && below == newBelow
    {
      hide InsertAt;
      InsertAtDistinct<XmlAttribute>(attributes, k, attribute);
      InsertAtIndex<XmlAttribute>(attributes, k, attribute);
      attribute.prev := where.prev;
      attribute.next := where;
      where.prev.next := attribute;
      where.prev := attribute;
      attribute.parent := this;
      attributes, tree, below := InsertAt<XmlAttribute>(attributes, k, attribute), newTree, newBelow;
    }

    method InsertBeforeAttribute(where: XmlAttribute, attribute: XmlAttribute, ghost k: nat)
      requires Valid() && Listable(attribute)
      requires 0 < k < |attributes| && where == attributes[k]
      modifies this`firstAttribute, this`lastAttribute, this`attributes, this`tree, this`below
      modifies attribute`parent, attribute`prev, attribute`next, attributes`prev, attributes`next
      ensures Valid()
      ensures attributes == InsertAt(old(attributes), k, attribute)
      ensures below == old(below) + {attribute}
      ensures k <= |old(tree.attributes)|
      ensures tree == old(tree).(attributes := InsertAt(old(tree.attributes), k, attribute.Abstract()))
    {
      hide Owning, Linked, AttributesLinked, Trees, AbstractAttributes, InsertAt;
      OwningApart(children, attributes, below);
      OwningAttribute(children, attributes, k, attribute, below);
      AbstractInsert(attributes, k, attribute);
      LinkBeforeAttribute(where, attribute, k,
                          tree.(attributes := InsertAt(tree.attributes, k, attribute.Abstract())), below + {attribute});
      InsertAtMembers(old(attributes), k, attribute);
      assert Sound();
      forall c | c in children
        ensures c.Valid()
      {
        assert old(c.Valid());
      }
    }

    /** Inserts in front of `where`, which is attribute number k, or behind the last if it is null. */
    method InsertAttribute(where: XmlAttribute?, attribute: XmlAttribute, ghost k: nat)
      requires Valid() && Listable(attribute)
      requires k <= |attributes| && where == if k < |attributes| then attributes[k] else null
      modifies this`firstAttribute, this`lastAttribute, this`attributes, this`tree, this`below
      modifies attribute`parent, attribute`prev, attribute`next, attributes`prev, attributes`next
      ensures Valid()
      ensures attributes == InsertAt(old(attributes), k, attribute)
      ensures below == old(below) + {attribute}
      ensures k <= |old(tree.attributes)|
      ensures tree == old(tree).(attributes := InsertAt(old(tree.attributes), k, attribute.Abstract()))
    {
      AttributeEnds(k);
      AbstractLength(attributes);
      hide *;
      InsertAtEnd(attributes, attribute);
      InsertAtEnd(AbstractAttributes(attributes), attribute.Abstract());
      InsertAtStart(attributes, attribute);
      InsertAtStart(AbstractAttributes(attributes), attribute.Abstract());
      if where == firstAttribute {
        PrependAttribute(attribute);
      } else if where == null {
        AppendAttribute(attribute);
        assert k == |old(tree.attributes)|;
      } else {
        InsertBeforeAttribute(where, attribute, k);
      }
    }

    lemma AttributeEnds(k: nat)
      requires Valid() && k <= |attributes|
      ensures tree.attributes == AbstractAttributes(attributes)
      ensures (if k < |attributes| then attributes[k] else null) == firstAttribute <==> k == 0
      ensures k < |attributes| ==> (attributes[k] == lastAttribute <==> k == |attributes| - 1)
    {
    }

    /** The pointer assignments of remove_first_attribute. */
    method UnlinkFirstAttribute(ghost newTree: Tree<Str>, ghost newBelow: set<object>)
      requires AttributesLinked() && attributes != []
      modifies this`firstAttribute, this`lastAttribute, this`attributes, this`tree, this`below
      modifies attributes`parent, attributes`prev
      ensures AttributesLinked() && attributes == old(attributes)[1..] && old(attributes)[0].parent == null
      ensures tree == newTree && below == newBelow
    {
      var attribute := firstAttribute;
      if attribute.next != null {
        attribute.next.prev := null;
      } else {
        lastAttribute := null;
      }
      attribute.parent := null;
      firstAttribute := attribute.next;
      attributes, tree, below := attributes[1..], newTree, newBelow;
    }

    method RemoveFirstAttribute()
      requires Valid() && attributes != []
      modifies this`firstAttribute, this`lastAttribute, this`attributes, this`tree, this`below
      modifies attributes`parent, attributes`prev
      ensures Valid() && Listable(old(attributes)[0])
      ensures attributes == old(attributes)[1..]
      ensures below == old(below) - {old(attributes)[0]}
      ensures tree == old(tree).(attributes := old(tree.attributes)[1..])
    {
      hide Owning, Linked, AttributesLinked, Trees, AbstractAttributes, RemoveAt;
      OwningApart(children, attributes, below);
      AttributesDistinct();
      OwningLessAttribute(children, attributes, 0, below);
      AbstractRemove(attributes, 0);
      RemoveAtStart(attributes);
      RemoveAtStart(AbstractAttributes(attributes));
      UnlinkFirstAttribute(tree.(attributes := tree.attributes[1..]), below - {attributes[0]});
      OwningApart(children, attributes, below);
      assert Sound();
      forall c | c in children
        ensures c.Valid()
      {
        assert old(c.Valid());
      }
    }

    lemma AttributesDistinct()
      requires AttributesLinked()
      ensures forall i, j :: 0 <= i < j < |attributes| ==> attributes[i] != attributes[j]
    {
    }

    /** The pointer assignments of remove_last_attribute. */
    method UnlinkLastAttribute(ghost newTree: Tree<Str>, ghost newBelow: set<object>)
      requires AttributesLinked() && attributes != []
      modifies this`firstAttribute, this`lastAttribute, this`attributes, this`tree, this`below
      modifies attributes`parent, attributes`next
      ensures AttributesLinked() && attributes == old(attributes)[..|old(attributes)| - 1]
      ensures old(attributes)[|old(attributes)| - 1].parent == null
      ensures tree == newTree && below == newBelow
    {
      var attribute := lastAttribute;
      if attribute.prev != null {
        attribute.prev.next := null;
        lastAttribute := attribute.prev;
      } else {
        firstAttribute := null;
      }
      attribute.parent := null;
      attributes, tree, below := attributes[..|attributes| - 1], newTree, newBelow;
    }

    method RemoveLastAttribute()
      requires Valid() && attributes != []
      modifies this`firstAttribute, this`lastAttribute, this`attributes, this`tree, this`below
      modifies attributes`parent, attributes`next
      ensures Valid() && Listable(old(attributes)[|old(attributes)| - 1])
      ensures attributes == old(attributes)[..|old(attributes)| - 1]
      ensures below == old(below) - {old(attributes)[|old(attributes)| - 1]}
      ensures |old(tree.attributes)| == |old(attributes)|
      ensures tree == old(tree).(attributes := old(tree.attributes)[..|old(attributes)| - 1])
    {
      hide Owning, Linked, AttributesLinked, Trees, AbstractAttributes, RemoveAt;
      ghost var k := |attributes| - 1;
      OwningApart(children, attributes, below);
      AttributesDistinct();
      OwningLessAttribute(children, attributes, k, below);
      AbstractRemove(attributes, k);
      AbstractLength(attributes);
      RemoveAtEnd(attributes);
      RemoveAtEnd(AbstractAttributes(attributes));
      UnlinkLastAttribute(tree.(attributes := tree.attributes[..k]), below - {attributes[k]});
      OwningApart(children, attributes, below);
      assert Sound();
      forall c | c in children
        ensures c.Valid()
      {
        assert old(c.Valid());
      }
    }

    /** The pointer assignments of remove_attribute for one that is neither first nor last. */
    method UnlinkAttribute(where: XmlAttribute, ghost k: nat, ghost newTree: Tree<Str>, ghost newBelow: set<object>)
      requires AttributesLinked() && 0 < k < |attributes| - 1 && where == attributes[k]
      modifies this`attributes, this`tree, this`below, attributes`parent, attributes`prev, attributes`next
      ensures AttributesLinked() && attributes == RemoveAt(old(attributes), k) && where.parent == null
      ensures tree == newTree && below == newBelow
    {
      where.prev.next := where.next;
      where.next.prev := where.prev;
      where.parent := null;
      attributes, tree, below := RemoveAt(attributes, k), newTree, newBelow;
    }

    method RemoveInnerAttribute(where: XmlAttribute, ghost k: nat)
      requires Valid() && 0 < k < |attributes| - 1 && where == attributes[k]
      modifies this`firstAttribute, this`lastAttribute, this`attributes, this`tree, this`below
      modifies attributes`parent, attributes`prev, attributes`next
      ensures Valid() && Listable(where)
      ensures attributes == RemoveAt(old(attributes), k)
      ensures below == old(below) - {where}
      ensures k < |old(tree.attributes)| && tree == old(tree).(attributes := RemoveAt(old(tree.attributes), k))
    {
      hide Owning, Linked, AttributesLinked, Trees, AbstractAttributes, RemoveAt;
      OwningApart(children, attributes, below);
      AttributesDistinct();
      OwningLessAttribute(children, attributes, k, below);
      AbstractRemove(attributes, k);
      UnlinkAttribute(where, k, tree.(attributes := RemoveAt(tree.attributes, k)), below - {where});
      RemoveAtMembers(old(attributes), k);
      OwningApart(children, attributes, below);
      assert Sound();
      forall c | c in children
        ensures c.Valid()
      {
        assert old(c.Valid());
      }
    }

    /** Removes `where`, which is attribute number k; afterwards it can be listed again. */
    method RemoveAttribute(where: XmlAttribute, ghost k: nat)
      requires Valid() && k < |attributes| && where == attributes[k]
      modifies this`firstAttribute, this`lastAttribute, this`attributes, this`tree, this`below
      modifies attributes`parent, attributes`prev, attributes`next
      ensures Valid() && Listable(where)
      ensures attributes == RemoveAt(old(attributes), k)
      ensures below == old(below) - {where}
      ensures k < |old(tree.attributes)| && tree == old(tree).(attributes := RemoveAt(old(tree.attributes), k))
    {
      AttributeEnds(k);
      AbstractLength(attributes);
      hide *;
      RemoveAtEnd(attributes);
      RemoveAtEnd(AbstractAttributes(attributes));
      RemoveAtStart(attributes);
      RemoveAtStart(AbstractAttributes(attributes));
      if where == firstAttribute {
        RemoveFirstAttribute();
      } else if where == lastAttribute {
        RemoveLastAttribute();
      } else {
        RemoveInnerAttribute(where, k);
      }
    }

    method UnlinkAllAttributes(ghost newTree: Tree<Str>, ghost newBelow: set<object>)
      requires AttributesLinked()
      modifies this`firstAttribute, this`attributes, this`tree, this`below, attributes`parent
      ensures AttributesLinked() && attributes == [] && tree == newTree && below == newBelow
      ensures forall a <- old(attributes) :: a.parent == null
    {
      var attribute := firstAttribute;
      ghost var i := 0;
      while attribute != null
        invariant attributes == old(attributes) && 0 <= i <= |attributes|
        invariant attribute == if i < |attributes| then attributes[i] else null
        invariant forall j :: 0 <= j < i ==> attributes[j].parent == null
        decreases |attributes| - i
      {
        attribute.parent := null;
        attribute := attribute.next;
        i := i + 1;
      }
      firstAttribute := null;
      attributes, tree, below := [], newTree, newBelow;
    }

    method RemoveAllAttributes()
      requires Valid()
      modifies this`firstAttribute, this`attributes, this`tree, this`below, attributes`parent
      ensures Valid() && attributes == [] && tree == old(tree).(attributes := [])
      ensures below == old(below) - set a: object | a in old(attributes)
      ensures forall a <- old(attributes) :: Listable(a)
    {
      hide Owning, Linked, Trees, AbstractAttributes;
      OwningApart(children, attributes, below);
      OwningNoAttributes(children, attributes, below);
      UnlinkAllAttributes(tree.(attributes := []), below - set a: object | a in attributes);
      assert AbstractAttributes([]) == [] by { AbstractLength([]); }
      assert Sound();
      OwningApart(children, attributes, below);
      forall c | c in children
        ensures c.Valid()
      {
        assert old(c.Valid());
      }
    }
  }
}
