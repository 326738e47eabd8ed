/** The parser with default flags, as a function of an immutable text. Cursors are indices. */
module XmlParser {
  import opened XmlText
  import opened XmlTree

  /** First place where the pattern stands; an error at the terminator if there is none. */
  function Find(s: Text, i: nat, pattern: Text): (r: Parsed<nat>)
    requires pattern != []
    ensures r.Ok? ==> i <= r.value && LookingAt(s, r.value, pattern) && r.next == r.value + |pattern| <= |s|
    ensures r.Ok? ==> forall x :: i <= x < r.value ==> !LookingAt(s, x, pattern) && s[x] != '\0'
    decreases |s| - i
  {
    if LookingAt(s, i, pattern) then Ok(i, i + |pattern|)
    else if At(s, i) == '\0' then Err(UnexpectedEnd, i)
    else Find(s, i + 1, pattern)
  }

  predicate IsQuote(c: char) {
    c == '\'' || c == '"'
  }

  /** From the opening quote to behind the closing one. */
  function ParseQuoted(s: Text, open: nat): (r: Parsed<Text>)
    ensures r.Ok? ==> open < r.next <= |s|
  {
    if !IsQuote(At(s, open)) then Err(ExpectedQuote, open)
    else match Expand(s, At(s, open), open + 1, open + 1)
      case Err(what, at) => Err(what, at)
      case Ok(value, close) =>
        if At(s, close) != At(s, open) then Err(ExpectedQuote, close) else Ok(value, close + 1)
  }

  /** One attribute, from its name to behind its closing quote. */
  function ParseAttribute(s: Text, i: nat): (r: Parsed<Attribute<Text>>)
    requires Test(AttributeName, At(s, i))
    ensures r.Ok? ==> i < r.next <= |s|
  {
    var nameEnd := Skip(s, AttributeName, i + 1);
    var eq := Skip(s, Whitespace, nameEnd);
    if At(s, eq) != '=' then Err(ExpectedEquals, eq)
    else match ParseQuoted(s, Skip(s, Whitespace, eq + 1))
      case Err(what, at) => Err(what, at)
      case Ok(value, next) => Ok(Attribute(s[i..nameEnd], value), next)
  }

  function ParseAttributes(s: Text, i: nat): (r: Parsed<seq<Attribute<Text>>>)
    ensures r.Ok? && i <= |s| ==> i <= r.next <= |s|
    ensures r.Ok? ==> !Test(AttributeName, At(s, r.next))
    decreases |s| - i
  {
    if !Test(AttributeName, At(s, i)) then Ok([], i)
    else match ParseAttribute(s, i)
      case Err(what, at) => Err(what, at)
      case Ok(a, next) =>
        match ParseAttributes(s, Skip(s, Whitespace, next))
        case Err(what, at) => Err(what, at)
        case Ok(rest, end) => Ok([a] + rest, end)
  }

  predicate IsXmlDeclaration(s: Text, i: nat) {
    && (At(s, i) == 'x' || At(s, i) == 'X')
    && (At(s, i + 1) == 'm' || At(s, i + 1) == 'M')
    && (At(s, i + 2) == 'l' || At(s, i + 2) == 'L')
    && Test(Whitespace, At(s, i + 3))
  }

  /** Behind the '>' of a document type declaration; brackets outside brackets do not count it. */
  function SkipDoctype(s: Text, i: nat, depth: nat): (r: Parsed<()>)
    ensures r.Ok? ==> i < r.next <= |s| && s[r.next - 1] == '>'
    decreases |s| - i
  {
    var c := At(s, i);
    if depth == 0 && c == '>' then Ok((), i + 1)
    else if c == '\0' then Err(UnexpectedEnd, i)
    else SkipDoctype(s, i + 1, Nested(depth, c))
  }

  function Nested(depth: nat, c: char): nat {
    if c == '[' then depth + 1 else if c == ']' && depth > 0 then depth - 1 else depth
  }

  /** How many brackets are open at j, of those that have been opened from i on. */
  function Depth(s: Text, i: nat, j: nat): nat
    requires i <= j <= |s|
    decreases j
  {
    if j == i then 0 else Nested(Depth(s, i, j - 1), s[j - 1])
  }

  /** The declaration ends behind the first '>' outside all brackets, if no terminator comes before
      it; the error is at the terminator. */
  lemma {:induction false} DoctypeEnds(s: Text, i: nat, j: nat)
    requires i <= j <= |s|
    ensures match SkipDoctype(s, j, Depth(s, i, j))
            case Ok(_, next) =>
              && j < next <= |s| && s[next - 1] == '>' && Depth(s, i, next - 1) == 0
              && forall x :: j <= x < next - 1 ==> s[x] != '\0' && !(s[x] == '>' && Depth(s, i, x) == 0)
            case Err(what, at) =>
              && what == UnexpectedEnd && j <= at <= |s| && At(s, at) == '\0'
              && forall x :: j <= x < at ==> s[x] != '\0' && !(s[x] == '>' && Depth(s, i, x) == 0)
    decreases |s| - j
  {
    if j < |s| && s[j] != '\0' && !(s[j] == '>' && Depth(s, i, j) == 0) {
      DoctypeEnds(s, i, j + 1);
    }
  }

  function NoNode<T>(r: Parsed<T>): Parsed<seq<Xml>> {
    match r
    case Ok(_, next) => Ok([], next)
    case Err(what, at) => Err(what, at)
  }

  function ParseCData(s: Text, i: nat): (r: Parsed<seq<Xml>>)
    ensures r.Ok? ==> i < r.next <= |s|
  {
    match Find(s, i, "]]>")
    case Err(what, at) => Err(what, at)
    case Ok(end, next) => Ok([CDataNode(s[i..end])], next)
  }

  /** From behind a '<': at most one node. */
  function ParseNode(s: Text, i: nat): (r: Parsed<seq<Xml>>)
    requires i <= |s|
    ensures r.Ok? ==> i < r.next <= |s|
    decreases |s| - i, 2
  {
    if At(s, i) == '?' then
      NoNode(Find(s, if IsXmlDeclaration(s, i + 1) then i + 5 else i + 1, "?>"))
    else if At(s, i) == '!' then
      if LookingAt(s, i, "!--") then NoNode(Find(s, i + 3, "-->"))
      else if LookingAt(s, i, "![CDATA[") then ParseCData(s, i + 8)
      else if LookingAt(s, i, "!DOCTYPE") && Test(Whitespace, At(s, i + 8)) then NoNode(SkipDoctype(s, i + 9, 0))
      else NoNode(Find(s, i + 1, ">"))
    else match ParseElement(s, i)
      case Err(what, at) => Err(what, at)
      case Ok(element, next) => Ok([element], next)
  }

  function ParseElement(s: Text, i: nat): (r: Parsed<Xml>)
    requires i <= |s|
    ensures r.Ok? ==> i < r.next <= |s|
    decreases |s| - i, 1
  {
    var nameEnd := Skip(s, NodeName, i);
    if nameEnd == i then Err(ExpectedElementName, i)
    else match ParseAttributes(s, Skip(s, Whitespace, nameEnd))
      case Err(what, at) => Err(what, at)
      case Ok(attributes, end) =>
        if At(s, end) == '>' then
          match ParseContents(s, end + 1)
          case Err(what, at) => Err(what, at)
          case Ok(children, next) => Ok(ElementNode(s[i..nameEnd], attributes, children), next)
        else if At(s, end) != '/' then Err(ExpectedGt, end)
        else if At(s, end + 1) != '>' then Err(ExpectedGt, end + 1)
        else Ok(ElementNode(s[i..nameEnd], attributes, []), end + 2)
  }

  /** Children and text up to and including the closing tag. */
  function ParseContents(s: Text, i: nat): (r: Parsed<seq<Xml>>)
    requires i <= |s|
    ensures r.Ok? ==> i < r.next <= |s|
    decreases |s| - i, 1
  {
    var j := Skip(s, Whitespace, i);
    if At(s, j) == '<' then ParseTag(s, j)
    else if At(s, j) == '\0' then Err(UnexpectedEnd, j)
    else match Expand(s, '<', i, i)
      case Err(what, at) => Err(what, at)
      case Ok(value, end) =>
        if At(s, end) != '<' then Err(UnexpectedEnd, end)
        else match ParseTag(s, end)
          case Err(what, at) => Err(what, at)
          case Ok(rest, next) => Ok([DataNode(value)] + rest, next)
  }

  /** At a '<' inside an element: its closing tag, or a child and what follows it. */
  function ParseTag(s: Text, i: nat): (r: Parsed<seq<Xml>>)
    requires At(s, i) == '<'
    ensures r.Ok? ==> i < r.next <= |s|
    decreases |s| - i, 0
  {
    if At(s, i + 1) == '/' then
      var end := Skip(s, Whitespace, Skip(s, NodeName, i + 2));
      if At(s, end) != '>' then Err(ExpectedGt, end) else Ok([], end + 1)
    else match ParseNode(s, i + 1)
      case Err(what, at) => Err(what, at)
      case Ok(node, next) =>
        match ParseContents(s, next)
        case Err(what, at) => Err(what, at)
        case Ok(rest, end) => Ok(node + rest, end)
  }

  /** The nodes of the document from i on. */
  function ParseNodes(s: Text, i: nat): (r: Parsed<seq<Xml>>)
    requires i <= |s|
    decreases |s| - i
  {
    var j := Skip(s, Whitespace, i);
    if At(s, j) == '\0' then Ok([], j)
    else if At(s, j) != '<' then Err(ExpectedLt, j)
    else match ParseNode(s, j + 1)
      case Err(what, at) => Err(what, at)
      case Ok(node, next) =>
        match ParseNodes(s, next)
        case Err(what, at) => Err(what, at)
        case Ok(rest, end) => Ok(node + rest, end)
  }

  /** Behind the UTF-8 byte order mark, if there is one. */
  function SkipByteOrderMark(s: Text): (i: nat)
    ensures i <= |s|
  {
    if At(s, 0) as int == 0xEF && At(s, 1) as int == 0xBB && At(s, 2) as int == 0xBF then 3 else 0
  }

  function DocumentNode(children: seq<Xml>): Xml {
    Tree(Document, [], [], [], children)
  }

  function Parse(s: Text): Parsed<Xml> {
    match ParseNodes(s, SkipByteOrderMark(s))
    case Err(what, at) => Err(what, at)
    case Ok(children, next) => Ok(DocumentNode(children), next)
  }
}
