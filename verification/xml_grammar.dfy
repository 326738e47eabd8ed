/** What texts the parser is to accept, and what they mean: a grammar, with every choice a writer has
    as a part of the spelling. Nothing here speaks of the parser. */
module XmlGrammar {
  import opened XmlText
  import opened XmlTree
  import opened XmlReferences

  // ---------------------------------------------------------------- characters

  predicate White(c: char) {
    c == ' ' || c == '\n' || c == '\r' || c == '\t'
  }

  predicate NameChar(c: char) {
    !White(c) && c != '/' && c != '>' && c != '?' && c != '\0'
  }

  predicate AttributeChar(c: char) {
    NameChar(c) && c != '<' && c != '=' && c != '!'
  }

  predicate Blank(v: Text) {
    forall x :: 0 <= x < |v| ==> White(v[x])
  }

  predicate NameText(v: Text) {
    forall x :: 0 <= x < |v| ==> NameChar(v[x])
  }

  predicate AttributeText(v: Text) {
    forall x :: 0 <= x < |v| ==> AttributeChar(v[x])
  }

  // ---------------------------------------------------------------- text with references

  /** A character as it is, one of the five named references, or a numeric reference. */
  datatype Piece = Plain(c: char) | Named(c: char) | Numbered(hex: bool, digits: Text)

  predicate HasName(c: char) {
    c == '&' || c == '\'' || c == '"' || c == '>' || c == '<'
  }

  function NamedText(c: char): Text {
    if c == '&' then "&amp;" else if c == '\'' then "&apos;" else if c == '"' then "&quot;"
    else if c == '>' then "&gt;" else "&lt;"
  }

  function NumberedText(hex: bool, digits: Text): Text {
    (if hex then "&#x" else "&#") + digits + ";"
  }

  function PieceText(p: Piece): Text {
    match p
    case Plain(c) => [c]
    case Named(c) => NamedText(c)
    case Numbered(hex, digits) => NumberedText(hex, digits)
  }

  /** Digits may be hexadecimal, and even missing, in either base; their number counts modulo 2^64. */
  predicate LegalDigits(digits: Text) {
    forall x :: 0 <= x < |digits| ==>
      '0' <= digits[x] <= '9' || 'A' <= digits[x] <= 'F' || 'a' <= digits[x] <= 'f'
  }

  function Code(hex: bool, digits: Text): nat
    requires LegalDigits(digits)
  {
    Number(digits, if hex then 16 else 10) % 0x1_0000_0000_0000_0000
  }

  predicate LegalPiece(p: Piece) {
    match p
    case Plain(_) => true
    case Named(c) => HasName(c)
    case Numbered(hex, digits) => LegalDigits(digits) && Code(hex, digits) < 0x11_0000
  }

  function PieceMeaning(p: Piece): Text
    requires LegalPiece(p)
  {
    match p
    case Plain(c) => [c]
    case Named(c) => [c]
    case Numbered(hex, digits) => Utf8(Code(hex, digits))
  }

  /** An ampersand stands for itself only where none of these begins. */
  predicate ReferenceBegins(s: Text, i: nat) {
    || LookingAt(s, i, "&amp;") || LookingAt(s, i, "&apos;") || LookingAt(s, i, "&quot;")
    || LookingAt(s, i, "&gt;") || LookingAt(s, i, "&lt;") || LookingAt(s, i, "&#")
  }

  predicate PieceAt(s: Text, i: nat, p: Piece, delimiter: char) {
    && LegalPiece(p) && LookingAt(s, i, PieceText(p))
    && (p.Plain? ==> p.c != delimiter && p.c != '\0' && (p.c == '&' ==> !ReferenceBegins(s, i)))
  }

  function RunSize(run: seq<Piece>): nat {
    if run == [] then 0 else |PieceText(run[0])| + RunSize(run[1..])
  }

  /** These pieces stand in a row from i on. */
  predicate RunAt(s: Text, i: nat, run: seq<Piece>, delimiter: char)
    decreases |run|
  {
    run != [] ==> PieceAt(s, i, run[0], delimiter) && RunAt(s, i + |PieceText(run[0])|, run[1..], delimiter)
  }

  predicate LegalRun(run: seq<Piece>) {
    forall p <- run :: LegalPiece(p)
  }

  function RunMeaning(run: seq<Piece>): Text
    requires LegalRun(run)
  {
    if run == [] then [] else PieceMeaning(run[0]) + RunMeaning(run[1..])
  }

  // ---------------------------------------------------------------- attributes

  /** name = "value", with white space before and behind the sign and behind the value. */
  datatype AttributeSpelling = AttributeSpelling(
    name: Text, before: Text, behind: Text, quote: char, value: seq<Piece>, gap: Text)
  {
    function EqualsAt(i: nat): nat {
      i + |name| + |before|
    }

    function OpenAt(i: nat): nat {
      EqualsAt(i) + 1 + |behind|
    }

    function CloseAt(i: nat): nat {
      OpenAt(i) + 1 + RunSize(value)
    }

    function EndAt(i: nat): nat {
      CloseAt(i) + 1 + |gap|
    }

    predicate StandsAt(s: Text, i: nat) {
      && name != [] && AttributeText(name) && LookingAt(s, i, name)
      && Blank(before) && LookingAt(s, i + |name|, before) && At(s, EqualsAt(i)) == '='
      && Blank(behind) && LookingAt(s, EqualsAt(i) + 1, behind)
      && (quote == '\'' || quote == '"') && At(s, OpenAt(i)) == quote
      && RunAt(s, OpenAt(i) + 1, value, quote) && At(s, CloseAt(i)) == quote
      && Blank(gap) && LookingAt(s, CloseAt(i) + 1, gap)
    }
  }

  predicate LegalAttributes(attributes: seq<AttributeSpelling>) {
    forall a <- attributes :: LegalRun(a.value)
  }

  function EndOfAttributes(i: nat, attributes: seq<AttributeSpelling>): nat
    decreases |attributes|
  {
    if attributes == [] then i else EndOfAttributes(attributes[0].EndAt(i), attributes[1..])
  }

  predicate AttributesAt(s: Text, i: nat, attributes: seq<AttributeSpelling>)
    decreases |attributes|
  {
    attributes != [] ==> attributes[0].StandsAt(s, i) && AttributesAt(s, attributes[0].EndAt(i), attributes[1..])
  }

  function AttributesMeaning(attributes: seq<AttributeSpelling>): seq<Attribute<Text>>
    requires LegalAttributes(attributes)
  {
    if attributes == [] then []
    else
      [Attribute(attributes[0].name, RunMeaning(attributes[0].value))] + AttributesMeaning(attributes[1..])
  }

  // ---------------------------------------------------------------- markup that leaves no node

  /** Processing instructions and declarations; comments; document types; any other markup. */
  datatype Dropped =
    | Instruction(body: Text)
    | Remark(body: Text)
    | DocumentType(blank: char, body: Text)
    | Other(body: Text)

  function DroppedText(d: Dropped): Text {
    match d
    case Instruction(body) => "?" + body + "?>"
    case Remark(body) => "!--" + body + "-->"
    case DocumentType(blank, body) => "!DOCTYPE" + [blank] + body + ">"
    case Other(body) => "!" + body + ">"
  }

  /** The end mark is the first one. */
  predicate EndsFirst(body: Text, mark: Text) {
    forall x :: 0 <= x < |body| ==> body[x] != '\0' && !LookingAt(body + mark, x, mark)
  }

  /** How many brackets are open in front of place x. */
  function OpenBrackets(body: Text, x: nat): nat
    requires x <= |body|
  {
    if x == 0 then 0
    else
      var open := OpenBrackets(body, x - 1);
      if body[x - 1] == '[' then open + 1 else if body[x - 1] == ']' && open > 0 then open - 1 else open
  }

  predicate LegalDropped(d: Dropped) {
    match d
    case Instruction(body) => EndsFirst(body, "?>")
    case Remark(body) => EndsFirst(body, "-->")
    case DocumentType(blank, body) =>
      && White(blank) && OpenBrackets(body, |body|) == 0
      && forall x :: 0 <= x < |body| ==> body[x] != '\0' && !(body[x] == '>' && OpenBrackets(body, x) == 0)
    case Other(body) =>
      && EndsFirst(body, ">") && !("--" <= body) && !("[CDATA[" <= body)
      && !("DOCTYPE" <= body && |body| > 7 && White(body[7]))
  }

  // ---------------------------------------------------------------- nodes

  datatype Item =
    | ElementItem(name: Text, gap: Text, attributes: seq<AttributeSpelling>, body: Body)
    | CDataItem(value: Text)
    | DroppedItem(dropped: Dropped)

  datatype Body = Empty | Full(contents: Contents)

  /** Text and items in turn, up to the closing tag, which may bear any name or none. */
  datatype Contents =
    | Closing(run: seq<Piece>, name: Text, gap: Text)
    | Then(run: seq<Piece>, item: Item, rest: Contents)

  function EndOfItem(i: nat, x: Item): nat
    decreases x, 0
  {
    match x
    case ElementItem(name, gap, attributes, body) =>
      EndOfBody(EndOfAttributes(i + 1 + |name| + |gap|, attributes), body)
    case CDataItem(value) => i + 1 + 8 + |value| + 3
    case DroppedItem(dropped) => i + 1 + |DroppedText(dropped)|
  }

  function EndOfBody(i: nat, b: Body): nat
    decreases b, 0
  {
    match b
    case Empty => i + 2
    case Full(contents) => EndOfContents(i + 1, contents)
  }

  function EndOfContents(i: nat, c: Contents): nat
    decreases c, 0
  {
    match c
    case Closing(run, name, gap) => i + RunSize(run) + 2 + |name| + |gap| + 1
    case Then(run, item, rest) => EndOfContents(EndOfItem(i + RunSize(run), item), rest)
  }

  predicate ItemAt(s: Text, i: nat, x: Item)
    decreases x, 0
  {
    && At(s, i) == '<'
    && match x
       case ElementItem(name, gap, attributes, body) =>
         && name != [] && name[0] != '!' && NameText(name) && LookingAt(s, i + 1, name)
         && Blank(gap) && LookingAt(s, i + 1 + |name|, gap) && (attributes != [] ==> gap != [])
         && AttributesAt(s, i + 1 + |name| + |gap|, attributes) && LegalAttributes(attributes)
         && BodyAt(s, EndOfAttributes(i + 1 + |name| + |gap|, attributes), body)
       case CDataItem(value) => EndsFirst(value, "]]>") && LookingAt(s, i + 1, "![CDATA[" + value + "]]>")
       case DroppedItem(dropped) => LegalDropped(dropped) && LookingAt(s, i + 1, DroppedText(dropped))
  }

  predicate BodyAt(s: Text, i: nat, b: Body)
    decreases b, 0
  {
    match b
    case Empty => At(s, i) == '/' && At(s, i + 1) == '>'
    case Full(contents) => At(s, i) == '>' && ContentsAt(s, i + 1, contents)
  }

  predicate ContentsAt(s: Text, i: nat, c: Contents)
    decreases c, 0
  {
    && LegalRun(c.run) && RunAt(s, i, c.run, '<')
    && match c
       case Closing(run, name, gap) => ClosingAt(s, i + RunSize(run), name, gap)
       case Then(run, item, rest) =>
         ItemAt(s, i + RunSize(run), item) && ContentsAt(s, EndOfItem(i + RunSize(run), item), rest)
  }

  predicate ClosingAt(s: Text, i: nat, name: Text, gap: Text) {
    && At(s, i) == '<' && At(s, i + 1) == '/' && NameText(name) && LookingAt(s, i + 2, name)
    && Blank(gap) && LookingAt(s, i + 2 + |name|, gap) && At(s, i + 2 + |name| + |gap|) == '>'
  }

  /** White space alone, written as it is, is no text. */
  predicate IsBlankRun(run: seq<Piece>) {
    forall p <- run :: p.Plain? && White(p.c)
  }

  function RunNodes(run: seq<Piece>): seq<Xml>
    requires LegalRun(run)
  {
    if IsBlankRun(run) then [] else [DataNode(RunMeaning(run))]
  }

  predicate LegalItem(x: Item)
    decreases x, 0
  {
    x.ElementItem? ==> LegalAttributes(x.attributes) && (x.body.Full? ==> LegalContents(x.body.contents))
  }

  predicate LegalContents(c: Contents)
    decreases c, 0
  {
    LegalRun(c.run) && (c.Then? ==> LegalItem(c.item) && LegalContents(c.rest))
  }

  function ItemNodes(x: Item): seq<Xml>
    requires LegalItem(x)
    decreases x, 0
  {
    match x
    case ElementItem(name, gap, attributes, body) =>
      [ElementNode(name, AttributesMeaning(attributes), if body.Full? then ContentsNodes(body.contents) else [])]
    case CDataItem(value) => [CDataNode(value)]
    case DroppedItem(_) => []
  }

  function ContentsNodes(c: Contents): seq<Xml>
    requires LegalContents(c)
    decreases c, 0
  {
    match c
    case Closing(run, _, _) => RunNodes(run)
    case Then(run, item, rest) => RunNodes(run) + (ItemNodes(item) + ContentsNodes(rest))
  }

  // ---------------------------------------------------------------- documents

  /** Items with white space around them, up to the terminator. */
  datatype Nodes = End(blank: Text) | Next(blank: Text, item: Item, rest: Nodes)

  function EndOfNodes(i: nat, n: Nodes): nat
    decreases n
  {
    match n
    case End(blank) => i + |blank|
    case Next(blank, item, rest) => EndOfNodes(EndOfItem(i + |blank|, item), rest)
  }

  predicate NodesAt(s: Text, i: nat, n: Nodes)
    decreases n
  {
    && Blank(n.blank) && LookingAt(s, i, n.blank)
    && match n
       case End(blank) => At(s, i + |blank|) == '\0'
       case Next(blank, item, rest) =>
         ItemAt(s, i + |blank|, item) && NodesAt(s, EndOfItem(i + |blank|, item), rest)
  }

  predicate LegalNodes(n: Nodes) {
    n.Next? ==> LegalItem(n.item) && LegalNodes(n.rest)
  }

  function NodesMeaning(n: Nodes): seq<Xml>
    requires LegalNodes(n)
  {
    if n.Next? then ItemNodes(n.item) + NodesMeaning(n.rest) else []
  }

  /** Behind the bytes 0xEF 0xBB 0xBF, if the text begins with them. */
  function Start(s: Text): nat {
    if |s| >= 3 && s[0] as int == 0xEF && s[1] as int == 0xBB && s[2] as int == 0xBF then 3 else 0
  }

  /** The text, up to its end or a terminator in it, spells this document. */
  predicate Spells(s: Text, n: Nodes, d: Xml, end: nat) {
    NodesAt(s, Start(s), n) && LegalNodes(n) && d == Tree(Document, [], [], [], NodesMeaning(n))
    && end == EndOfNodes(Start(s), n)
  }
}
