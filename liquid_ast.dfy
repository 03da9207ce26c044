/**
  The documentation nodes and the AST that holds them in source order.
  `LiquidNode` is the closed sum of node kinds, told apart by the `type`
  tag that serialisation writes.
*/
module Ast {
  import opened Wrappers
  import opened Positions
  import opened TextNodes

  datatype DescriptionNode = DescriptionNode(
    name: string,
    position: Position,
    source: string,
    content: TextNode,
    isImplicit: bool,
    isInline: bool)

  /** `paramName`, `paramType` and `paramDescription` are boxed text nodes. */
  datatype ParamNode = ParamNode(
    name: string,
    position: Position,
    source: string,
    paramName: LiquidNode,
    paramDescription: Option<LiquidNode>,
    paramType: Option<LiquidNode>,
    required: bool)

  /** `content` is a boxed text node. */
  datatype ExampleNode = ExampleNode(
    name: string,
    position: Position,
    source: string,
    content: LiquidNode,
    isInline: bool)

  /** A raw block; the builder never constructs one, it only carries it. */
  datatype RawTagNode = RawTagNode(
    name: string,
    body: string,
    children: seq<LiquidNode>,
    whitespaceStart: string,
    whitespaceEnd: string,
    delimiterWhitespaceStart: string,
    delimiterWhitespaceEnd: string,
    locStart: nat,
    locEnd: nat,
    position: Position,
    source: string,
    blockStartLocStart: nat,
    blockStartLocEnd: nat,
    blockEndLocStart: nat,
    blockEndLocEnd: nat)

  datatype LiquidNode =
    | Description(description: DescriptionNode)
    | Param(param: ParamNode)
    | Example(example: ExampleNode)
    | Text(text: TextNode)
    | RawTag(rawTag: RawTagNode)
  {
    /** The serialised `type` tag. */
    function TypeTag(): (r: string)
      ensures r == "LiquidDocDescriptionNode" <==> this.Description?
      ensures r == "LiquidDocParamNode" <==> this.Param?
      ensures r == "LiquidDocExampleNode" <==> this.Example?
      ensures r == "TextNode" <==> this.Text?
      ensures r == "LiquidRawTag" <==> this.RawTag?
    {
      match this
      case Description(_) => "LiquidDocDescriptionNode"
      case Param(_) => "LiquidDocParamNode"
      case Example(_) => "LiquidDocExampleNode"
      case Text(_) => "TextNode"
      case RawTag(_) => "LiquidRawTag"
    }

    /** The node's own position. */
    function Pos(): Position
    {
      match this
      case Description(d) => d.position
      case Param(p) => p.position
      case Example(e) => e.position
      case Text(t) => t.position
      case RawTag(r) => r.position
    }
  }

  /** The tag alone tells the variant: equal tags mean the same variant. */
  lemma TypeTagDiscriminates(a: LiquidNode, b: LiquidNode)
    ensures a.TypeTag() == b.TypeTag() <==>
      (a.Description? && b.Description?) || (a.Param? && b.Param?) || (a.Example? && b.Example?)
      || (a.Text? && b.Text?) || (a.RawTag? && b.RawTag?)
  {
  }

  /** The text node inside a `Text` variant; any other variant is a failure. */
  function AsTextNodeUnsafe(node: LiquidNode): (t: TextNode)
    requires node.Text?
    ensures Text(t) == node
  {
    node.text
  }

  /** Moves every position in a node, including nested ones, by `k` characters. */
  function ShiftNode(node: LiquidNode, k: nat): LiquidNode
    decreases node
  {
    match node
    case Description(d) =>
      Description(d.(position := Positions.Shift(d.position, k), content := TextNodes.ShiftText(d.content, k)))
    case Param(p) =>
      Param(p.(position := Positions.Shift(p.position, k),
               paramName := ShiftNode(p.paramName, k),
               paramDescription := if p.paramDescription.Some? then Some(ShiftNode(p.paramDescription.value, k)) else None,
               paramType := if p.paramType.Some? then Some(ShiftNode(p.paramType.value, k)) else None))
    case Example(e) =>
      Example(e.(position := Positions.Shift(e.position, k), content := ShiftNode(e.content, k)))
    case Text(t) =>
      Text(TextNodes.ShiftText(t, k))
    case RawTag(r) =>
      RawTag(r.(position := Positions.Shift(r.position, k), children := ShiftNodes(r.children, k)))
  }

  function ShiftNodes(nodes: seq<LiquidNode>, k: nat): (r: seq<LiquidNode>)
    decreases nodes
  {
    seq(|nodes|, i requires 0 <= i < |nodes| => ShiftNode(nodes[i], k))
  }

  lemma ShiftNodesEmpty(k: nat)
    ensures ShiftNodes([], k) == []
  {
  }

  lemma ShiftNodesShort(x: LiquidNode, k: nat)
    ensures ShiftNodes([x], k) == [ShiftNode(x, k)]
  {
  }

  lemma ShiftNodesAppend(a: seq<LiquidNode>, b: seq<LiquidNode>, k: nat)
    ensures ShiftNodes(a + b, k) == ShiftNodes(a, k) + ShiftNodes(b, k)
  {
    assert forall i :: 0 <= i < |a + b| ==> ShiftNodes(a + b, k)[i] == (ShiftNodes(a, k) + ShiftNodes(b, k))[i];
  }

  /** The AST under construction; the builder only ever appends to it. */
  class LiquidAst {
    var nodes: seq<LiquidNode>

    constructor ()
      ensures nodes == []
    {
      nodes := [];
    }

    method AddNode(node: LiquidNode)
      modifies this
      ensures nodes == old(nodes) + [node]
    {
      nodes := nodes + [node];
    }

    /** The first node; an empty AST has none. */
    function Head(): (r: LiquidNode)
      reads this
      requires |nodes| > 0
      ensures [r] + nodes[1..] == nodes
    {
      nodes[0]
    }
  }
}
