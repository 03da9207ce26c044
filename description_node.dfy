/** Description nodes: explicit (`@description ...`) and implicit (leading free text). */
module DescriptionNodes {
  import opened Wrappers
  import opened SyntaxTree
  import opened Positions
  import opened TextNodes
  import opened Ast

  const NodeName := "description"
  const Marker := "@description "

  /** Assembles a description node; its name is always "description". */
  function New(content: TextNode, isImplicit: bool, isInline: bool, position: Position, source: string): DescriptionNode
  {
    DescriptionNode.DescriptionNode(NodeName, position, source, content, isImplicit, isInline)
  }

  /** What `explicit` builds from a pair: the whole pair's text without the marker. */
  function ExplicitFrom(pair: Pair, offset: Option<nat>): (r: Result<DescriptionNode, BuildError>)
    ensures r.Err? <==> pair.rule != Rule.DescriptionNode
    ensures r.Err? ==> r.error == UnexpectedRule(Rule.DescriptionNode, pair.rule)
    ensures r.Ok? ==> && r.value.name == "description" && !r.value.isImplicit && r.value.isInline
                      && r.value.position == Positions.FromPair(pair, offset) && r.value.source == pair.text
    ensures r.Ok? && Marker <= pair.text ==>
      && Marker + r.value.content.value == pair.text
      && r.value.content.position.start == pair.start + Offset(offset) + |Marker|
    ensures r.Ok? && !(Marker <= pair.text) ==> r.value.content.value == pair.text
    ensures r.Ok? ==> r.value.content.position.end == pair.end + Offset(offset)
  {
    if pair.rule != Rule.DescriptionNode then
      Err(UnexpectedRule(Rule.DescriptionNode, pair.rule))
    else
      var content := TrimContentStart(TextNodes.FromPair(pair, offset), Marker);
      Ok(New(content, false, true, Positions.FromPair(pair, offset), pair.text))
  }

  /** `explicit`: builds the content, then trims the marker off it in place. */
  method Explicit(pair: Pair, offset: Option<nat>) returns (r: Result<DescriptionNode, BuildError>)
    ensures r == ExplicitFrom(pair, offset)
  {
    if pair.rule != Rule.DescriptionNode {
      return Err(UnexpectedRule(Rule.DescriptionNode, pair.rule));
    }
    var content := TextNodes.FromPair(pair, offset);
    content := TrimContentStart(content, Marker);
    r := Ok(New(content, false, true, Positions.FromPair(pair, offset), pair.text));
  }

  /** `implicit`: the content is the first inner pair, untrimmed. */
  function Implicit(pair: Pair, offset: Option<nat>): (r: Result<DescriptionNode, BuildError>)
    ensures r.Err? <==> pair.rule != Rule.ImplicitDescription || |pair.inner| == 0
    ensures pair.rule != Rule.ImplicitDescription ==> r == Err(UnexpectedRule(Rule.ImplicitDescription, pair.rule))
    ensures r.Ok? ==> && r.value.name == "description" && r.value.isImplicit && r.value.isInline
                      && r.value.position == Positions.FromPair(pair, offset) && r.value.source == pair.text
                      && r.value.content.value == pair.inner[0].text
                      && r.value.content.position == Positions.FromPair(pair.inner[0], offset)
  {
    if pair.rule != Rule.ImplicitDescription then
      Err(UnexpectedRule(Rule.ImplicitDescription, pair.rule))
    else if |pair.inner| == 0 then
      Err(MissingInner(Rule.ImplicitDescription))
    else
      var content := TextNodes.FromPair(pair.inner[0], offset);
      Ok(New(content, true, true, Positions.FromPair(pair, offset), pair.text))
  }

  /** Offset law for explicit descriptions. */
  lemma ExplicitOffsetLaw(pair: Pair, k: nat)
    ensures ExplicitFrom(pair, Some(k)).Err? <==> ExplicitFrom(pair, None).Err?
    ensures ExplicitFrom(pair, None).Ok? ==>
      Description(ExplicitFrom(pair, Some(k)).value) == ShiftNode(Description(ExplicitFrom(pair, None).value), k)
  {
    TrimContentStartCommutesWithShift(TextNodes.FromPair(pair, None), Marker, k);
  }

  /** Offset law for implicit descriptions. */
  lemma ImplicitOffsetLaw(pair: Pair, k: nat)
    ensures Implicit(pair, Some(k)).Err? <==> Implicit(pair, None).Err?
    ensures Implicit(pair, None).Err? ==> Implicit(pair, Some(k)).error == Implicit(pair, None).error
    ensures Implicit(pair, None).Ok? ==>
      Description(Implicit(pair, Some(k)).value) == ShiftNode(Description(Implicit(pair, None).value), k)
  {
  }
}
