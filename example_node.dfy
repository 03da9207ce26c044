/** Example nodes (`@example ...`). */
module ExampleNodes {
  import opened Wrappers
  import opened SyntaxTree
  import opened Positions
  import opened TextNodes
  import opened Ast

  const NodeName := "example"
  const Marker := "@example "

  /** Assembles an example node; the content is boxed as a `Text` node. */
  function New(content: TextNode, isInline: bool, position: Position, source: string): ExampleNode
  {
    ExampleNode.ExampleNode(NodeName, position, source, Text(content), isInline)
  }

  /** What `from_pair` builds: the whole pair's text without the marker, with
      position and source taken from the untrimmed pair. */
  function ExampleFrom(pair: Pair, offset: Option<nat>): (r: Result<ExampleNode, BuildError>)
    ensures r.Err? <==> pair.rule != Rule.ExampleNode
    ensures r.Err? ==> r.error == UnexpectedRule(Rule.ExampleNode, pair.rule)
    ensures r.Ok? ==> && r.value.name == "example" && r.value.isInline && r.value.content.Text?
                      && r.value.position == Positions.FromPair(pair, offset) && r.value.source == pair.text
    ensures r.Ok? && Marker <= pair.text ==>
      && Marker + r.value.content.text.value == pair.text
      && r.value.content.text.position.start == pair.start + Offset(offset) + |Marker|
    ensures r.Ok? && !(Marker <= pair.text) ==> r.value.content.text.value == pair.text
    ensures r.Ok? ==> r.value.content.text.position.end == pair.end + Offset(offset)
                      && r.value.content.text.source == pair.text
  {
    if pair.rule != Rule.ExampleNode then
      Err(UnexpectedRule(Rule.ExampleNode, pair.rule))
    else
      var content := TrimContentStart(TextNodes.FromPair(pair, offset), Marker);
      Ok(New(content, true, Positions.FromPair(pair, offset), pair.text))
  }

  /** `from_pair`: builds the content, then trims the marker off it in place. */
  method FromPair(pair: Pair, offset: Option<nat>) returns (r: Result<ExampleNode, BuildError>)
    ensures r == ExampleFrom(pair, offset)
  {
    if pair.rule != Rule.ExampleNode {
      return Err(UnexpectedRule(Rule.ExampleNode, pair.rule));
    }
    var content := TextNodes.FromPair(pair, offset);
    content := TrimContentStart(content, Marker);
    var position := Positions.FromPair(pair, offset);
    var source := pair.text;
    r := Ok(New(content, true, position, source));
  }

  /** Offset law: an example built with offset `k` is the offset-free one with
      every position moved by `k`. */
  lemma OffsetLaw(pair: Pair, k: nat)
    ensures ExampleFrom(pair, Some(k)).Err? <==> ExampleFrom(pair, None).Err?
    ensures ExampleFrom(pair, None).Ok? ==>
      Example(ExampleFrom(pair, Some(k)).value) == ShiftNode(Example(ExampleFrom(pair, None).value), k)
  {
    var content := TrimContentStart(TextNodes.FromPair(pair, None), Marker);
    TrimContentStartCommutesWithShift(TextNodes.FromPair(pair, None), Marker, k);
    assert ShiftNode(Text(content), k) == Text(ShiftText(content, k));
  }
}
