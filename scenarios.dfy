/**
  Concrete documents, as trees the grammar hands to the builder, and what
  the builder makes of them.
*/
module Scenarios {
  import opened Wrappers
  import opened SyntaxTree
  import opened Positions
  import opened TextNodes
  import opened Ast
  import opened Parser
  import WalkProperties

  /** The pair for rule `rule` that matched `input[s..e]`. */
  function Span(rule: Rule, input: string, s: nat, e: nat, inner: seq<Pair>): (p: Pair)
    requires s <= e <= |input|
    ensures Matches(input, p)
  {
    Pair(rule, s, e, input[s..e], inner)
  }

  /** The middle piece of a three-piece text sits right after the first piece. */
  lemma Piece(front: string, middle: string, back: string)
    ensures (front + middle + back)[|front|..|front| + |middle|] == middle
  {
    assert forall j :: 0 <= j < |middle| ==> (front + middle + back)[|front| + j] == middle[j];
  }

  // ----- A typed, required param with no description -----

  /** `@param {ty} name` */
  function TypedParamInput(ty: string, name: string): string
  {
    "@param {" + ty + "} " + name
  }

  function TypedParamPair(ty: string, name: string): Pair
  {
    var i := TypedParamInput(ty, name);
    Span(Rule.ParamNode, i, 0, |i|, [Span(ParamType, i, 7, 9 + |ty|, []), Span(ParamName, i, 10 + |ty|, |i|, [])])
  }

  function TypedParamTree(ty: string, name: string): Pair
  {
    var i := TypedParamInput(ty, name);
    Span(Document, i, 0, |i|, [Span(LiquidDocNode, i, 0, |i|, [TypedParamPair(ty, name)])])
  }

  lemma TypedParamWellFormed(ty: string, name: string)
    ensures WellFormed(TypedParamPair(ty, name)) && WellFormed(TypedParamTree(ty, name))
    ensures TypedParamPair(ty, name).inner[0].text == "{" + ty + "}"
    ensures TypedParamPair(ty, name).inner[1].text == name
  {
    var i := TypedParamInput(ty, name);
    assert forall j :: 0 <= j < 2 + |ty| ==> i[7 + j] == ("{" + ty + "}")[j];
    assert i[7..9 + |ty|] == "{" + ty + "}";
    assert forall j :: 0 <= j < |name| ==> i[10 + |ty| + j] == name[j];
    assert i[10 + |ty|..|i|] == name;
    assert i[0..|i|] == i;
    var param := TypedParamPair(ty, name);
    assert WellFormed(param.inner[0]) && WellFormed(param.inner[1]);
    assert WellFormed(param);
    assert WellFormed(TypedParamTree(ty, name).inner[0]);
  }

  /** The node `@param {ty} name` builds with offset `k`: the type without its
      braces, the bare name as written and required, no description. */
  function TypedParamNode(ty: string, name: string, k: nat): ParamNode
  {
    var i := TypedParamInput(ty, name);
    ParamNode.ParamNode(
      "param", Position(k, |i| + k), i,
      Text(TextNode.TextNode(name, Position(10 + |ty| + k, |i| + k), name)),
      None,
      Some(Text(TextNode.TextNode(ty, Position(8 + k, 8 + |ty| + k), "{" + ty + "}"))),
      true)
  }

  lemma TypedParamBuilt(ty: string, name: string, k: nat)
    requires |name| > 0 && !IsOpeningBracket(name[0]) && !IsClosingBracket(name[|name| - 1])
    ensures WellFormed(TypedParamPair(ty, name))
    ensures ParamNodes.ParamFrom(TypedParamPair(ty, name), Some(k)) == Ok(TypedParamNode(ty, name, k))
  {
    TypedParamWellFormed(ty, name);
    var param := TypedParamPair(ty, name);
    ParamNodes.ParamFromFields(param, Some(k));
    WithoutBracketsStripsEnclosing(param.inner[0], Some(k), ty);
    WithoutBracketsKeepsBareText(param.inner[1], Some(k));
    var i := TypedParamInput(ty, name);
    assert i[0..|i|] == i;
  }

  /** A document holding only `@param {ty} name` is that one param node. */
  lemma TypedParamDocument(ty: string, name: string, k: nat)
    requires |name| > 0 && !IsOpeningBracket(name[0]) && !IsClosingBracket(name[|name| - 1])
    ensures WellFormed(TypedParamTree(ty, name))
    ensures VisitSpec(TypedParamTree(ty, name), Some(k)) == Ok([Param(TypedParamNode(ty, name, k))])
  {
    TypedParamWellFormed(ty, name);
    TypedParamBuilt(ty, name, k);
    var doc := TypedParamTree(ty, name);
    var node := doc.inner[0];
    assert node.inner[0] == TypedParamPair(ty, name);
    assert VisitSpec(node, Some(k)) == Ok([Param(TypedParamNode(ty, name, k))]);
    WalkProperties.VisitAllSingle(node, Some(k));
  }

  /** `@param {sometype} requiredParamWithNoType` with offset 10 is one param node ... */
  lemma TypedParamScenario()
    ensures var doc := TypedParamTree("sometype", "requiredParamWithNoType");
      WellFormed(doc) && VisitSpec(doc, Some(10)) == Ok([Param(TypedParamNode("sometype", "requiredParamWithNoType", 10))])
  {
    TypedParamDocument("sometype", "requiredParamWithNoType", 10);
  }

  /** ... which is required, typed `sometype`, named `requiredParamWithNoType`
      at characters 28 to 51, and has no description. */
  lemma TypedParamScenarioFields()
    ensures var p := TypedParamNode("sometype", "requiredParamWithNoType", 10);
      && p.name == "param" && p.required && p.position == Position(10, 51)
      && AsStr(AsTextNodeUnsafe(p.paramName)) == "requiredParamWithNoType"
      && AsTextNodeUnsafe(p.paramName).position == Position(28, 51)
      && p.paramType.Some? && AsStr(AsTextNodeUnsafe(p.paramType.value)) == "sometype"
      && p.paramDescription == None
  {
    assert |TypedParamInput("sometype", "requiredParamWithNoType")| == 41;
  }

  // ----- An optional param with type and description -----

  /** `@param {ty} [opt] - description` */
  function OptionalParamInput(ty: string, opt: string, description: string): string
  {
    "@param {" + ty + "} [" + opt + "] - " + description
  }

  function OptionalParamPair(ty: string, opt: string, description: string): Pair
  {
    var i := OptionalParamInput(ty, opt, description);
    var nameStart := 10 + |ty|;
    var nameEnd := nameStart + |opt| + 2;
    Span(Rule.ParamNode, i, 0, |i|, [
      Span(ParamType, i, 7, 9 + |ty|, []),
      Span(ParamName, i, nameStart, nameEnd, []),
      Span(Rule.TextNode, i, nameEnd + 3, |i|, [])])
  }

  lemma OptionalParamWellFormed(ty: string, opt: string, description: string)
    ensures WellFormed(OptionalParamPair(ty, opt, description))
    ensures OptionalParamPair(ty, opt, description).inner[1].text == "[" + opt + "]"
    ensures OptionalParamPair(ty, opt, description).inner[2].text == description
  {
    var i := OptionalParamInput(ty, opt, description);
    var nameStart := 10 + |ty|;
    var nameEnd := nameStart + |opt| + 2;
    assert forall j :: 0 <= j < |opt| + 2 ==> i[nameStart + j] == ("[" + opt + "]")[j];
    assert i[nameStart..nameEnd] == "[" + opt + "]";
    assert forall j :: 0 <= j < |description| ==> i[nameEnd + 3 + j] == description[j];
    assert i[nameEnd + 3..|i|] == description;
    assert i[0..|i|] == i;
    var param := OptionalParamPair(ty, opt, description);
    assert WellFormed(param.inner[0]) && WellFormed(param.inner[1]) && WellFormed(param.inner[2]);
  }

  /** A bracketed name is optional and stored without its brackets; the text
      after the name is the description. */
  lemma OptionalParamBuilt(ty: string, opt: string, description: string, offset: Option<nat>)
    requires |description| > 0
    ensures WellFormed(OptionalParamPair(ty, opt, description))
    ensures var r := VisitDocChild(OptionalParamPair(ty, opt, description), offset);
      && r.Ok? && |r.value| == 1 && r.value[0].Param?
      && var p := r.value[0].param;
      && !p.required
      && AsStr(AsTextNodeUnsafe(p.paramName)) == opt
      && p.paramDescription.Some? && AsStr(AsTextNodeUnsafe(p.paramDescription.value)) == description
  {
    OptionalParamWellFormed(ty, opt, description);
    var param := OptionalParamPair(ty, opt, description);
    ParamNodes.ParamFromFields(param, offset);
    ParamNodes.RequiredFollowsBrackets(param.inner[1], offset, opt);
  }

  /** `@param {sometype} [optionalParamWithTypeAndDescription] - This is a cool parameter`, offset 10 */
  lemma OptionalParamScenario()
    ensures var pair := OptionalParamPair("sometype", "optionalParamWithTypeAndDescription", "This is a cool parameter");
      && WellFormed(pair)
      && var r := VisitDocChild(pair, Some(10));
      && r.Ok? && |r.value| == 1 && r.value[0].Param?
      && var p := r.value[0].param;
      && !p.required
      && AsStr(AsTextNodeUnsafe(p.paramName)) == "optionalParamWithTypeAndDescription"
      && p.paramDescription.Some? && AsStr(AsTextNodeUnsafe(p.paramDescription.value)) == "This is a cool parameter"
  {
    OptionalParamBuilt("sometype", "optionalParamWithTypeAndDescription", "This is a cool parameter", Some(10));
  }

  // ----- An inline example, offset 10 -----

  const InlineExample := "@example simple inline example\n"

  lemma InlineExampleScenario()
    ensures var pair := Span(Rule.ExampleNode, InlineExample, 0, 31, []);
      var r := VisitDocChild(pair, Some(10));
      && r.Ok? && |r.value| == 1 && r.value[0].Example?
      && var e := r.value[0].example;
      && e.isInline && e.name == "example" && e.position == Position(10, 41)
      && AsTextNodeUnsafe(e.content) == TextNode.TextNode("simple inline example\n", Position(19, 41), InlineExample)
  {
    assert InlineExample[0..31] == InlineExample;
    assert ExampleNodes.Marker + "simple inline example\n" == InlineExample;
  }

  // ----- Descriptions -----

  const ExplicitDescription := "@description kdkd\n"

  lemma ExplicitDescriptionScenario()
    ensures var pair := Span(Rule.DescriptionNode, ExplicitDescription, 0, 18, []);
      var r := VisitDocChild(pair, None);
      && r.Ok? && r.value[0].Description?
      && var d := r.value[0].description;
      && d.name == "description" && !d.isImplicit && d.isInline && d.content.value == "kdkd\n"
  {
    assert ExplicitDescription[0..18] == ExplicitDescription;
    assert DescriptionNodes.Marker + "kdkd\n" == ExplicitDescription;
  }

  const LeadingText := "kdkd\n\n" + "@param {sometype} requiredParamWithSomeType - This is a cool parameter"

  /** Free text before the first tag is an implicit description; an empty one
      emits nothing. */
  lemma ImplicitDescriptionScenario()
    ensures var i := LeadingText;
      var pair := Span(ImplicitDescription, i, 0, 6, [Span(Rule.TextNode, i, 0, 6, [])]);
      var r := VisitSpec(pair, None);
      && WellFormed(pair) && r.Ok? && |r.value| == 1 && r.value[0].Description?
      && var d := r.value[0].description;
      && d.name == "description" && d.isImplicit && d.isInline && d.content.value == "kdkd\n\n"
    ensures var empty := Span(ImplicitDescription, LeadingText, 0, 0, [Span(Rule.TextNode, LeadingText, 0, 0, [])]);
      WellFormed(empty) && VisitSpec(empty, None) == Ok([])
  {
    Piece("", "kdkd\n\n", "@param {sometype} requiredParamWithSomeType - This is a cool parameter");
  }
}
