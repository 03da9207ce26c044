/**
  The older param node: no global offset, spans stored as `locStart`/`locEnd`,
  the type cut out by dropping its first and last character, and the name
  kept as its own node that records `required` next to the unstripped text.
*/
module LegacyParamNodes {
  import opened Wrappers
  import opened SyntaxTree
  import opened Positions
  import opened TextNodes
  import opened Ast
  import ParamNodes

  datatype ParamNameNode = ParamNameNode(
    content: TextNode,
    locStart: nat,
    locEnd: nat,
    source: string,
    required: bool)

  datatype LegacyParamNode = LegacyParamNode(
    name: string,
    locStart: nat,
    locEnd: nat,
    source: string,
    paramType: Option<TextNode>,
    paramName: ParamNameNode,
    paramDescription: Option<TextNode>)

  /** `LiquidDocParamNameNode::new`: the whole, unstripped name and its `required` flag. */
  function NameNodeFrom(pair: Pair): (r: Result<ParamNameNode, BuildError>)
    ensures r.Err? <==> pair.rule != Rule.ParamName
    ensures r.Err? ==> r.error == UnexpectedRule(Rule.ParamName, pair.rule)
    ensures r.Ok? ==>
      && r.value.content == TextNodes.FromPair(pair, None) && r.value.source == pair.text
      && r.value.locStart == pair.start && r.value.locEnd == pair.end
      && (r.value.required <==> !(|pair.text| > 0 && (pair.text[0] == '[' || pair.text[|pair.text| - 1] == ']')))
  {
    if pair.rule != Rule.ParamName then
      Err(UnexpectedRule(Rule.ParamName, pair.rule))
    else
      Ok(ParamNameNode(TextNodes.FromPair(pair, None), pair.start, pair.end, pair.text, ParamNodes.Required(pair.text)))
  }

  /** What the older `new` builds from a param pair. */
  function LegacyParamFrom(pair: Pair): (r: Result<LegacyParamNode, BuildError>)
    ensures r.Err? <==>
      || pair.rule != Rule.ParamNode || |pair.inner| == 0
      || (pair.inner[0].rule == ParamType && (|pair.inner[0].text| < 2 || |pair.inner| < 2))
      || NameNodeFrom(pair.inner[ParamNodes.NameIndex(pair)]).Err?
    ensures pair.rule != Rule.ParamNode ==> r == Err(UnexpectedRule(Rule.ParamNode, pair.rule))
    ensures r.Ok? ==>
      && pair.rule == Rule.ParamNode && |pair.inner| > 0
      && r.value.name == "param" && r.value.source == pair.text
      && r.value.locStart == pair.start && r.value.locEnd == pair.end
      && (r.value.paramType.Some? <==> pair.inner[0].rule == ParamType)
  {
    if pair.rule != Rule.ParamNode then
      Err(UnexpectedRule(Rule.ParamNode, pair.rule))
    else if |pair.inner| == 0 then
      Err(MissingInner(Rule.ParamNode))
    else
      var first := pair.inner[0];
      if first.rule == ParamType && |first.text| < 2 then
        Err(SliceOutOfRange(|first.text|))
      else if first.rule == ParamType && |pair.inner| == 1 then
        Err(MissingParamName)
      else
        var paramType := if first.rule == ParamType then Some(NewTrimEnds(first, None)) else None;
        var nameIndex := if first.rule == ParamType then 1 else 0;
        match NameNodeFrom(pair.inner[nameIndex])
        case Err(e) => Err(e)
        case Ok(paramName) =>
          var rest := pair.inner[nameIndex + 1..];
          var description := if |rest| > 0 && |rest[0].text| > 0 then Some(TextNodes.FromPair(rest[0], None)) else None;
          Ok(LegacyParamNode("param", pair.start, pair.end, pair.text, paramType, paramName, description))
  }

  /** Which failure each malformed param pair gives: no inner pair, a type too
      short to trim, a type with nothing after it, a name pair of another rule. */
  lemma LegacyParamErrors(pair: Pair)
    ensures pair.rule == Rule.ParamNode && |pair.inner| == 0 ==> LegacyParamFrom(pair) == Err(MissingInner(Rule.ParamNode))
    ensures pair.rule == Rule.ParamNode && |pair.inner| > 0 && pair.inner[0].rule == ParamType ==>
      && (|pair.inner[0].text| < 2 ==> LegacyParamFrom(pair) == Err(SliceOutOfRange(|pair.inner[0].text|)))
      && (|pair.inner[0].text| >= 2 && |pair.inner| == 1 ==> LegacyParamFrom(pair) == Err(MissingParamName))
    ensures pair.rule == Rule.ParamNode && |pair.inner| > 0 && |pair.inner| > ParamNodes.NameIndex(pair)
            && !(pair.inner[0].rule == ParamType && |pair.inner[0].text| < 2)
            && pair.inner[ParamNodes.NameIndex(pair)].rule != Rule.ParamName ==>
      LegacyParamFrom(pair) == Err(UnexpectedRule(Rule.ParamName, pair.inner[ParamNodes.NameIndex(pair)].rule))
  {
  }

  /** The older `new`: advances the `inner` iterator once per field. */
  method New(pair: Pair) returns (r: Result<LegacyParamNode, BuildError>)
    ensures r == LegacyParamFrom(pair)
  {
    if pair.rule != Rule.ParamNode {
      return Err(UnexpectedRule(Rule.ParamNode, pair.rule));
    }
    var cursor := 0;
    if cursor == |pair.inner| {
      return Err(MissingInner(Rule.ParamNode));
    }
    var first := pair.inner[cursor];
    cursor := cursor + 1;
    var paramType: Option<TextNode>;
    var name: Pair;
    if first.rule == ParamType {
      if |first.text| < 2 {
        return Err(SliceOutOfRange(|first.text|));
      }
      paramType := Some(NewTrimEnds(first, None));
      if cursor == |pair.inner| {
        return Err(MissingParamName);
      }
      name := pair.inner[cursor];
      cursor := cursor + 1;
    } else {
      paramType := None;
      name := first;
    }
    var paramName := NameNodeFrom(name);
    if paramName.Err? {
      return Err(paramName.error);
    }
    var description: Option<TextNode> := None;
    if cursor < |pair.inner| {
      var t := pair.inner[cursor];
      cursor := cursor + 1;
      if |t.text| > 0 {
        description := Some(TextNodes.FromPair(t, None));
      }
    }
    r := Ok(LegacyParamNode("param", pair.start, pair.end, pair.text, paramType, paramName.value, description));
  }

  /** The parts of a node the older code builds: the type cut by end trimming,
      the name node of the name pair, and the description as the newer code takes it. */
  lemma LegacyParts(pair: Pair)
    requires LegacyParamFrom(pair).Ok?
    ensures |pair.inner| > ParamNodes.NameIndex(pair)
    ensures var older, first := LegacyParamFrom(pair).value, pair.inner[0];
      && NameNodeFrom(pair.inner[ParamNodes.NameIndex(pair)]) == Ok(older.paramName)
      && older.paramDescription == ParamNodes.DescriptionOf(pair, None)
      && (first.rule == ParamType ==> |first.text| >= 2 && older.paramType == Some(NewTrimEnds(first, None)))
  {
  }

  /** A braced type: the older end trimming and the newer bracket stripping agree. */
  lemma LegacyTypeAgrees(pair: Pair)
    requires WellFormed(pair)
    requires LegacyParamFrom(pair).Ok?
    requires pair.inner[0].rule == ParamType ==> pair.inner[0].text[0] == '{' && pair.inner[0].text[|pair.inner[0].text| - 1] == '}'
    ensures ParamNodes.ParamFrom(pair, None).Ok?
    ensures var older, newer := LegacyParamFrom(pair).value, ParamNodes.ParamFrom(pair, None).value;
      if older.paramType.Some? then newer.paramType == Some(Text(older.paramType.value)) else newer.paramType.None?
  {
    ParamNodes.ParamFromFields(pair, None);
    var first := pair.inner[0];
    LegacyParts(pair);
    if first.rule == ParamType {
      assert Nested(pair, first) && WellFormed(first);
      WithoutBracketsAgreesWithTrimEnds(first, None);
    }
  }

  /** Both take the description from the pair after the name, when it is not empty. */
  lemma LegacyDescriptionAgrees(pair: Pair)
    requires WellFormed(pair)
    requires LegacyParamFrom(pair).Ok? && ParamNodes.ParamFrom(pair, None).Ok?
    ensures var older, newer := LegacyParamFrom(pair).value, ParamNodes.ParamFrom(pair, None).value;
      if older.paramDescription.Some? then newer.paramDescription == Some(Text(older.paramDescription.value))
      else newer.paramDescription.None?
  {
    ParamNodes.ParamFromFields(pair, None);
    LegacyParts(pair);
  }

  /** The header fields: source, name, span, `required`, and the name text
      before and after bracket stripping. */
  lemma LegacyHeaderAgrees(pair: Pair)
    requires WellFormed(pair)
    requires LegacyParamFrom(pair).Ok? && ParamNodes.ParamFrom(pair, None).Ok?
    ensures |pair.inner| > ParamNodes.NameIndex(pair)
    ensures var older, newer := LegacyParamFrom(pair).value, ParamNodes.ParamFrom(pair, None).value;
      && newer.source == older.source && newer.name == older.name
      && newer.position == Position(older.locStart, older.locEnd)
      && newer.required == older.paramName.required
      && newer.paramName == Text(WithoutBrackets(pair.inner[ParamNodes.NameIndex(pair)], None))
      && older.paramName.content.value == pair.inner[ParamNodes.NameIndex(pair)].text
  {
    LegacyParts(pair);
    ParamNodes.ParamFromFields(pair, None);
  }

  /** Where the older code succeeds on a well-formed pair with a braced type,
      the newer code (without an offset) succeeds too and agrees with it on
      every field; it differs only in storing the name without its brackets. */
  lemma LegacyAgreesWithCurrent(pair: Pair)
    requires WellFormed(pair)
    requires LegacyParamFrom(pair).Ok?
    requires pair.inner[0].rule == ParamType ==> pair.inner[0].text[0] == '{' && pair.inner[0].text[|pair.inner[0].text| - 1] == '}'
    ensures ParamNodes.ParamFrom(pair, None).Ok?
    ensures var older, newer := LegacyParamFrom(pair).value, ParamNodes.ParamFrom(pair, None).value;
      && newer.source == older.source && newer.name == older.name
      && newer.position == Position(older.locStart, older.locEnd)
      && newer.required == older.paramName.required
      && newer.paramName.Text?
      && newer.paramName.text.value == WithoutBrackets(pair.inner[ParamNodes.NameIndex(pair)], None).value
      && older.paramName.content.value == pair.inner[ParamNodes.NameIndex(pair)].text
      && (if older.paramType.Some? then newer.paramType == Some(Text(older.paramType.value)) else newer.paramType.None?)
      && (if older.paramDescription.Some? then newer.paramDescription == Some(Text(older.paramDescription.value))
          else newer.paramDescription.None?)
  {
    LegacyTypeAgrees(pair);
    LegacyDescriptionAgrees(pair);
    LegacyHeaderAgrees(pair);
  }
}
