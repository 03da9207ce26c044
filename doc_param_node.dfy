/**
  Param nodes (`@param {type} name - description`), as the newer code builds
  them: an optional type, a name whose brackets decide `required`, and an
  optional description.
*/
module ParamNodes {
  import opened Wrappers
  import opened SyntaxTree
  import opened Positions
  import opened TextNodes
  import opened Ast

  const NodeName := "param"

  /** A name is required unless its raw text starts with `[` or ends with `]`. */
  predicate Required(rawName: string)
  {
    !(|rawName| > 0 && rawName[0] == '[') && !(|rawName| > 0 && rawName[|rawName| - 1] == ']')
  }

  /** Assembles a param node; the text nodes are boxed as `Text` nodes. */
  function New(
    position: Position, source: string, paramType: Option<TextNode>, paramName: TextNode,
    paramDescription: Option<TextNode>, required: bool): ParamNode
  {
    ParamNode.ParamNode(
      NodeName, position, source, Text(paramName),
      if paramDescription.Some? then Some(Text(paramDescription.value)) else None,
      if paramType.Some? then Some(Text(paramType.value)) else None,
      required)
  }

  /** Where the name sits among the inner pairs: after the type, if there is one. */
  function NameIndex(pair: Pair): nat
    requires |pair.inner| > 0
  {
    if pair.inner[0].rule == ParamType then 1 else 0
  }

  /** What `from_pair` builds from a param pair. */
  function ParamFrom(pair: Pair, offset: Option<nat>): (r: Result<ParamNode, BuildError>)
    requires WellFormed(pair)
    ensures r.Err? <==>
      pair.rule != Rule.ParamNode || |pair.inner| == 0 || (pair.inner[0].rule == ParamType && |pair.inner| == 1)
    ensures pair.rule != Rule.ParamNode ==> r == Err(UnexpectedRule(Rule.ParamNode, pair.rule))
  {
    if pair.rule != Rule.ParamNode then
      Err(UnexpectedRule(Rule.ParamNode, pair.rule))
    else if |pair.inner| == 0 then
      Err(MissingInner(Rule.ParamNode))
    else if pair.inner[0].rule == ParamType && |pair.inner| == 1 then
      Err(MissingParamName)
    else
      var name := pair.inner[NameIndex(pair)];
      Ok(New(Positions.FromPair(pair, offset), pair.text, TypeOf(pair, offset), WithoutBrackets(name, offset),
             DescriptionOf(pair, offset), Required(name.text)))
  }

  /** The type, when the first inner pair is one, without its braces. */
  function TypeOf(pair: Pair, offset: Option<nat>): (r: Option<TextNode>)
    requires WellFormed(pair) && |pair.inner| > 0
    ensures r.Some? <==> pair.inner[0].rule == ParamType
    ensures r.Some? ==> r.value.source == pair.inner[0].text && Consistent(r.value)
  {
    if pair.inner[0].rule == ParamType then Some(WithoutBrackets(pair.inner[0], offset)) else None
  }

  /** The pair after the name, when there is one and its text is not empty. */
  function DescriptionOf(pair: Pair, offset: Option<nat>): (r: Option<TextNode>)
    requires |pair.inner| > 0 && NameIndex(pair) < |pair.inner|
    ensures r.Some? <==> NameIndex(pair) + 1 < |pair.inner| && |pair.inner[NameIndex(pair) + 1].text| > 0
    ensures r.Some? ==> !IsEmpty(r.value) && r.value.value == pair.inner[NameIndex(pair) + 1].text
  {
    var rest := pair.inner[NameIndex(pair) + 1..];
    if |rest| > 0 && |rest[0].text| > 0 then Some(TextNodes.FromPair(rest[0], offset)) else None
  }

  /** The fields of a built param node: name, position and source from the
      whole pair; `required` from the raw name; the name and type stored without
      brackets; the description present exactly for a non-empty further pair. */
  lemma ParamFromFields(pair: Pair, offset: Option<nat>)
    requires WellFormed(pair)
    ensures ParamFrom(pair, offset).Ok? ==>
      var n, name := ParamFrom(pair, offset).value, pair.inner[NameIndex(pair)];
      && n.name == "param" && n.position == Positions.FromPair(pair, offset) && n.source == pair.text
      && n.required == Required(name.text)
      && n.paramName == Text(WithoutBrackets(name, offset))
      && (n.paramType.Some? <==> pair.inner[0].rule == ParamType)
      && (n.paramType.Some? ==> n.paramType.value == Text(WithoutBrackets(pair.inner[0], offset)))
      && (n.paramDescription.Some? <==>
            NameIndex(pair) + 1 < |pair.inner| && |pair.inner[NameIndex(pair) + 1].text| > 0)
      && (n.paramDescription.Some? ==>
            n.paramDescription.value == Text(TextNodes.FromPair(pair.inner[NameIndex(pair) + 1], offset)))
  {
  }

  /** `from_pair`: steps a cursor over the inner pairs to take the optional
      type, then the name, then the optional description. */
  method FromPair(pair: Pair, offset: Option<nat>) returns (r: Result<ParamNode, BuildError>)
    requires WellFormed(pair)
    ensures r == ParamFrom(pair, offset)
  {
    if pair.rule != Rule.ParamNode {
      return Err(UnexpectedRule(Rule.ParamNode, pair.rule));
    }
    var cursor := 0;
    if cursor == |pair.inner| {
      return Err(MissingInner(Rule.ParamNode));
    }
    var first := pair.inner[cursor];
    cursor := cursor + 1;
    var paramType: Option<TextNode>;
    var name: Pair;
    if first.rule == ParamType {
      paramType := Some(WithoutBrackets(first, offset));
      if cursor == |pair.inner| {
        return Err(MissingParamName);
      }
      name := pair.inner[cursor];
      cursor := cursor + 1;
    } else {
      paramType := None;
      name := first;
    }
    var required := Required(name.text);
    var paramName := WithoutBrackets(name, offset);
    var description: Option<TextNode> := None;
    if cursor < |pair.inner| {
      var t := pair.inner[cursor];
      cursor := cursor + 1;
      if |t.text| > 0 {
        description := Some(TextNodes.FromPair(t, offset));
      }
    }
    r := Ok(New(Positions.FromPair(pair, offset), pair.text, paramType, paramName, description, required));
  }

  /** An optional name `[s]` is not required and is stored as `s`; a name with
      no bracket at either end is required and stored as written. */
  lemma {:induction false} RequiredFollowsBrackets(name: Pair, offset: Option<nat>, s: string)
    requires |name.text| == name.end - name.start
    ensures name.text == "[" + s + "]" ==>
      !Required(name.text) && WithoutBrackets(name, offset).value == s
    ensures |name.text| > 0 && !IsOpeningBracket(name.text[0]) && !IsClosingBracket(name.text[|name.text| - 1]) ==>
      Required(name.text) && WithoutBrackets(name, offset).value == name.text
  {
    if name.text == "[" + s + "]" {
      WithoutBracketsStripsEnclosing(name, offset, s);
    }
    if |name.text| > 0 && !IsOpeningBracket(name.text[0]) && !IsClosingBracket(name.text[|name.text| - 1]) {
      WithoutBracketsKeepsBareText(name, offset);
    }
  }

  function ShiftOption(t: Option<TextNode>, k: nat): Option<TextNode>
  {
    if t.Some? then Some(ShiftText(t.value, k)) else None
  }

  lemma NewCommutesWithShift(
    position: Position, source: string, paramType: Option<TextNode>, paramName: TextNode,
    paramDescription: Option<TextNode>, required: bool, k: nat)
    ensures ShiftNode(Param(New(position, source, paramType, paramName, paramDescription, required)), k)
         == Param(New(Positions.Shift(position, k), source, ShiftOption(paramType, k), ShiftText(paramName, k),
                      ShiftOption(paramDescription, k), required))
  {
  }

  lemma TypeOfOffsetLaw(pair: Pair, k: nat)
    requires WellFormed(pair) && |pair.inner| > 0
    ensures TypeOf(pair, Some(k)) == ShiftOption(TypeOf(pair, None), k)
  {
    var first := pair.inner[0];
    if first.rule == ParamType {
      assert Nested(pair, first) && WellFormed(first);
      WithoutBracketsOffsetLaw(first, k);
    }
  }

  lemma DescriptionOfOffsetLaw(pair: Pair, k: nat)
    requires |pair.inner| > 0 && NameIndex(pair) < |pair.inner|
    ensures DescriptionOf(pair, Some(k)) == ShiftOption(DescriptionOf(pair, None), k)
  {
    var rest := pair.inner[NameIndex(pair) + 1..];
    if |rest| > 0 && |rest[0].text| > 0 {
      TextNodes.FromPairOffsetLaw(rest[0], k);
    }
  }

  /** Offset law: a param node built with offset `k` is the offset-free one with
      every position moved by `k`; failures do not depend on the offset. */
  lemma OffsetLaw(pair: Pair, k: nat)
    requires WellFormed(pair)
    ensures ParamFrom(pair, Some(k)).Err? <==> ParamFrom(pair, None).Err?
    ensures ParamFrom(pair, None).Err? ==> ParamFrom(pair, Some(k)).error == ParamFrom(pair, None).error
    ensures ParamFrom(pair, None).Ok? ==>
      Param(ParamFrom(pair, Some(k)).value) == ShiftNode(Param(ParamFrom(pair, None).value), k)
  {
    if ParamFrom(pair, None).Ok? {
      var name := pair.inner[NameIndex(pair)];
      assert Nested(pair, name) && WellFormed(name);
      WithoutBracketsOffsetLaw(name, k);
      Positions.FromPairOffsetLaw(pair, k);
      TypeOfOffsetLaw(pair, k);
      DescriptionOfOffsetLaw(pair, k);
      var position, paramType, paramName, description :=
        Positions.FromPair(pair, None), TypeOf(pair, None), WithoutBrackets(name, None), DescriptionOf(pair, None);
      assert ParamFrom(pair, None) == Ok(New(position, pair.text, paramType, paramName, description, Required(name.text)));
      assert ParamFrom(pair, Some(k)) == Ok(New(Positions.Shift(position, k), pair.text, ShiftOption(paramType, k),
                                                ShiftText(paramName, k), ShiftOption(description, k), Required(name.text)));
      NewCommutesWithShift(position, pair.text, paramType, paramName, description, Required(name.text), k);
    }
  }
}
