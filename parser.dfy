/**
  The tree-walking builder: it visits the grammar's pairs in order, turns each
  documentation production into a node and appends the node to the AST. The
  global offset is threaded through every constructor.
*/
module Parser {
  import opened Wrappers
  import opened SyntaxTree
  import opened Positions
  import opened TextNodes
  import opened Ast
  import DescriptionNodes
  import ExampleNodes
  import ParamNodes

  // ----- Specification of the walk -----

  /** The nodes that visiting `pair` appends, or the failure it stops with. */
  function VisitSpec(pair: Pair, offset: Option<nat>): (r: Result<seq<LiquidNode>, BuildError>)
    requires WellFormed(pair)
    ensures r.Ok? && pair.rule != Document ==> |r.value| <= 1
    decreases pair
  {
    match pair.rule
    case Document => VisitAll(pair.inner, offset)
    case ImplicitDescription =>
      (match DescriptionNodes.Implicit(pair, offset)
       case Err(e) => Err(e)
       case Ok(d) => if IsEmpty(d.content) then Ok([]) else Ok([Description(d)]))
    case LiquidDocNode =>
      if |pair.inner| == 0 then Err(MissingInner(Rule.LiquidDocNode)) else VisitDocChild(pair.inner[0], offset)
    case TextNode =>
      var t := TextNodes.FromPair(pair, offset);
      if IsEmpty(t) then Ok([]) else Ok([Text(t)])
    case _ => Err(Unimplemented(pair.rule))
  }

  /** The single node a `LiquidDocNode` wraps, by the rule of its first inner pair. */
  function VisitDocChild(next: Pair, offset: Option<nat>): (r: Result<seq<LiquidNode>, BuildError>)
    requires WellFormed(next)
    ensures r.Ok? <==> (next.rule in {Rule.ExampleNode, Rule.DescriptionNode}
                        || (next.rule == Rule.ParamNode && ParamNodes.ParamFrom(next, offset).Ok?))
    ensures r.Ok? ==> |r.value| == 1
    ensures next.rule in {PromptNode, FallbackNode} ==> r == Err(Unimplemented(next.rule))
  {
    match next.rule
    case ParamNode =>
      (match ParamNodes.ParamFrom(next, offset)
       case Err(e) => Err(e)
       case Ok(p) => Ok([Param(p)]))
    case ExampleNode =>
      (match ExampleNodes.ExampleFrom(next, offset)
       case Err(e) => Err(e)
       case Ok(x) => Ok([Example(x)]))
    case DescriptionNode =>
      (match DescriptionNodes.ExplicitFrom(next, offset)
       case Err(e) => Err(e)
       case Ok(d) => Ok([Description(d)]))
    case PromptNode => Err(Unimplemented(Rule.PromptNode))
    case FallbackNode => Err(Unimplemented(Rule.FallbackNode))
    case _ => Err(Unreachable(next.rule))
  }

  /** Visiting `pairs` one after another: the nodes of each in order, or the first failure. */
  function VisitAll(pairs: seq<Pair>, offset: Option<nat>): (r: Result<seq<LiquidNode>, BuildError>)
    requires forall i :: 0 <= i < |pairs| ==> WellFormed(pairs[i])
    decreases pairs
  {
    if |pairs| == 0 then Ok([])
    else
      match VisitAll(pairs[..|pairs| - 1], offset)
      case Err(e) => Err(e)
      case Ok(front) =>
        match VisitSpec(pairs[|pairs| - 1], offset)
        case Err(e) => Err(e)
        case Ok(last) => Ok(front + last)
  }

  // ----- The walk itself -----

  /** A visit that the specification says yields `r` went from `before` to
      `after`: on success by appending exactly `r`'s nodes, on failure by
      reporting `r`'s error; earlier nodes are never changed. */
  predicate Completed(r: Result<seq<LiquidNode>, BuildError>, before: seq<LiquidNode>, after: seq<LiquidNode>,
                      failure: Option<BuildError>)
  {
    && before <= after
    && (r.Ok? ==> failure == None && after == before + r.value)
    && (r.Err? ==> failure == Some(r.error))
  }

  /** `visit`: dispatches on the rule kind and appends to `ast`; a failure is
      returned instead of the source's panic. */
  method Visit(ast: LiquidAst, pair: Pair, offset: Option<nat>) returns (failure: Option<BuildError>)
    requires WellFormed(pair)
    modifies ast
    decreases pair, 1
    ensures Completed(VisitSpec(pair, offset), old(ast.nodes), ast.nodes, failure)
  {
    match pair.rule {
      case Document =>
        failure := VisitChildren(ast, pair, offset);
      case ImplicitDescription =>
        failure := VisitImplicit(ast, pair, offset);
      case LiquidDocNode =>
        if |pair.inner| == 0 {
          return Some(MissingInner(Rule.LiquidDocNode));
        }
        failure := VisitDocNode(ast, pair.inner[0], offset);
      case TextNode =>
        var t := TextNodes.FromPair(pair, offset);
        if !IsEmpty(t) {
          ast.AddNode(Text(t));
        }
        failure := None;
      case _ =>
        failure := Some(Unimplemented(pair.rule));
    }
  }

  /** The `ImplicitDescription` arm of `visit`: an empty description is dropped. */
  method VisitImplicit(ast: LiquidAst, pair: Pair, offset: Option<nat>) returns (failure: Option<BuildError>)
    requires WellFormed(pair) && pair.rule == ImplicitDescription
    modifies ast
    ensures Completed(VisitSpec(pair, offset), old(ast.nodes), ast.nodes, failure)
  {
    var node := DescriptionNodes.Implicit(pair, offset);
    if node.Err? {
      return Some(node.error);
    }
    if !IsEmpty(node.value.content) {
      ast.AddNode(Description(node.value));
    }
    failure := None;
  }

  /** The `Document` arm of `visit`: visits every inner pair in order. */
  method VisitChildren(ast: LiquidAst, pair: Pair, offset: Option<nat>) returns (failure: Option<BuildError>)
    requires WellFormed(pair)
    modifies ast
    decreases pair, 0
    ensures Completed(VisitAll(pair.inner, offset), old(ast.nodes), ast.nodes, failure)
  {
    var i := 0;
    while i < |pair.inner|
      invariant 0 <= i <= |pair.inner|
      invariant VisitAll(pair.inner[..i], offset).Ok?
      invariant ast.nodes == old(ast.nodes) + VisitAll(pair.inner[..i], offset).value
    {
      ghost var before := ast.nodes;
      failure := Visit(ast, pair.inner[i], offset);
      VisitAllStep(pair.inner, i, offset);
      if failure.Some? {
        ErrorPropagates(pair.inner, i + 1, offset);
        return;
      }
      assert ast.nodes == before + VisitSpec(pair.inner[i], offset).value;
      i := i + 1;
    }
    assert pair.inner[..i] == pair.inner;
    failure := None;
  }

  /** The `LiquidDocNode` arm of `visit`: builds the one node its first inner
      pair stands for; prompt, fallback and unknown rules are fatal. */
  method VisitDocNode(ast: LiquidAst, next: Pair, offset: Option<nat>) returns (failure: Option<BuildError>)
    requires WellFormed(next)
    modifies ast
    ensures Completed(VisitDocChild(next, offset), old(ast.nodes), ast.nodes, failure)
    ensures failure.Some? ==> ast.nodes == old(ast.nodes)
  {
    match next.rule {
      case ParamNode =>
        var node := ParamNodes.FromPair(next, offset);
        if node.Err? {
          return Some(node.error);
        }
        ast.AddNode(Param(node.value));
      case ExampleNode =>
        var node := ExampleNodes.FromPair(next, offset);
        match node {
          case Ok(x) => ast.AddNode(Example(x));
        }
      case DescriptionNode =>
        var node := DescriptionNodes.Explicit(next, offset);
        match node {
          case Ok(d) => ast.AddNode(Description(d));
        }
      case PromptNode =>
        return Some(Unimplemented(Rule.PromptNode));
      case FallbackNode =>
        return Some(Unimplemented(Rule.FallbackNode));
      case _ =>
        return Some(Unreachable(next.rule));
    }
    failure := None;
  }

  /** `parse_liquid_string`: a grammar failure gives no AST; otherwise a fresh
      AST is filled by visiting every top-level pair. */
  method ParseLiquidString(input: string, grammar: string -> Result<seq<Pair>, string>, offset: Option<nat>)
    returns (ast: Option<LiquidAst>, failure: Option<BuildError>)
    requires grammar(input).Ok? ==> forall i :: 0 <= i < |grammar(input).value| ==>
      WellFormed(grammar(input).value[i]) && Matches(input, grammar(input).value[i])
    ensures grammar(input).Err? ==> ast == None && failure == None
    ensures grammar(input).Ok? && VisitAll(grammar(input).value, offset).Ok? ==>
      && failure == None && ast.Some? && fresh(ast.value)
      && ast.value.nodes == VisitAll(grammar(input).value, offset).value
    ensures grammar(input).Ok? && VisitAll(grammar(input).value, offset).Err? ==>
      ast == None && failure == Some(VisitAll(grammar(input).value, offset).error)
  {
    var parsed := grammar(input);
    if parsed.Err? {
      return None, None;
    }
    var pairs := parsed.value;
    var tree := new LiquidAst();
    var i := 0;
    while i < |pairs|
      invariant 0 <= i <= |pairs|
      invariant VisitAll(pairs[..i], offset).Ok?
      invariant tree.nodes == VisitAll(pairs[..i], offset).value
    {
      ghost var before := tree.nodes;
      failure := Visit(tree, pairs[i], offset);
      VisitAllStep(pairs, i, offset);
      if failure.Some? {
        ErrorPropagates(pairs, i + 1, offset);
        return None, failure;
      }
      assert tree.nodes == before + VisitSpec(pairs[i], offset).value;
      i := i + 1;
    }
    assert pairs[..i] == pairs;
    return Some(tree), None;
  }

  // ----- Properties of the walk -----

  /** One more pair: the walk over the first `i + 1` pairs is the walk over the
      first `i`, then the visit of pair `i`, stopping at the first failure. */
  lemma VisitAllStep(pairs: seq<Pair>, i: nat, offset: Option<nat>)
    requires forall j :: 0 <= j < |pairs| ==> WellFormed(pairs[j])
    requires i < |pairs|
    ensures var front, last := VisitAll(pairs[..i], offset), VisitSpec(pairs[i], offset);
      && (front.Ok? && last.Ok? ==> VisitAll(pairs[..i + 1], offset) == Ok(front.value + last.value))
      && (front.Ok? && last.Err? ==> VisitAll(pairs[..i + 1], offset) == Err(last.error))
      && (front.Err? ==> VisitAll(pairs[..i + 1], offset) == front)
  {
    assert pairs[..i + 1][..i] == pairs[..i];
  }

  /** Once a prefix of the pairs fails, visiting all of them fails the same way. */
  lemma {:induction false} ErrorPropagates(pairs: seq<Pair>, n: nat, offset: Option<nat>)
    requires forall i :: 0 <= i < |pairs| ==> WellFormed(pairs[i])
    requires 0 < n <= |pairs| && VisitAll(pairs[..n], offset).Err?
    ensures VisitAll(pairs, offset) == VisitAll(pairs[..n], offset)
    decreases |pairs| - n
  {
    if n < |pairs| {
      var shorter := pairs[..|pairs| - 1];
      assert shorter[..n] == pairs[..n];
      ErrorPropagates(shorter, n, offset);
    } else {
      assert pairs[..n] == pairs;
    }
  }

  // ----- Offset law -----

  function ShiftResult(r: Result<seq<LiquidNode>, BuildError>, k: nat): Result<seq<LiquidNode>, BuildError>
  {
    match r
    case Ok(nodes) => Ok(ShiftNodes(nodes, k))
    case Err(e) => Err(e)
  }

  lemma DocChildOffsetLaw(next: Pair, k: nat)
    requires WellFormed(next)
    ensures VisitDocChild(next, Some(k)) == ShiftResult(VisitDocChild(next, None), k)
  {
    if VisitDocChild(next, None).Ok? {
      ShiftNodesShort(VisitDocChild(next, None).value[0], k);
    }
    match next.rule {
      case ParamNode => ParamNodes.OffsetLaw(next, k);
      case ExampleNode => ExampleNodes.OffsetLaw(next, k);
      case DescriptionNode => DescriptionNodes.ExplicitOffsetLaw(next, k);
      case _ =>
    }
  }

  /** Offset law: every position built with offset `k` is the offset-free one
      plus `k`, and the failures are the same. */
  lemma {:induction false} VisitOffsetLaw(pair: Pair, k: nat)
    requires WellFormed(pair)
    ensures VisitSpec(pair, Some(k)) == ShiftResult(VisitSpec(pair, None), k)
    decreases pair
  {
    match pair.rule {
      case Document => VisitAllOffsetLaw(pair.inner, k);
      case LiquidDocNode =>
        if |pair.inner| > 0 {
          assert WellFormed(pair.inner[0]);
          DocChildOffsetLaw(pair.inner[0], k);
        }
      case ImplicitDescription =>
        DescriptionNodes.ImplicitOffsetLaw(pair, k);
        ShiftNodesEmpty(k);
        if DescriptionNodes.Implicit(pair, None).Ok? {
          ShiftNodesShort(Description(DescriptionNodes.Implicit(pair, None).value), k);
        }
      case TextNode =>
        ShiftNodesEmpty(k);
        ShiftNodesShort(Text(TextNodes.FromPair(pair, None)), k);
      case _ =>
    }
  }

  lemma {:induction false} VisitAllOffsetLaw(pairs: seq<Pair>, k: nat)
    requires forall i :: 0 <= i < |pairs| ==> WellFormed(pairs[i])
    ensures VisitAll(pairs, Some(k)) == ShiftResult(VisitAll(pairs, None), k)
    decreases pairs
  {
    if |pairs| == 0 {
      ShiftNodesEmpty(k);
    } else {
      var front, last := pairs[..|pairs| - 1], pairs[|pairs| - 1];
      VisitAllOffsetLaw(front, k);
      VisitOffsetLaw(last, k);
      if VisitAll(front, None).Ok? && VisitSpec(last, None).Ok? {
        ShiftNodesAppend(VisitAll(front, None).value, VisitSpec(last, None).value, k);
      }
    }
  }
}
