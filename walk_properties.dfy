/**
  What the walk promises about the nodes it emits: a document is exactly its
  children's nodes in order, every doc node yields one node of the matching
  kind, empty text is never emitted, the nodes come in source order inside
  the span that produced them, and every node's text is the input at its
  position (with the global offset taken back out).
*/
module WalkProperties {
  import opened Wrappers
  import opened SyntaxTree
  import opened Positions
  import opened TextNodes
  import opened Ast
  import opened Parser
  import DescriptionNodes
  import ExampleNodes
  import ParamNodes

  // ----- Composition: the walk is the children's walks in order -----

  /** Running `first`, then `second`: both node lists in order, or the first failure. */
  function Sequenced(first: Result<seq<LiquidNode>, BuildError>, second: Result<seq<LiquidNode>, BuildError>)
    : Result<seq<LiquidNode>, BuildError>
  {
    match first
    case Err(e) => Err(e)
    case Ok(a) =>
      match second
      case Err(e) => Err(e)
      case Ok(b) => Ok(a + b)
  }

  /** Visiting `xs + ys` is visiting `xs`, then `ys`; a single pair is visited on its own. */
  lemma {:induction false} VisitAllAppend(xs: seq<Pair>, ys: seq<Pair>, offset: Option<nat>)
    requires forall i :: 0 <= i < |xs + ys| ==> WellFormed((xs + ys)[i])
    ensures forall i :: 0 <= i < |xs| ==> WellFormed(xs[i])
    ensures forall i :: 0 <= i < |ys| ==> WellFormed(ys[i])
    ensures VisitAll(xs + ys, offset) == Sequenced(VisitAll(xs, offset), VisitAll(ys, offset))
    decreases |ys|
  {
    assert forall i :: 0 <= i < |xs| ==> (xs + ys)[i] == xs[i];
    assert forall i :: 0 <= i < |ys| ==> (xs + ys)[|xs| + i] == ys[i];
    if |ys| == 0 {
      assert xs + ys == xs;
      if VisitAll(xs, offset).Ok? {
        assert VisitAll(xs, offset).value + [] == VisitAll(xs, offset).value;
      }
    } else {
      var front, last := ys[..|ys| - 1], ys[|ys| - 1];
      assert (xs + ys)[..|xs + ys| - 1] == xs + front;
      assert (xs + front) + [last] == xs + ys;
      VisitAllAppend(xs, front, offset);
      var a, b, c := VisitAll(xs, offset), VisitAll(front, offset), VisitSpec(last, offset);
      if a.Ok? && b.Ok? && c.Ok? {
        assert a.value + b.value + c.value == a.value + (b.value + c.value);
      }
    }
  }

  lemma VisitAllSingle(p: Pair, offset: Option<nat>)
    requires WellFormed(p)
    ensures VisitAll([p], offset) == VisitSpec(p, offset)
  {
    assert [p][..0] == [];
    if VisitSpec(p, offset).Ok? {
      assert [] + VisitSpec(p, offset).value == VisitSpec(p, offset).value;
    }
  }

  /** The walk over `pairs` succeeds exactly when every pair's visit succeeds,
      and then it emits exactly the nodes that the pairs' visits emit. */
  lemma {:induction false} VisitAllParts(pairs: seq<Pair>, offset: Option<nat>)
    requires forall i :: 0 <= i < |pairs| ==> WellFormed(pairs[i])
    ensures VisitAll(pairs, offset).Ok? <==> forall i :: 0 <= i < |pairs| ==> VisitSpec(pairs[i], offset).Ok?
    ensures VisitAll(pairs, offset).Ok? ==> forall n :: n in VisitAll(pairs, offset).value <==>
      exists i :: 0 <= i < |pairs| && VisitSpec(pairs[i], offset).Ok? && n in VisitSpec(pairs[i], offset).value
    decreases |pairs|
  {
    if |pairs| > 0 {
      var m := |pairs| - 1;
      var front, last := pairs[..m], pairs[m];
      assert forall i :: 0 <= i < m ==> front[i] == pairs[i];
      VisitAllParts(front, offset);
      if VisitAll(pairs, offset).Ok? {
        var nodes := VisitAll(pairs, offset).value;
        assert nodes == VisitAll(front, offset).value + VisitSpec(last, offset).value;
        forall n | n in nodes
          ensures exists i :: 0 <= i < |pairs| && VisitSpec(pairs[i], offset).Ok? && n in VisitSpec(pairs[i], offset).value
        {
          if n in VisitAll(front, offset).value {
            var i :| 0 <= i < m && VisitSpec(front[i], offset).Ok? && n in VisitSpec(front[i], offset).value;
            assert pairs[i] == front[i];
          } else {
            assert pairs[m] == last;
          }
        }
        forall n, i | 0 <= i < |pairs| && VisitSpec(pairs[i], offset).Ok? && n in VisitSpec(pairs[i], offset).value
          ensures n in nodes
        {
          if i < m {
            assert front[i] == pairs[i];
          }
        }
      }
    }
  }

  /** A document emits no node of its own: every node it emits comes from one of
      its children, and every node its children emit is emitted. */
  lemma DocumentEmitsOnlyChildren(pair: Pair, offset: Option<nat>)
    requires WellFormed(pair) && pair.rule == Document
    ensures VisitSpec(pair, offset).Ok? <==> forall i :: 0 <= i < |pair.inner| ==> VisitSpec(pair.inner[i], offset).Ok?
    ensures VisitSpec(pair, offset).Ok? ==> forall n :: n in VisitSpec(pair, offset).value <==>
      exists i :: 0 <= i < |pair.inner| && VisitSpec(pair.inner[i], offset).Ok? && n in VisitSpec(pair.inner[i], offset).value
  {
    VisitAllParts(pair.inner, offset);
  }

  // ----- Dispatch -----

  /** An implicit description with content is one description node; with empty
      content nothing is emitted. */
  lemma ImplicitDescriptionSuppressedIffEmpty(pair: Pair, offset: Option<nat>)
    requires WellFormed(pair) && pair.rule == ImplicitDescription
    ensures VisitSpec(pair, offset).Ok? <==> |pair.inner| > 0
    ensures VisitSpec(pair, offset).Ok? ==>
      && (VisitSpec(pair, offset).value == [] <==> |pair.inner[0].text| == 0)
      && (|pair.inner[0].text| > 0 ==> VisitSpec(pair, offset).value == [Description(DescriptionNodes.Implicit(pair, offset).value)])
  {
  }

  /** A text pair is emitted, as a text node of its whole span, exactly when it
      is not empty. */
  lemma TextSuppressedIffEmpty(pair: Pair, offset: Option<nat>)
    requires WellFormed(pair) && pair.rule == Rule.TextNode
    ensures VisitSpec(pair, offset).Ok?
    ensures VisitSpec(pair, offset).value == [] <==> |pair.text| == 0
    ensures |pair.text| > 0 ==> VisitSpec(pair, offset).value == [Text(TextNodes.FromPair(pair, offset))]
  {
  }

  /** Only the four known top-level kinds are visited; any other rule is fatal. */
  lemma UnknownRuleIsFatal(pair: Pair, offset: Option<nat>)
    requires WellFormed(pair)
    requires !(pair.rule in {Document, ImplicitDescription, LiquidDocNode, Rule.TextNode})
    ensures VisitSpec(pair, offset) == Err(Unimplemented(pair.rule))
  {
  }

  /** A doc node whose child is a param, example or description emits exactly
      one node of the matching kind; any other child is fatal, never dropped. */
  lemma DocNodeDispatch(pair: Pair, offset: Option<nat>)
    requires WellFormed(pair) && pair.rule == LiquidDocNode && |pair.inner| > 0
    ensures var c, r := pair.inner[0], VisitSpec(pair, offset);
      && (r.Ok? <==> c.rule in {Rule.ExampleNode, Rule.DescriptionNode}
                     || (c.rule == Rule.ParamNode && ParamNodes.ParamFrom(c, offset).Ok?))
      && (r.Ok? ==> |r.value| == 1
                    && (r.value[0].Param? <==> c.rule == Rule.ParamNode)
                    && (r.value[0].Example? <==> c.rule == Rule.ExampleNode)
                    && (r.value[0].Description? <==> c.rule == Rule.DescriptionNode))
      && (c.rule in {PromptNode, FallbackNode} ==> r == Err(Unimplemented(c.rule)))
  {
    assert WellFormed(pair.inner[0]);
  }

  // ----- Emptiness suppression -----

  /** Neither a text node nor an implicit description with empty text. */
  predicate NotEmpty(n: LiquidNode)
  {
    && (n.Text? ==> !IsEmpty(n.text))
    && (n.Description? && n.description.isImplicit ==> !IsEmpty(n.description.content))
  }

  lemma {:induction false} NoEmptyEmitted(pair: Pair, offset: Option<nat>)
    requires WellFormed(pair)
    ensures VisitSpec(pair, offset).Ok? ==> forall n :: n in VisitSpec(pair, offset).value ==> NotEmpty(n)
    decreases pair
  {
    match pair.rule {
      case Document =>
        VisitAllParts(pair.inner, offset);
        forall i | 0 <= i < |pair.inner|
          ensures VisitSpec(pair.inner[i], offset).Ok? ==>
            forall n :: n in VisitSpec(pair.inner[i], offset).value ==> NotEmpty(n)
        {
          NoEmptyEmitted(pair.inner[i], offset);
        }
      case LiquidDocNode =>
        if |pair.inner| > 0 {
          assert WellFormed(pair.inner[0]);
        }
      case _ =>
    }
  }

  // ----- Source order -----

  /** Every node's position lies inside `[lo, hi]`. */
  predicate Within(nodes: seq<LiquidNode>, lo: nat, hi: nat)
  {
    forall i :: 0 <= i < |nodes| ==> lo <= nodes[i].Pos().start <= nodes[i].Pos().end <= hi
  }

  /** Each node ends before any later node starts. */
  predicate Ordered(nodes: seq<LiquidNode>)
  {
    forall i, j :: 0 <= i < j < |nodes| ==> nodes[i].Pos().end <= nodes[j].Pos().start
  }

  lemma OrderedAppend(a: seq<LiquidNode>, b: seq<LiquidNode>, lo: nat, mid: nat, hi: nat)
    requires Ordered(a) && Ordered(b) && Within(a, lo, mid) && Within(b, mid, hi) && lo <= mid <= hi
    ensures Ordered(a + b) && Within(a + b, lo, hi)
  {
    forall i, j | 0 <= i < j < |a + b|
      ensures (a + b)[i].Pos().end <= (a + b)[j].Pos().start
    {
      if j < |a| {
        assert (a + b)[i] == a[i] && (a + b)[j] == a[j];
      } else if i < |a| {
        assert (a + b)[i] == a[i] && (a + b)[j] == b[j - |a|];
      } else {
        assert (a + b)[i] == b[i - |a|] && (a + b)[j] == b[j - |a|];
      }
    }
    forall i | 0 <= i < |a + b|
      ensures lo <= (a + b)[i].Pos().start <= (a + b)[i].Pos().end <= hi
    {
      if i < |a| {
        assert (a + b)[i] == a[i];
      } else {
        assert (a + b)[i] == b[i - |a|];
      }
    }
  }

  /** A single node whose position is the span of `c`, nested in `[lo, hi]`. */
  lemma SingleWithin(n: LiquidNode, c: Pair, offset: Option<nat>, lo: nat, hi: nat)
    requires n.Pos() == Positions.FromPair(c, offset) && lo <= c.start <= c.end <= hi
    ensures Ordered([n]) && Within([n], lo + Offset(offset), hi + Offset(offset))
  {
  }

  /** A doc node's child becomes one node positioned at the child's span. */
  lemma DocChildAtSpan(c: Pair, offset: Option<nat>)
    requires WellFormed(c)
    ensures VisitDocChild(c, offset).Ok? ==>
      |VisitDocChild(c, offset).value| == 1 && VisitDocChild(c, offset).value[0].Pos() == Positions.FromPair(c, offset)
  {
    if c.rule == Rule.ParamNode {
      ParamNodes.ParamFromFields(c, offset);
    }
  }

  /** A visit of a pair other than a document emits at most one node, at the
      span of the pair or of its first inner pair. */
  lemma LeafOrdered(pair: Pair, offset: Option<nat>)
    requires WellFormed(pair) && pair.rule != Document
    ensures VisitSpec(pair, offset).Ok? ==>
      Ordered(VisitSpec(pair, offset).value)
      && Within(VisitSpec(pair, offset).value, pair.start + Offset(offset), pair.end + Offset(offset))
  {
    var r := VisitSpec(pair, offset);
    if r.Ok? && |r.value| > 0 {
      if pair.rule == LiquidDocNode {
        var c := pair.inner[0];
        assert Nested(pair, c) && WellFormed(c);
        DocChildAtSpan(c, offset);
        SingleWithin(r.value[0], c, offset, pair.start, pair.end);
      } else {
        SingleWithin(r.value[0], pair, offset, pair.start, pair.end);
      }
    }
  }

  /** The nodes a visit emits are in source order, inside the span of the pair
      that produced them (moved by the offset). */
  lemma {:induction false} VisitOrdered(pair: Pair, offset: Option<nat>)
    requires WellFormed(pair)
    ensures VisitSpec(pair, offset).Ok? ==>
      Ordered(VisitSpec(pair, offset).value)
      && Within(VisitSpec(pair, offset).value, pair.start + Offset(offset), pair.end + Offset(offset))
    decreases pair, 1
  {
    if pair.rule == Document {
      VisitAllOrdered(pair.inner, offset, pair.start, pair.end);
    } else {
      LeafOrdered(pair, offset);
    }
  }

  lemma {:induction false} VisitAllOrdered(pairs: seq<Pair>, offset: Option<nat>, lo: nat, hi: nat)
    requires forall i :: 0 <= i < |pairs| ==> WellFormed(pairs[i]) && lo <= pairs[i].start && pairs[i].end <= hi
    requires InSourceOrder(pairs)
    ensures VisitAll(pairs, offset).Ok? ==>
      Ordered(VisitAll(pairs, offset).value) && Within(VisitAll(pairs, offset).value, lo + Offset(offset), hi + Offset(offset))
    decreases pairs, 0
  {
    if |pairs| > 0 && VisitAll(pairs, offset).Ok? {
      var m := |pairs| - 1;
      var front, last := pairs[..m], pairs[m];
      assert forall i :: 0 <= i < m ==> front[i] == pairs[i];
      assert forall i :: 0 <= i < m ==> front[i].end <= last.start;
      VisitAllOrdered(front, offset, lo, last.start);
      VisitOrdered(last, offset);
      var k := Offset(offset);
      assert Within(VisitSpec(last, offset).value, last.start + k, hi + k);
      OrderedAppend(VisitAll(front, offset).value, VisitSpec(last, offset).value, lo + k, last.start + k, hi + k);
    }
  }

  // ----- Faithfulness to the input -----

  /** `source` is the input at `pos`, with the offset `k` taken back out. */
  predicate SourceAt(pos: Position, source: string, input: string, k: nat)
  {
    k <= pos.start <= pos.end <= |input| + k && source == input[pos.start - k..pos.end - k]
  }

  predicate BoxedInInput(n: LiquidNode, input: string, k: nat)
  {
    n.Text? && InInput(n.text, input, k)
  }

  /** Every text the node holds, and the node's own source, is the input at
      its position; the builder never makes a raw tag. */
  predicate NodeInInput(n: LiquidNode, input: string, k: nat)
  {
    match n
    case Text(t) => InInput(t, input, k)
    case Description(d) => SourceAt(d.position, d.source, input, k) && InInput(d.content, input, k)
    case Example(e) => SourceAt(e.position, e.source, input, k) && BoxedInInput(e.content, input, k)
    case Param(p) =>
      && SourceAt(p.position, p.source, input, k)
      && BoxedInInput(p.paramName, input, k)
      && (p.paramType.Some? ==> BoxedInInput(p.paramType.value, input, k))
      && (p.paramDescription.Some? ==> BoxedInInput(p.paramDescription.value, input, k))
    case RawTag(_) => false
  }

  lemma ParamInInput(input: string, c: Pair, offset: Option<nat>)
    requires Matches(input, c) && WellFormed(c) && ParamNodes.ParamFrom(c, offset).Ok?
    ensures NodeInInput(Param(ParamNodes.ParamFrom(c, offset).value), input, Offset(offset))
  {
    ParamNodes.ParamFromFields(c, offset);
    var p, k, j := ParamNodes.ParamFrom(c, offset).value, Offset(offset), ParamNodes.NameIndex(c);
    assert SourceAt(p.position, p.source, input, k);
    ChildMatches(input, c, j);
    WithoutBracketsInInput(input, c.inner[j], offset);
    assert BoxedInInput(p.paramName, input, k);
    if c.inner[0].rule == ParamType {
      ChildMatches(input, c, 0);
      WithoutBracketsInInput(input, c.inner[0], offset);
      assert BoxedInInput(p.paramType.value, input, k);
    }
    if p.paramDescription.Some? {
      ChildMatches(input, c, j + 1);
      FromPairInInput(input, c.inner[j + 1], offset);
      assert BoxedInInput(p.paramDescription.value, input, k);
    }
  }

  lemma DocChildInInput(input: string, c: Pair, offset: Option<nat>)
    requires Matches(input, c) && WellFormed(c)
    ensures VisitDocChild(c, offset).Ok? ==> forall n :: n in VisitDocChild(c, offset).value ==> NodeInInput(n, input, Offset(offset))
  {
    var k := Offset(offset);
    match c.rule {
      case ParamNode =>
        if ParamNodes.ParamFrom(c, offset).Ok? {
          ParamInInput(input, c, offset);
        }
      case ExampleNode =>
        FromPairInInput(input, c, offset);
        TrimContentStartInInput(TextNodes.FromPair(c, offset), ExampleNodes.Marker, input, k);
      case DescriptionNode =>
        FromPairInInput(input, c, offset);
        TrimContentStartInInput(TextNodes.FromPair(c, offset), DescriptionNodes.Marker, input, k);
      case _ =>
    }
  }

  /** The visit of a pair other than a document, which has no recursion. */
  lemma LeafInInput(input: string, pair: Pair, offset: Option<nat>)
    requires Matches(input, pair) && WellFormed(pair) && pair.rule != Document
    ensures VisitSpec(pair, offset).Ok? ==> forall n :: n in VisitSpec(pair, offset).value ==> NodeInInput(n, input, Offset(offset))
  {
    match pair.rule {
      case ImplicitDescription =>
        if |pair.inner| > 0 {
          ChildMatches(input, pair, 0);
          FromPairInInput(input, pair.inner[0], offset);
        }
      case LiquidDocNode =>
        if |pair.inner| > 0 {
          ChildMatches(input, pair, 0);
          DocChildInInput(input, pair.inner[0], offset);
        }
      case TextNode =>
        FromPairInInput(input, pair, offset);
      case _ =>
    }
  }

  /** Every node a visit emits holds the input's own text at its positions. */
  lemma {:induction false} VisitFaithful(input: string, pair: Pair, offset: Option<nat>)
    requires Matches(input, pair) && WellFormed(pair)
    ensures VisitSpec(pair, offset).Ok? ==> forall n :: n in VisitSpec(pair, offset).value ==> NodeInInput(n, input, Offset(offset))
    decreases pair
  {
    if pair.rule == Document {
      VisitAllParts(pair.inner, offset);
      forall i | 0 <= i < |pair.inner|
        ensures VisitSpec(pair.inner[i], offset).Ok? ==>
          forall n :: n in VisitSpec(pair.inner[i], offset).value ==> NodeInInput(n, input, Offset(offset))
      {
        ChildMatches(input, pair, i);
        VisitFaithful(input, pair.inner[i], offset);
      }
    } else {
      LeafInInput(input, pair, offset);
    }
  }

  /** What `parse_liquid_string` returns holds the input's own text at every
      position: every top-level pair's nodes are faithful, so the whole walk is. */
  lemma TopLevelFaithful(input: string, pairs: seq<Pair>, offset: Option<nat>)
    requires forall i :: 0 <= i < |pairs| ==> WellFormed(pairs[i]) && Matches(input, pairs[i])
    ensures VisitAll(pairs, offset).Ok? ==> forall n :: n in VisitAll(pairs, offset).value ==> NodeInInput(n, input, Offset(offset))
  {
    VisitAllParts(pairs, offset);
    forall i | 0 <= i < |pairs|
      ensures VisitSpec(pairs[i], offset).Ok? ==>
        forall n :: n in VisitSpec(pairs[i], offset).value ==> NodeInInput(n, input, Offset(offset))
    {
      VisitFaithful(input, pairs[i], offset);
    }
  }
}
