/**
  The grammar engine's output, seen only through the interface the builder
  uses: every pair carries its rule kind, the span it matched in the
  parsed input, the text of that span and its inner pairs in source order.
  The engine itself (PEG matching) is not modelled; its guarantees about
  spans are stated as `WellFormed` and `Matches`.
*/
module SyntaxTree {
  import opened Wrappers

  /** The rule kinds the builder distinguishes; every other rule is `Other`. */
  datatype Rule =
    | Document
    | ImplicitDescription
    | LiquidDocNode
    | ParamNode
    | ParamType
    | ParamName
    | ExampleNode
    | DescriptionNode
    | PromptNode
    | FallbackNode
    | TextNode
    | Other(name: string)

  /** A grammar pair: `text` is the matched text of the span `[start, end)`. */
  datatype Pair = Pair(rule: Rule, start: nat, end: nat, text: string, inner: seq<Pair>)

  /** `c` lies inside `p`, and its text is the matching piece of `p`'s text. */
  predicate Nested(p: Pair, c: Pair)
  {
    && p.start <= c.start <= c.end <= p.end
    && |p.text| == p.end - p.start
    && c.text == p.text[c.start - p.start..c.end - p.start]
  }

  /** Sibling pairs come in source order and do not overlap. */
  predicate InSourceOrder(ps: seq<Pair>)
  {
    forall i, j :: 0 <= i < j < |ps| ==> ps[i].end <= ps[j].start
  }

  /** What the grammar engine guarantees of every pair it hands out. */
  predicate WellFormed(p: Pair)
    decreases p
  {
    && p.start <= p.end
    && |p.text| == p.end - p.start
    && InSourceOrder(p.inner)
    && forall i :: 0 <= i < |p.inner| ==> Nested(p, p.inner[i]) && WellFormed(p.inner[i])
  }

  /** The pair was matched against `input`: its text is the input at its span. */
  predicate Matches(input: string, p: Pair)
  {
    p.start <= p.end <= |input| && p.text == input[p.start..p.end]
  }

  /** Inner pairs of a pair matched against `input` were matched against it too. */
  lemma ChildMatches(input: string, p: Pair, i: nat)
    requires Matches(input, p) && WellFormed(p) && i < |p.inner|
    ensures Matches(input, p.inner[i])
  {
    var c := p.inner[i];
    assert Nested(p, c);
    calc {
      c.text;
      p.text[c.start - p.start..c.end - p.start];
      input[p.start..p.end][c.start - p.start..c.end - p.start];
      input[c.start..c.end];
    }
  }

  /** The fatal conditions of the builder (assertion failures, missing inner
      pairs, and rule kinds it does not implement). */
  datatype BuildError =
    | UnexpectedRule(expected: Rule, found: Rule)
    | MissingInner(parent: Rule)
    | MissingParamName
    | SliceOutOfRange(length: nat)
    | Unimplemented(rule: Rule)
    | Unreachable(rule: Rule)

  /** The global position offset; an absent offset behaves as 0. */
  function Offset(offset: Option<nat>): nat
  {
    match offset
    case Some(k) => k
    case None => 0
  }
}
