/** Spans `[start, end)` into the original text, counted in characters and
    shifted by the global offset. */
module Positions {
  import opened Wrappers
  import opened SyntaxTree

  /** `Position(s, e)` is the source's `Position::new(s, e)`. */
  datatype Position = Position(start: nat, end: nat)

  /** The span of `pair`, shifted by the global offset. */
  function FromPair(pair: Pair, offset: Option<nat>): (r: Position)
    ensures r.start - Offset(offset) == pair.start && r.end - Offset(offset) == pair.end
  {
    Position(pair.start + Offset(offset), pair.end + Offset(offset))
  }

  /** Moves both ends of a position by `k` characters. */
  function Shift(pos: Position, k: nat): Position
  {
    Position(pos.start + k, pos.end + k)
  }

  /** Positions built from a well-formed pair are ordered and as long as its text. */
  lemma FromPairOrdered(pair: Pair, offset: Option<nat>)
    requires WellFormed(pair)
    ensures FromPair(pair, offset).start <= FromPair(pair, offset).end
    ensures FromPair(pair, offset).end - FromPair(pair, offset).start == |pair.text|
  {
  }

  /** Offset law: a position built with offset `k` is the offset-free one shifted by `k`. */
  lemma FromPairOffsetLaw(pair: Pair, k: nat)
    ensures FromPair(pair, Some(k)) == Shift(FromPair(pair, None), k)
  {
  }

  /** A position depends on the span only: equal spans give equal positions. */
  lemma FromPairDependsOnSpanOnly(p: Pair, q: Pair, offset: Option<nat>)
    requires p.start == q.start && p.end == q.end
    ensures FromPair(p, offset) == FromPair(q, offset)
  {
  }
}
