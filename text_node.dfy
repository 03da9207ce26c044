/**
  The smallest documentation unit: a slice of the source text with its
  position and the full text of the production it was cut from. Trimming a
  prefix or stripping brackets keeps the position in step with the value.
*/
module TextNodes {
  import opened Wrappers
  import opened SyntaxTree
  import opened Positions

  datatype TextNode = TextNode(value: string, position: Position, source: string)

  predicate IsEmpty(t: TextNode)
  {
    |t.value| == 0
  }

  /** The node's text (`as_str`). */
  function AsStr(t: TextNode): string
  {
    t.value
  }

  /** The position of `t`, with the offset `k` taken back out, delimits `t.value`
      inside `input`. */
  predicate InInput(t: TextNode, input: string, k: nat)
  {
    && k <= t.position.start <= t.position.end <= |input| + k
    && t.value == input[t.position.start - k..t.position.end - k]
  }

  /** The value is exactly as long as the span its position covers. */
  predicate Consistent(t: TextNode)
  {
    t.position.start <= t.position.end && t.position.end - t.position.start == |t.value|
  }

  /** The whole text of `pair` (`new`, and `from_pair` with an offset). */
  function FromPair(pair: Pair, offset: Option<nat>): (t: TextNode)
    ensures t.value == pair.text && t.source == pair.text
    ensures t.position == Positions.FromPair(pair, offset)
  {
    TextNode.TextNode(pair.text, Positions.FromPair(pair, offset), pair.text)
  }

  /** The piece `[start, end)` of the pair's text; positions move with the cut. */
  function NewFromIndices(pair: Pair, start: nat, end: nat, offset: Option<nat>): (t: TextNode)
    requires start <= end <= |pair.text|
    ensures t.value == pair.text[start..end] && t.source == pair.text
    ensures t.position == Position(pair.start + start + Offset(offset), pair.start + end + Offset(offset))
    ensures Consistent(t)
  {
    var k := Offset(offset);
    TextNode.TextNode(pair.text[start..end], Position(pair.start + start + k, pair.start + end + k), pair.text)
  }

  /** The pair's text without its first and last character. */
  function NewTrimEnds(pair: Pair, offset: Option<nat>): (t: TextNode)
    requires |pair.text| >= 2
    ensures pair.text == [pair.text[0]] + t.value + [pair.text[|pair.text| - 1]]
    ensures t.position.start == pair.start + Offset(offset) + 1
  {
    NewFromIndices(pair, 1, |pair.text| - 1, offset)
  }

  /** `trim_content_start(p)`: removes `p` exactly when the value starts with
      it, advancing the start by `|p|` and keeping the end and the source. */
  function TrimContentStart(t: TextNode, prefix: string): (r: TextNode)
    ensures r.source == t.source && r.position.end == t.position.end
    ensures prefix <= t.value ==> prefix + r.value == t.value && r.position.start == t.position.start + |prefix|
    ensures !(prefix <= t.value) ==> r == t
  {
    if prefix <= t.value then
      assert prefix + t.value[|prefix|..] == t.value;
      TextNode.TextNode(t.value[|prefix|..], Position(t.position.start + |prefix|, t.position.end), t.source)
    else
      t
  }

  predicate IsOpeningBracket(c: char)
  {
    c == '{' || c == '['
  }

  predicate IsClosingBracket(c: char)
  {
    c == '}' || c == ']'
  }

  /** Drops one leading `{`/`[` and moves the start past it. */
  function StripOpening(t: TextNode): (r: TextNode)
    ensures r.source == t.source && r.position.end == t.position.end
    ensures |t.value| > 0 && IsOpeningBracket(t.value[0]) ==>
      [t.value[0]] + r.value == t.value && r.position.start == t.position.start + 1
    ensures !(|t.value| > 0 && IsOpeningBracket(t.value[0])) ==> r == t
    ensures Consistent(t) ==> Consistent(r)
  {
    if |t.value| > 0 && IsOpeningBracket(t.value[0]) then
      TextNode.TextNode(t.value[1..], Position(t.position.start + 1, t.position.end), t.source)
    else
      t
  }

  /** Drops one trailing `}`/`]` and moves the end back before it. */
  function StripClosing(t: TextNode): (r: TextNode)
    requires Consistent(t)
    ensures r.source == t.source && r.position.start == t.position.start
    ensures |t.value| > 0 && IsClosingBracket(t.value[|t.value| - 1]) ==>
      r.value + [t.value[|t.value| - 1]] == t.value && r.position.end == t.position.end - 1
    ensures !(|t.value| > 0 && IsClosingBracket(t.value[|t.value| - 1])) ==> r == t
    ensures Consistent(r)
  {
    if |t.value| > 0 && IsClosingBracket(t.value[|t.value| - 1]) then
      TextNode.TextNode(t.value[..|t.value| - 1], Position(t.position.start, t.position.end - 1), t.source)
    else
      t
  }

  /** The pair's text with one leading `{`/`[` and one trailing `}`/`]` removed,
      each end of the position moved by the characters removed there: the value
      is still the piece of the pair's text that the position names. */
  function WithoutBrackets(pair: Pair, offset: Option<nat>): (t: TextNode)
    requires |pair.text| == pair.end - pair.start
    ensures t.source == pair.text && Consistent(t)
  {
    var front := StripOpening(FromPair(pair, offset));
    StripClosing(front)
  }

  /** One reading of `without_brackets`, whose body is not part of this model:
      the same brackets come off the value, but only the start moves, by one,
      whenever the value changed; the end stays at the end of the span. */
  function WithoutBracketsStartOnly(pair: Pair, offset: Option<nat>): (t: TextNode)
    requires |pair.text| == pair.end - pair.start
    ensures t.value == WithoutBrackets(pair, offset).value && t.source == pair.text
    ensures t.position.end == pair.end + Offset(offset)
  {
    var whole := FromPair(pair, offset);
    var stripped := WithoutBrackets(pair, offset);
    if stripped.value != whole.value then
      TextNode.TextNode(stripped.value, Position(whole.position.start + 1, whole.position.end), whole.source)
    else
      whole
  }

  /** Moves the position of a text node by `k` characters. */
  function ShiftText(t: TextNode, k: nat): TextNode
  {
    t.(position := Positions.Shift(t.position, k))
  }

  // ----- Slices of the input -----

  lemma FromPairInInput(input: string, pair: Pair, offset: Option<nat>)
    requires Matches(input, pair)
    ensures InInput(FromPair(pair, offset), input, Offset(offset))
  {
  }

  lemma NewFromIndicesInInput(input: string, pair: Pair, start: nat, end: nat, offset: Option<nat>)
    requires Matches(input, pair) && start <= end <= |pair.text|
    ensures InInput(NewFromIndices(pair, start, end, offset), input, Offset(offset))
  {
    assert forall j :: 0 <= j < end - start ==> input[pair.start..pair.end][start..end][j] == input[pair.start + start + j];
    assert input[pair.start..pair.end][start..end] == input[pair.start + start..pair.start + end];
  }

  /** Trimming a prefix keeps the value the slice of the input that its position names. */
  lemma {:induction false} TrimContentStartInInput(t: TextNode, prefix: string, input: string, k: nat)
    requires InInput(t, input, k)
    ensures InInput(TrimContentStart(t, prefix), input, k)
  {
    if prefix <= t.value {
      var a, b := t.position.start - k, t.position.end - k;
      assert input[a..b][|prefix|..] == input[a + |prefix|..b];
    }
  }

  lemma StripOpeningInInput(t: TextNode, input: string, k: nat)
    requires InInput(t, input, k)
    ensures InInput(StripOpening(t), input, k)
  {
    if |t.value| > 0 && IsOpeningBracket(t.value[0]) {
      var a, b := t.position.start - k, t.position.end - k;
      assert input[a..b][1..] == input[a + 1..b];
    }
  }

  lemma StripClosingInInput(t: TextNode, input: string, k: nat)
    requires InInput(t, input, k)
    ensures Consistent(t) && InInput(StripClosing(t), input, k)
  {
    if |t.value| > 0 && IsClosingBracket(t.value[|t.value| - 1]) {
      var a, b := t.position.start - k, t.position.end - k;
      assert input[a..b][..|t.value| - 1] == input[a..b - 1];
    }
  }

  /** The stripped name or type is still the slice of the input at its position. */
  lemma WithoutBracketsInInput(input: string, pair: Pair, offset: Option<nat>)
    requires Matches(input, pair)
    ensures |pair.text| == pair.end - pair.start
    ensures InInput(WithoutBrackets(pair, offset), input, Offset(offset))
  {
    var k := Offset(offset);
    FromPairInInput(input, pair, offset);
    StripOpeningInInput(FromPair(pair, offset), input, k);
    StripClosingInInput(StripOpening(FromPair(pair, offset)), input, k);
  }

  // ----- What trimming and stripping do to the value -----

  /** `[s]` and `{s}` are stored as `s`, one character further in at each end. */
  lemma {:induction false} WithoutBracketsStripsEnclosing(pair: Pair, offset: Option<nat>, s: string)
    requires |pair.text| == pair.end - pair.start
    requires pair.text == "[" + s + "]" || pair.text == "{" + s + "}"
    ensures WithoutBrackets(pair, offset).value == s
    ensures WithoutBrackets(pair, offset).position
         == Position(pair.start + Offset(offset) + 1, pair.end + Offset(offset) - 1)
  {
    var front := StripOpening(FromPair(pair, offset));
    assert front.value == s + [pair.text[|pair.text| - 1]];
    assert (s + [pair.text[|pair.text| - 1]])[..|s|] == s;
  }

  /** Moving only the start leaves an enclosed `[s]` or `{s}` one character
      longer than its value, where both ends moved place it exactly. */
  lemma {:induction false} StartOnlyMisplacesEnd(pair: Pair, offset: Option<nat>, s: string)
    requires |pair.text| == pair.end - pair.start
    requires pair.text == "[" + s + "]" || pair.text == "{" + s + "}"
    ensures var t := WithoutBracketsStartOnly(pair, offset);
      && t.value == s && t.position == Position(pair.start + Offset(offset) + 1, pair.end + Offset(offset))
      && !Consistent(t)
    ensures Consistent(WithoutBrackets(pair, offset))
  {
    WithoutBracketsStripsEnclosing(pair, offset, s);
    assert |pair.text| == |s| + 2;
    assert FromPair(pair, offset).value != s;
  }

  /** Moving only the start also moves it for a name that lost only its
      closing bracket, although nothing was removed in front. */
  lemma StartOnlyMovesUnstrippedStart(pair: Pair, offset: Option<nat>, s: string)
    requires |pair.text| == pair.end - pair.start
    requires pair.text == s + "]" && |s| > 0 && !IsOpeningBracket(s[0])
    ensures WithoutBracketsStartOnly(pair, offset).position == Position(pair.start + Offset(offset) + 1, pair.end + Offset(offset))
    ensures WithoutBrackets(pair, offset).position == Position(pair.start + Offset(offset), pair.end + Offset(offset) - 1)
    ensures WithoutBrackets(pair, offset).value == s
  {
    assert pair.text[0] == s[0];
    assert pair.text[..|pair.text| - 1] == s;
  }

  /** The type `{sometype}` at 7..17 with offset 10: the end stays at 27. */
  lemma StartOnlyTypeExample()
    ensures WithoutBracketsStartOnly(Pair(ParamType, 7, 17, "{sometype}", []), Some(10)).position == Position(18, 27)
    ensures WithoutBrackets(Pair(ParamType, 7, 17, "{sometype}", []), Some(10)).position == Position(18, 26)
  {
    var s := "sometype";
    assert "{sometype}" == "{" + s + "}";
    StartOnlyMisplacesEnd(Pair(ParamType, 7, 17, "{" + s + "}", []), Some(10), s);
  }

  /** A text with no bracket at either end is stored unchanged. */
  lemma WithoutBracketsKeepsBareText(pair: Pair, offset: Option<nat>)
    requires |pair.text| == pair.end - pair.start
    requires |pair.text| == 0 || (!IsOpeningBracket(pair.text[0]) && !IsClosingBracket(pair.text[|pair.text| - 1]))
    ensures WithoutBrackets(pair, offset) == FromPair(pair, offset)
  {
  }

  /** For a braced type `{...}` the bracket stripping of the newer code and the
      end trimming of the older code build the same text node. */
  lemma WithoutBracketsAgreesWithTrimEnds(pair: Pair, offset: Option<nat>)
    requires |pair.text| == pair.end - pair.start && |pair.text| >= 2
    requires pair.text[0] == '{' && pair.text[|pair.text| - 1] == '}'
    ensures WithoutBrackets(pair, offset) == NewTrimEnds(pair, offset)
  {
    var front := StripOpening(FromPair(pair, offset));
    assert front.value[..|front.value| - 1] == pair.text[1..|pair.text| - 1];
  }

  // ----- Offset law -----

  lemma FromPairOffsetLaw(pair: Pair, k: nat)
    ensures FromPair(pair, Some(k)) == ShiftText(FromPair(pair, None), k)
  {
  }

  lemma TrimContentStartCommutesWithShift(t: TextNode, prefix: string, k: nat)
    ensures TrimContentStart(ShiftText(t, k), prefix) == ShiftText(TrimContentStart(t, prefix), k)
  {
  }

  lemma WithoutBracketsOffsetLaw(pair: Pair, k: nat)
    requires |pair.text| == pair.end - pair.start
    ensures WithoutBrackets(pair, Some(k)) == ShiftText(WithoutBrackets(pair, None), k)
  {
  }
}
