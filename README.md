# liquid-doc-core AST builder, in Dafny

This project models the builder in liquid-doc-core that turns `{% doc %}`
comments into an AST. A PEG grammar engine (pest) first parses the comment
into a tree of rule-tagged spans. The builder walks that tree in order and
appends typed nodes to a `LiquidAST`:

- an implicit description, for the free text that comes first;
- explicit `@description` nodes;
- `@param` nodes, with an optional `{type}`, a name whose brackets decide
  `required`, and an optional description;
- `@example` nodes;
- plain text nodes.

Every node carries a `Position` into the parsed text, counted in characters
(see "Left out" for what that means for non-ASCII text). An optional
global offset is added to every position, so a comment that sits inside a
larger template reports positions in the enclosing file.

The model follows one consistent, offset-aware version of the code. The
repository holds two snapshots, `src/` and `parser/src/`, that have drifted
apart. For example, `src/parser.rs:33` passes an offset to a param
constructor that takes none. Where the two disagree, the model takes the
newer one. The older param constructor, which has no offset, is modelled on
its own and related to the newer one by a lemma.

Modules:

- `Wrappers`: `Option` and `Result`.
- `SyntaxTree`: the grammar's pairs. A pair has a rule, a span, the span's
  text and its inner pairs. `WellFormed` states what the engine guarantees:
  every child lies inside its parent, its text is the matching piece of the
  parent's text, and siblings come in source order. The builder's fatal
  conditions are listed in `BuildError`.
- `Positions`, `TextNodes`: positions, and text nodes with their slicing,
  prefix trimming and bracket stripping.
- `Ast`: the node kinds, the `LiquidNode` sum and the `LiquidAst` class,
  whose `AddNode` appends in place.
- `DescriptionNodes`, `ExampleNodes`, `ParamNodes`, `LegacyParamNodes`: one
  constructor module per node kind.
- `Parser`: the walk.
  - `Visit` and `ParseLiquidString` are methods over a `LiquidAst`.
  - They are proved against the specification functions `VisitSpec` and
    `VisitAll`.
- `WalkProperties`: what the walk guarantees about the nodes it emits.
- `Scenarios`: lemmas that prove what the builder makes of the repository's
  own test inputs.

A constructor that steps a cursor or trims a local in place is a `method`.
Each such method is proved equal to a specification function, and the
properties are proved about that function.

## Model

| member | source | states |
|---|---|---|
| Positions.FromPair | src/ast/position.rs:15-21 | a position is the pair's span plus the offset, at both ends |
| Positions.FromPairOrdered | src/ast/position.rs:15-21 | a position built from a span has `start <= end`, and its length is the span text's length |
| Positions.FromPairOffsetLaw | src/ast/position.rs:15-21 | a position built with offset `k` is the offset-free position moved by `k` |
| Positions.FromPairDependsOnSpanOnly | src/ast/position.rs:15-21 | two pairs with equal spans give equal positions |
| TextNodes.FromPairInInput | src/ast/text_node.rs:16-24 | `new`'s value is the input's text at the node's position, offset removed |
| TextNodes.FromPair | src/ast/text_node.rs:16-24 | the value and the source are the whole pair text, and the position is the pair's span plus the offset |
| TextNodes.NewFromIndices | src/ast/text_node.rs:27-39 | the value is `text[start..end]`; the source stays the whole pair text; the position is the span's start plus `start` and plus `end` (plus the offset), so it is exactly as long as the value; callers must give `start <= end <= len` |
| TextNodes.NewFromIndicesInInput | src/ast/text_node.rs:27-39 | the cut value is still the input's text at its position, which is `start`/`end` characters into the span |
| TextNodes.NewTrimEnds | src/ast/text_node.rs:41-43 | exactly one character is dropped at each end, and the start moves by one; the text must have at least two characters |
| TextNodes.TrimContentStart | src/ast/description_node.rs:44-45 | trimming a prefix removes it only if the value starts with it, moves the start by its length, and keeps the end and source; otherwise the node is unchanged |
| TextNodes.TrimContentStartInInput | src/ast/example_node.rs:39-40 | after trimming, the value is still the input's text at its position |
| TextNodes.StripOpening | parser/src/ast/doc_param_node.rs:55 | one leading `{`/`[` is removed and the start moves past it; the end and source are kept; a value without one is unchanged |
| TextNodes.StripClosing | parser/src/ast/doc_param_node.rs:55 | one trailing `}`/`]` is removed and the end moves back before it; the start and source are kept; the result's position is exactly as long as its value |
| TextNodes.WithoutBrackets | parser/src/ast/doc_param_node.rs:55-64 | the source is the pair text, and the position is exactly as long as the stripped value (the corrected behaviour, see Findings) |
| TextNodes.WithoutBracketsStartOnly | parser/src/ast/doc_param_node.rs:55-64 | the start-only reading of the absent body: the same value, with the end left at the end of the span |
| TextNodes.StartOnlyMisplacesEnd | parser/src/ast/doc_param_node.rs:55-64 | for `[s]` or `{s}` the start-only position is one character longer than the value `s`; the two-ended one fits it |
| TextNodes.StartOnlyMovesUnstrippedStart | parser/src/ast/doc_param_node.rs:64 | for `s]` the start-only position moves the start although nothing was removed in front; the two-ended one keeps it |
| TextNodes.StartOnlyTypeExample | parser/src/ast/doc_param_node.rs:55 | `{sometype}` at 7..17 with offset 10 ends at 27 when only the start moves, at 26 when both ends move |
| TextNodes.StripOpeningInInput | parser/src/ast/doc_param_node.rs:55 | dropping a leading bracket keeps the value equal to the input at its position |
| TextNodes.StripClosingInInput | parser/src/ast/doc_param_node.rs:55 | dropping a trailing bracket keeps the value equal to the input at its position |
| TextNodes.WithoutBracketsInInput | parser/src/ast/doc_param_node.rs:55-64 | a bracket-stripped type or name is the input's text at its position |
| TextNodes.WithoutBracketsStripsEnclosing | parser/src/ast/doc_param_node.rs:55-64 | `[s]` and `{s}` are stored as `s`, one character further in at each end |
| TextNodes.WithoutBracketsKeepsBareText | parser/src/ast/doc_param_node.rs:64 | a name with no bracket at either end is stored exactly as the pair's text node |
| TextNodes.WithoutBracketsAgreesWithTrimEnds | src/ast/doc_param_node.rs:38-39 | for a braced `{type}`, the newer bracket stripping and the older end trimming build the same node |
| TextNodes.FromPairOffsetLaw | src/ast/text_node.rs:16-24 | a text node built with offset `k` is the offset-free one moved by `k` |
| TextNodes.TrimContentStartCommutesWithShift | src/ast/example_node.rs:39-40 | trimming a prefix and moving by `k` commute |
| TextNodes.WithoutBracketsOffsetLaw | parser/src/ast/doc_param_node.rs:55-64 | bracket stripping commutes with moving by the offset |
| Ast.LiquidNode.TypeTag | parser/src/ast/liquid_ast.rs:10-18 | each variant's serialised `type` tag, each tag naming exactly one variant |
| Ast.TypeTagDiscriminates | parser/src/ast/liquid_ast.rs:10-18 | two nodes have the same `type` tag exactly when they are the same variant |
| Ast.AsTextNodeUnsafe | parser/src/ast/liquid_ast.rs:22-28 | returns the text node inside a `TextNode` variant; any other variant is outside the precondition, which is where the source panics |
| Ast.ShiftNodesAppend | tests/parity.test.js:145-158 | moving a list of nodes by `k` distributes over concatenation |
| Ast.LiquidAst.constructor | parser/src/ast/liquid_ast.rs:37-39 | a new AST has no nodes |
| Ast.LiquidAst.AddNode | parser/src/ast/liquid_ast.rs:41-43 | appends the node at the end, and earlier nodes are unchanged |
| Ast.LiquidAst.Head | parser/src/ast/liquid_ast.rs:46-48 | returns the first node; the AST must be non-empty |
| DescriptionNodes.ExplicitFrom | src/ast/description_node.rs:18-55 | fails exactly for a rule other than `descriptionNode`. Otherwise: name "description", not implicit, inline, position and source from the whole pair, content equal to the pair text minus a leading `"@description "`, starting after the marker and ending where the pair ends |
| DescriptionNodes.Explicit | src/ast/description_node.rs:34-55 | builds the content, trims it in place, and returns exactly `ExplicitFrom` |
| DescriptionNodes.Implicit | src/ast/description_node.rs:56-78 | fails for a rule other than `ImplicitDescription` or with no inner pair. Otherwise: implicit, inline, position and source from the outer pair, content equal to the first inner pair, untrimmed |
| DescriptionNodes.ExplicitOffsetLaw | src/ast/description_node.rs:44-52 | an explicit description built with offset `k` is the offset-free one with every position moved by `k` |
| DescriptionNodes.ImplicitOffsetLaw | src/ast/description_node.rs:66-75 | the same for implicit descriptions; failures do not depend on the offset |
| ExampleNodes.ExampleFrom | parser/src/ast/example_node.rs:17-43 | fails exactly for a rule other than `ExampleNode`. Otherwise: name "example", inline, content boxed as a text node equal to the pair text minus a leading `"@example "`, starting 9 characters in, after the marker, ending where the pair ends, with the pair text as source; position and source from the untrimmed pair |
| ExampleNodes.FromPair | parser/src/ast/example_node.rs:27-43 | builds the content, trims it in place, and returns exactly `ExampleFrom` |
| ExampleNodes.OffsetLaw | src/ast/example_node.rs:29-45 | an example built with offset `k` is the offset-free one with every position moved by `k` |
| ParamNodes.ParamFrom | parser/src/ast/doc_param_node.rs:42-60 | fails exactly when the rule is not `ParamNode`, when there is no inner pair, or when a type has no name after it; a wrong rule is reported as that rule |
| ParamNodes.TypeOf | parser/src/ast/doc_param_node.rs:50-59 | a type exists exactly when the first inner pair is a type; its source is that pair's text and its position is as long as its value |
| ParamNodes.DescriptionOf | parser/src/ast/doc_param_node.rs:66-72 | a description exists exactly when a pair follows the name and its text is not empty; it is that pair's text |
| ParamNodes.ParamFromFields | parser/src/ast/doc_param_node.rs:24-82 | name "param"; position and source from the whole pair; `required` from the raw name; name and type stored without brackets, the type present exactly when the first inner pair is a type; description present exactly when a further inner pair with non-empty text exists |
| ParamNodes.FromPair | parser/src/ast/doc_param_node.rs:42-82 | steps a cursor over the inner pairs and returns exactly `ParamFrom` |
| ParamNodes.RequiredFollowsBrackets | parser/src/ast/doc_param_node.rs:61-64 | `[s]` is not required and is stored as `s`; a name with no bracket at either end is required and stored as written |
| ParamNodes.NewCommutesWithShift | parser/src/ast/doc_param_node.rs:24-41 | building a node from moved parts equals moving the built node |
| ParamNodes.TypeOfOffsetLaw | parser/src/ast/doc_param_node.rs:53-55 | the type built with offset `k` is the offset-free type moved by `k` |
| ParamNodes.DescriptionOfOffsetLaw | parser/src/ast/doc_param_node.rs:66-72 | the description built with offset `k` is the offset-free one moved by `k` |
| ParamNodes.OffsetLaw | parser/src/ast/doc_param_node.rs:42-82 | a param node built with offset `k` is the offset-free one with every nested position moved by `k`; failures are the same |
| LegacyParamNodes.NameNodeFrom | src/ast/doc_param_name_node.rs:19-36 | fails exactly for a rule other than `paramName`. Otherwise: content is the whole unstripped text node of the pair (value, span and source), spans and source are the pair's, and `required` is false exactly when the text starts with `[` or ends with `]` |
| LegacyParamNodes.LegacyParamFrom | src/ast/doc_param_node.rs:24-68 | fails exactly for a wrong rule, no inner pair, a type shorter than two characters or with no pair after it, or a name pair of the wrong rule, each with its own error. On success: name "param", `locStart`/`locEnd` the span, source the pair text, type present exactly when the first inner pair is a type |
| LegacyParamNodes.New | src/ast/doc_param_node.rs:24-68 | advances the iterator once per field, and returns exactly `LegacyParamFrom` |
| LegacyParamNodes.LegacyParts | src/ast/doc_param_node.rs:36-54 | on success, the older node's type is the end-trimmed type pair (at least two characters long), its name node is built from the pair after the type, and its description is the next non-empty pair |
| LegacyParamNodes.LegacyParamErrors | src/ast/doc_param_node.rs:24-68 | which error each malformed param pair gives: `MissingInner` with no inner pair, `SliceOutOfRange` for a type shorter than two characters, `MissingParamName` for a type with nothing after it, `UnexpectedRule` for a name pair of another rule |
| LegacyParamNodes.LegacyTypeAgrees | src/ast/doc_param_node.rs:36-44 | for a braced type, the older end-trimmed type and the newer bracket-stripped type are the same text node, and both are absent together |
| LegacyParamNodes.LegacyDescriptionAgrees | src/ast/doc_param_node.rs:48-54 | both constructors take the same description, or both have none |
| LegacyParamNodes.LegacyHeaderAgrees | src/ast/doc_param_node.rs:24-68 | both constructors agree on source, name, span and `required`; the newer name is the older name text with its brackets stripped |
| LegacyParamNodes.LegacyAgreesWithCurrent | src/ast/doc_param_node.rs:24-68 | wherever the older constructor succeeds with a braced type, the newer one succeeds and agrees on source, name, span, `required`, type and description; the only difference is the stored name, which the newer code strips of brackets |
| Parser.VisitSpec | src/parser.rs:10-64 | a visit of any pair other than a document emits at most one node |
| Parser.VisitDocChild | src/parser.rs:28-54 | a doc node's child succeeds exactly as an example, a description, or a param that builds, and then emits exactly one node; prompt and fallback children are `unimplemented` failures |
| Parser.Visit | src/parser.rs:10-64 | on success appends exactly the nodes `VisitSpec` gives and reports no failure; otherwise reports `VisitSpec`'s failure; earlier nodes are never changed |
| Parser.VisitImplicit | src/parser.rs:22-27 | the implicit-description arm: appends the description unless its content is empty, or reports the failure |
| Parser.VisitChildren | src/parser.rs:16-21 | visits the inner pairs in order, and the AST grows by `VisitAll` of them, or stops at the first failure |
| Parser.VisitDocNode | src/parser.rs:28-54 | builds the one node the doc node's child stands for; on failure the AST is unchanged |
| Parser.ParseLiquidString | src/parser.rs:66-80 | the grammar's top-level pairs are well formed and matched against the input. A grammar failure gives no AST and no build failure. Otherwise a fresh AST holds exactly `VisitAll` of the top-level pairs, or the first build failure is reported and no AST is returned |
| Parser.VisitAllStep | src/parser.rs:18-20 | walking one more pair appends its visit's nodes, or fails with its error, or keeps the earlier failure |
| Parser.ErrorPropagates | src/parser.rs:18-20 | once a prefix of the pairs fails, the walk over all of them fails with that same error |
| Parser.DocChildOffsetLaw | src/parser.rs:28-54 | a doc node's child built with offset `k` is the offset-free one moved by `k` |
| Parser.VisitOffsetLaw | tests/parity.test.js:145-158 | a walk with offset `k` emits the offset-free nodes with every position, nested ones included, moved by `k`, and fails with the same errors |
| Parser.VisitAllOffsetLaw | src/parser.rs:10-21 | the same for a sequence of pairs |
| WalkProperties.VisitAllAppend | src/parser.rs:18-20 | walking `xs + ys` means walking `xs` and then `ys`; the first failure wins |
| WalkProperties.VisitAllSingle | src/parser.rs:18-20 | walking one pair is visiting it |
| WalkProperties.VisitAllParts | src/parser.rs:18-20 | the walk succeeds exactly when every pair's visit succeeds; it then emits exactly the nodes those visits emit |
| WalkProperties.DocumentEmitsOnlyChildren | src/parser.rs:16-21 | a `Document` emits no node of its own: a node is emitted exactly when one of its children emits it |
| WalkProperties.ImplicitDescriptionSuppressedIffEmpty | src/parser.rs:22-27 | an implicit description with an inner pair emits one description node when its content is non-empty, and nothing when it is empty; without an inner pair it fails |
| WalkProperties.TextSuppressedIffEmpty | src/parser.rs:56-61 | a text pair never fails; it emits its text node exactly when the text is non-empty |
| WalkProperties.UnknownRuleIsFatal | src/parser.rs:62 | any other top-level rule is an `unimplemented` failure |
| WalkProperties.DocNodeDispatch | src/parser.rs:28-54 | a doc node succeeds exactly for an example or description child, or for a param child that builds. It then emits exactly one node, of the variant matching the child; prompt and fallback children are `unimplemented` failures |
| WalkProperties.NoEmptyEmitted | src/parser.rs:22-61 | no emitted text node is empty, and no emitted implicit description has empty content |
| WalkProperties.OrderedAppend | src/parser.rs:25-59 | appending nodes that lie after the earlier ones keeps the list in source order |
| WalkProperties.DocChildAtSpan | src/parser.rs:32-44 | a doc node's child becomes exactly one node whose position is the child's span |
| WalkProperties.LeafOrdered | src/parser.rs:22-61 | a visit of any pair other than a document emits nodes inside the pair's span, in order |
| WalkProperties.VisitOrdered | src/parser.rs:10-64 | emitted nodes are in source order, each ending before the next starts, and all lie inside the visited span moved by the offset |
| WalkProperties.VisitAllOrdered | src/parser.rs:16-21 | the same for a sequence of pairs in source order |
| WalkProperties.ParamInInput | parser/src/ast/doc_param_node.rs:42-82 | the param's source, name, type and description are the input's text at their positions |
| WalkProperties.DocChildInInput | src/parser.rs:28-44 | every node a doc node's child builds holds the input's text at its positions |
| WalkProperties.LeafInInput | src/parser.rs:22-61 | a visit of any pair other than a document emits nodes whose texts are the input at their positions |
| WalkProperties.VisitFaithful | src/parser.rs:10-64 | every emitted node's texts are the input at their positions with the offset removed; no raw tag is ever emitted |
| WalkProperties.TopLevelFaithful | src/parser.rs:66-80 | every node of the top-level walk, which is what `ParseLiquidString` stores, holds the input's text at its positions |
| Scenarios.TypedParamDocument | parser/src/ast/doc_param_node.rs:93-118 | a document holding only `@param {ty} name` is one param node: type `ty`, the name as written, required, no description |
| Scenarios.TypedParamScenario | parser/src/ast/doc_param_node.rs:93-118 | `@param {sometype} requiredParamWithNoType` with offset 10 is that one node |
| Scenarios.TypedParamScenarioFields | parser/src/ast/doc_param_node.rs:93-118 | its type reads `sometype`, its name reads `requiredParamWithNoType` at characters 28-51, it is required, and it has no description |
| Scenarios.OptionalParamBuilt | parser/src/ast/doc_param_node.rs:145-169 | `@param {ty} [opt] - description` is not required; its name reads `opt` and its description reads `description` |
| Scenarios.OptionalParamScenario | parser/src/ast/doc_param_node.rs:145-169 | the source's optional-parameter test input with offset 10 |
| Scenarios.InlineExampleScenario | parser/src/ast/example_node.rs:53-68 | `@example simple inline example\n` with offset 10 gives inline content `simple inline example\n`, starting 9 characters after the node |
| Scenarios.ExplicitDescriptionScenario | src/ast/description_node.rs:102-120 | `@description kdkd\n` gives explicit, inline content `kdkd\n` |
| Scenarios.ImplicitDescriptionScenario | src/ast/description_node.rs:87-100 | leading `kdkd\n\n` gives an implicit, inline description with that content; an empty one emits nothing |

## Left out

- The pest grammar engine and `liquid.pest` are not part of this model. The tree it produces is an input, constrained by `WellFormed` and `Matches`. `ParseLiquidString` takes the grammar as a function parameter.
- Serde serialisation, `println!` debugging, the wasm, Ruby and JavaScript bindings, and the CLI are left out. They are I/O or foreign code.
- Panics (`assert!`, `expect`, `unwrap`, `unimplemented!`, `unreachable!`, slice out of range) are modelled as `BuildError` values, not as aborts. These panics are preconditions instead:
  - `AsTextNodeUnsafe` (`as_text_node_unsafe`) and `LiquidAst.Head` (`head`), which the source leaves to its callers;
  - `NewFromIndices` (`start <= end <= len`) and `NewTrimEnds` (at least two characters), the slicing panics of `new_from_indices` and `new_trim_ends`; the older param constructor's own call is checked and reported as `SliceOutOfRange`;
  - `WithoutBrackets` and `StripClosing` require a text exactly as long as its span (`Consistent`), which every well-formed pair meets; they stand for no panic of the source.
- `LiquidRawTagNode` has no construction logic in the source. It appears only as an opaque `RawTag` variant that the builder never builds.
- `TextNode::from_pair`, `without_brackets` and `trim_content_start` have no bodies among the files modelled. They are specified from their call sites and tests:
  - `from_pair` gives the whole span;
  - `trim_content_start` drops a prefix the value starts with and advances the start;
  - `without_brackets` drops one leading `{`/`[` and one trailing `}`/`]`; how it moves the position is under Findings.
- WithoutBrackets: the body of `without_brackets` is not part of this model, and only its call sites are. One reading of that absent body moves only the start, by one, whenever the value changed; that reading is `WithoutBracketsStartOnly`. The model uses the corrected version, which moves each end by the bracket removed there. These lemmas hold for the corrected version only: `WithoutBracketsStripsEnclosing` (its position), `StripClosingInInput`, `WithoutBracketsInInput`, `WithoutBracketsAgreesWithTrimEnds`, `LegacyAgreesWithCurrent` (the type), `ParamInInput`, `DocChildInInput`, `VisitFaithful` and `TopLevelFaithful` (the param name and type), and the type position in `Scenarios.TypedParamNode`. The model strips at most one bracket at each end.
- `required` is the negation of (starts with `[` OR ends with `]`), as `parser/src/ast/doc_param_node.rs:62` computes it. A name with only one of the two brackets is therefore optional too.
- `visit` answers prompt and fallback children with `unimplemented!`; the model reports them as `Unimplemented` failures, not as nodes.
- The older `TextNode` stores `loc_start`/`loc_end`. The model uses one `position` field for text nodes in both snapshots.
- The older param constructor is modelled without an offset, as its code has none. The call with an offset at `src/parser.rs:33` is modelled by the newer constructor.
- Rule names differ in case between the snapshots (`paramNode` and `ParamNode`). The model has one `Rule` per kind.
- `AsStr`, `Position(s, e)` (the source's `Position::new`) and the node `New` constructors are plain field copies. They have no contract of their own; their properties are stated through the functions that call them.
- `VisitAll`, the loop over sibling pairs, has no contract of its own: its properties are the lemmas `VisitAllSingle`, `VisitAllAppend`, `VisitAllParts` and `ErrorPropagates`, and `VisitChildren` and `ParseLiquidString` are proved against it.
- `usize` arithmetic is modelled with unbounded naturals. Positions in the source do not overflow as long as the offset plus the text's length fits in `usize`; `parse_liquid_string` is public and does not check a caller's offset near `usize::MAX`, where the source would overflow.
- Text is a sequence of characters, and positions count characters. The source's spans and string slices count UTF-8 bytes. `WellFormed` ties a pair's text length to its span, so the model covers ASCII input only; for text with multi-byte characters every theorem that requires `WellFormed` or `Matches` says nothing.

## Findings

| source | as written | input that shows it | evidently intended | confidence | as-written member | corrected member |
|---|---|---|---|---|---|---|
| parser/src/ast/doc_param_node.rs:55-64 | one reading of the absent body of `without_brackets` moves only the start of the position, by one, whenever stripping changed the value | the type `{sometype}` at 7..17 with offset 10 gets (18, 27) for the 8 characters of `sometype`; a name `s]` gets its start moved by one although nothing was removed in front | each end moves by the bracket removed there: (18, 26), and `s]` keeps its start | low, not executed; the body of `without_brackets` is not part of this model | TextNodes.StartOnlyMisplacesEnd | TextNodes.WithoutBracketsInInput |
