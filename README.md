# CGP lexical analysis core in Dafny

This project models the core of CGP's lexical analysis engine.

- **Rule compiler.** The `RegularExpressionNode(baseExpression, rule)` constructor turns a rule written in CGP's small regular-expression language into a node tree. The language has quoted literals, references to other named rules, concatenation, `|` alternation, `( … )` groups and `*` repetition.
- **Linker.** `Link` fills every reference of a tree through a key lookup.
- **Matcher.** `Capture` is a deterministic interpreter over the tree: ordered choice, and greedy repetition that never backtracks.
- **`RegularExpression`.** The named rule that owns a tree.
- **Token registry.** `LexicalToken` and `LexicalTokenDictionary`, the registry indexed by code and by key and kept in insertion order.
- **Sequence builder.** `ScannedTokenSequence` and `LexicalScanToken`: the loop that turns scanner results into a token sequence, and its rendering.

## Layout

- `errors.dfy`: the `Result`, `Status` and `Option` wrappers. A thrown exception becomes an `Err`/`Fail` carrying the exception's message.
- `text.dfy` (`Text`): `char.IsWhiteSpace` over ASCII and Latin-1, `String.Trim`, and what trimming keeps.
- `regex.dfy` (`RegEx`): the node datatype and the `RegularExpression` class.
  - The constructor's two passes are left folds (`Pass1Upto`, `Pass2Upto`) with the same branches as the source. `Parse` is the node tree or exception the constructor produces.
  - The loops themselves are methods proved equal to those folds: `ParseRule`, `SplitAlternatives`, `BuildSequence`, `SequenceChar` and `OutsideStringChar`.
  - `LinkNode` is the linking walk.
  - `Captured` is the matcher, with a fuel bound. `CaptureNode`, `CaptureSequence` and `RepeatCapture` are the matcher's loops, proved equal to it.
- `regex_parse.dfy` (`RegExParse`): what the compiler builds. It covers where pass 1 splits, what a literal, an identifier, a group and `*` become, and how brackets interact with whitespace and quotes in pass 2.
  - An unterminated quoted string is not rejected. As in the source, the rest of the rule after the quote becomes a literal (`UnterminatedLiteral`).
- `regex_link.dfy` (`RegExLink`): which references `Link` sets, where it stops, that it keeps the shape of the tree, and that it is idempotent.
- `regex_capture.dfy` (`RegExCapture`): literal matching, ordered choice, greedy repetition, the role of fuel, the two ways a capture diverges, and that a linked tree never throws.
- `lexical_token.dfy` (`LexicalTokens`): the `LexicalToken` and `LexicalScanToken` structs.
- `lexical_dictionary.dfy` (`LexicalDictionary`): the registry class. Its invariant keeps the two maps and the list in step, and `CreateExpressionReferences` links every expression in place.
- `lexical_sequence.dfy` (`LexicalSequence`): the sequence class. `CreateFrom` is proved equal to the function `ScanFrom`, and `ToString` equal to `Render`.

### Representation

- **Expressions are objects.** `RegularExpression` is a class with a `Key` and a `BaseNode`. A reference node holds the key and a `RegularExpression?` target, so self- and mutual references are real object references, as in the source.
  - `Link` assigns `BaseNode` in place.
  - The node tree itself is a value: the source only ever rebuilds or relinks it through its owner.
- **A node has one variant.** A node of the source has one meaningful variant: a literal, a reference, alternatives, or a sequence, whose children carry the zero-or-more flag. The datatype `Node` has exactly those four variants.
  - An empty `Seq` is the node with no variant. Capturing it throws "Unhandled regular expression rule".
- **Capture takes fuel.** `Capture` can run forever. The model's `Captured` therefore takes a fuel bound and returns `OutOfFuel` when the bound is exhausted. Fuel is spent by each nested call and each repetition of a starred element.

## Model

| member | source | states |
|---|---|---|
| Text.TrimStartSpec | CGP-Core/CGP-Core/RegEx/RegularExpressionNode.cs:197 | trimming the start drops a run of whitespace and keeps the rest, which then starts with a non-whitespace character |
| Text.TrimEndSpec | CGP-Core/CGP-Core/RegEx/RegularExpressionNode.cs:197 | trimming the end drops a trailing run of whitespace and keeps the beginning, which then ends with a non-whitespace character |
| Text.TrimSpec | CGP-Core/CGP-Core/RegEx/RegularExpressionNode.cs:123 | a trimmed string is empty or has no whitespace at either end |
| Text.TrimSlice | CGP-Core/CGP-Core/RegEx/RegularExpressionNode.cs:123 | a trimmed string is a contiguous slice of the original |
| Text.TrimKeeps | CGP-Core/CGP-Core/RegEx/RegularExpressionNode.cs:197-198 | every non-whitespace character survives trimming, so a piece holding one is never empty after `Trim` |
| Text.TrimKeepsAt | CGP-Core/CGP-Core/RegEx/RegularExpressionNode.cs:197-198 | a non-whitespace character survives trimming at its position shifted by the dropped prefix |
| Text.TrimIdempotent | CGP-Core/CGP-Core/RegEx/RegularExpressionNode.cs:221-224 | trimming twice (as the `(` branch does) equals trimming once |
| Text.TrimWhiteSpace | CGP-Core/CGP-Core/RegEx/RegularExpressionNode.cs:283-284 | a string made only of whitespace trims to empty, so it adds no token |
| RegEx.RegularExpression.Empty | CGP-Core/CGP-Core/RegEx/RegularExpression.cs:53-55 | the key is stored before the rule is parsed |
| RegEx.RegularExpression.Create | CGP-Core/CGP-Core/RegEx/RegularExpression.cs:53-57 | the new expression keeps the key, and its tree is the rule parsed with the expression itself as base; a rule that throws gives that message |
| RegEx.RegularExpression.Link | CGP-Core/CGP-Core/RegEx/RegularExpression.cs:63-66 | the key is unchanged and the base node is replaced by its linked tree; the status is the linking outcome |
| RegEx.RegularExpression.Capture | CGP-Core/CGP-Core/RegEx/RegularExpression.cs:74-77 | a finished capture returns -1 or a position not before `start` that, when it moved, lies within `end` and the text |
| RegEx.RegularExpression.CaptureAll | CGP-Core/CGP-Core/RegEx/RegularExpression.cs:85-88 | a capture of the whole text returns -1 or a position within the text |
| RegEx.Pass1Upto | CGP-Core/CGP-Core/RegEx/RegularExpressionNode.cs:104-170 | every cut piece is shorter than the prefix read, and an alternative was found exactly when a piece was cut |
| RegEx.AltPieces | CGP-Core/CGP-Core/RegEx/RegularExpressionNode.cs:171-173 | when the rule has a top-level bar character, each trimmed piece is strictly shorter than the rule (so recursive parsing terminates) |
| RegEx.MarkLast | CGP-Core/CGP-Core/RegEx/RegularExpressionNode.cs:210 | `*` sets the flag of the last element only; the others are unchanged |
| RegEx.Pass2ErrorPersists | CGP-Core/CGP-Core/RegEx/RegularExpressionNode.cs:206-209 | once pass 2 throws, the rest of the rule does not change the outcome |
| RegEx.ParseRule | CGP-Core/CGP-Core/RegEx/RegularExpressionNode.cs:101-289 | the constructor's two loops compute the tree (or exception) `Parse` defines |
| RegEx.ParseAlternatives | CGP-Core/CGP-Core/RegEx/RegularExpressionNode.cs:176-179 | the alternatives are parsed in order into the list, and the first that throws ends the constructor |
| RegEx.SplitAlternatives | CGP-Core/CGP-Core/RegEx/RegularExpressionNode.cs:104-173 | the first loop reports an alternative exactly when pass 1 does, and its pieces are `AltPieces` |
| RegEx.BuildSequence | CGP-Core/CGP-Core/RegEx/RegularExpressionNode.cs:183-287 | the second loop and the trailing token build `SequenceOf` |
| RegEx.SequenceChar | CGP-Core/CGP-Core/RegEx/RegularExpressionNode.cs:191-280 | one iteration of the second loop is one `Step2` |
| RegEx.OutsideStringChar | CGP-Core/CGP-Core/RegEx/RegularExpressionNode.cs:193-243 | the outside-string branches are `OutsideStep` |
| RegEx.StringMatches | CGP-Core/CGP-Core/RegEx/RegularExpressionNode.cs:315-325 | the span comparison loop computes `Matches` |
| RegEx.CaptureNode | CGP-Core/CGP-Core/RegEx/RegularExpressionNode.cs:332-392 | `Capture` with its loops computes `Captured` |
| RegEx.CaptureAlternatives | CGP-Core/CGP-Core/RegEx/RegularExpressionNode.cs:353-362 | the loop over alternatives computes `CapturedAlts` |
| RegEx.CaptureSequence | CGP-Core/CGP-Core/RegEx/RegularExpressionNode.cs:364-390 | the loop over sequence children computes `CapturedSeq` |
| RegEx.RepeatCapture | CGP-Core/CGP-Core/RegEx/RegularExpressionNode.cs:379-386 | the `while (cap != -1)` loop computes `Repeated` |
| RegEx.LiteralCapture | CGP-Core/CGP-Core/RegEx/RegularExpressionNode.cs:334-345 | a literal returns -1 or a reached position |
| RegEx.Captured | CGP-Core/CGP-Core/RegEx/RegularExpressionNode.cs:332-392 | with no fuel nothing finishes; a finished capture returns -1 or a position at or after `start`, within `end` and the text once it has moved |
| RegEx.CapturedAlts | CGP-Core/CGP-Core/RegEx/RegularExpressionNode.cs:355-361 | the result of an alternation is -1 or a reached position |
| RegEx.CapturedSeq | CGP-Core/CGP-Core/RegEx/RegularExpressionNode.cs:366-389 | the sequence result is -1 or a position reached from the start |
| RegEx.Repeated | CGP-Core/CGP-Core/RegEx/RegularExpressionNode.cs:381-385 | greedy repetition only moves forward and stays within `end` and the text |
| RegExParse.CutsAtSplits | CGP-Core/CGP-Core/RegEx/RegularExpressionNode.cs:120-126 | every piece pass 1 cuts ends at a bar outside strings at bracket depth 0 |
| RegExParse.SplitIsCut | CGP-Core/CGP-Core/RegEx/RegularExpressionNode.cs:120-126 | every bar outside strings at depth 0 ends a cut piece |
| RegExParse.CutsContiguous | CGP-Core/CGP-Core/RegEx/RegularExpressionNode.cs:120-169 | the cut pieces tile the rule: the first starts at 0, each next starts just after the bar ending the previous one |
| RegExParse.Pass1Track | CGP-Core/CGP-Core/RegEx/RegularExpressionNode.cs:114-165 | pass 1 follows the quote state machine (including the four characters after `\u`) and the bracket counter |
| RegExParse.Pass1Next | CGP-Core/CGP-Core/RegEx/RegularExpressionNode.cs:120-169 | a top-level bar character cuts the trimmed builder and is dropped; any other character is appended |
| RegExParse.Pass1Builder | CGP-Core/CGP-Core/RegEx/RegularExpressionNode.cs:166-169 | pass 1 is building the text since the last top-level bar |
| RegExParse.Pass1Cut | CGP-Core/CGP-Core/RegEx/RegularExpressionNode.cs:123 | a top-level bar character adds the trimmed text since the previous one |
| RegExParse.Pass1Pieces | CGP-Core/CGP-Core/RegEx/RegularExpressionNode.cs:123-124 | the versions pass 1 holds are the trimmed texts of the cut pieces, in source order |
| RegExParse.AltPiecesAre | CGP-Core/CGP-Core/RegEx/RegularExpressionNode.cs:171-173 | the alternatives are the trimmed cut pieces followed by the trimmed text after the last bar |
| RegExParse.HasAltIff | CGP-Core/CGP-Core/RegEx/RegularExpressionNode.cs:120-171 | the node becomes an alternation exactly when the rule has a bar outside strings at depth 0 |
| RegExParse.NoBarNoAlt | CGP-Core/CGP-Core/RegEx/RegularExpressionNode.cs:171-181 | a rule with no bar goes to pass 2 |
| RegExParse.ParseAltsAccLength | CGP-Core/CGP-Core/RegEx/RegularExpressionNode.cs:176-179 | one alternative node per piece, added after those already there |
| RegExParse.ParseAltsAccAt | CGP-Core/CGP-Core/RegEx/RegularExpressionNode.cs:176-179 | the `j`-th alternative node is the `j`-th piece compiled |
| RegExParse.ParseAltsAccFails | CGP-Core/CGP-Core/RegEx/RegularExpressionNode.cs:176-179 | an alternative that throws makes the whole rule throw |
| RegExParse.ParseAltsAccSucceeds | CGP-Core/CGP-Core/RegEx/RegularExpressionNode.cs:176-179 | when every piece compiles, the alternation compiles |
| RegExParse.AlternationCompiles | CGP-Core/CGP-Core/RegEx/RegularExpressionNode.cs:171-180 | a rule with a top-level bar character compiles iff each of its pieces does |
| RegExParse.Alternation | CGP-Core/CGP-Core/RegEx/RegularExpressionNode.cs:171-180 | such a rule compiles to an alternation with one child per piece, each that piece compiled, in source order, and no sequence |
| RegExParse.Sequence | CGP-Core/CGP-Core/RegEx/RegularExpressionNode.cs:181-288 | a rule without a top-level bar character compiles to a sequence |
| RegExParse.TrimQuoted | CGP-Core/CGP-Core/RegEx/RegularExpressionNode.cs:249 | trimming a quote followed by `s` keeps the quote and trims only the end of `s` |
| RegExParse.Pass2InString | CGP-Core/CGP-Core/RegEx/RegularExpressionNode.cs:244-276 | inside a string pass 2 only collects characters, following the quote state machine |
| RegExParse.LiteralRule | CGP-Core/CGP-Core/RegEx/RegularExpressionNode.cs:246-252 | a quoted string compiles to one literal holding everything between the quotes, escapes kept raw, trailing whitespace trimmed |
| RegExParse.Pass2Ident | CGP-Core/CGP-Core/RegEx/RegularExpressionNode.cs:277-280 | identifier characters are only collected |
| RegExParse.TrimIdent | CGP-Core/CGP-Core/RegEx/RegularExpressionNode.cs:283 | an identifier trims to itself |
| RegExParse.UnterminatedLiteral | CGP-Core/CGP-Core/RegEx/RegularExpressionNode.cs:283-287 | an unterminated quoted string is not an error: the trailing token becomes a literal holding everything after the quote, trailing whitespace trimmed |
| RegExParse.IdentifierRule | CGP-Core/CGP-Core/RegEx/RegularExpressionNode.cs:77-86 | a bare identifier compiles to a reference to that key, already resolved to the base expression when it is its own key, unresolved otherwise |
| RegExParse.StarredIdentifier | CGP-Core/CGP-Core/RegEx/RegularExpressionNode.cs:195-211 | `*` after an identifier sets that reference's zero-or-more flag |
| RegExParse.StarFirst | CGP-Core/CGP-Core/RegEx/RegularExpressionNode.cs:195-209 | in a rule not split into alternatives, a `*` outside strings preceded only by whitespace throws "'*' operator is not placed after group or token." |
| RegExParse.StarFirstInGroup | CGP-Core/CGP-Core/RegEx/RegularExpressionNode.cs:195-229 | the same exception when the `*` follows only whitespace and one opening bracket, since the bracket adds no element |
| RegExParse.StarMarksLast | CGP-Core/CGP-Core/RegEx/RegularExpressionNode.cs:195-210 | a final `*` after a completed element flags exactly the last element; the earlier ones keep their flags |
| RegExParse.StarredLiteral | CGP-Core/CGP-Core/RegEx/RegularExpressionNode.cs:195-252 | in `"x"*` the flag lands on the literal `x` |
| RegExParse.StarredGroup | CGP-Core/CGP-Core/RegEx/RegularExpressionNode.cs:195-241 | in `(y)*` the flag lands on the group holding the reference `y` |
| RegExParse.WholeSequence | CGP-Core/CGP-Core/RegEx/RegularExpressionNode.cs:283-287 | a rule pass 2 consumes completely compiles to the elements pass 2 split off |
| RegExParse.Pass2Close | CGP-Core/CGP-Core/RegEx/RegularExpressionNode.cs:232-242 | a `)` outside strings is handled by the bracket branch |
| RegExParse.GroupRule | CGP-Core/CGP-Core/RegEx/RegularExpressionNode.cs:225-241 | a rule that is one bracketed group whose text pass 2 only collects compiles the trimmed text recursively as a sub-rule, giving a sequence holding that node, or that sub-rule's error |
| RegExParse.GroupedIdentifier | CGP-Core/CGP-Core/RegEx/RegularExpressionNode.cs:225-241 | `(s)` for any identifier `s` compiles to a group holding the reference `s` |
| RegExParse.SpaceInGroup | CGP-Core/CGP-Core/RegEx/RegularExpressionNode.cs:195-241 | whitespace ignores brackets: `(x y)` compiles to the reference `x` followed by the group `y` |
| RegExParse.QuoteInGroup | CGP-Core/CGP-Core/RegEx/RegularExpressionNode.cs:232-252 | a closing quote ignores brackets: `("x")` compiles to the literal `x` followed by an empty group |
| RegExParse.EmptyRule | CGP-Core/CGP-Core/RegEx/RegularExpressionNode.cs:283-287 | the empty rule compiles to a node with no variant |
| RegExParse.QuoteInGroupCapture | CGP-Core/CGP-Core/RegEx/RegularExpressionNode.cs:364-391 | the empty group of `("a")` throws "Unhandled regular expression rule" when the matcher reaches it |
| RegExLink.FirstErrorAppend | CGP-Core/CGP-Core/RegEx/RegularExpressionNode.cs:296-303 | looking up two key lists in turn stops at the first list's failure, if any |
| RegExLink.FirstErrorChar | CGP-Core/CGP-Core/RegEx/RegularExpressionNode.cs:303 | lookups in order pass iff every key resolves; otherwise they fail with the message of the first key that throws |
| RegExLink.LinkStatus | CGP-Core/CGP-Core/RegEx/RegularExpressionNode.cs:294-304 | linking stops exactly at the first reference, in visiting order (alternatives, then sequence children, then the node itself), whose lookup throws |
| RegExLink.LinkPassesIff | CGP-Core/CGP-Core/RegEx/RegularExpressionNode.cs:294-304 | linking completes iff every reference key of the tree can be looked up |
| RegExLink.LinkKeepsShape | CGP-Core/CGP-Core/RegEx/RegularExpressionNode.cs:294-304 | linking changes only reference targets: literals, keys, shape and zero-or-more flags stay |
| RegExLink.LinkSetsAll | CGP-Core/CGP-Core/RegEx/RegularExpressionNode.cs:296-303 | a completed link sets every reachable reference, self-references included, to the lookup's result, without descending into referenced expressions |
| RegExLink.LinkIdempotent | CGP-Core/CGP-Core/RegEx/RegularExpressionNode.cs:294-304 | linking twice with the same lookup equals linking once, also after a walk that stopped early |
| RegExCapture.LiteralCaptureIff | CGP-Core/CGP-Core/RegEx/RegularExpressionNode.cs:315-345 | from a non-negative start a literal returns the start plus the literal's length iff it fits before `end` and the text spells it there, and -1 otherwise |
| RegExCapture.AltsFirstHit | CGP-Core/CGP-Core/RegEx/RegularExpressionNode.cs:353-360 | alternation returns the result of the first alternative that is not -1 |
| RegExCapture.AltsAllMiss | CGP-Core/CGP-Core/RegEx/RegularExpressionNode.cs:361 | alternation returns -1 when every alternative does |
| RegExCapture.OrderedChoice | CGP-Core/CGP-Core/RegEx/RegularExpressionNode.cs:353-362 | alternation is ordered, not longest-match: the alternation of `"a"` and `"ab"` captures one character of "ab" |
| RegExCapture.CaptureFuelMono | CGP-Core/CGP-Core/RegEx/RegularExpressionNode.cs:332-392 | the fuel bound only decides whether a capture finishes, never its result |
| RegExCapture.AltsFuelMono | CGP-Core/CGP-Core/RegEx/RegularExpressionNode.cs:355-361 | the same for alternatives |
| RegExCapture.SeqFuelMono | CGP-Core/CGP-Core/RegEx/RegularExpressionNode.cs:367-389 | the same for sequences |
| RegExCapture.RepeatFuelMono | CGP-Core/CGP-Core/RegEx/RegularExpressionNode.cs:381-385 | the same for repetition |
| RegExCapture.RepeatStopsAtMiss | CGP-Core/CGP-Core/RegEx/RegularExpressionNode.cs:379-386 | a starred element is reapplied until it fails: the end position is where the element returns -1 |
| RegExCapture.GreedyNoBacktrack | CGP-Core/CGP-Core/RegEx/RegularExpressionNode.cs:379-387 | repetition never backtracks: `"a"* "a"` does not match "aa" |
| RegExCapture.EmptyLiteralMatches | CGP-Core/CGP-Core/RegEx/RegularExpressionNode.cs:336-341 | the empty literal matches without moving |
| RegExCapture.EmptyStarDiverges | CGP-Core/CGP-Core/RegEx/RegularExpressionNode.cs:381-385 | `""*` loops forever: no fuel is enough |
| RegExCapture.EmptyStarSequenceDiverges | CGP-Core/CGP-Core/RegEx/RegularExpressionNode.cs:367-386 | a sequence starting with `""*` never finishes |
| RegExCapture.LeftRecursionDiverges | CGP-Core/CGP-Core/RegEx/RegularExpressionNode.cs:346-369 | a rule whose first element refers to itself never finishes |
| RegExCapture.UnlinkedThrows | CGP-Core/CGP-Core/RegEx/RegularExpressionNode.cs:346-349 | an unlinked reference throws "Expression requires linking" |
| RegExCapture.SoundNeverFaults | CGP-Core/CGP-Core/RegEx/RegularExpressionNode.cs:332-392 | once expressions are linked to one another and have no empty group, capturing from a non-negative start never throws |
| RegExCapture.AltsNeverFault | CGP-Core/CGP-Core/RegEx/RegularExpressionNode.cs:355-361 | the same for alternatives |
| RegExCapture.SeqNeverFaults | CGP-Core/CGP-Core/RegEx/RegularExpressionNode.cs:367-389 | the same for sequences |
| RegExCapture.RepeatNeverFaults | CGP-Core/CGP-Core/RegEx/RegularExpressionNode.cs:381-385 | the same for repetition |
| LexicalTokens.FromExpression | CGP-Core/CGP-Core/LexicalAnalysis/LexicalToken.cs:42-48 | key and expression as given, code 0, scanned text discarded |
| LexicalTokens.FromExpressionCode | CGP-Core/CGP-Core/LexicalAnalysis/LexicalToken.cs:55-61 | key, expression and code as given, scanned text discarded |
| LexicalTokens.FromKeyedExpression | CGP-Core/CGP-Core/LexicalAnalysis/LexicalToken.cs:93 | the key is the expression's own key; a null expression throws |
| LexicalTokens.CreateEmpty | CGP-Core/CGP-Core/LexicalAnalysis/LexicalToken.cs:55-105 | the given key and code, no expression, and scanned text discarded (`GenericCapture` set) as the three-argument constructor does |
| LexicalTokens.FromRule | CGP-Core/CGP-Core/LexicalAnalysis/LexicalToken.cs:68-87 | a fresh expression whose key is the token's key and whose tree is the rule compiled against itself; code as given (0 for the two-argument form); text discarded |
| LexicalTokens.LexicalScanToken.Key | CGP-Core/CGP-Core/LexicalAnalysis/LexicalScanToken.cs:22-28 | the key is the scanned token's key |
| LexicalTokens.NewScanToken | CGP-Core/CGP-Core/LexicalAnalysis/LexicalScanToken.cs:40-43 | token and scanned string stored unchanged, `None` (null) included |
| LexicalDictionary.LexicalTokenDictionary.constructor | CGP-Core/CGP-Core/LexicalAnalysis/LexicalTokenDictionary.cs:24-32 | an empty registry satisfies the registry invariant |
| LexicalDictionary.LexicalTokenDictionary.ByKey | CGP-Core/CGP-Core/LexicalAnalysis/LexicalTokenDictionary.cs:40-50 | returns a registered token with that key iff one exists; otherwise "Unexpected key" |
| LexicalDictionary.LexicalTokenDictionary.ByCode | CGP-Core/CGP-Core/LexicalAnalysis/LexicalTokenDictionary.cs:58-68 | returns a registered token with that code iff one exists; otherwise "Unexpected code" |
| LexicalDictionary.LexicalTokenDictionary.Add | CGP-Core/CGP-Core/LexicalAnalysis/LexicalTokenDictionary.cs:75-91 | fails with "Dictionary already contains token" iff the code or key is taken, then changing nothing; otherwise the token is indexed under both and appended last, its code as supplied, and both indexers return it; the invariant is kept |
| LexicalDictionary.LexicalTokenDictionary.GetTokens | CGP-Core/CGP-Core/LexicalAnalysis/LexicalTokenDictionary.cs:97-107 | a new array of every registered token exactly once, in insertion order |
| LexicalDictionary.LexicalTokenDictionary.GetExpression | CGP-Core/CGP-Core/LexicalAnalysis/LexicalTokenDictionary.cs:133-136 | the expression of the token with that key, or "Unexpected key" when none is registered |
| LexicalDictionary.LexicalTokenDictionary.Lookup | CGP-Core/CGP-Core/LexicalAnalysis/LexicalTokenDictionary.cs:145 | the linking delegate is `GetExpression` on every key |
| LexicalDictionary.LexicalTokenDictionary.CreateExpressionReferences | CGP-Core/CGP-Core/LexicalAnalysis/LexicalTokenDictionary.cs:141-147 | keys never change; the outcome is that of the first null expression or unknown key in token order; the trees afterwards are exactly `LinkedTrees` up to the token it stopped at (earlier expressions linked, that one linked as far as its walk got, every other one as before); when it finishes, every expression is linked and each of its references points to the registered expression |
| LexicalDictionary.LexicalTokenDictionary.LinkTokens | CGP-Core/CGP-Core/LexicalAnalysis/LexicalTokenDictionary.cs:143-146 | the loop over the tokens reports the first failure and leaves the trees of the tokens up to it linked and every other tree unchanged |
| LexicalDictionary.SyncedAppend | CGP-Core/CGP-Core/LexicalAnalysis/LexicalTokenDictionary.cs:88-90 | indexing a token with a new code and a new key under both and appending it keeps the three collections in step |
| LexicalDictionary.AllLinked | CGP-Core/CGP-Core/LexicalAnalysis/LexicalTokenDictionary.cs:143-146 | when every token's linking passed, every expression's tree has all its references set by the lookup |
| LexicalDictionary.LinkingPassed | CGP-Core/CGP-Core/LexicalAnalysis/LexicalTokenDictionary.cs:143-146 | when the loop finishes, every token had an expression whose linking passed |
| LexicalDictionary.StopIndexStatus | CGP-Core/CGP-Core/LexicalAnalysis/LexicalTokenDictionary.cs:143-146 | the loop passes iff it stops after the last token; otherwise it reports the null reference or the linking failure of the token it stopped at |
| LexicalDictionary.BeforeStop | CGP-Core/CGP-Core/LexicalAnalysis/LexicalTokenDictionary.cs:143-146 | every token before the one the loop stops at has an expression whose linking passes |
| LexicalDictionary.LinkedBefore | CGP-Core/CGP-Core/LexicalAnalysis/LexicalTokenDictionary.cs:143-146 | after the first n tokens, the expression of each of them holds its tree linked |
| LexicalDictionary.UnlinkedAfter | CGP-Core/CGP-Core/LexicalAnalysis/LexicalTokenDictionary.cs:143-146 | after the first n tokens, an expression none of them has keeps its tree |
| LexicalDictionary.NoExpressionLinksNothing | CGP-Core/CGP-Core/LexicalAnalysis/LexicalTokenDictionary.cs:143-146 | a token without an expression leaves every tree as it was |
| LexicalSequence.ScannedTokenSequence.constructor | CGP-Core/CGP-Core/LexicalAnalysis/ScannedTokenSequence.cs:28-31 | the given dictionary and no tokens |
| LexicalSequence.ScannedTokenSequence.Append | CGP-Core/CGP-Core/LexicalAnalysis/ScannedTokenSequence.cs:38-41 | exactly one entry added at the end; earlier entries and the dictionary unchanged |
| LexicalSequence.ScannedTokenSequence.CreateFrom | CGP-Core/CGP-Core/LexicalAnalysis/ScannedTokenSequence.cs:61-107 | the loop collects exactly the entries `ScanFrom` defines, or throws its error, for a fresh sequence on the given dictionary |
| LexicalSequence.ScannedTokenSequence.ToString | CGP-Core/CGP-Core/LexicalAnalysis/ScannedTokenSequence.cs:114-126 | the loop builds `Render` of the tokens |
| LexicalSequence.PrependPrepend | CGP-Core/CGP-Core/LexicalAnalysis/ScannedTokenSequence.cs:101-103 | appending entries in two steps equals appending them at once |
| LexicalSequence.ScanEntries | CGP-Core/CGP-Core/LexicalAnalysis/ScannedTokenSequence.cs:69-102 | no entry is an error or end sentinel; whitespace, tab and newline entries appear only when retained; an entry has scanned text iff its token keeps text, and that text is a non-empty piece of the input |
| LexicalSequence.ScanErrors | CGP-Core/CGP-Core/LexicalAnalysis/ScannedTokenSequence.cs:91-94 | a scan fails only with "Unable to find scannable token.", and cannot fail when the scanner never reports an error |
| LexicalSequence.ScanLength | CGP-Core/CGP-Core/LexicalAnalysis/ScannedTokenSequence.cs:64-103 | a scan has at most one entry per remaining character, so an empty text scans to nothing |
| LexicalSequence.RetainedAppend | CGP-Core/CGP-Core/LexicalAnalysis/ScannedTokenSequence.cs:70-90 | filtering by the retention flags distributes over concatenation |
| LexicalSequence.ScanRetention | CGP-Core/CGP-Core/LexicalAnalysis/ScannedTokenSequence.cs:70-90 | the retention flags only filter: a scan is the scan that retains everything, less the whitespace, tab and newline entries the flags drop |
| LexicalSequence.JoinedSnoc | CGP-Core/CGP-Core/LexicalAnalysis/ScannedTokenSequence.cs:119-123 | one more item is written after ", " |
| LexicalSequence.RenderJoined | CGP-Core/CGP-Core/LexicalAnalysis/ScannedTokenSequence.cs:114-126 | when every key is non-empty, the text is the items joined by ", " and is empty only for an empty sequence |
| LexicalSequence.RenderEmptyKey | CGP-Core/CGP-Core/LexicalAnalysis/ScannedTokenSequence.cs:119-120 | the separator depends on the text so far: after a first item with an empty key and no scanned text, no ", " is written |

## Left out

- `Program.cs` is not part of this model. It is command-line handling, file enumeration and console output, and it calls `Analysis`, which is not among the modelled files.
- `ImportFile` reads a file, and `Import` only throws "Not implemented."; neither is modelled.
- `ScanNext`, `KeepWhitespaceTokens`, `KeepTabTokens`, `KeepNewlineTokens`, the built-in pseudo-tokens and any character-class tokens have no definition in the modelled files. `ScanNext` is the parameter `scan` of `CreateFrom`, and the three flags are the parameter `keep`. No longest-match scanner is modelled.
- LexicalSequence.ScannedTokenSequence.CreateFrom: requires the scanner to advance (`Advances`): each non-sentinel result starts at or after the current index, is non-empty and ends inside the text. With a scanner that does not advance, the source loops forever or throws from `Substring`; that behaviour is not modelled. The requirement also excludes a scanner step that skips characters and returns an empty token (`at < from == next`). The source appends an empty substring there and carries on from `next`, but the model states nothing about such a scanner.
- Text.IsWhiteSpace: covers only the ASCII and Latin-1 characters of `char.IsWhiteSpace`. The other Unicode separators are not classified as whitespace.
- RegEx.Captured: takes a fuel bound and returns `OutOfFuel` when the bound runs out. A capture the source never finishes is `OutOfFuel` for every fuel, as `EmptyStarDiverges` and `LeftRecursionDiverges` show. A stack overflow of a finishing but very deep capture is not modelled.
- Exceptions are `Err`/`Fail` values carrying the exception's message. Where the source has already changed state before it throws, the model keeps those changes: the expressions `CreateExpressionReferences` linked before the failing token stay linked.
- `LinkedList` identity and the aliasing of struct copies are not modelled: lists are sequences and structs are datatypes. `RegularExpression` objects keep their identity, because references point at them.
- The registry does not assign codes at registration. `Add` rejects a code that is already taken and otherwise keeps the caller's code. The model follows the code, so it states no sequential code numbering.
- RegEx.Matches: positions and lengths are unbounded integers. The source adds 32-bit `int`s: `start1 + length` in `StringMatches` and `start + CharacterSequence.Length` in `Capture` wrap around near `int.MaxValue`, so a huge `start` passes the bounds check and `text1[start1+i]` throws "Index was outside the bounds of the array.". The model does not wrap, so for such a start it returns no match (-1) instead of that exception.
- RegEx.LiteralCapture: strings are sequences of Unicode scalar values, but C# `string.Length` and `text[i]` count UTF-16 code units. For text outside the Basic Multilingual Plane, every position the model computes is smaller than the source's: `Captured`, `Repeated`, `CapturedSeq`, the `from`/`next` indices `ScanFrom` slices with, and the four characters after `\u` in pass 1. For example, the one-character literal U+1F600, captured from position 0 in the text U+1F600 followed by `a`, ends at 1 in the model and at 2 in the source. A string that holds a lone surrogate, which C# allows, cannot be represented.
- The index bounds of `Capture(text, start, end)` with a negative `start`: `StringMatches` throws "Index was outside the bounds of the array." there, and the model keeps that error. The properties of `RegExCapture` assume a non-negative start.
