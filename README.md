# ConditionalChoices condition engine, modelled in Dafny

ConditionalChoices is an RPG Maker plugin that lets a `Show Choices` caption
carry two conditions: a `<dis>…</dis>` region, which greys the choice out when
its expression holds, and a `<hide>…</hide>` region, which removes the choice
from the list. For every choice the plugin does four things:

1. It cuts the regions out of the caption (`Choice.parseAll`).
2. It compiles each region's text into an expression tree (`Choice.parse`, with
   `findMatchingParentheses` and the precedence scanner `lowestPrecedence`).
3. It evaluates the trees against the game variables (`Choice.interp`).
4. It rewrites the choice list (`updateChoicesState`, `previewChoicesState`).

The repository holds two versions of this engine:

- `js/plugins/ConditionalChoices.js`, called `Main` in the model. Its parser
  splits at the operator of lowest precedence. It compares with
  `===`/`!==` and has `**`.
- `js/plugins/ConditionalChoicesTests.js`, called `Early`. Its parser stops at
  the first operator it meets. Its `findMatchingParentheses` overruns by one
  less. It compares with loose `==`. It also carries the developer's
  `console.assert` tests 0–13.

The project models both versions and proves the following:

- the behaviour of the matcher, the scanner, both parsers, the evaluator and
  the tag extraction;
- the list resolvers, as loops proved against a specification of the list
  they return;
- every developer test, as a lemma over both versions.

Files (one module each):

| file | module | models |
|---|---|---|
| strings.dfy | JsString | `trim`, `indexOf`, `includes`, `slice`, `replace` (first occurrence) |
| syntax.dfy | Syntax | tokens, the precedence table, `Expr` trees, `Value` |
| parens.dfy | Parens | `findMatchingParentheses` of the later version |
| scanner.dfy | Scanner | `lowestPrecedence` |
| parser.dfy | Parser | `Choice.parse` of the later version |
| early.dfy | Early | `Choice.parse` and `findMatchingParentheses` of the earlier version |
| interp.dfy | Interp | `Choice.interp` of both versions |
| equality.dfy | Equality | `Expr.equals` |
| tags.dfy | Tags | the region search and the label text of `Choice.parseAll` |
| choices.dfy | Choices | the `Choice` class, `run`, and both resolvers |
| scenarios.dfy | Scenarios | both parsers on `a op b` shapes with words and groups |
| tests.dfy | DevTests | the developer tests 0–13 |

Numbers are `real`. Number literals are an optional sign, decimal digits and
an optional fraction. `+ - *` are exact. `/` fails on a zero divisor. `**` is
exact for integer exponents and fails otherwise. The game-variable lookup
`$gameVariables.value` is the parameter `vars: real -> real`.

The caption of `updateChoicesState` is the `name` of a `Command`; the caption
of `previewChoicesState` is a plain string. Each resolver is a loop that marks
the hidden positions and then a loop that splices them out, last first. Both
are proved to return `Visible(...)`: the entries that are not hidden, in their
original order, each with its stripped caption (and for commands, `enabled`
set to the negated disable flag).

## Model

| member | source | states |
|---|---|---|
| Parens.FindMatchingParentheses | js/plugins/ConditionalChoices.js:206-219 | the counting loop returns `MatchParen(s, start)` |
| Parens.MatchParenIsFirstZero | js/plugins/ConditionalChoices.js:206-219 | `MatchParen(s, start) == r` exactly when the depth stays positive strictly between `start` and `r` and is zero at `r` (or `r` is the length: no match) |
| Parens.MatchParenCloses | js/plugins/ConditionalChoices.js:214-218 | from a `(`, a match inside the text is a `)` and the span it closes is balanced |
| Parens.MatchNested | js/plugins/ConditionalChoices.js:214-218 | the match of a `(` nested inside a group lies inside that group |
| Scanner.LowestPrecedence | js/plugins/ConditionalChoices.js:314-342 | the while loop with its parenthesis jumps returns `LowestSplit(s)` |
| Scanner.LowestSplitSpec | js/plugins/ConditionalChoices.js:318-340 | the scan finds no split exactly when it visits no operator (it jumps over groups and over the second character of a two-character key); otherwise it returns the last visited occurrence of minimal precedence |
| Scanner.OccurrencesPlaced | js/plugins/ConditionalChoices.js:319-337 | every occurrence the scan visits spells its operator at its position and lies outside every parenthesised span |
| Scanner.SubtractionSplitsAtLast | js/plugins/ConditionalChoices.js:333-337 | `8-3-2` splits at the last `-` |
| Scanner.PowerSplitsAtLast | js/plugins/ConditionalChoices.js:326-331 | `2**3**2` splits at the last `**`: the `"**"` exemption never applies |
| Scanner.TwoCharacterKeyFirst | js/plugins/ConditionalChoices.js:326-333 | in `5>=6` the two-character `>=` is taken at index 1, not `>` |
| Parser.EmptyIsZero | js/plugins/ConditionalChoices.js:277-280 | empty or blank text parses to the number 0 |
| Parser.ParseDigits | js/plugins/ConditionalChoices.js:280 | a non-empty run of decimal digits parses to the number it spells |
| Parser.ParenElision | js/plugins/ConditionalChoices.js:277-285 | `(t)` with balanced `t` parses as `t` with its first `not` turned into `!`: the inside goes through the `not` rewrite twice, once inside the group and once on its own |
| Parser.PlainParenElision | js/plugins/ConditionalChoices.js:281-285 | `(t)` with balanced `t` that holds no `not` parses exactly as `t` |
| Parser.OperatorSplit | js/plugins/ConditionalChoices.js:288-299 | at a `!` split the node is `Not` of the trimmed rest; at a binary split it is `Binary` of the trimmed texts before and after; both texts are strictly shorter |
| Parser.BinarySplit | js/plugins/ConditionalChoices.js:295-299 | text that normalizes to itself and splits at a binary operator gives `Binary` of its trimmed sides |
| Parser.BangNegation | js/plugins/ConditionalChoices.js:277-294 | text whose normal form is `!` then operator-free text parses to `Not` of the trimmed rest |
| Parser.DoubleBang | js/plugins/ConditionalChoices.js:290-294 | text whose normal form is `!`, plain text, `!`, plain text parses to `Not` of the trimmed text after the second `!`: the scan keeps the later of the two and the first `!` is dropped |
| Parser.VarReference | js/plugins/ConditionalChoices.js:302-306 | `\v[digits]` and `\V[digits]` parse to `Var` of the number the digits spell |
| Parser.OperatorFreeLeaf | js/plugins/ConditionalChoices.js:302-310 | an operator-free leaf is a `Var` exactly when it is a variable reference; any other is `Undefined` |
| Parser.AsWrittenNoOperatorRecursesOnItself | js/plugins/ConditionalChoices.js:288-298 | as written, "no operator" slices the operator `""` and gives the unchanged text as both operands |
| Parser.AsWrittenAgreesWhenFound | js/plugins/ConditionalChoices.js:290-298 | when an operator is found, the source's slices are its symbol and the trimmed sides the model uses |
| Interp.NeIsNotEq | js/plugins/ConditionalChoices.js:359-360 | `!=` succeeds exactly when `==` does, is its negation, and fails with the same error |
| Interp.LooseEqualityDiffersOnlyAcrossTypes | js/plugins/ConditionalChoicesTests.js:337 | loose `==` agrees with strict `===` on values of one type; across types `===` is false and `==` compares the numbers |
| Interp.ErrorsPropagate | js/plugins/ConditionalChoices.js:349-368 | an operand's evaluation error passes through `!` and through every supported binary operator to the root (where the source would compute on with `undefined`) |
| Interp.EvalReadsOnlyItsVariables | js/plugins/ConditionalChoices.js:349-368 | evaluation depends only on the variables the tree reads at its literal indices |
| Interp.EvalWellTyped | js/plugins/ConditionalChoices.js:349-368 | a well-typed tree evaluates to a value of its type, or fails only on a zero divisor or an inexact power |
| Equality.ExprEqualsIsEquality | js/plugins/ConditionalChoices.js:392-397 | `Expr.equals` holds exactly when the trees are equal |
| Equality.FieldsDetermineNode | js/plugins/ConditionalChoices.js:386-390 | a node's operand and two child slots determine the tree |
| Tags.RegionLocated | js/plugins/ConditionalChoices.js:247-250 | the region's start and end are the first open marker and the first close marker after it, and its raw text lies between them |
| Tags.NoRegion | js/plugins/ConditionalChoices.js:247-273 | a caption without a complete region keeps its text and has no expressions |
| Tags.DisableOnly | js/plugins/ConditionalChoices.js:261-262 | a single disable region is cut out; its inside becomes the disable text |
| Tags.HideOnly | js/plugins/ConditionalChoices.js:263-264 | a single hide region is cut out; its inside becomes the hide text |
| Tags.DisableThenHide | js/plugins/ConditionalChoices.js:265-268 | with the disable region first, the text is the three outside pieces in order |
| Tags.HideThenDisable | js/plugins/ConditionalChoices.js:269-272 | with the hide region first, the text is the three outside pieces in order |
| Choices.Choice.constructor | js/plugins/ConditionalChoices.js:238-242 | a new choice has the caption as text, both flags false and no expressions |
| Choices.Choice.CompileText | js/plugins/ConditionalChoices.js:251 | compiles with the parser of its version |
| Choices.Choice.ParseAll | js/plugins/ConditionalChoices.js:244-274 | the new text is the extracted label; a region found replaces its expression field; the flags are unchanged |
| Choices.Choice.InterpAll | js/plugins/ConditionalChoices.js:344-347 | each stored expression's value replaces its flag; the rest is unchanged |
| Choices.Choice.Run | js/plugins/ConditionalChoices.js:370-373 | `parseAll` then `interpAll` |
| Choices.FindRegion | js/plugins/ConditionalChoices.js:245-250 | the `includes`/`indexOf`/`slice` steps compute `Locate` |
| Choices.Resolve | js/plugins/ConditionalChoices.js:177-178 | a fresh choice that runs ends in `Resolution(d, caption, vars)` |
| Choices.PlainLabel | js/plugins/ConditionalChoices.js:244-274 | a caption without a complete region is unchanged, and neither flag is set |
| Choices.DisableRegion | js/plugins/ConditionalChoices.js:244-274 | a disable region is cut out and its expression's value is the disable flag |
| Choices.HideRegion | js/plugins/ConditionalChoices.js:244-274 | a hide region is cut out and its expression's value is the hide flag |
| Choices.BothRegions | js/plugins/ConditionalChoices.js:244-274 | with both regions, in either order, the label is the outside pieces and each flag is its own region's value |
| Choices.SpliceOut | js/plugins/ConditionalChoices.js:184-186 | splicing the listed positions out, last first, leaves exactly the entries at unlisted positions |
| Choices.MarkEntries | js/plugins/ConditionalChoices.js:174-182 | the first loop rewrites each entry's name and `enabled` and lists exactly the hidden positions, ascending |
| Choices.UpdateChoicesState | js/plugins/ConditionalChoices.js:173-188 | returns the entries that are not hidden, in order, each renamed and enabled unless disabled |
| Choices.MarkCaptions | js/plugins/ConditionalChoices.js:191-198 | the first loop replaces each caption by its label and lists exactly the hidden positions, ascending |
| Choices.PreviewChoicesState | js/plugins/ConditionalChoices.js:190-204 | returns the labels of the captions that are not hidden, in order |
| Choices.PreviewMatchesUpdate | js/plugins/ConditionalChoices.js:160-168 | the preview's labels are the names of the updated list |
| Choices.VisibleMembers | js/plugins/ConditionalChoices.js:173-204 | an entry is in the result exactly when it is the update of an entry that is not hidden |
| Choices.VisibleKeepsOrder | js/plugins/ConditionalChoices.js:173-204 | two surviving entries keep their relative order |
| Early.EarlyFindMatchingParentheses | js/plugins/ConditionalChoicesTests.js:351-364 | the counting loop returns `EarlyMatchParen(s, start)` |
| Early.EarlyMatchOverrun | js/plugins/ConditionalChoicesTests.js:351-364 | the earlier matcher agrees with the later one when a match exists, and returns the length minus one when none does |
| Early.ParseEarly | js/plugins/ConditionalChoicesTests.js:265-320 | the scanning `parse` returns `EarlyParse(raw)` |
| Early.FindStop | js/plugins/ConditionalChoicesTests.js:289-318 | the `while` loop stops where `EarlyStop` says |
| Early.EarlyStopIsFirst | js/plugins/ConditionalChoicesTests.js:289-318 | the scan runs to the end exactly when no position stops it, and otherwise stops at the first position that does |
| Early.EarlyFirstOperatorWins | js/plugins/ConditionalChoicesTests.js:300-313 | text whose first stop is a binary operator gives `Binary` of the trimmed sides |
| Early.EarlyNegationFirst | js/plugins/ConditionalChoicesTests.js:292-299 | text whose first stop is `!` or `not` gives `Not` of the trimmed rest |
| Early.EarlyLeadingGroup | js/plugins/ConditionalChoicesTests.js:278-285 | a leading group that is not the whole text is the left operand of the first operator after it |
| Early.EarlyParenElision | js/plugins/ConditionalChoicesTests.js:278-281 | `(t)` with balanced `t` parses as `t` |
| Early.EarlyEmptyIsZero | js/plugins/ConditionalChoicesTests.js:274-277 | empty or blank text parses to the number 0 |
| Early.EarlyDigits | js/plugins/ConditionalChoicesTests.js:277 | digits parse to the number they spell |
| Early.EarlyVarReference | js/plugins/ConditionalChoicesTests.js:287-315 | `\v[digits]` and `\V[digits]` parse to `Var` of the number the digits spell, as in the later version |
| Scenarios.MainWords | js/plugins/ConditionalChoices.js:288-299 | `a op b` with operator-free words splits into `Binary(op, Parse(a), Parse(b))` |
| Scenarios.MainRightGroup | js/plugins/ConditionalChoices.js:281-299 | `a op (i)` splits at the operator and the group parses as its inside |
| Scenarios.MainGroups | js/plugins/ConditionalChoices.js:281-299 | `(l) op (r)` splits at the operator and both groups parse as their insides |
| Scenarios.MainBangGroup | js/plugins/ConditionalChoices.js:281-294 | `!(i)` with balanced, `n`-free `i` parses to `Not` of the parse of `i`: the scan jumps over the group and splits at the `!` |
| Scenarios.EarlyWordLeft | js/plugins/ConditionalChoicesTests.js:300-319 | the earlier parser reads `a op r` as `Binary(op, a, r)` for any trimmed `r`: the right side takes the rest |
| Scenarios.EarlyGroupLeft | js/plugins/ConditionalChoicesTests.js:278-319 | the earlier parser reads `(l) op r` as `Binary(op, l, r)` |
| DevTests.Test0 | js/plugins/ConditionalChoicesTests.js:392-396 | `findMatchingParentheses("(())()", 0)` is 3 in both versions |
| DevTests.Test1 | js/plugins/ConditionalChoicesTests.js:398-406 | tree `[true]`, label `choice`, disabled true |
| DevTests.Test2 | js/plugins/ConditionalChoicesTests.js:408-416 | tree `["!", false]`, label `choice`, disabled true |
| DevTests.Test2x1 | js/plugins/ConditionalChoicesTests.js:418-426 | `not false` gives `["!", false]`, disabled true |
| DevTests.Test2x2 | js/plugins/ConditionalChoicesTests.js:428-436 | `true \|\| false` gives the `\|\|` tree, disabled true |
| DevTests.Test2x3 | js/plugins/ConditionalChoicesTests.js:438-446 | `true && true` gives the `&&` tree, disabled true |
| DevTests.Test2x4 | js/plugins/ConditionalChoicesTests.js:448-456 | `true && false` gives the `&&` tree, disabled false |
| DevTests.Test2x5 | js/plugins/ConditionalChoicesTests.js:458-466 | `true \|\| (false \|\| true)` nests to the right, disabled true |
| DevTests.Test3 | js/plugins/ConditionalChoicesTests.js:468-476 | `5 > 6`: label ` choice`, disabled false |
| DevTests.Test4 | js/plugins/ConditionalChoicesTests.js:478-486 | `5 < 6`: disabled true |
| DevTests.Test5 | js/plugins/ConditionalChoicesTests.js:488-506 | `5 >= 6` (tests 5 and 6): disabled false |
| DevTests.Test7 | js/plugins/ConditionalChoicesTests.js:508-516 | `5 >= (2*8)` gives `[">=", 5, ["*", 2, 8]]`, disabled false |
| DevTests.Test8 | js/plugins/ConditionalChoicesTests.js:518-525 | `(1+2) >= (2*(3-3))` gives the expected tree, disabled true |
| DevTests.Test9 | js/plugins/ConditionalChoicesTests.js:527-532 | a caption without tags is unchanged |
| DevTests.Test10 | js/plugins/ConditionalChoicesTests.js:534-539 | an empty region is cut out and evaluates to 0, which disables nothing |
| DevTests.Test11 | js/plugins/ConditionalChoicesTests.js:541-553 | both region orders give the label `testchoice` (tests 11 and 12) |
| DevTests.Test13 | js/plugins/ConditionalChoicesTests.js:555-563 | `5 == 6`: disabled false |
| DevTests.DoubleBangTrue | js/plugins/ConditionalChoices.js:288-294 | `!!true` is `["!", true]`, which is false, in the later version, and a double negation, which is true, in the earlier one |
| DevTests.NotNotGroup | js/plugins/ConditionalChoices.js:277-285 | `not not true` negates twice in both versions; `(not not true)` negates only once in the later version |
| DevTests.NegatedModulo | js/plugins/ConditionalChoices.js:344-368 | `<dis>!(5 % 2)</dis>x` leaves `x`, the disable flag is the `Unsupported(Mod)` error, and the choice is not disabled |

Each developer test is stated for both versions (`d: Dialect`) and for any
variable table: the compiled tree is the one the test builds (under
`ExprEquals`), and running the caption gives the label and flag the test
asserts.

Three conditions do not mean what JavaScript would make of them:

- `!!true`: the later scan keeps the last of several `!` and the `!` branch
  reads only the text after it, so the condition is `!true`, false
  (`Parser.DoubleBang`, `DevTests.DoubleBangTrue`). The earlier version stops
  at the first `!` and gives true.
- `(not not true)`: `parse` rewrites the first `not` both of the whole text
  and of the group's inside, so inside parentheses two `not` become two `!`,
  which then collapse as in `!!true` (`Parser.ParenElision`,
  `DevTests.NotNotGroup`).
- `!(5 % 2)`: `interp` returns `undefined` for `%`, and `!undefined` is true
  in the source. The model's evaluation error does not behave as `undefined`
  (see "Left out"), so this choice stays enabled here
  (`DevTests.NegatedModulo`).

## Findings

| source | as written | input that shows it | evidently intended | confidence | as-written member | corrected member |
|---|---|---|---|---|---|---|
| js/plugins/ConditionalChoices.js:290 | `if (nextOpId)` tests an array, which is always truthy, so "no operator" also takes the operator branch, with operator `""` and the whole text as both operands; `parse` then calls itself on the same text | `\v[3]` | take the operator branch only when an operator was found, so that `\v[3]` reaches the variable branch and parses to `["var", 3]` | not executed | Parser.AsWrittenNoOperatorRecursesOnItself | Parser.VarReference |

`Parser.Parse`, through `Parser.ParseNormal`, tests "an operator was found" (`LowestSplit(text).Some?`).
`Parser.AsWrittenAgreesWhenFound` shows that this matches the source whenever
an operator is found.

## Left out

- The window patches (`updatePlacement`, `makeCommandList`, `drawItem`) are UI code of the host engine. The resolvers are modelled, and `PreviewMatchesUpdate` relates them as `makeCommandList` and `updatePlacement` use them.
- `$gameVariables` is the parameter `vars`. `.clone()` is a value copy, because lists are sequences.
- `console.error` and `console.log` are logging only.
- The `console.assert` test runner is restated as lemmas.
- `isNaN` and `Number` on other text (hex, exponents, `Infinity`) are not modelled. Such text is not numeric here.
- IEEE-754 arithmetic is not modelled. Division by zero and non-integer powers are evaluation errors instead of infinities and NaN.
- JavaScript truthiness is kept where the source relies on it:
  - `!`, `||`, `&&` and the stored flags.
  - Mixed-type `<`, `+` and the rest go through `ToNumber`.
- Interp.Eval: an evaluation error is not JavaScript's `undefined`. The source goes on computing with `undefined` as a value: `!undefined` is true, `undefined || x` is `x`, `undefined === undefined` is true. Here an error passes through every operator to the root (`Interp.ErrorsPropagate`), and a stored error counts as false. The flag can therefore differ from the source's: `<dis>!(5 % 2)</dis>x` is greyed out by the source and stays enabled here (`DevTests.NegatedModulo`). Modelling `undefined` as a value would also need NaN, which the number model leaves out.
- `%` has no case in `interp`, and in the earlier version neither do `!=` and `**`. Such a node is an `Unsupported` error where the source returns `undefined`; the line above says how the two differ.
- Tags.Extract: captions whose close marker comes only before its open marker, and nested or overlapping regions, are not described by lemmas. The region lemmas require the pieces to contain no marker (`Free`). `Extract` itself is total and follows the source's `indexOf`/`slice` arithmetic.
- Choices.UpdateChoicesState: the entries are a `seq` of `Command` values rewritten slot by slot. Aliasing between the list and other references to its objects is not modelled.
- Choices.MarkEntries: takes the resolution of a caption as a function value `run`, so that the loop is proved once for any resolution. `UpdateChoicesState` passes the real one.
- Early.ScanEarly: the earlier parser's loop is split into `FindStop` (the scan) and `ScanEarly` (the node built where it stops). Their composition is `ParseEarly`.
- The developer tests are proved for the label, the tree and the disable flag they assert. The hidden flag of the two-region tests (11 and 12) is stated, though the source asserts only the label.
- Parser.Parse: follows the corrected `if (nextOpId)` test (see Findings). A non-terminating recursion cannot be expressed by a Dafny function.
