# novelscript in Dafny

novelscript describes visual novels as scripts. A script is a list of
scenes. Each scene is a list of nodes: lines of dialogue, choices, character,
background and sound loads, conditional blocks (`if … else if … else … end`)
and jumps to other scenes. Two parts are modelled here.

- **The walker** (`src/lib.rs`). A `Novel` holds the scenes by name. A
  `NovelState` is a playthrough cursor: the current scene, the variables, and
  a stack of scopes, one per entered conditional block. `Novel::next` hands
  out the next user-visible node. On the way it resolves conditions against
  the variables, publishes the innermost scope's recorded choice as the
  variable `choice`, follows jumps, and leaves exhausted blocks.
- **The line reader** (`src/parser.rs`). Each line, after `trim_start`, is
  skipped if blank. Otherwise it goes to six recognisers in a fixed order:
  condition, choice, character load, background load, sound, dialogue. The
  bare words `end` and `else` come next, and anything else is unknown syntax.
  `parse` returns every statement in order when no line failed. Otherwise it
  returns every error, each with its 1-based line number.

Modules:

| module | file | content |
|---|---|---|
| `Results` | results.dfy | `Option`, `Result` |
| `Numbers` | numbers.dfy | `i32`, `str::parse::<i32>`, decimal `Display` |
| `Strings` | strings.dfy | `trim_start`, `trim`, `find`, `strip_prefix`, `split(char)`, `split_whitespace` |
| `Conditions` | conditions.dfy | the walker's `Condition`: evaluation and `new_reverse` |
| `NovelScript` | novelscript.dfy | tree, scopes, cursor, setters, `Step`, the transition loop `Run` and `Next` |
| `Walkthrough` | walkthrough.dfy | what each kind of node does to the cursor; whole plays |
| `Scenarios`, `NestedScenarios` | scenarios.dfy, nested.dfy | the repository's test plays, step by step |
| `StubWalker` | stub_walker.dfy | what `get_item`/`next` as written return (see Findings) |
| `Parser` | parser.dfy | statements, recognisers, the line driver, `parse` |
| `Rendering` | rendering.dfy | a printer for statements, and parse-after-print round trips |

The model departs from the walker's code in two ways.

- **Nesting.** The source keeps a block's body as a `Range` into the flat
  scene vector and tracks an `offset`. Here the body is a nested sequence
  owned by its `If`, and every scope records its own `position`. This is
  the per-scope `index` that `Scope` once had: it is commented out at
  `src/lib.rs:128-142`. It yields the node sequences that `tests/parse_test.rs`
  expects.
- **Panics.** A panic in the source is an `Err` value here, and the cursor is
  not changed.

## Model

| member | source | states |
|---|---|---|
| `Numbers.ParseI32` | src/parser.rs:274 | a result exists only for an optional sign followed by decimal digits, so a lone sign has none; a negative result needs a leading `-` |
| `Numbers.ParseSignedDigits` | src/parser.rs:274 | an optional `+` or `-` followed by at least one digit is accepted exactly when its signed value fits in 32 bits, and then gives that value |
| `Numbers.LeadingZeroIgnored` | src/parser.rs:274 | a leading `0` does not change the value of a digit string |
| `Numbers.SignedExamples` | src/parser.rs:274 | `+5` reads as 5 and `-0` as 0 |
| `Numbers.LeadingZerosExample` | src/parser.rs:274 | `007` reads as 7 |
| `Numbers.SignWithoutDigitsExample` | src/parser.rs:274 | a lone sign and a doubled sign are rejected |
| `Numbers.ParseFormatRoundTrip` | src/parser.rs:273-279 | every `i32` printed in decimal parses back to the same value, so every literal can be written so that it reads back as a number |
| `Strings.TrimStart` | src/parser.rs:107 | the result is a suffix of the input; everything dropped is whitespace; the result is empty or starts with non-whitespace |
| `Strings.Trim` | src/parser.rs:244 | the result is the input with leading whitespace and then trailing whitespace removed: a prefix of `TrimStart`'s result whose dropped tail is all whitespace, empty or starting and ending with non-whitespace |
| `Strings.StripPrefix` | src/parser.rs:290 | a result exactly when the input starts with the prefix, and then the prefix followed by the result is the input |
| `Strings.IndexOf` | src/parser.rs:255 | no result exactly when the character is absent; otherwise the position of its first occurrence |
| `Strings.Split` | src/parser.rs:170 | at least one piece, and no piece contains the separator |
| `Strings.JoinSplit` | src/parser.rs:170 | the pieces joined with the separator give the input back, so splitting loses nothing |
| `Strings.SplitCount` | src/parser.rs:244 | a string with k separators splits into k + 1 pieces, empty ones included |
| `Strings.SplitJoin` | src/parser.rs:205 | separator-free pieces joined with the separator split back into the same pieces |
| `Strings.SplitWhitespace` | src/parser.rs:291 | no contract of its own. `SplitWhitespaceWords` says every piece is a word. `SplitWhitespaceSkipsBlank`, `SplitWhitespaceCons` and `SplitWhitespaceOfWord` fix the pieces in order. `SplitWhitespaceJoin` gives the round trip |
| `Strings.SplitWhitespaceWords` | src/parser.rs:291 | every piece of `split_whitespace` is a non-empty run of non-whitespace |
| `Strings.SplitWhitespaceJoin` | src/parser.rs:291 | words joined by single spaces split back into the same words |
| `Conditions.Check` | src/lib.rs:71-94 | defined exactly when both operands have values, and then the comparator's meaning; otherwise an error that names the undefined operands: both, only the first, or only the second, one per panic |
| `Conditions.Reverse` | src/lib.rs:60-69 | operands are kept and the comparator always changes; `=` and `!=` swap with each other, as do `>` and `<` |
| `Conditions.ReverseInvolution` | src/lib.rs:60-69 | reversing twice gives the condition back |
| `Conditions.ReverseNegatesEquality` | src/lib.rs:62-63 | for `=` and `!=`, the reversed condition evaluates to the negation |
| `Conditions.ReverseIsNotNegationOnTies` | src/lib.rs:64-66 | for `>` and `<` it does not: on equal operands both the condition and its reverse are false |
| `NovelScript.NewNovel` | src/lib.rs:196-198 | a novel with no scenes |
| `NovelScript.AddNodes` | src/lib.rs:213-215 | the name now maps to the given nodes; every other scene is unchanged |
| `NovelScript.NewState` | src/lib.rs:200-207 | the cursor is at the top of the starting scene, with no variables, one scope with recorded choice 0, and is well formed |
| `NovelScript.SetVariable` | src/lib.rs:154-159 | rejected exactly for the reserved name `choice`; otherwise that one variable holds the value, and every other variable, the scene and the scopes are unchanged |
| `NovelScript.SetChoice` | src/lib.rs:161-164 | only the innermost scope's choice changes; its branch and position, the outer scopes, the scene and the variables stay |
| `NovelScript.SetVariableKeepsWellFormed` | src/lib.rs:154-159 | setting a variable between calls keeps a well-formed cursor well formed |
| `NovelScript.SetChoiceKeepsWellFormed` | src/lib.rs:161-164 | recording a choice between calls keeps a well-formed cursor well formed |
| `NovelScript.FirstTrue` | src/lib.rs:357-361 | the index of the first else-if whose condition holds, with every earlier one false; none when all are false; an error only from an arm reached after false ones |
| `NovelScript.SelectArm` | src/lib.rs:354-367 | the if arm exactly when its condition holds; else-if n exactly when the if and every earlier else-if are false and n holds; the else arm or no arm when all are false, depending on whether an else exists |
| `NovelScript.Next` | src/lib.rs:338-389 | from a well-formed cursor, the cursor stays well formed and the call never finds it invalid; a call that returns nothing leaves the cursor at the end of its scene; with fuel left, a cursor on an unregistered scene fails with `UnknownScene` naming it |
| `NovelScript.Step` | src/lib.rs:338-389 | one pass of `next`'s case split: a cursor on an unregistered scene fails with `UnknownScene`, where the source panics (`src/lib.rs:283`), and a transition never reports running out of fuel. `Walkthrough.NextYieldsUserNode`, `StepOnIf`, `StepEntersArm`, `StepSkipsIf`, `StepOnJump` and `StepLeavesBody` state each case |
| `NovelScript.Run` | src/lib.rs:338-389 | the loop of `next` that recurses on each internal transition: with no fuel it reports `StepLimit`, and with fuel on an unregistered scene it reports `UnknownScene`. `RunKeepsWellFormed` and `RunFuelMonotone` state the rest |
| `NovelScript.StepPreservesWellFormed` | src/lib.rs:338-389 | each internal transition keeps the cursor well formed; a finished transition leaves it at the end of the scene |
| `NovelScript.RunKeepsWellFormed` | src/lib.rs:338-389 | the transition loop keeps a well-formed cursor well formed, never reports an invalid one, and stops without a node only at the end of the scene |
| `NovelScript.RunFuelMonotone` | src/lib.rs:338-389 | a run of the transition loop that ends within some fuel ends the same way with any larger fuel |
| `NovelScript.FuelMonotone` | src/lib.rs:338-389 | the step bound only cuts a call short: a call that ends within some fuel has the same outcome with any larger fuel |
| `Walkthrough.NextYieldsUserNode` | src/lib.rs:340-342 | a user node is handed out as is, and only the innermost position moves, by one |
| `Walkthrough.StepOnIf` | src/lib.rs:350-369 | on an `If`, the innermost choice is published as `choice`; a failing condition fails the call; an entered arm pushes exactly one fresh scope; otherwise the `If` is skipped |
| `Walkthrough.StepEntersArm` | src/lib.rs:354-367 | when an arm is selected, the transition marks it in the innermost scope and pushes a fresh scope |
| `Walkthrough.StepSkipsIf` | src/lib.rs:364-369 | when no arm is selected, the transition moves past the `If` |
| `Walkthrough.LaterArmsNotEvaluated` | src/lib.rs:357-361 | once an else-if holds, the arms after it may be replaced by anything, including conditions on unset variables, and the same arm is selected |
| `Walkthrough.FirstMatchWins` | src/lib.rs:354-363 | the selected arm does not depend on later arms or on whether an else exists |
| `Walkthrough.StepOnJump` | src/lib.rs:371-376 | a jump drops every scope and starts the target scene at its top, keeping the variables |
| `Walkthrough.JumpToUnknownSceneFails` | src/lib.rs:371-376 | a jump to a scene that was never registered fails the call with `UnknownScene` naming it, with any fuel of at least 2; the source panics on the lookup at `src/lib.rs:283` |
| `Walkthrough.JumpRestartsTarget` | src/lib.rs:371-376 | after a jump the same call hands out the target scene's first node |
| `Walkthrough.StepLeavesBody` | src/lib.rs:379-382 | leaving an exhausted block pops exactly one scope and clears the parent's branch |
| `Walkthrough.NextAtSceneEnd` | src/lib.rs:379-385 | with one scope left and its body exhausted, the call returns nothing and leaves the cursor as it was |
| `Walkthrough.ChoiceStaysInItsScope` | src/lib.rs:350-353 | a choice recorded inside a block is gone once the block is left; the parent's own choice is the one published next |
| `Walkthrough.TerminalIsStable` | src/lib.rs:383-385 | once the scene is over, every further call returns nothing and leaves the cursor alone |
| `Walkthrough.FlatSceneYieldsInOrder` | tests/parse_test.rs:10-38 | a scene without control nodes yields its nodes in order, one per call, and then nothing |
| `Scenarios.IfTakenThenSceneEnds` | tests/parse_test.rs:73-97 | with `num` = 13, `if num = 13` yields its line and then the scene ends |
| `Scenarios.IfNotTakenEndsScene` | tests/parse_test.rs:100-117 | with `num` = 13, `if num = 17` is skipped and the first call ends the scene |
| `Scenarios.UnsetVariableFails` | src/lib.rs:87-92 | an `if` on an unset variable fails the call, with any fuel of at least 1, instead of being skipped |
| `Scenarios.RecordedChoiceSelectsArm` | tests/parse_test.rs:181-215 | the choice is shown; after 1 is recorded only the first arm's line comes out, then the end |
| `Scenarios.JumpContinuesInTarget` | tests/parse_test.rs:379-435 | two lines of the first scene, then two lines of the jump target, one per call |
| `Scenarios.UnreachedArmIsNotEvaluated` | src/lib.rs:354-361 | an else-if on an unset variable is harmless when the if holds, and fails the call when it is reached |
| `NestedScenarios.NestedIfYieldsBothLines` | tests/parse_test.rs:143-178 | the outer and the inner line come out, then the end of the scene, which takes leaving both blocks |
| `NestedScenarios.NestedChoicesPlayOut` | tests/parse_test.rs:218-261 | the outer choice, the chosen arm's line, and the inner choice, which is recorded in the inner scope; then the end, with the second `if` read against the outer scope's choice |
| `StubWalker.GetItemAsWritten` | src/lib.rs:279-336 | for a missing scene an error, in place of the panic; for any other cursor the returned value is never a node |
| `StubWalker.NextAsWritten` | src/lib.rs:338-389 | on top of it, every call returns nothing and leaves one scope |
| `StubWalker.FirstCallAsWrittenIsEmpty` | src/lib.rs:335 | on the scene `foo: test` / `_: test`, the first call as written returns nothing where `foo: test` is due |
| `Parser.GetValue` | src/parser.rs:35-40 | a literal is its own value; a set variable is its value; an unset variable is an error naming it, never a default |
| `Parser.Check` | src/parser.rs:51-57 | `IsSet` is whether the variable has a value and cannot fail; a comparison is defined exactly when both sides are, and then is `=` or `>` on their values; an error names the left side when it is unset, and the right side otherwise |
| `Parser.ParseRelationEntity` | src/parser.rs:273-279 | a number exactly when the token parses as an `i32`, and then that value; otherwise a variable with the token as its name |
| `Parser.ParseIf` | src/parser.rs:289-306 | claims exactly the lines that start with `if `; the rest is split on whitespace. One word gives `IsSet` of it. Three words with `=` or `>` in the middle give `Equals` or `MoreThan` of the outer words read as operands. Three words with any other middle word give an invalid-symbol error naming it. Any other word count gives an invalid-count error carrying the count |
| `Parser.ParseChoice` | src/parser.rs:240-249 | claims exactly the lines of two or more characters between `[` and `]`; the options are the `/`-separated pieces of the inside, each trimmed, in order, one more than the number of `/` |
| `Parser.ParseText` | src/parser.rs:254-271 | claims exactly the lines with a `:`; the speaker is the text before the first `:`, or none when that text is empty; the content is the rest with leading whitespace dropped |
| `Parser.ParsePlaySound` | src/parser.rs:169-180 | claims exactly the lines whose first space-separated piece is `play` and that have a second piece; the name is the second piece, the channel the third if any, and further pieces are ignored |
| `Parser.ParseLoadBackground` | src/parser.rs:185-199 | claims exactly the lines whose first piece is `scene` and that have a second piece, which is the name |
| `Parser.ParseLoadCharacter` | src/parser.rs:204-235 | claims exactly the lines with at least five pieces, the first `load` and the fourth `at`; the character, expression and placement are pieces 2, 3 and 5 |
| `Parser.KeywordPrefixes` | src/parser.rs:169-235 | in terms of the line's text: the `play` and `scene` recognisers claim exactly the lines starting with the keyword and a space, and `load` only such lines |
| `Parser.Recognise` | src/parser.rs:113-118 | the first of condition, choice, load, scene, play, text that claims the line decides; no result when none does; only the condition recogniser can fail; every line with a `:` is claimed |
| `Parser.ChoiceBeforeText` | src/parser.rs:113-118 | `[a: b]` is a one-option choice, not dialogue |
| `Parser.KeywordsAreNotRecognised` | src/parser.rs:113-128 | no recogniser claims the bare words `end` and `else` |
| `Parser.ParseLine` | src/parser.rs:105-131 | blank exactly for all-whitespace lines; a claimed trimmed line gives the recogniser's statement or error; a non-blank line that no recogniser claims is `End` for `end`, `Else` for `else`, and otherwise unknown syntax carrying the trimmed line, which has no `if ` prefix and no `:` |
| `Parser.ParseLineKeywords` | src/parser.rs:125-128 | `end` and `else` (after leading whitespace) are the block keywords |
| `Parser.Parse` | src/parser.rs:100-164 | success exactly when no line failed, and then the statements of all lines in order; otherwise the errors of all lines in order, each with its 1-based line number, never empty |
| `Parser.NoErrorsIffNoneFailed` | src/parser.rs:137-138 | the error list is empty exactly when no line failed |
| `Parser.CollectParsed` | src/parser.rs:151-162 | lines that all parse give their statements, in order, and no error |
| `Rendering.EntityRoundTrip` | src/parser.rs:273-279 | a number printed, or a variable name that is not a number, reads back as the same operand |
| `Rendering.RecogniseIf` | src/parser.rs:289-306 | the printed form of every condition is claimed by the condition recogniser and gives it back |
| `Rendering.RecogniseChoice` | src/parser.rs:240-249 | the printed form of a choice gives the same options back |
| `Rendering.RecogniseLoadCharacter` | src/parser.rs:204-235 | a printed character load gives the same three fields back, and no earlier recogniser claims it |
| `Rendering.RecogniseLoadBackground` | src/parser.rs:185-199 | a printed background load gives the same name back, also when the name holds a `:` |
| `Rendering.RecognisePlaySound` | src/parser.rs:169-180 | a printed sound, with or without channel, gives the same fields back |
| `Rendering.RecogniseText` | src/parser.rs:254-271 | printed dialogue gives the same speaker and content back, and no earlier recogniser claims it |
| `Rendering.KeywordsRoundTrip` | src/parser.rs:125-128 | `end` and `else` read back as themselves |
| `Rendering.ParseRender` | src/parser.rs:105-131 | every printable statement, printed on one line, reads back as itself |
| `Rendering.ParseRenderScript` | src/parser.rs:100-164 | a script printed one statement per line reads back, without errors, as the same statements in the same order |

## Left out

- The pest-based front end (`src/lib.rs:392-600`, `Novel::add_scene`) that turns script text into scene nodes is not part of this model. Trees are built directly. The tests' expectations about the text (for example that `_` means no speaker) belong to it.
- `src/bin.rs`, serde (de)serialisation of the cursor, and the commented-out graph extraction are not part of this model.
- `NovelScript.Next`: addresses nodes by a per-scope `position` over nested bodies. It does not use `get_item` with its flat `Range`s and `offset` (`src/lib.rs:150`, `279-336`). As written, `get_item` never returns a node (see Findings).
- `NovelScript.Next`: when no arm of an `If` is selected, the cursor moves past it. When a block is left, the parent scope moves past its `If` as well as clearing its branch. The source has no positions. This is what the per-scope `index` commented out at `src/lib.rs:128-142` would do, and it gives the sequences `tests/parse_test.rs` expects (`test_negative_if`, `test_choice`, `test_nested_if`).
- `NovelScript.Next`: takes a `fuel` bound, one unit per internal transition, and reports `StepLimit` when it runs out. The source recurses without bound, so a cycle of jumps never returns. `NovelScript.FuelMonotone` shows that the bound only cuts a call short: a call that ends within some fuel ends the same way with more. The model does not describe what happens after the bound.
- `StubWalker.GetItemAsWritten`: models only the value `get_item` returns. Its loop over `scopes[1..]` (`src/lib.rs:287-334`) also removes nodes from the scene (`319-327`) and adds 1 to `state.offset` (`329`); neither is modelled. The panics when `content.start - state.offset` underflows or a slice is out of range (`298`, `303`, `310`) are not modelled either; a cursor with more than one scope and a non-zero `offset` can reach them. The function also does not compile as written: `next(&self)` calls `get_item(&mut self)`, and `Vec` has no `front_mut`.
- `StubWalker.NextAsWritten`: follows from `get_item`'s return value alone. It inherits the gaps of `StubWalker.GetItemAsWritten`. From `new_state`, the cursor has one scope, so the loop does not run and the model is exact there.
- `Conditions.Check`, `Parser.GetValue`, `Parser.Check`: the panics on unset variables (`src/lib.rs:87-92`, `src/parser.rs:38`) are `Err` values.
- `NovelScript.Next`: a missing scene (the panic at `src/lib.rs:283`) is an `Err` value, and a failed call leaves the caller's cursor unchanged.
- `NovelScript.SetVariable`: the panic on the name `choice` (`src/lib.rs:156`) is an `Err` value.
- `NovelScript.SetChoice`: the `println!` at `src/lib.rs:162` is dropped.
- `HashMap` is a Dafny `map`, and `Vec1` is a non-empty sequence.
- `Parser.Parse`: takes the lines as a sequence of strings. Reading a `BufRead`, and skipping lines that fail to read (`src/parser.rs:101-106`), are not modelled; such a line would still count towards later line numbers.
- `Parser.Parse`: the `Display` formatting of the collected errors (`ParseErrColl`, `src/parser.rs:75-98`) is not modelled.
- `Strings.TrimStart`: whitespace is the Unicode White_Space set, but strings are sequences of characters. Byte offsets and UTF-8 are not modelled.
- `Rendering.ParseRender`: the round trip covers the statements the printer can write back. The exclusions are:
  - speakers with a space, a `:`, leading whitespace or a leading `[`;
  - options with a `/` or outer whitespace;
  - fields with spaces;
  - variable names that read as numbers.

  Each line uses single spaces; other spellings are covered only by the recognisers' own contracts.

## Findings

| source | as written | input that shows it | evidently intended | confidence | as-written member | corrected member |
|---|---|---|---|---|---|---|
| src/lib.rs:279-336 | every path of `get_item` ends in `return None` (line 335), so `next` never hands out a node | the scene `foo: test` / `_: test` from `tests/parse_test.rs:10-38`: the first call returns nothing | the node addressed by the scopes is returned, and the walk proceeds through it | high, not executed | `StubWalker.FirstCallAsWrittenIsEmpty` | `Walkthrough.FlatSceneYieldsInOrder` |
