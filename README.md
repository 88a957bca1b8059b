# StackCalculator conversion core, in Dafny

This project models the conversion half of `StackCalculator`, a console
calculator that reads an infix expression per line, checks it, rewrites it
to postfix and evaluates it. It covers the following:

- **Input check** (`checkInputFormat` and the array-backed `Stack` class).
  Whitespace is removed. Only digits, `.` and `( ) ^ - * / % +` may appear.
  Brackets must balance, checked with a fixed-capacity character stack.
- **Rewriting engine** (`replaceAllOperatorsWithKeys`,
  `replaceInnerMostBracket`, `replacePow`, `replaceUnaryMin`,
  `replaceMulDivMod`, `replacePluMin`).
  - Each step picks one operator occurrence and binds its postfix text
    (`"a b op"`, or `"a ~"` for unary minus) to a fresh placeholder
    character (a *key*, from U+00C0 upwards).
  - It then replaces the matched span with that key and advances the key
    counter.
  - The passes run in a fixed order: brackets, `^`, unary `-`, `* / %`,
    `+ -`.
- **Expansion** (`replaceOneKeytoExp`, `infixToPostfix`). Keys are replaced
  by their bound text, leftmost first, until none is left.

The Java class keeps the binding table and the key counter in static fields
that `main` resets after every line. Here they are one `Context` value. It
starts as `Fresh()` in `InfixToPostfix` and is threaded through every step.

The outcome of every step is an `Outcome`:

- `Ok(value)`.
- `Malformed`: the Java `null` that the driver prints as `ERROR`.
- `Fault(kind)`: a Java exception, or a loop that would never end. The kinds
  are null dereference, index out of bounds, a full bracket stack, the key
  alphabet used up, or divergence.

## How the model is organised

Modules and files:

- `outcomes.dfy`: `Outcomes`, the result type.
- `text.dfy`: `Text`. It holds character classes and the Java string
  operations the code uses: `replaceAll("\\s+", "")`, `indexOf`,
  `replaceFirst` and `split` with trailing empties dropped.
- `stack.dfy`: `CharStack`, the `Stack` class.
- `validator.dfy`: `InputFormat`, the input check.
- `keys.dfy`: `Keys`, the context and the full expansion of a key.
- `steps.dfy`: `Steps`, the four single rewrite steps.
- `brackets.dfy`: `BracketNesting`, facts about the innermost bracket pair.
- `passes.dfy`: `Passes`, the passes and `replaceAllOperatorsWithKeys`.
- `postfix.dfy`: `Postfix`, expansion and `infixToPostfix`.
- `examples.dfy`: `Examples`, worked single-step cases.

Each Java loop is a loop of a Dafny `method`, and the method's result is
built from what its loops compute. A method's `ensures` ties that result to
a specification function (`ReplacePow` to `PowStep`, `ReplaceOneKeyToExp`
to `ExpandFirstKey`, `ReplaceAllOperatorsWithKeys` to `Convert`, and so
on). Lemmas and the functions' own contracts prove what those functions
promise. Two loops that the Java class writes out twice share one method:
the operand scans of `replaceUnaryMin` (`Steps.OperandEnd`) and the four
operator loops (`Passes.CollapseOperators`).

The `Stack` class is a Dafny class over an `array<char>`:

- `Push` and `Pop` modify `currentIndex` and the array.
- The bracket check runs the Java loop over a real `Stack`.

### Where the code departs from ordinary arithmetic and its own comments

Ordinary arithmetic groups `* / %` and `+ -` left to right, reads `a - -b`
as a subtraction of a negated operand, and groups `^` from the right. The
comments in `replaceUnaryMin` (src/StackCalculator.java:331-333) describe a
unary minus as a `-` at the front or after another operator, and the
comment in `replacePow` (src/StackCalculator.java:510-511) says a missing
operand is reported as `null`. The code differs in these cases, and the
model follows the code:

- A trailing operator is not reported as `null`. `"5*"` splits into the
  single piece `"5"`, because Java drops trailing empty strings. Reading the
  second operand then fails with an index fault (`Examples.TrailingProduct`).
- `replaceMulDivMod` takes `*` whenever one is present, wherever it stands,
  then `/`, then `%`. `replacePluMin` does the same with `+` before `-`.
  So `8/2*2` binds `2*2` first; these operators are not grouped left to
  right.
- The unary-minus test looks for `_` before the `-`, not `-`. So `3--4` has
  no unary minus and the binary step reports a format error
  (`Examples.DoubleMinusNotUnary`, `Examples.DoubleMinusMalformed`).
- `replacePow` binds the last pair of a chain (`2^3^4` binds `3^4`:
  `Examples.ChainedPower`). But it replaces the *first* occurrence of that
  pair's text. In `3^2^3^2` the key for the last `3^2` takes the place of
  the first one (`Examples.RepeatedPower`).

## Model

| member | source | states |
|---|---|---|
| Text.StripWhitespace | src/StackCalculator.java:70 | the result keeps exactly the non-whitespace characters of the input and is no longer |
| Text.StripWhitespaceIdempotent | src/StackCalculator.java:191 | stripping a second time (as `infixToPostfix` does after the check) changes nothing |
| Text.LastBefore | src/StackCalculator.java:274-284 | the index of the last given character before `end`, or 0 when there is none, as the bracket scan leaves it |
| Text.ReplaceFirst | src/StackCalculator.java:323 | literal `replaceFirst`: without an occurrence the string is returned; otherwise the first occurrence is replaced and the length changes by the difference |
| Text.ReplaceFirstAt | src/StackCalculator.java:323 | when the pattern first occurs at `j`, the replacement is spliced in exactly there |
| Text.JoinPieces | src/StackCalculator.java:505 | splitting on one separator and joining with it gives the string back |
| Text.SplitChars | src/StackCalculator.java:501-505 | no split piece contains a separator, and each character of a piece comes from the input |
| Text.PairAt | src/StackCalculator.java:505 | two neighbouring split pieces occur in the string with the separator between them |
| Text.JavaSplit | src/StackCalculator.java:413 | Java's `split`: a string without a separator is its own single piece; otherwise the result is the list of all pieces with exactly the trailing empty ones dropped, so its last piece is non-empty |
| Text.SplitCovers | src/StackCalculator.java:501-508 | every character of the string that is not a separator lies in some piece `split` returns |
| Text.IndexOf | src/StackCalculator.java:323 | the first position at or after `from` where the pattern occurs, or none when it occurs nowhere from there |
| Text.IsNumeric | src/StackCalculator.java:538-547 | true exactly for the ten digits and `.` |
| Text.IsOperator | src/StackCalculator.java:529-536 | an operator character is neither numeric nor whitespace |
| Text.StripWhitespaceConcat | src/StackCalculator.java:70 | stripping keeps the order of the kept characters: it distributes over concatenation |
| Text.StripWhitespaceChar | src/StackCalculator.java:70 | a single character is dropped exactly when it is whitespace |
| CharStack.Stack.constructor | src/StackCalculator.java:557-561 | a new stack is empty with capacity 256 |
| CharStack.Stack.WithSize | src/StackCalculator.java:563-567 | a new stack of the given capacity is empty |
| CharStack.Stack.Push | src/StackCalculator.java:569-571 | below capacity, the contents gain the character on top |
| CharStack.Stack.Pop | src/StackCalculator.java:573-575 | on a non-empty stack, returns the top and removes it |
| CharStack.Stack.IsEmpty | src/StackCalculator.java:577-579 | true exactly when the contents are empty |
| CharStack.PushThenPop | src/StackCalculator.java:569-575 | a push followed by a pop returns the pushed character and restores the contents, the capacity and the array |
| InputFormat.AllowedIsNumericOrOperator | src/StackCalculator.java:529-547 | the characters the input check admits are exactly the numeric ones and the operators other than `~` |
| InputFormat.NestingStep | src/StackCalculator.java:80-90 | each character changes the bracket depth by +1 for `(`, -1 for `)`, else 0 |
| InputFormat.CheckBrackets | src/StackCalculator.java:78-95 | the stack scan answers true exactly for balanced brackets; it faults only when more than 256 brackets are open at once, and otherwise answers |
| InputFormat.CheckInputFormat | src/StackCalculator.java:69-98 | a line with a character outside the allowed set is rejected; a true/false answer is true exactly when the stripped line is allowed and balanced; the only fault is the stack overflow |
| Keys.Fresh | src/StackCalculator.java:61-65 | the per-line reset: an empty table and the counter at U+00C0 |
| Keys.Bind | src/StackCalculator.java:352-356 | a binding stores the text under the current key and advances the counter by one; the alphabet running out is a fault |
| Keys.BindKeepsWellBound | src/StackCalculator.java:437-441 | the new key was not bound before, existing bindings are kept, and text whose keys were bound stays well bound |
| Keys.ExpandedKeyFree | src/StackCalculator.java:257-266 | the full expansion of a well-bound string holds no key |
| Keys.ExpandedConcat | src/StackCalculator.java:257-266 | expansion distributes over concatenation |
| Keys.ExpandedPlain | src/StackCalculator.java:257-266 | a string without keys expands to itself |
| Keys.ExpandedLength | src/StackCalculator.java:257-266 | expansion never shortens a string |
| Steps.PreservesTransitive | src/StackCalculator.java:208-255 | the step invariant (no growth, only new keys appear, well-boundness kept, bindings only added) composes over successive steps |
| Steps.BindAndReplace | src/StackCalculator.java:436-441 | on success, the table gains exactly `postfix` under the current key and the text is the first match replaced by that key; otherwise the alphabet ran out |
| Steps.OperandPieces | src/StackCalculator.java:501-508 | when the operator is not a separator, no segment holds it exactly when the input does not, so the Java `s2` stays `null` only then; every piece is made of input characters other than the operator |
| Steps.ChosenOperands | src/StackCalculator.java:501-523 | no segment with the operator is a null fault, an empty piece is a format error, a single piece an index fault; otherwise the operands are non-empty, come from the input and stand around the operator in it; both are fixed: the second-to-last and last pieces (power), the first and second pieces (others) |
| Steps.SplitStep | src/StackCalculator.java:430-442 | the binary step fails exactly as the operand choice does, runs out of keys only at the end of the alphabet, and otherwise binds `"a b op"` and removes the two operands from the text |
| Steps.SplitStepText | src/StackCalculator.java:439-440 | a successful binary step replaces the first `a op b` by the new key |
| Steps.PowStep | src/StackCalculator.java:496-527 | without `^` nothing changes; otherwise the last two `^` pieces of the first segment split on `- * / % +` are bound |
| Steps.ProductOperator | src/StackCalculator.java:453-480 | `*` whenever present, else `/`, else `%` |
| Steps.MulDivModStep | src/StackCalculator.java:445-494 | without `* / %` nothing changes; otherwise the first two pieces of the first segment holding the chosen operator are bound |
| Steps.SumOperator | src/StackCalculator.java:411-429 | `+` whenever present, else `-` |
| Steps.PluMinStep | src/StackCalculator.java:402-443 | without `+ -` nothing changes; otherwise the first two pieces of the first segment holding the chosen sign are bound |
| Steps.NumericRunEnd | src/StackCalculator.java:336-348 | the end of the maximal run of digits and `.` from a position |
| Steps.FirstUnaryMinus | src/StackCalculator.java:361-372 | the first `-` after `( ^ * / % + _`, or the end |
| Steps.UnaryMinusIndex | src/StackCalculator.java:335-372 | a leading `-` takes priority; otherwise the first `-` after a unary predecessor |
| Steps.UnaryStep | src/StackCalculator.java:327-400 | either nothing changes or the text changes and exactly one key is bound; the only failure is running out of keys |
| Steps.UnaryStepUnchangedIff | src/StackCalculator.java:327-400 | the step leaves its input alone exactly when it holds no unary minus |
| Steps.BindUnary | src/StackCalculator.java:350-357 | succeeds exactly while keys are left; binds `"operand ~"` for the maximal numeric run after the `-`, replaces the first `-operand` by the key, and changes the text |
| Steps.UnaryStepBinds | src/StackCalculator.java:335-397 | otherwise it binds `"operand ~"` for the numeric run after the chosen `-` and replaces the first `-operand` by the key |
| Steps.OperandEnd | src/StackCalculator.java:337-348 | the scan for the first non-numeric character, with 0 standing for none and then replaced by the length, ends at the end of the numeric run |
| Steps.ReplaceUnaryMin | src/StackCalculator.java:327-400 | the search for the minus and the scan for its operand compute `UnaryStep`: the scanned operand is the one bound |
| Steps.ScanUnaryMinus | src/StackCalculator.java:361-371 | the search loop finds `FirstUnaryMinus`: the first `-` after a unary predecessor, or the length when there is none |
| Steps.BindScanned | src/StackCalculator.java:373-394 | scanning the operand after the minus and binding it computes `BindUnary` |
| Steps.SplitAndBind | src/StackCalculator.java:501-526 | the segment search, the empty-piece check and the binding compute `SplitStep` |
| Steps.HasEmptyPiece | src/StackCalculator.java:512-515 | true exactly when some piece is empty |
| Steps.FindOperandPieces | src/StackCalculator.java:503-508 | the first segment holding the operator, split at it, or none |
| Steps.ReplacePow | src/StackCalculator.java:496-527 | computes `PowStep` |
| Steps.ReplaceMulDivMod | src/StackCalculator.java:445-494 | computes `MulDivModStep` |
| Steps.ReplacePluMin | src/StackCalculator.java:402-443 | computes `PluMinStep` |
| Passes.LevelPass | src/StackCalculator.java:220-225 | on success no operator of the level is left, and the step invariant holds end to end; never diverges |
| Passes.UnaryPass | src/StackCalculator.java:228-238 | on success no unary minus is left; the only failure is running out of keys |
| Passes.OperatorPasses | src/StackCalculator.java:220-252 | on success no operator character is left |
| Passes.BracketStep | src/StackCalculator.java:268-325 | a successful step keeps the invariant and either leaves the text alone or shortens it; it never reports a format error (a null inside the bracket is dereferenced) |
| Passes.BracketSplice | src/StackCalculator.java:285-323 | once the pair is found, a successful splice keeps the invariant and either leaves the text alone or shortens it; it never reports a format error or divergence |
| Passes.BracketPass | src/StackCalculator.java:213-218 | on success no `(` is left |
| Passes.Convert | src/StackCalculator.java:208-255 | on success no `(` and no operator is left, every key is bound and the table only gained bindings |
| Passes.RunLevel | src/StackCalculator.java:240-245 | the Java `while` loop computes `LevelPass` |
| Passes.CollapseOperators | src/StackCalculator.java:288-311 | the four loops inside a bracket compute `OperatorPasses` |
| Passes.FindInnerMostBracket | src/StackCalculator.java:274-284 | the first `)` (or 0) and the last `(` before it (or 0) |
| Passes.ReplaceInnerMostBracket | src/StackCalculator.java:268-325 | computes `BracketStep`; on a balanced string with a bracket, success replaces exactly the innermost pair by bracket-free text and leaves a shorter balanced string |
| Passes.ReplaceAllOperatorsWithKeys | src/StackCalculator.java:208-255 | computes `Convert`; on balanced input the bracket loop never diverges and a successful result holds no bracket at all |
| BracketNesting.BalancedWithoutOpen | src/StackCalculator.java:213-218 | a balanced string without `(` holds no `)` either, so the bracket loop leaves none behind |
| BracketNesting.InnermostPair | src/StackCalculator.java:274-284 | on a balanced string with a `(`, a `)` exists and a `(` stands before the first one |
| BracketNesting.InnermostSplice | src/StackCalculator.java:323 | replacing the innermost pair by bracket-free text shorter than the pair keeps the string balanced |
| BracketNesting.InnermostRewrite | src/StackCalculator.java:313-324 | on a balanced string the first occurrence of `(interior)` is the innermost pair itself, and replacing it gives a shorter balanced string |
| Postfix.FirstKeyIndex | src/StackCalculator.java:258-263 | the first character from U+00C0 upwards, or the end |
| Postfix.ExpandFirstKey | src/StackCalculator.java:257-266 | a string without keys is returned unchanged |
| Postfix.ReplaceOneKeyToExp | src/StackCalculator.java:257-266 | the Java `for` loop scanning for the first key computes `ExpandFirstKey` |
| Postfix.FirstKeyReplaced | src/StackCalculator.java:258-262 | on a string with a key, only the first key is replaced, by its bound text, and everything around it is kept |
| Postfix.OneKeyStep | src/StackCalculator.java:257-266 | on a well-bound string with a key, the step succeeds, lengthens the string and keeps its full expansion |
| Postfix.ExpansionStopsIff | src/StackCalculator.java:198-204 | on a well-bound string the step never fails and leaves the string unchanged exactly when no key is left |
| Postfix.ExpandKeys | src/StackCalculator.java:197-204 | the loop ends with the full expansion of its input, which holds no key |
| Postfix.AcceptedWellBound | src/StackCalculator.java:42-47 | a line the input check accepts holds no key character |
| Postfix.PostfixOf | src/StackCalculator.java:190-206 | a format error exactly when the conversion reports one; on success no key is left |
| Postfix.InfixToPostfix | src/StackCalculator.java:190-206 | computes `PostfixOf` in a fresh context and never diverges on an accepted line |
| Examples.TrailingProduct | src/StackCalculator.java:487 | `"5*"` is an index fault, not a format error |
| Examples.DoubleMinusNotUnary | src/StackCalculator.java:371 | `"3--4"` has no unary minus |
| Examples.DoubleMinusMalformed | src/StackCalculator.java:431-433 | `"3--4"` is a format error in the `+ -` step |
| Examples.ChainedPower | src/StackCalculator.java:518-524 | `"2^3^4"` binds `3^4` first |
| Examples.RepeatedPower | src/StackCalculator.java:523-524 | in `"3^2^3^2"` the key replaces the first `3^2` |

## Left out

- `main`: reading lines, the `q` command, printing, and catching and printing
  exceptions. Its reset of the table and counter is kept as `Keys.Fresh`,
  used by every call of `InfixToPostfix`.
- `calculatePostfix`, `calculateOnePostfix` and `executeOperation`. They
  evaluate with `double`, `Math.pow` and `String.valueOf` formatting.
  Floating point is not modelled.
- Text.ReplaceFirst: the pattern is read literally. Java reads it as a
  regular expression. `.` in an operand then matches any character, and the
  bracket pattern escapes only `^ - * +`. Where such a pattern would match
  somewhere else, the model differs.
- Text.StripWhitespace: `\s` is the six ASCII whitespace characters.
- Keys.Bind: the model stops with `OutOfKeys` at U+D7FF. The Java counter
  would go on into the surrogate range, which Dafny's `char` cannot hold.
- Passes.BracketPass: when the bracket step leaves the string unchanged, the
  Java loop repeats forever. The model returns `Fault(Diverges)` there.
  `ReplaceAllOperatorsWithKeys` and `InfixToPostfix` prove this never
  happens on balanced input. The functions do not state it.
- Passes.CollapseOperators: the four loops appear twice in the Java class,
  once per method. They are modelled once and used by both.
- CharStack.Stack.Push: Java's `push` throws once the array is full; the
  model requires room, and the bracket check tests the size first and
  reports `StackOverflow`. `Pop` on an empty stack likewise becomes a
  precondition. `Size` is added so the check can see the depth.
- The `HashMap` itself is a `map<char, string>`. Its hashing and resizing
  are not modelled.
