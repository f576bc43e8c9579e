# fun-numbers in Dafny

A model of the two skills of the fun-numbers voice assistant, with proofs.

- **The number game** (`game.js`): a "think of a number" puzzle. The player
  picks a secret number. The assistant speaks five instructions (add, multiply,
  subtract, subtract or divide out the secret, ...) and then announces the
  player's result. The assistant never learns the secret. It tracks a total
  that leaves the secret out, and the secret step cancels what the player
  added on top of the total.
- **The calculator** (`calculation.js`): when the language platform
  recognises exactly one operation, `performOperation` applies it to the two
  extracted numbers. Otherwise `doCascadeCalc` rewrites the raw phrase into an
  arithmetic expression with eight regular-expression replacements and hands
  it to an expression evaluator. `calculate` then builds the spoken reply.

Modules, one per file:

| file | module | models |
|---|---|---|
| `wrappers.dfy` | `Wrappers` | `Option` |
| `util.dfy` | `Util` | `generateRandomNumber`, with the value of `Math.random()` passed in |
| `text.dfy` | `Text` | ASCII lower-casing, substring search, the decimal text of a whole number |
| `game.dfy` | `Game` | the operations of `game.js`, `getDefaultParams`, `playGame` and `endGame` |
| `normalizer.dfy` | `Normalizer` | the rewrite rules of `doCascadeCalc` |
| `calculation.dfy` | `Calculation` | `doAdd` ... `doPercentage`, `performOperation`, `doCascadeCalc`, `calculate` |

Numbers are exact reals. A JavaScript division by zero is represented
explicitly as a signed infinity or NaN (`Calculation.Quotient`). Some things
become parameters:

- the random draws of a turn, as the values `Math.random()` returned;
- the expression evaluator (`mathjs.eval`);
- the conversion of a value to text.

The headline theorem is `Game.SecretNeverNeeded`. For every secret `s`
(non-zero on the multiplicative track) and every sequence of draws that gives each divide turn an even draw, a fresh
game speaks five instructions. It then reveals exactly the number the player
reaches by applying those instructions to `s`.

Where the code behaves in a way its comments and names do not suggest, the
model follows the code:

- `doDivide` tests the raw phrase against `/divide [0-9]+ by [0-9]+/i`. That
  pattern needs the verb "divide" followed by a space. So "what is 10 divided
  by 2", tagged as an inverse division, answers 2 / 10 and not 5
  (`Calculation.InverseDivideExample`).
- The leading-operator rule (`Normalizer.StripLeadingOperator`) deletes a `!`
  at the start of the rewritten text. So "factorial 5" is rewritten to `5`,
  not `5!`.
- `factorial` on a number that is not a positive whole number, but at most
  15, never reaches its base case. The stack overflow escapes `calculate` and
  no reply is sent. The model represents this as `Escapes`.
- `mathjs.eval` returning `null` passes the `catch`, and `calculate` then
  reads `.error` of `null` (`typeof null` is `'object'`). The TypeError
  escapes and no reply is sent; the model gives `Escapes` here too.
- The calculator rewrites with the word lists in the source's order
  (`Normalizer.NormalizeAsWritten`); see Findings for what that order does.

## Model

| member | source | states |
|---|---|---|
| Util.RandomNumber | util.js:23-25 | for a draw u in [0, 1) and max > 0, the result n is the integer with n <= u * max < n + 1, so 0 <= n < max |
| Game.DefaultParams | game.js:203-211 | a new game has counter 1, add total 0 and multiply total 1, and takes the additive track exactly when the coin draw is at least one half |
| Game.StartOp | game.js:57-63 | the first operation adds or multiplies, adding exactly on the additive track |
| Game.NextOp | game.js:72-94 | a secret step exactly on counter 3, subtracting the secret on the additive track and dividing it out on the multiplicative one; no later counter runs the start operation |
| Game.ScheduleUsesEachOperation | game.js:57-94 | besides the secret step, the five questions use each of addition, multiplication, subtraction and division exactly once |
| Game.StartInstruction | game.js:57-63 | the first turn adds on the additive track and multiplies on the multiplicative one, addressed to the secret number |
| Game.Schedule | game.js:72-94 | turns 2 to 5: subtract, subtract the secret, multiply, divide on the additive track; divide, divide by the secret, subtract, add on the multiplicative track; operands below 100, below 20, or a divisor in {2, 4, 6, 8} |
| Game.AddTurn | game.js:103-113 | an add of the drawn number floor(100·u), below 100, to the live total, addressed to the secret number exactly on counter 1 |
| Game.MultiplyTurn | game.js:122-132 | a multiplication of the live total by the drawn number floor(20·u), below 20, addressed to the secret number exactly on counter 1 |
| Game.SubtractTurn | game.js:141-151 | a subtraction of the drawn number floor(100·u), below 100, from the live total |
| Game.SubtractSecretTurn | game.js:160-163 | the engine's total is unchanged by the secret subtraction |
| Game.DivideSecretTurn | game.js:172-175 | the engine's total is unchanged by the secret division |
| Game.FirstEven | game.js:185-189 | the resampling loop settles on the first even draw, every earlier draw being odd |
| Game.Divisor | game.js:184-190 | the divisor is the first even draw, or 2 when that draw is 0, so always 2, 4, 6 or 8 and never 0 |
| Game.DivideTurn | game.js:184-198 | a division of the live total by the first even draw, 0 bumped to 2 |
| Game.Apply | game.js:103-198 | whichever operation runs, the engine's new total is the spoken instruction applied to the old total |
| Game.Play | game.js:235-268 | at counter 6 the live total is revealed and a fresh game written back, on the additive track exactly when the turn's draw is at least one half; otherwise the counter advances by one, the start track is kept, the live field takes the new total and the other field is reset to its identity |
| Game.FirstTurn | game.js:248-263 | the first turn of a fresh game adds a number up to 99 to 0, or multiplies 1 by a number up to 19, addressed to the secret number |
| Game.TargetMentionsSecret | game.js:103-132 | an add or multiply instruction says "secret number" exactly when it targets the secret |
| Game.SecretNumberOnlyOnFirstTurn | game.js:111-130 | the add and multiply texts mention the secret number exactly on the first turn |
| Game.FreshAgrees | game.js:203-208 | a fresh game agrees with a player who holds only the secret |
| Game.InstructionKeepsAgreement | game.js:160-175 | one instruction moves the player's value and the engine's total in step, the secret step cancelling the secret |
| Game.PlayKeepsAgreement | game.js:248-263 | a non-final turn keeps the player's value in agreement with the engine's state |
| Game.RevealAgrees | game.js:222-224 | the revealed total is exactly the value of an agreeing player |
| Game.InstructionText | game.js:111-197 | each of the six instruction texts reads back as the instruction it speaks, number and target included |
| Game.InstructionTextInjective | game.js:111-197 | no two different instructions are spoken alike, so the text the player hears determines the instruction |
| Game.ReplyText | game.js:222-224 | a continuing turn speaks text that reads back as its instruction; the reveal text reads as no instruction |
| Game.RevealSpeaksTotal | game.js:222-224 | the reveal turn says "Your result is " followed by the live total and the play-again question; every other turn says its instruction |
| Game.Session | game.js:235-268 | a run of turns reveals exactly when it reaches counter 6, after speaking one instruction per turn before it; a run that does not reach it speaks one instruction per turn |
| Game.SessionAgrees | game.js:235-268 | from any agreeing turn, playing to the end reveals the value the player reaches by following the remaining instructions |
| Game.SecretNeverNeeded | game.js:248-254 | a fresh game speaks five instructions and reveals what they make of any secret, without receiving it |
| Text.NatTextRoundTrip | game.js:111 | the decimal text spliced into an instruction reads back as the drawn number |
| Text.Lower | calculation.js:220 | lower-casing keeps the length, leaves no upper-case ASCII letter, maps each letter to its lower-case form and keeps every other character |
| Text.LowerKeepsLowerCase | calculation.js:220 | lower-casing changes nothing in a lower-case string |
| Calculation.ParseOperation | calculation.js:182-208 | a recognised tag selects the operation whose tag it is; an unrecognised tag is no operation's tag |
| Calculation.TagRoundTrip | calculation.js:16-27 | each operation is selected by its own tag and by no other |
| Calculation.Quotient | calculation.js:96-98 | a JavaScript quotient is finite exactly for a non-zero divisor, and then times the divisor gives the dividend; otherwise it is an infinity signed like the dividend, or NaN for 0 / 0 |
| Calculation.DoAdd | calculation.js:62-64 | the sum minus the second number is the first |
| Calculation.DoSubtract | calculation.js:71-76 | a phrase saying "minus" in any case subtracts the second number from the first; otherwise the first is subtracted from the second |
| Calculation.SubtractPhraseDecides | calculation.js:72-75 | phrases with and without "minus" give opposite differences |
| Calculation.SubtractIgnoresCase | calculation.js:72 | the letter case of any phrase does not change the difference |
| Calculation.DoMultiply | calculation.js:83-86 | the product of the two numbers when the second is non-zero |
| Calculation.MultiplyZeroAsOne | calculation.js:84 | a second number of 0 gives the same product as 1 |
| Calculation.DigitsEndStopsAt | calculation.js:94 | the greedy `[0-9]+` of the divide pattern stops at the first non-digit |
| Calculation.DividePatternIff | calculation.js:94 | the left-to-right search finds the divide pattern exactly when the lower-cased phrase holds "divide <digits> by <digit>" somewhere |
| Calculation.DividePatternExamples | calculation.js:94 | "Divide 10 by 2" matches the pattern; "what is 10 divided by 2" does not |
| Calculation.DoDivide | calculation.js:93-99 | the first number over the second, except that an inverse division whose phrase does not say "divide X by Y" divides the second by the first |
| Calculation.InverseDivideSwaps | calculation.js:95-98 | an inverse division is a division with the operands exchanged unless the phrase spells out "divide X by Y" |
| Calculation.InverseDivideExample | calculation.js:93-99 | "what is 10 divided by 2" as an inverse division answers 0.2 |
| Calculation.JsFactorial | calculation.js:122-127 | a recursion that finishes was given a positive whole number no larger than the stack allows, and returns its factorial |
| Calculation.JsFactorialComputes | calculation.js:122-127 | on a positive whole number n the recursion computes n! within n nested calls |
| Calculation.JsFactorialDiverges | calculation.js:122-127 | on any other number the recursion never reaches its base case |
| Calculation.CappedFactorialCases | calculation.js:133-138 | up to 15 the recursion finishes exactly on the positive whole numbers |
| Calculation.DoFactorial | calculation.js:133-138 | above 15 the answer is 'too large'; up to 15 a positive whole number gives a finite number and anything else overflows the stack |
| Calculation.DoFactorialComputes | calculation.js:133-138 | for n from 1 to 15 the answer is n! |
| Calculation.FactorialStaysExact | calculation.js:134 | every factorial computed lies between 1 and 15!, which is below 2^53 |
| Calculation.DoPercentage | calculation.js:169-174 | a two-decimal value that, times 100, is the product of the numbers, or the first number when the second is 0 |
| Calculation.PercentageZeroAsOne | calculation.js:170-173 | a second number of 0 gives the same value as 1 |
| Calculation.OperandsRead | calculation.js:182-209 | the unary operations read only the first number; only subtraction and division read the phrase |
| Calculation.Dispatch | calculation.js:183-208 | every recognised operation answers with a value, except factorial of a number up to 15 that is not a positive whole number, which escapes; never an error or `undefined` |
| Calculation.PerformOperation | calculation.js:182-209 | an unknown tag gives `undefined` and a known one never does; no branch gives an error message |
| Calculation.CascadeCalc | calculation.js:215-237 | an error exactly for a phrase over 200 characters, with the fixed message; otherwise the phrase rewritten with the rules as written goes to the evaluator: `undefined` exactly when it throws or gives `undefined`, an escaping exception exactly when it gives `null`, and else its value |
| Calculation.CascadeGuard | calculation.js:216-228 | an over-long phrase never reaches the evaluator; the evaluator sees a lower-case text of at most 200 characters with no space, question mark or full stop |
| Calculation.Calculate | calculation.js:258-265 | exactly one recognised operation goes to `performOperation`, any other number to `doCascadeCalc` |
| Calculation.RouteIndependence | calculation.js:258-265 | a single operation never consults the evaluator; otherwise the tags and numbers are ignored; an error only comes from an over-long phrase on the evaluator route |
| Calculation.Render | calculation.js:270 | 'too large' is spoken as the text "too large"; other values go through the number-to-text conversion |
| Calculation.Respond | calculation.js:266-272 | the error message verbatim, "Unable to do " followed by the raw input for `undefined`, "The answer is " followed by the rendered value ("The answer is too large" for 'too large'), and no reply for an escaping exception |
| Calculation.FactorialTooLargeReply | calculation.js:133-135 | a factorial request above 15 is answered "The answer is too large" |
| Calculation.RepliesDistinguishOutcomes | calculation.js:266-272 | answers, fallbacks and the length error can be told apart from the reply text alone |
| Normalizer.ReplaceUnchangedIff | calculation.js:223-228 | a rule whose words are all longer than their replacement leaves the text unchanged exactly when it matches nowhere, and never lengthens it |
| Normalizer.ReplaceKeepsLowerCase | calculation.js:220-228 | a replacement keeps a lower-case text lower-case |
| Normalizer.ReplaceRemoves | calculation.js:226 | a rule listing a one-character word removes every occurrence of that character |
| Normalizer.LongestAlternativeWins | calculation.js:221-222 | when no word is listed after one of its prefixes, the engine replaces the longest listed word present |
| Normalizer.ShadowFreeSound | calculation.js:221-222 | the pairwise check decides that no word is listed after one of its prefixes |
| Normalizer.StripLeadingOperator | calculation.js:227 | on one line, the first character is removed exactly when it is `!`, `/` or `*` |
| Normalizer.StripTrailingOperator | calculation.js:228 | on one line, the last character is removed exactly when it is `+`, `-`, `/` or `*` |
| Normalizer.FillerGone | calculation.js:226-228 | after the filler rule and the two operator rules no space, question mark or full stop remains |
| Normalizer.Replace | calculation.js:221-228 | a global replacement leaves a text the pattern matches nowhere unchanged |
| Normalizer.NormalizeAsWritten | calculation.js:220-228 | the rewriting with the rules as written never lengthens the phrase, lower-cases it and removes every space, question mark and full stop |
| Normalizer.Normalize | calculation.js:220-228 | the same holds for the rewriting with each word listed before its prefixes |
| Normalizer.AdditionRuleSplitsWord | calculation.js:221 | the addition rule as written lists "add" before "addition" and turns "addition" into "+ition" |
| Normalizer.SubtractionRuleSplitsWord | calculation.js:222 | the subtraction rule as written lists "subtract" before "subtraction" and turns "subtraction" into "-ion" |
| Normalizer.AdditionRuleKeepsWord | calculation.js:221 | with "addition" listed first no word is shadowed and "addition" becomes one `+` |
| Normalizer.SubtractionRuleKeepsWord | calculation.js:222 | with "subtraction" listed first no word is shadowed and "subtraction" becomes one `-` |

## Left out

- Randomness: `Math.random()` is not modelled. Each turn receives the values it would return, in order.
- Game.DivideTurn: the resampling loop of `doDivide` is modelled only for draw streams that contain an even number. Without one the loop never ends, and the model has no result for that case.
- Number to text: `toString`, `toFixed` and template literals are a rendering parameter (`show`). `Value` records which rounding `toFixed` would apply but does not perform it.
- Floating point: operands are exact reals. `Math.sqrt`, `Math.pow`, `Math.sin`, `Math.cos` and `Math.tan` are left as uninterpreted values (`Library`, `FixedLibrary`), because their results are floating-point approximations. Rounding of sums, products and quotients is not modelled. Factorials up to 15 are exact in double precision (`Calculation.FactorialStaysExact`).
- Signed zero: `-0` is not distinguished from `0`, so `0 / -0` is NaN in both.
- Game.Play: the `counter` context argument is taken to be a number, although `playGame` never converts it (only the two totals go through `Number()`). Were it to come back as a string, `+= 1` would concatenate and the reveal test would never hold.
- `Number()` coercion of the context arguments and request parameters is not modelled. Operands are taken as already-parsed finite numbers, so NaN or infinite operands are out of scope.
- `mathjs.eval` is a parameter (`eval`). `NoValue` stands for both a thrown error and an `undefined` result, since `calculate` answers both with the fallback; `NullValue` is a `null` result. Other objects the evaluator can return (matrices, result sets) are not distinguished from values.
- `apiApp.getRawInput()` is taken to be the resolved query the rest of `calculate` reads.
- Case mapping: lower-casing and the `i` flag are modelled on ASCII letters only. `toLowerCase` of other characters is left out because some of them change length.
- String length is counted in characters, not in UTF-16 code units, for the 200-character guard.
- An empty alternative in a rule is read as no match. The source's rules have none.
- Calculation.JsFactorial: the call stack is abstracted as a depth bound. 15 nested calls suffice for every argument that terminates, and any bound gives overflow for the others.
- Platform plumbing is not part of this model: `ApiAiApp`, contexts and lifespans, `buildRichResponse`, the suggestion chips and the reply pools (`BEGIN_GAME_RES`, `INIT_REPLIES`, ...). The same goes for `beginGame` and `initCalculation`, which only pick a reply and set a context, and for `index.js`, the HTTP routing.

## Findings

| source | as written | input that shows it | evidently intended | confidence | as-written member | corrected member |
|---|---|---|---|---|---|---|
| calculation.js:221 | the addition rule lists "add" before "addition" in its alternatives, so the engine replaces only "add" | "addition" is rewritten to "+ition" | "addition" rewritten to "+" | high; not executed | Normalizer.AdditionRuleSplitsWord | Normalizer.AdditionRuleKeepsWord |
| calculation.js:222 | the subtraction rule lists "subtract" before "subtraction" in its alternatives, so the engine replaces only "subtract" | "subtraction" is rewritten to "-ion" | "subtraction" rewritten to "-" | high; not executed | Normalizer.SubtractionRuleSplitsWord | Normalizer.SubtractionRuleKeepsWord |

In both cases the leftover letters ("ition", "ion") survive the filler rule and
reach the evaluator, for example "5+ition3" for "5 addition 3".
`NormalizeAsWritten` keeps the order the source has and is the rewriting
`Calculation.CascadeCalc` uses. `Normalize` is the corrected rewriting, with
each word listed before its prefixes; the shape guarantees hold for both.
