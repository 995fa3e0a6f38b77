# Temperature-guided reasoning engine, modelled in Dafny

The engine turns a problem sentence into a trace of reasoning steps. It has two parts.

The **token temperature mechanism** (`TokenTemperatureMechanism`) gives every token a salience score, its *temperature*:
- it hashes the token with a 32-bit rolling hash;
- it expands the hash into a saw-tooth pseudo-embedding;
- it scores that embedding with `numHeads` heads, each a bias plus a weighted sum passed through the logistic function, and averages the heads.

The mechanism also clamps temperatures into `[0.01, 0.99]`.

The **guided step controller** (`GuidedSequenceOfThought`) runs the trace:
- it tokenises the sentence;
- the tokens whose temperature is above a threshold are *hot*;
- on each step, it reads the previous step's hot tokens as an arithmetic instruction. The first two numbers are the operands. The operation is the first of add, subtract, multiply, divide, percent whose word is hot;
- it boosts the temperatures of words of a detected addition, subtraction, multiplication or division, and then decays those of hot words;
- it stops when a step is terminal or the step budget runs out.

The Dafny project has four modules:
- `Types` (`types.dfy`): the `ReasoningStep` record and the value types it is built from.
  - `calculation` is an `Option<Calculation>` (an operation and two operands) rather than a rendered string.
  - `result` is an `Option<Number>`, which is either `Finite(value)` or `NonFinite` (the infinity or NaN of a division by zero).
  - The empty string of the source is `None`. `isComplete` is `None` on the first step.
- `NumberParsing` (`number_parsing.dfy`): a leading-decimal reading of a token, which stands in for JavaScript's `parseFloat`.
- `TemperatureMechanism` (`token_temperature_mechanism.dfy`):
  - the clamp;
  - the 32-bit hash, as a loop over the characters and as a fold;
  - the embeddings;
  - the class `TokenTemperatureMechanism`. Its weights, biases and squashing function are fixed at construction.
- `GuidedSequence` (`guided_sequence_of_thought.dfy`):
  - the tokenizer;
  - hot-token selection;
  - operation choice and evaluation;
  - the temperature update;
  - the specification `NextStep` of one step;
  - the specification `TraceFollows` of a whole trace;
  - the class `GuidedSequenceOfThought`. Its imperative methods are proved against those specifications.

Four behaviours of the code are worth knowing:
- **Non-positive step budget.** When `maxSteps <= 0` the loop never runs, and the generator returns the trace holding only the initial step (`GenerateReasoningPath`).
- **Boost and decay.** The boost and the decay are two writes to the same slot, one after the other; the decay reads the value the boost wrote. A token that is both boosted and decayed therefore ends at `min(t + 0.1, 0.85)` (`SlotUpdateNetEffect`, `AdjustTemperatures`).
- **Step records.** The generator appends a non-terminal step and then overwrites the temperatures of the same object with their adaptation. The trace therefore records adapted temperatures next to hot tokens computed before the adaptation (`Recorded`, `AdvanceTrace`).
- **Decay by string.** The decay tests whether the token *string* was hot. Every occurrence of a hot word is decayed, even where that occurrence's own temperature was low (`DecayMatchesByString`).

## Model

| member | source | states |
|---|---|---|
| NumberParsing.ParseNumber | src/models/GuidedSequenceOfThought.ts:89-91 | a token is a number only if it has a digit; a token starting with a digit is a non-negative number; a token starting with anything other than a digit, sign or point is not a number |
| NumberParsing.DigitRun | src/models/GuidedSequenceOfThought.ts:90 | the length of the longest run of leading digits: every character before it is a digit, the one at it is not |
| NumberParsing.FractionValue | src/models/GuidedSequenceOfThought.ts:90 | the digits after a decimal point read as a non-negative value |
| NumberParsing.ParseThirty | src/models/GuidedSequenceOfThought.ts:90 | "30" and "30%" both read as 30 |
| NumberParsing.ParseCurrencyAndWords | src/models/GuidedSequenceOfThought.ts:90-91 | "$80" and "percent" are not numbers, "8%" reads as 8 |
| NumberParsing.ParseEighty | src/models/GuidedSequenceOfThought.ts:90 | "80" reads as 80 |
| NumberParsing.ParseDecimal | src/models/GuidedSequenceOfThought.ts:90 | "2.5" reads as 2.5 |
| TemperatureMechanism.Regulate | src/models/TokenTemperatureMechanism.ts:46-47 | the result lies in [0.01, 0.99]; an in-range value is kept, one below goes to 0.01, one above to 0.99 |
| TemperatureMechanism.RegulateTemperatures | src/models/TokenTemperatureMechanism.ts:45-48 | same length; every slot clamped into [0.01, 0.99], in-range slots unchanged, low ones set to 0.01, high ones to 0.99 |
| TemperatureMechanism.RegulateIdempotent | src/models/TokenTemperatureMechanism.ts:47 | regulating twice equals regulating once |
| TemperatureMechanism.RegulateExample | src/models/TokenTemperatureMechanism.ts:46-47 | [0, 1, 0.5] becomes [0.01, 0.99, 0.5] |
| TemperatureMechanism.Wrap32 | src/models/TokenTemperatureMechanism.ts:73 | the bitwise OR with 0: the result is a signed 32-bit value congruent to x modulo 2^32 |
| TemperatureMechanism.Wrap32Absorbs | src/models/TokenTemperatureMechanism.ts:72-73 | truncating `hash << 5` before the rest of the sum does not change the truncated total, so the loop step equals 31h + c truncated |
| TemperatureMechanism.HashFold | src/models/TokenTemperatureMechanism.ts:69-74 | the hash before `Math.abs`, a left fold of h := wrap32(31h + c) from 0, is a signed 32-bit value |
| TemperatureMechanism.HashValue | src/models/TokenTemperatureMechanism.ts:75 | the hash is in [0, 2^31] and the empty string hashes to 0 |
| TemperatureMechanism.HashReachesUpperBound | src/models/TokenTemperatureMechanism.ts:73-75 | "GydZG_" folds to -2^31, so the hash reaches 2^31 |
| TemperatureMechanism.EmbeddingEntry | src/models/TokenTemperatureMechanism.ts:62 | each embedding entry lies in [0, 0.99] |
| TemperatureMechanism.Embedding | src/models/TokenTemperatureMechanism.ts:58-63 | `modelDim` entries, all in [0, 0.99] |
| TemperatureMechanism.NextResidue | src/models/TokenTemperatureMechanism.ts:62 | the residue modulo 100 of a successor climbs by one and wraps from 99 to 0 |
| TemperatureMechanism.EmbeddingSawTooth | src/models/TokenTemperatureMechanism.ts:61-63 | each entry is the previous plus 0.01, wrapping from 0.99 to 0 |
| TemperatureMechanism.EmbeddingsCollideModulo100 | src/models/TokenTemperatureMechanism.ts:56-65 | two embeddings are equal exactly when the hashes agree modulo 100 |
| TemperatureMechanism.TokenTemperatureMechanism.constructor | src/models/TokenTemperatureMechanism.ts:11-20 | keeps the dimensions and the drawn weights and biases, one row of `modelDim` weights per head, all in [0.49, 0.51) |
| TemperatureMechanism.TokenTemperatureMechanism.Temperatures | src/models/TokenTemperatureMechanism.ts:23-41 | one temperature per token, index-aligned; equal tokens get equal temperatures |
| TemperatureMechanism.TokenTemperatureMechanism.HeadScore | src/models/TokenTemperatureMechanism.ts:32-35 | a head's score is its bias plus the weighted sum of the embedding; on an embedding without negative entries it is at least 0.49, the smallest bias |
| TemperatureMechanism.Dot | src/models/TokenTemperatureMechanism.ts:33-35 | with non-negative weights and entries the weighted sum is non-negative |
| TemperatureMechanism.TokenTemperatureMechanism.SigmoidSum | src/models/TokenTemperatureMechanism.ts:30-37 | the running sum over the first n heads lies in [0, n] when the squashing function keeps to [0, 1] |
| TemperatureMechanism.TokenTemperatureMechanism.TokenTemperature | src/models/TokenTemperatureMechanism.ts:28-38 | a token's raw temperature, the mean over heads, lies in [0, 1] when the squashing function keeps to [0, 1] |
| TemperatureMechanism.MeanWithin | src/models/TokenTemperatureMechanism.ts:38 | dividing a sum of n values from [lo, hi] by n gives a value in [lo, hi] |
| TemperatureMechanism.TokenTemperatureMechanism.SigmoidSumBounds | src/models/TokenTemperatureMechanism.ts:31-37 | the sum over n heads lies between n times the squashing function's lower and upper bounds |
| TemperatureMechanism.TokenTemperatureMechanism.TemperatureWithinSigmoidBounds | src/models/TokenTemperatureMechanism.ts:36-38 | a raw temperature, a mean of squashed scores, lies within the squashing function's bounds |
| TemperatureMechanism.TokenTemperatureMechanism.HashString | src/models/TokenTemperatureMechanism.ts:69-76 | the character loop with `(h << 5) - h + c` and 32-bit truncation computes the fold's absolute value, at most 2^31 |
| TemperatureMechanism.TokenTemperatureMechanism.SimulateEmbeddings | src/models/TokenTemperatureMechanism.ts:54-67 | one embedding per token, each the saw-tooth of the token's hash; equal tokens get equal embeddings |
| TemperatureMechanism.TokenTemperatureMechanism.CalculateTemperatures | src/models/TokenTemperatureMechanism.ts:23-41 | exactly one temperature per token, index-aligned, equal to the token's mean squashed head score |
| TemperatureMechanism.TokenTemperatureMechanism.MeanHeadActivation | src/models/TokenTemperatureMechanism.ts:30-38 | the nested head and dimension loops compute the mean over heads of the squashed bias-plus-dot-product |
| GuidedSequence.ReplacePunctuation | src/models/GuidedSequenceOfThought.ts:68 | same length; no punctuation left; a slot is whitespace exactly where the text had a separator; other characters kept |
| GuidedSequence.SplitOnWhitespace | src/models/GuidedSequenceOfThought.ts:69 | there is always at least one piece, even for the empty input |
| GuidedSequence.Push | src/models/GuidedSequenceOfThought.ts:69 | adding a character in front of the pieces leaves at least one piece |
| GuidedSequence.PushAppend | src/models/GuidedSequenceOfThought.ts:69 | adding a character in front only touches the first piece, whatever pieces follow |
| GuidedSequence.SplitPiecesFromInput | src/models/GuidedSequenceOfThought.ts:69 | no piece holds whitespace, and every character of a piece comes from the input |
| GuidedSequence.SplitAtWhitespace | src/models/GuidedSequenceOfThought.ts:69 | splitting x, a whitespace character, then y gives the pieces of x followed by the pieces of y |
| GuidedSequence.SplitConsStep | src/models/GuidedSequenceOfThought.ts:69 | the step of that induction: if it holds for the input without its first character, it holds for the input |
| GuidedSequence.SplitWithoutWhitespace | src/models/GuidedSequenceOfThought.ts:69 | a string without whitespace is a single piece |
| GuidedSequence.NonEmptyAppend | src/models/GuidedSequenceOfThought.ts:70 | dropping empty pieces from two lists joined is dropping them from each |
| GuidedSequence.NonEmpty | src/models/GuidedSequenceOfThought.ts:70 | only non-empty pieces, each one taken from the input |
| GuidedSequence.Tokenize | src/models/GuidedSequenceOfThought.ts:66-71 | no token is empty and no token holds whitespace or any of `. , ? ! ; ( )` |
| GuidedSequence.ConcatNonEmpty | src/models/GuidedSequenceOfThought.ts:70 | dropping empty pieces does not change their concatenation |
| GuidedSequence.ConcatSplit | src/models/GuidedSequenceOfThought.ts:69 | the split pieces, joined, are the input without its whitespace |
| GuidedSequence.DropWhitespaceReplaced | src/models/GuidedSequenceOfThought.ts:68 | blanking punctuation and then dropping whitespace drops exactly the separators |
| GuidedSequence.TokenizeEmpty | src/models/GuidedSequenceOfThought.ts:66-71 | the empty text has no tokens |
| GuidedSequence.TokenizeWord | src/models/GuidedSequenceOfThought.ts:66-71 | a non-empty string without whitespace or punctuation is exactly one token, itself |
| GuidedSequence.TokenizeAtSeparator | src/models/GuidedSequenceOfThought.ts:66-71 | a whitespace or punctuation character is a token boundary: the tokens of a, c, b are the tokens of a followed by those of b |
| GuidedSequence.TokenizeTrailingWord | src/models/GuidedSequenceOfThought.ts:66-71 | a separator then a word appended to a text add exactly that word as the last token |
| GuidedSequence.TokenizeTrailingSeparator | src/models/GuidedSequenceOfThought.ts:66-71 | a trailing separator adds no token |
| GuidedSequence.TokenizeDiscountOpening | src/models/GuidedSequenceOfThought.ts:66-71 | "A store has a 30%" gives the five tokens A, store, has, a, 30% |
| GuidedSequence.TokenizeDiscountItem | src/models/GuidedSequenceOfThought.ts:66-71 | "A store has a 30% discount on an $80 item" gives its ten words as tokens, `$80` whole |
| GuidedSequence.TokenizeDiscountProblem | src/models/GuidedSequenceOfThought.ts:66-71 | "A store has a 30% discount on an $80 item, then adds 8% tax." gives its fourteen words; the comma and full stop go, `30%`, `$80` and `8%` stay whole |
| GuidedSequence.TokenizeKeepsNonSeparators | src/models/GuidedSequenceOfThought.ts:66-71 | the tokens, joined, are the text's non-separator characters in order, so `%` and `$` stay inside tokens |
| GuidedSequence.HotTokenIndices | src/models/GuidedSequenceOfThought.ts:73-79 | strictly increasing in-range indices; an index is included exactly when its temperature is above the threshold |
| GuidedSequence.HotTokens | src/models/GuidedSequenceOfThought.ts:27-28 | the j-th hot token is the token at the j-th hot index, so hot tokens keep sentence order; never more hot tokens than tokens |
| GuidedSequence.HotTokensExactly | src/models/GuidedSequenceOfThought.ts:161-163 | a string is hot exactly when some slot holding it is above the threshold; at most one hot entry per token |
| GuidedSequence.HotTokensSnoc | src/models/GuidedSequenceOfThought.ts:27-28 | one more token adds itself at the end of the hot list exactly when its temperature is above the threshold, leaving the earlier hot tokens in their order |
| GuidedSequence.HotTokenHasHotSlot | src/models/GuidedSequenceOfThought.ts:27-28 | every hot token stands in some slot whose temperature is above the threshold |
| GuidedSequence.HotSlotGivesHotToken | src/models/GuidedSequenceOfThought.ts:27-28 | the token in a slot above the threshold is among the hot tokens |
| GuidedSequence.IndicesFit | src/models/GuidedSequenceOfThought.ts:163 | strictly increasing indices below n number at most n |
| GuidedSequence.Parsed | src/models/GuidedSequenceOfThought.ts:90 | one reading per hot token |
| GuidedSequence.Values | src/models/GuidedSequenceOfThought.ts:91 | no more values than readings |
| GuidedSequence.Present | src/models/GuidedSequenceOfThought.ts:91 | strictly increasing positions, each holding a value, and every position holding a value is among them |
| GuidedSequence.ValuesInOrder | src/models/GuidedSequenceOfThought.ts:89-91 | there are as many values as present positions, and the j-th value is the one at the j-th present position |
| GuidedSequence.Numbers | src/models/GuidedSequenceOfThought.ts:89-91 | no more numbers than hot tokens |
| GuidedSequence.NumericIndices | src/models/GuidedSequenceOfThought.ts:89-91 | strictly increasing positions of hot tokens that parse, and every hot token that parses is among them |
| GuidedSequence.NumbersInOrder | src/models/GuidedSequenceOfThought.ts:89-91 | one number per hot token that parses, and the j-th number is the value of the j-th hot token that parses |
| GuidedSequence.OperandsAreFirstNumericHotTokens | src/models/GuidedSequenceOfThought.ts:89-107 | there are two numbers exactly when two hot tokens parse; the first two numbers are then the values of two hot tokens k0 < k1, and no other hot token before k1 parses |
| GuidedSequence.TwoPresent | src/models/GuidedSequenceOfThought.ts:105 | at least two present positions exactly when two readings hold a value |
| GuidedSequence.TwoValuesPresent | src/models/GuidedSequenceOfThought.ts:105 | two readings holding a value give at least two present positions |
| GuidedSequence.FirstTwoPresent | src/models/GuidedSequenceOfThought.ts:107 | before the second present position only the first one holds a value |
| GuidedSequence.ChooseOperation | src/models/GuidedSequenceOfThought.ts:100-127 | a calculation is made exactly when there are two numbers and some operation word is hot, and its operands are the first two numbers |
| GuidedSequence.OperationChoice | src/models/GuidedSequenceOfThought.ts:94-127 | the operation made is a detected one, and no operation earlier in the order add, subtract, multiply, divide, percent was detected |
| GuidedSequence.Evaluate | src/models/GuidedSequenceOfThought.ts:105-126 | only a division by zero is non-finite; sums, differences, quotients and percentages undo back to the left operand; a product divided by a non-zero right operand gives back the left one, and a product with a zero right operand is 0 |
| GuidedSequence.OperationDescription | src/models/GuidedSequenceOfThought.ts:109-125 | every intermediate step's description is non-empty |
| GuidedSequence.OperationDescriptionsDiffer | src/models/GuidedSequenceOfThought.ts:109-125 | the five descriptions are pairwise different and none is that of the first step (line 35) or of the final step (line 157) |
| GuidedSequence.IsBoosted | src/models/GuidedSequenceOfThought.ts:137-140 | a token is boosted exactly when it is a word of an addition, subtraction, multiplication or division detected among the hot tokens, even if that word itself is not hot; so a boosted token is an arithmetic word, never a percentage word or a number, and a hot arithmetic word is always boosted |
| GuidedSequence.UpdatedTemperature | src/models/GuidedSequenceOfThought.ts:136-147 | a slot neither boosted nor hot keeps its value; a hot slot ends at least 0.05; the result stays between min(t, 0.05) and max(t, 0.95) |
| GuidedSequence.UpdatedTemperatures | src/models/GuidedSequenceOfThought.ts:130-148 | one updated temperature per token |
| GuidedSequence.SlotUpdateNetEffect | src/models/GuidedSequenceOfThought.ts:133-148 | on a regulated slot: untouched, boosted to min(t+0.2, 0.95), decayed to max(t-0.1, 0.05), or both giving min(t+0.1, 0.85); always within [0.01, 0.99] |
| GuidedSequence.PercentWordsNeverBoosted | src/models/GuidedSequenceOfThought.ts:137-140 | a percentage word is never boosted, and unless hot it keeps its temperature |
| GuidedSequence.IsTerminal | src/models/GuidedSequenceOfThought.ts:151-154 | from index 3 on a step is terminal; before that, only a step with a result and no hot addition, subtraction, multiplication or division word |
| GuidedSequence.InitialStep | src/models/GuidedSequenceOfThought.ts:23-38 | step 0 is "Initial problem analysis" with no calculation, result or completion flag, and its hot tokens are exactly the tokens above the threshold |
| GuidedSequence.NextStep | src/models/GuidedSequenceOfThought.ts:81-174 | same tokens, aligned and regulated temperatures; the completion flag is set; a result exactly when a calculation; index 3 or more is complete; a complete step is "Final result calculation" |
| GuidedSequence.CompletionRule | src/models/GuidedSequenceOfThought.ts:150-158 | a step is complete exactly when its index is at least 3 or it performed a percentage calculation |
| GuidedSequence.NoCalculationWithoutTwoNumbers | src/models/GuidedSequenceOfThought.ts:105 | with fewer than two numbers there is no calculation or result, and the step completes only from index 3 |
| GuidedSequence.PercentExample | src/models/GuidedSequenceOfThought.ts:122-125 | hot "30", "percent", "80" give the percentage 30 x 80 / 100 = 24 |
| GuidedSequence.ExampleNumbers | src/models/GuidedSequenceOfThought.ts:89-91 | the numbers of "30", "percent", "80" are 30 and 80 |
| GuidedSequence.ExampleParsed | src/models/GuidedSequenceOfThought.ts:90 | "30", "percent", "80" read as 30, nothing, 80 |
| GuidedSequence.ParsedThree | src/models/GuidedSequenceOfThought.ts:90 | three hot tokens are read one by one, in order |
| GuidedSequence.ExampleValues | src/models/GuidedSequenceOfThought.ts:91 | the values of those readings are 30 and 80, in order |
| GuidedSequence.ExampleKeywords | src/models/GuidedSequenceOfThought.ts:94-98 | of those tokens only the percentage flag is set |
| GuidedSequence.DecayMatchesByString | src/models/GuidedSequenceOfThought.ts:145-147 | a slot whose word is hot elsewhere is decayed even if its own temperature was low |
| GuidedSequence.AdaptTemperatures | src/models/GuidedSequenceOfThought.ts:176-190 | same length; identity after a calculation, otherwise every value is pulled 10% of the way towards 0.5 |
| GuidedSequence.AdaptKeepsRegulatedRange | src/models/GuidedSequenceOfThought.ts:184-185 | adaptation keeps temperatures in [0.01, 0.99], and adapted values lie in [0.059, 0.941] |
| GuidedSequence.Recorded | src/models/GuidedSequenceOfThought.ts:53-60 | the recorded step differs from the computed one only in its temperatures, same length, still regulated |
| GuidedSequence.TraceExtend | src/models/GuidedSequenceOfThought.ts:43-61 | appending the recorded next step to a well-formed trace gives a well-formed trace |
| GuidedSequence.AlignedExtend | src/models/GuidedSequenceOfThought.ts:45-60 | appending an aligned step to a trace of aligned steps keeps every step aligned |
| GuidedSequence.ChainExtend | src/models/GuidedSequenceOfThought.ts:45-60 | appending the recorded successor of the last step keeps every step the successor of the one before |
| GuidedSequence.GuidedSequenceOfThought.constructor | src/models/GuidedSequenceOfThought.ts:12-15 | keeps the mechanism and the threshold, 0.5 by default |
| GuidedSequence.GuidedSequenceOfThought.GenerateReasoningPath | src/models/GuidedSequenceOfThought.ts:18-64 | the trace starts with the initial step over the regulated temperatures; each later entry is the recorded next step; only the last can be complete; it ends complete or after max(maxSteps, 1) entries; one entry when maxSteps <= 1; never more than 4 or max(maxSteps, 1) entries |
| GuidedSequence.GuidedSequenceOfThought.ContinueTrace | src/models/GuidedSequenceOfThought.ts:40-61 | the step loop from a given initial step, with the same guarantees about the trace |
| GuidedSequence.GuidedSequenceOfThought.AdvanceTrace | src/models/GuidedSequenceOfThought.ts:45-60 | one loop pass extends the trace by one recorded step; it is terminal from index 3 on |
| GuidedSequence.GuidedSequenceOfThought.SimulateNextReasoningStep | src/models/GuidedSequenceOfThought.ts:81-174 | computes exactly `NextStep` |
| GuidedSequence.GuidedSequenceOfThought.AdjustTemperatures | src/models/GuidedSequenceOfThought.ts:130-148 | the in-place boost-then-decay pass over a copy gives exactly the per-slot update |

## Left out

- Floating point: temperatures, weights and calculation values are exact reals. IEEE rounding in the clamp, boost, decay, adaptation and head scores is not modelled.
- Randomness: the `Math.random` draws of the weights and biases are constructor parameters, constrained to the drawn range [0.49, 0.51).
- The exponential: the logistic function `1 / (1 + e^-x)` is a constructor parameter `sigmoid`. Its bounds enter proofs only as a hypothesis (`SquashesIntoUnit`, `TemperatureWithinSigmoidBounds`).
- TemperatureMechanism.TokenTemperatureMechanism.constructor: requires `numHeads > 0`. With no heads the source divides 0 by 0 and every temperature is NaN.
- NumberParsing.ParseNumber: reads only an optional sign, digits and an optional fraction. It ignores `parseFloat`'s exponent forms (`1e3`), `Infinity` and leading whitespace; tokens never hold whitespace.
- Number rendering: the `calculation` and `result` strings are kept as operation and operands, and as a `Number`. Their text, the `×`/`÷` signs and the `Infinity`/`NaN` spellings are not modelled. Only the result's presence feeds the completion rule.
- Character codes: a Dafny `char` is a Unicode scalar value. JavaScript's `charCodeAt` sees UTF-16 code units, so the hash differs for characters outside the Basic Multilingual Plane.
- GuidedSequence.SplitOnWhitespace: splits at every single whitespace character rather than at runs of whitespace. The two differ only in empty pieces, and the tokenizer drops those.
- The React/D3 demonstration component, animation timing and comparison metrics are not part of this model. They only display a finished trace.
