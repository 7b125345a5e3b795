# Productivity workspace: calculator, session state and server routes

This project models the core of a browser "productivity workspace". It covers the
following parts:

- **The themed calculator** (`app/scripts/ui/calculatorUI.js`):
  - the one-pass sanitizer that rewrites the display field while the user types;
  - removal of trailing operators;
  - the tokenizer, including its hand-written number reader;
  - the two-pass evaluator (× and ÷ before + and −) with `safeOp` and its rounding to 12 decimals;
  - `formatResult`;
  - the keypad, keyboard and input handlers that drive the display's text and its `calc-invalid` mark.
- **The client session store** (`app/scripts/state.js`): theme, model key and mode preferences persisted in local storage, per-mode chat histories, and the stored location.
- **The model registry** (`app/scripts/services/modelRegistry.js`) and `truncateText` (`app/scripts/utils/helpers.js`).
- **The server's pure logic:**
  - the chat route's message sanitisation, mode defaults, system prompt, reverse scan for the latest user message, and response payload;
  - the Reddit route's subreddit and limit coercion, its 400 error and item shaping;
  - the news route's category coercion and item shaping;
  - the search client's site-filter clause, host allow-listing, news queries and reverse-geocoding display name.

Modules, one per file:

| file | module | models |
|---|---|---|
| `wrappers.dfy` | `Wrappers` | `Option` and `Result` |
| `jstext.dfy` | `JsText` | JavaScript `trim`, `\s`, `toLowerCase`/`toUpperCase` on ASCII, `join` |
| `calc_text.dfy` | `CalcText` | `isOperator`, `unifyOps`, `sanitizeForDisplay`, `dropTrailingOperators` |
| `calc_eval.dfy` | `CalcEval` | `tokenize`, `evaluateTokens`, `safeOp`, `round` |
| `calc_format.dfy` | `CalcFormat` | `toFixed(12)`, the trailing-zero regex, `formatResult` |
| `calc_display.dfy` | `CalcDisplay` | the handlers, and class `Calculator` holding the display's state |
| `app_state.dfy` | `AppState` | the store, as class `Store`, with its specification functions |
| `model_registry.dfy` | `ModelRegistry` | the registry |
| `helpers.dfy` | `Helpers` | `truncateText` |
| `tavily.dfy` | `Tavily` | the search client's pure parts |
| `news_route.dfy` | `NewsRoute` | the news route |
| `reddit_route.dfy` | `RedditRoute` | the Reddit route |
| `chat_route.dfy` | `ChatRoute` | the chat route |

## How the model is stated

**Imperative code.**
- Each loop of the source is a `method` with its invariants: the sanitizer, `dropTrailingOperators`, `readNumber`, `tokenize`, the three loops of `evaluateTokens`, and the chat route's reverse scan.
- Each such method is proved equal to a function that specifies it.
- The calculator's display and the session store update their fields in place, so they are classes. Each method ensures that the new state is a specification function of the old state, and that the class invariant is kept.

**Main results for the calculator.**
- Every sanitized text is *canonical*:
  - it holds only digits, `.` and the four operators;
  - a `.` comes only right after a digit, and at most once per number;
  - no operator comes right after a `.`.
- Every handler keeps the display canonical (`PressKeepsCanonical` and the class invariant).
- The sanitizer deletes characters and inserts only `0`s. Every typed digit survives, in order.
- A stricter shape is proved fixed by the sanitizer. Every key keeps that shape (`PressKeepsStrict`).
- `tokenize` returns number, operator, …, number, or null.
- The evaluator gives × and ÷ precedence (`EvaluateLastTerm`).
- A division by a literal zero makes the result non-finite.
- The text `formatResult` shows reads back through `tokenize` as the number `toFixed(12)` wrote (`FormatResultRoundTrip`).
- Pressing `=` again on a computed result shows the same result (`RepeatedEquals`).

**Behaviour proved from the code that differs from the file's own description.** The file's header says it prevents sequences of several operators. The code does not:

- After an operator other than `-`, typing `-` and then that operator again leaves one more operator each time. `SanitizeOperatorRun` proves this: runs of operators are unbounded.
- The sanitizer is not idempotent: `5×-×` becomes `5××`, which becomes `5×`.
- A leading `-` followed by another operator is replaced by it, so a sanitized text can start with `+`, `×` or `÷`.
- The operator key and typing the operator disagree after a negative sign (`OperatorKeyAfterNegativeSign`).
- Only `C`, backspace and `=` remove the invalid mark. Digits, `.` and operators leave it set.

The model follows the code in each of these cases.

**Numbers.** The calculator's numbers are exact reals; non-finite values are one constructor.
- `round` is `Math.round((n + EPSILON) · 10^12) / 10^12`, with `Math.round` rounding half-way cases up.
- `toFixed(12)` writes the nearest multiple of 10^-12, taking the larger one on a tie.
- On a negative number whose rounding is zero, `toFixed` writes `-0.000000000000`. The model keeps that `-` (JavaScript's `-0` check only catches an exact negative zero).

## Model

| member | source | states |
|---|---|---|
| JsText.TrimStart | app/scripts/ui/calculatorUI.js:236 | the result is a suffix of the input, does not start with white space, and only white space was removed |
| JsText.TrimEnd | app/scripts/utils/helpers.js:22 | the result is a prefix of the input, does not end with white space, and only white space was removed (also the regular expression `/\s+$/`) |
| JsText.Trim | app/scripts/ui/calculatorUI.js:236 | the trimmed text neither starts nor ends with white space |
| JsText.TrimIsMiddle | app/scripts/ui/calculatorUI.js:236 | the trimmed text is a middle slice `s[a..b]` of the input with only white space before `a` and from `b` on |
| JsText.TrimOfMiddle | app/scripts/ui/calculatorUI.js:236 | conversely, any such middle slice whose ends are not white space is the trim, so the trim is exactly the input with its leading and trailing white space removed |
| JsText.TrimmedAlready | app/scripts/ui/calculatorUI.js:236 | a text with no white space at either end is its own trim |
| JsText.TrimNoSpaces | app/scripts/ui/calculatorUI.js:236 | a text without white space is its own trim |
| JsText.TrimIdempotent | app/scripts/utils/helpers.js:20 | trimming twice is trimming once |
| JsText.RemoveSpaces | app/scripts/ui/calculatorUI.js:366 | `replace(/\s+/g, '')` leaves no white space and never lengthens the text |
| JsText.RemoveSpacesNoSpaces | app/scripts/ui/calculatorUI.js:366 | removing white space from a text without any changes nothing |
| JsText.RemoveSpacesAppend | app/scripts/ui/calculatorUI.js:366 | removing white space distributes over concatenation |
| JsText.Lower | server/lib/search/tavily.js:23 | `toLowerCase` maps each character and keeps the length |
| JsText.Upper | app/scripts/state.js:153 | `toUpperCase` maps each character and keeps the length |
| JsText.LowerOfIsLower | server/routes/news.js:9 | lower-casing a lower-case text changes nothing |
| JsText.LowerOfUpper | server/routes/news.js:9 | lower-casing forgets case: upper-casing first makes no difference |
| CalcText.UnifyOps | app/scripts/ui/calculatorUI.js:357-362 | the length is kept, each character is replaced by its own glyph (`UnifyChar`) in place, no alias is left, only aliases change, and a character is an operator afterwards exactly when it was an operator or an alias |
| CalcText.UnifyOpsGlyphs | app/scripts/ui/calculatorUI.js:357-362 | `x`, `X` and `*` become ×, `/` becomes ÷, the typographic minus becomes `-`, and every other character is kept |
| CalcText.UnifyOpsPlain | app/scripts/ui/calculatorUI.js:357-362 | a text without aliases is its own `unifyOps` |
| CalcText.KeepAllowed | app/scripts/ui/calculatorUI.js:368 | the filter never lengthens the text |
| CalcText.KeepAllowedAllowed | app/scripts/ui/calculatorUI.js:368 | a text of allowed characters passes the filter unchanged |
| CalcText.SanitizeForDisplay | app/scripts/ui/calculatorUI.js:365-437 | the loop, with invariants, returns the specified sanitized text |
| CalcText.CanonicalIndexed | app/scripts/ui/calculatorUI.js:379-434 | the character-by-character shape and the index-based shape (allowed characters, `.` only after a digit, no operator after `.`, one `.` per segment) are equivalent |
| CalcText.StepKeepsInv | app/scripts/ui/calculatorUI.js:379-434 | one iteration of the loop keeps the text canonical and `last`/`inDecimal` in step with it |
| CalcText.StepDotKeepsInv | app/scripts/ui/calculatorUI.js:387-403 | the `.` branch keeps the loop invariant |
| CalcText.StepOperatorKeepsInv | app/scripts/ui/calculatorUI.js:405-431 | the operator branch keeps the loop invariant |
| CalcText.ScannedInv | app/scripts/ui/calculatorUI.js:379-434 | the invariant holds after the whole loop |
| CalcText.SanitizeIsCanonical | app/scripts/ui/calculatorUI.js:365-437 | whatever the input, the sanitized text is canonical |
| CalcText.PreparedAllowed | app/scripts/ui/calculatorUI.js:366-368 | the preparation (unify, strip white space, filter) leaves a text of allowed characters unchanged |
| CalcText.PreparedAppend | app/scripts/ui/calculatorUI.js:366-368 | an allowed character typed at the end is still at the end after the preparation |
| CalcText.SanitizeAppendStep | app/scripts/ui/calculatorUI.js:379-434 | sanitizing a text with one more allowed character is one more loop step after sanitizing the text |
| CalcText.SanitizeAppendDigit | app/scripts/ui/calculatorUI.js:382-385 | a digit typed at the end is appended as it is |
| CalcText.StepDotOut | app/scripts/ui/calculatorUI.js:387-403 | the `.` branch: nothing in a segment that has a `.`, "0." at the start or after an operator, `.` otherwise |
| CalcText.StepOperatorOut | app/scripts/ui/calculatorUI.js:405-431 | the operator branch: only `-` at the start; after an operator, `-` is appended unless the last is `-`, else the operator is replaced; after `.` a `0` comes first |
| CalcText.SanitizeAppendDot | app/scripts/ui/calculatorUI.js:387-403 | the `.` branch seen on the sanitized text |
| CalcText.SanitizeAppendOperator | app/scripts/ui/calculatorUI.js:405-431 | the operator branch seen on the sanitized text |
| CalcText.ScannedEmbeds | app/scripts/ui/calculatorUI.js:379-434 | the loop's output is its input with characters deleted and `0`s inserted |
| CalcText.SanitizeOnlyInsertsZeros | app/scripts/ui/calculatorUI.js:365-437 | the sanitizer only deletes characters and inserts `0`s |
| CalcText.Digits | app/scripts/ui/calculatorUI.js:382 | the digits of a text are all digits |
| CalcText.DigitsAppend | app/scripts/ui/calculatorUI.js:382 | taking the digits distributes over concatenation |
| CalcText.StepDigitsOut | app/scripts/ui/calculatorUI.js:379-434 | a step appends the typed digit, or at most a `0` for a non-digit |
| CalcText.ScannedDigits | app/scripts/ui/calculatorUI.js:379-434 | the loop's output digits are its input digits with `0`s inserted |
| CalcText.DigitsUnifyOps | app/scripts/ui/calculatorUI.js:357-362 | `unifyOps` keeps every digit |
| CalcText.DigitsRemoveSpaces | app/scripts/ui/calculatorUI.js:366 | removing white space keeps every digit |
| CalcText.DigitsKeepAllowed | app/scripts/ui/calculatorUI.js:368 | the filter keeps every digit |
| CalcText.SanitizeKeepsDigits | app/scripts/ui/calculatorUI.js:365-437 | every digit of the input survives in order; the only digits added are `0`s |
| CalcText.DotsSeparated | app/scripts/ui/calculatorUI.js:388-391 | between any two `.` of a sanitized text there is an operator |
| CalcText.StrictIsCanonical | app/scripts/ui/calculatorUI.js:365-437 | the stricter shape implies the canonical one |
| CalcText.StepFits | app/scripts/ui/calculatorUI.js:379-434 | on a character that fits the strict shape, the step appends it |
| CalcText.ScannedStrict | app/scripts/ui/calculatorUI.js:379-434 | on a strictly canonical text, the loop's accumulators are the text, its last character and its segment's `.` |
| CalcText.SanitizeFixesStrict | app/scripts/ui/calculatorUI.js:365-437 | sanitizing a strictly canonical text gives it back unchanged |
| CalcText.SanitizeEmpty | app/scripts/ui/calculatorUI.js:365-437 | the empty text sanitizes to itself |
| CalcText.SanitizeOneDigit | app/scripts/ui/calculatorUI.js:382-385 | a single digit is kept |
| CalcText.SanitizeOperatorAfterDigit | app/scripts/ui/calculatorUI.js:426-428 | an operator after a digit is appended |
| CalcText.SanitizeDigitOperator | app/scripts/ui/calculatorUI.js:426-428 | a digit and then an operator are both kept |
| CalcText.SanitizeMinusThenOperator | app/scripts/ui/calculatorUI.js:413-421 | after an operator other than `-`, typing `-` then that operator leaves one more operator |
| CalcText.ScannedOperatorRun | app/scripts/ui/calculatorUI.js:413-421 | each further `-`, operator pair adds one more operator to the loop's output |
| CalcText.SanitizeOperatorRun | app/scripts/ui/calculatorUI.js:413-421 | runs of operators in a sanitized text are unbounded |
| CalcText.SanitizeNotIdempotent | app/scripts/ui/calculatorUI.js:413-421 | `d×-×` sanitizes to `d××`, which sanitizes to `d×`: sanitizing is not idempotent |
| CalcText.SanitizeLeadingOperatorReplaced | app/scripts/ui/calculatorUI.js:406-421 | an operator after a lone leading `-` replaces it, so a sanitized text can start with `+`, `×` or `÷` |
| CalcText.DropTrailing | app/scripts/ui/calculatorUI.js:440-448 | the longest prefix that does not end with an operator: only operators were dropped |
| CalcText.DropTrailingOperators | app/scripts/ui/calculatorUI.js:440-448 | the loop returns `DropTrailing` of its input |
| CalcEval.DigitsEnd | app/scripts/ui/calculatorUI.js:467 | the digit loop stops at the first non-digit or the end, having passed only digits |
| CalcEval.DigitRun | app/scripts/ui/calculatorUI.js:467 | the run the digit loop passes is all digits |
| CalcEval.DecimalValue | app/scripts/ui/calculatorUI.js:477-478 | `parseFloat` of the read digits is NaN exactly when there is no digit, and otherwise non-negative |
| CalcEval.ReadNumber | app/scripts/ui/calculatorUI.js:457-481 | a successful read advances past at least one character and stops after a digit or `.` |
| CalcEval.ReadNumberNoDot | app/scripts/ui/calculatorUI.js:465-480 | without `.`, the read fails on no digits and otherwise gives the signed integer value |
| CalcEval.ReadNumberDot | app/scripts/ui/calculatorUI.js:465-480 | with `.`, the read gives the signed value of both digit runs, or fails on a lone `.` |
| CalcEval.ReadNumberParts | app/scripts/ui/calculatorUI.js:457-481 | the read described by the indices its two loops stop at |
| CalcEval.ReadNumberAt | app/scripts/ui/calculatorUI.js:457-481 | `readNumber` with its loops returns the specified read |
| CalcEval.TokensFromStep | app/scripts/ui/calculatorUI.js:485-498 | one iteration of the tokenizer: a number read when expecting a number, an operator otherwise, failing on anything else |
| CalcEval.Tokenize | app/scripts/ui/calculatorUI.js:451-506 | `tokenize` with its loop returns the specified tokens |
| CalcEval.TokensFromAlternating | app/scripts/ui/calculatorUI.js:483-498 | the tokens alternate number and operator |
| CalcEval.TokensFromParity | app/scripts/ui/calculatorUI.js:483-503 | the number of tokens is odd exactly when the scan starts expecting a number |
| CalcEval.TokensWellFormed | app/scripts/ui/calculatorUI.js:451-506 | whatever `tokenize` returns that is not null is number, operator, …, number |
| CalcEval.TokensFromLastChar | app/scripts/ui/calculatorUI.js:500-503 | a text that tokenizes does not end with an operator |
| CalcEval.TokensRejects | app/scripts/ui/calculatorUI.js:451-506 | null for the empty text, a text ending with an operator, one starting with × or ÷, and a lone `.` |
| CalcEval.SafeOp | app/scripts/ui/calculatorUI.js:542-550 | a zero divisor gives Infinity; the result is finite exactly when both operands are finite and the divisor is not zero |
| CalcEval.RoundInteger | app/scripts/ui/calculatorUI.js:552-555 | `round` leaves an integer unchanged |
| CalcEval.NumbersOf | app/scripts/ui/calculatorUI.js:511-516 | a well-formed list has one more number than operators |
| CalcEval.OperatorsOf | app/scripts/ui/calculatorUI.js:511-516 | the operators are the odd positions, all of them operators |
| CalcEval.FoldMulDiv | app/scripts/ui/calculatorUI.js:518-532 | after the first pass only + and − remain, with one more operand than operators |
| CalcEval.SplitOperands | app/scripts/ui/calculatorUI.js:511-516 | the first loop splits the tokens into their numbers and operators |
| CalcEval.MulDivPass | app/scripts/ui/calculatorUI.js:518-532 | the second loop computes the first pass |
| CalcEval.AddSubPass | app/scripts/ui/calculatorUI.js:534-539 | the third loop applies + and − left to right |
| CalcEval.EvaluateTokens | app/scripts/ui/calculatorUI.js:508-540 | the empty list is rejected (it throws); any other list gets the specified value |
| CalcEval.SplitLast | app/scripts/ui/calculatorUI.js:511-516 | dropping the last operator and number drops the last of each list |
| CalcEval.ReduceStep | app/scripts/ui/calculatorUI.js:521-532 | one more × or ÷ folds into the last operand; one more + or − is kept for the second pass |
| CalcEval.FoldAddSubSnoc | app/scripts/ui/calculatorUI.js:535-538 | the second pass with one more operand is one more `safeOp` |
| CalcEval.EvaluateNoMulDiv | app/scripts/ui/calculatorUI.js:508-540 | with only + and −, evaluation is the plain left-to-right fold |
| CalcEval.ReduceNoAddSub | app/scripts/ui/calculatorUI.js:518-532 | with only × and ÷, the first pass leaves the left-to-right fold |
| CalcEval.EvaluateNoAddSub | app/scripts/ui/calculatorUI.js:508-540 | with only × and ÷, evaluation is the plain left-to-right fold |
| CalcEval.ReduceLastTerm | app/scripts/ui/calculatorUI.js:518-532 | a last term of × and ÷ after + or − reaches the second pass as one operand |
| CalcEval.EvaluateLastTerm | app/scripts/ui/calculatorUI.js:508-540 | precedence: `a o b`, with `o` one of + and − and `b` only × and ÷, is `safeOp(a, b, o)` |
| CalcEval.EvaluatePrecedenceExample | app/scripts/ui/calculatorUI.js:508-540 | `2 + 3 × 4` evaluates to 14 |
| CalcEval.FoldAddSubNonFinite | app/scripts/ui/calculatorUI.js:535-538 | a non-finite operand makes the second pass non-finite |
| CalcEval.ReduceDivisionByZero | app/scripts/ui/calculatorUI.js:521-527 | a division by zero leaves a non-finite operand after the first pass |
| CalcEval.EvaluateDivisionByZero | app/scripts/ui/calculatorUI.js:547 | a division by a literal zero anywhere makes the result non-finite |
| CalcFormat.DigitChar | app/scripts/ui/calculatorUI.js:561 | the digit character of a digit value reads back as that value |
| CalcFormat.NatText | app/scripts/ui/calculatorUI.js:561 | the integer part `toFixed` writes is non-empty digits whose value is the number |
| CalcFormat.FixedDigits | app/scripts/ui/calculatorUI.js:561 | the 12 fraction digits are zero-padded and read back as the number |
| CalcFormat.FirstTrailingZeros | app/scripts/ui/calculatorUI.js:562 | the leftmost position where `/\.?0+$/` matches, or none |
| CalcFormat.DropZeros | app/scripts/ui/calculatorUI.js:562 | a prefix that does not end with `0`, followed in the input only by `0`s |
| CalcFormat.NatValueZeros | app/scripts/ui/calculatorUI.js:562 | trailing zeros multiply the value of the remaining digits by a power of ten |
| CalcFormat.StripFixed | app/scripts/ui/calculatorUI.js:562 | the regex on `p.f` drops exactly the trailing zeros of `f`, and the `.` too when `f` is all zeros |
| CalcFormat.ReadLiteral | app/scripts/ui/calculatorUI.js:457-481 | `readNumber` reads a whole decimal literal with its value |
| CalcFormat.ReadIntegerAt | app/scripts/ui/calculatorUI.js:457-481 | `readNumber` reads a whole integer literal |
| CalcFormat.ReadDecimalAt | app/scripts/ui/calculatorUI.js:457-481 | `readNumber` reads a whole literal with a fraction |
| CalcFormat.DecimalRuns | app/scripts/ui/calculatorUI.js:467-472 | the two digit loops stop at the `.` and at the end |
| CalcFormat.TokensOneNumber | app/scripts/ui/calculatorUI.js:451-506 | a text read whole by `readNumber` tokenizes to that single number |
| CalcFormat.TokensLiteral | app/scripts/ui/calculatorUI.js:451-506 | `tokenize` reads a literal as one number with its value |
| CalcFormat.FormatFromFixed | app/scripts/ui/calculatorUI.js:557-565 | `formatResult` is the `toFixed(12)` text with the trailing zeros of its fraction removed |
| CalcFormat.FixedText | app/scripts/ui/calculatorUI.js:561 | `toFixed(12)` is the sign, the integer part, `.` and 12 digits |
| CalcFormat.FormatText | app/scripts/ui/calculatorUI.js:557-565 | the text `formatResult` shows for a finite result is a decimal literal |
| CalcFormat.DropZerosValue | app/scripts/ui/calculatorUI.js:562 | removing trailing zeros of a fraction keeps its value |
| CalcFormat.FormatValue | app/scripts/ui/calculatorUI.js:557-565 | the shown literal's value is the number `toFixed(12)` wrote |
| CalcFormat.FormatResultRoundTrip | app/scripts/ui/calculatorUI.js:557-565 | the shown text of a finite result tokenizes back to the number `toFixed(12)` wrote |
| CalcFormat.FixedUnitsOfMultiple | app/scripts/ui/calculatorUI.js:561 | a multiple of 10^-12 is written exactly |
| CalcFormat.FixedValueRounded | app/scripts/ui/calculatorUI.js:552-561 | a value rounded by `round` is written exactly by `toFixed(12)` |
| CalcDisplay.LastIndexOf | app/scripts/ui/calculatorUI.js:265 | `lastIndexOf`: the last index holding the character, or -1 when there is none |
| CalcDisplay.LastOperatorIndex | app/scripts/ui/calculatorUI.js:265 | the index of the last operator, with no operator after it, or -1 |
| CalcDisplay.Segment | app/scripts/ui/calculatorUI.js:265-266 | the current segment is the operator-free suffix after the last operator |
| CalcDisplay.SegmentSnoc | app/scripts/ui/calculatorUI.js:266 | a non-operator extends the segment |
| CalcDisplay.SegmentDot | app/scripts/ui/calculatorUI.js:265-271 | the segment found by `lastIndexOf` holds `.` exactly when the sanitizer's segment does; it is empty exactly at the start or after an operator |
| CalcDisplay.ComputeOutcomeCases | app/scripts/ui/calculatorUI.js:310-331 | `compute` does nothing on an empty expression, rejects what does not tokenize or is non-finite, and shows the value otherwise |
| CalcDisplay.ComputedCases | app/scripts/ui/calculatorUI.js:310-331 | the screen after `compute`, branch by branch: mark cleared, set on rejection, text replaced by the formatted result |
| CalcDisplay.CanonicalPlain | app/scripts/ui/calculatorUI.js:236 | a canonical display holds neither white space nor an alias |
| CalcDisplay.NormalizedCanonical | app/scripts/ui/calculatorUI.js:263 | the handlers read a canonical display back unchanged |
| CalcDisplay.NormalizedStrict | app/scripts/ui/calculatorUI.js:263 | a strictly canonical display is read back unchanged and is fixed by the sanitizer |
| CalcDisplay.SanitizeStrictSnoc | app/scripts/ui/calculatorUI.js:365-437 | one more character that fits keeps the text strictly canonical, and the sanitizer keeps it |
| CalcDisplay.StrictLast | app/scripts/ui/calculatorUI.js:365-437 | the last character of a strictly canonical text fits after the rest |
| CalcDisplay.DigitKeyAppends | app/scripts/ui/calculatorUI.js:256-260 | a digit key appends the digit, as typing it would |
| CalcDisplay.SanitizeDotOnStrict | app/scripts/ui/calculatorUI.js:387-403 | typing `.` after a strictly canonical text gives the expected dot edit |
| CalcDisplay.SegmentNotMinus | app/scripts/ui/calculatorUI.js:274-276 | the segment is never `-`, so the "unary minus" branch of `appendDot` is dead |
| CalcDisplay.DotKeyOnNormalized | app/scripts/ui/calculatorUI.js:262-282 | the `.` key on a read-back text, branch by branch |
| CalcDisplay.DotKeyOnStrict | app/scripts/ui/calculatorUI.js:262-282 | the `.` key changes nothing on a segment with `.` and otherwise sanitizes the dot edit |
| CalcDisplay.WithDotStrict | app/scripts/ui/calculatorUI.js:262-282 | the dot edit keeps the text strictly canonical |
| CalcDisplay.DotKeyIsTypedDot | app/scripts/ui/calculatorUI.js:262-282 | the `.` key does what typing `.` does |
| CalcDisplay.SanitizeOperatorOnStrict | app/scripts/ui/calculatorUI.js:405-431 | typing an operator after a strictly canonical text gives the expected operator edit |
| CalcDisplay.OperatorKeyReads | app/scripts/ui/calculatorUI.js:284-308 | `appendOperator` writes `-` or nothing on an empty text, otherwise the sanitized edit |
| CalcDisplay.OperatorKeyOnNormalized | app/scripts/ui/calculatorUI.js:284-308 | on a read-back non-empty text, the operator key sanitizes the operator edit |
| CalcDisplay.OperatorKeyOnEmpty | app/scripts/ui/calculatorUI.js:286-291 | on an empty text only `-` is written |
| CalcDisplay.WithOperatorStrict | app/scripts/ui/calculatorUI.js:405-431 | outside the two replacements, the operator edit keeps the text strictly canonical |
| CalcDisplay.ReplacedPrefix | app/scripts/ui/calculatorUI.js:298-299 | in a replacement, the text before the replaced operator is strictly canonical and empty or ends with an operator |
| CalcDisplay.OperatorKeyIsTypedOperator | app/scripts/ui/calculatorUI.js:284-308 | the operator key does what typing does, except in the replacements, where it types after the text before the replaced operator; the display stays strictly canonical |
| CalcDisplay.OperatorKeyAfterNegativeSign | app/scripts/ui/calculatorUI.js:293-300 | after `d op -`, the key `op` gives `d op` while typing `op` gives `d op op` |
| CalcDisplay.WithOperatorReplaces | app/scripts/ui/calculatorUI.js:419-420 | an operator that replaces the previous one leaves the text before it plus the new operator |
| CalcDisplay.NegativeOperandStrict | app/scripts/ui/calculatorUI.js:413-416 | `d op -` is strictly canonical |
| CalcDisplay.BackspaceRemovesLast | app/scripts/ui/calculatorUI.js:248-254 | backspace removes the last character and clears the mark, and does nothing on an empty text |
| CalcDisplay.LiteralStrict | app/scripts/ui/calculatorUI.js:557-565 | a literal with an integer part is strictly canonical and ends with a digit |
| CalcDisplay.FormatResultStrict | app/scripts/ui/calculatorUI.js:557-565 | a shown result is strictly canonical and ends with a digit |
| CalcDisplay.EvaluateOneNumber | app/scripts/ui/calculatorUI.js:535-539 | a single number evaluates to itself |
| CalcDisplay.ComputeOnResult | app/scripts/ui/calculatorUI.js:310-331 | `=` on a shown result shows the number `toFixed(12)` wrote |
| CalcDisplay.ExpressionOfStrict | app/scripts/ui/calculatorUI.js:312-313 | a strictly canonical text ending with a digit is evaluated as it stands |
| CalcDisplay.OutcomeOfOneNumber | app/scripts/ui/calculatorUI.js:316-327 | a text that tokenizes to one number shows that number |
| CalcDisplay.SafeOpExact | app/scripts/ui/calculatorUI.js:542-555 | a finite `safeOp` result is rounded, so `toFixed(12)` writes it exactly |
| CalcDisplay.EvaluateExact | app/scripts/ui/calculatorUI.js:508-540 | a finite result of an expression with an operator is written exactly |
| CalcDisplay.RepeatedEquals | app/scripts/ui/calculatorUI.js:310-331 | pressing `=` twice after an expression with an operator shows the same result |
| CalcDisplay.PressKeepsStrict | app/scripts/ui/calculatorUI.js:215-233 | every keypad key keeps a strictly canonical display strictly canonical |
| CalcDisplay.MinusCanonical | app/scripts/ui/calculatorUI.js:288 | the lone `-` the operator key writes is canonical |
| CalcDisplay.DotKeyCanonical | app/scripts/ui/calculatorUI.js:262-282 | the `.` key keeps the display canonical |
| CalcDisplay.OperatorKeyCanonical | app/scripts/ui/calculatorUI.js:284-308 | the operator key keeps the display canonical |
| CalcDisplay.ResultCanonical | app/scripts/ui/calculatorUI.js:557-565 | a shown result is canonical |
| CalcDisplay.ComputedCanonical | app/scripts/ui/calculatorUI.js:310-331 | `compute` keeps the display canonical |
| CalcDisplay.PressKeepsCanonical | app/scripts/ui/calculatorUI.js:215-233 | every keypad key keeps the display canonical |
| CalcDisplay.Calculator.constructor | app/scripts/ui/calculatorUI.js:10-19 | the field's initial value is sanitized, unmarked, and the display is canonical |
| CalcDisplay.Calculator.SanitizeInPlace | app/scripts/ui/calculatorUI.js:342-348 | the text becomes its sanitized form; the mark is kept |
| CalcDisplay.Calculator.MarkInvalid | app/scripts/ui/calculatorUI.js:333-336 | the mark is set; the text is kept |
| CalcDisplay.Calculator.RemoveInvalidState | app/scripts/ui/calculatorUI.js:338-340 | the mark is removed; the text is kept |
| CalcDisplay.Calculator.ClearAll | app/scripts/ui/calculatorUI.js:243-246 | empty text and no mark |
| CalcDisplay.Calculator.Backspace | app/scripts/ui/calculatorUI.js:248-254 | the specified backspace screen; the display stays canonical |
| CalcDisplay.Calculator.AppendNumber | app/scripts/ui/calculatorUI.js:256-260 | the text becomes the digit-key text and the mark is kept; the display stays canonical |
| CalcDisplay.Calculator.AppendDot | app/scripts/ui/calculatorUI.js:262-282 | the text becomes the dot-key text and the mark is kept; the display stays canonical |
| CalcDisplay.Calculator.AppendOperator | app/scripts/ui/calculatorUI.js:284-308 | the text becomes the operator-key text and the mark is kept; the display stays canonical |
| CalcDisplay.Calculator.Compute | app/scripts/ui/calculatorUI.js:310-331 | the specified compute screen; the display stays canonical |
| CalcDisplay.Calculator.HandleKey | app/scripts/ui/calculatorUI.js:215-233 | the key's handler runs, and an unknown key does nothing; the display stays canonical |
| CalcDisplay.Calculator.OnKeyDown | app/scripts/ui/calculatorUI.js:38-49 | Enter and `=` compute, Escape clears, other keys do nothing here |
| CalcDisplay.Calculator.OnInput | app/scripts/ui/calculatorUI.js:52-58 | an edited value is sanitized and the mark is kept |
| Helpers.TruncateText | app/scripts/utils/helpers.js:19-23 | a non-finite or non-positive `max`, or a text that fits, gives the trimmed text |
| Helpers.FloorBelow | app/scripts/utils/helpers.js:22 | `slice` truncates a fractional `max` to the integer below it |
| Helpers.TruncateTextCuts | app/scripts/utils/helpers.js:22 | a longer text becomes a prefix of at most `max` characters, without the white space at the cut, then the suffix |
| Helpers.TruncateTextBound | app/scripts/utils/helpers.js:19-23 | a truncated text is at most three characters longer than `max` |
| Helpers.TruncateTextFits | app/scripts/utils/helpers.js:19-23 | a text that fits is only trimmed, so truncating it again changes nothing |
| Helpers.TruncateTextAtWord | app/scripts/utils/helpers.js:22 | when the character before the cut is not white space, exactly the first `max` characters are kept |
| Tavily.SiteTerms | server/lib/search/tavily.js:18 | the `site:` terms joined with " OR " |
| Tavily.SiteFilterClause | server/lib/search/tavily.js:16-19 | not an array or no domains give ""; otherwise the joined terms in parentheses |
| Tavily.SiteFilterClauseGrows | server/lib/search/tavily.js:16-19 | the clause for one domain, and for one more domain after a list |
| Tavily.ClauseEnds | server/lib/search/tavily.js:7-19 | the news-sources clause is non-empty and ends with `)` |
| Tavily.NormalizeHost | server/lib/search/tavily.js:22-24 | the result is lower case; with a leading "www." in any case it is the rest of the host lower-cased, otherwise the whole host lower-cased |
| Tavily.NormalizeHostStrips | server/lib/search/tavily.js:22-24 | "www.", "WWW." or any mix of cases in front of a host is dropped and the rest lower-cased |
| Tavily.NormalizeHostOnce | server/lib/search/tavily.js:22-24 | only one "www." is removed |
| Tavily.AnyMatches | server/lib/search/tavily.js:31-34 | `some`: true exactly when one domain matches |
| Tavily.HostAllowed | server/lib/search/tavily.js:28-35 | no allowlist allows everything; otherwise the host must equal a domain or be a subdomain of one |
| Tavily.HostAllowedSubdomain | server/lib/search/tavily.js:28-35 | a subdomain of an allowed domain is allowed |
| Tavily.HostAllowedNotSuffix | server/lib/search/tavily.js:28-35 | a host merely ending with the domain's letters is refused |
| Tavily.TrimJoined | server/lib/search/tavily.js:115 | the final trim does not change headline, space, clause |
| Tavily.QueryWithNational | server/lib/search/tavily.js:107-118 | the national query is its headline, a space and the clause |
| Tavily.QueryWithWorld | server/lib/search/tavily.js:107-118 | the world query is its headline, a space and the clause |
| Tavily.NewsQuerySources | server/lib/search/tavily.js:113-116 | national and world queries end with the news-sources clause |
| Tavily.QueryWithOthers | server/lib/search/tavily.js:107-118 | the local query names the locality or "your area"; other categories get "Top news today" |
| Tavily.FetchNewsQuery | server/lib/search/tavily.js:120-134 | only a local request with coordinates uses the geocoded place; every other request uses no locality |
| Tavily.CityState | server/lib/search/tavily.js:99 | the city and state that are present, joined with ", " |
| Tavily.ReverseGeocode | server/lib/search/tavily.js:81-104 | the display is never empty: the city and state, else the country, else "your area" |
| Tavily.ReverseGeocodeFailure | server/lib/search/tavily.js:101-103 | a failed request gives the same place as an empty address |
| Tavily.ReverseGeocodeCity | server/lib/search/tavily.js:91-93 | the city is the first of city, town, village and hamlet present; the state falls back to the region |
| ModelRegistry.GetModels | app/scripts/services/modelRegistry.js:30-32 | the three entries, in order, with distinct keys |
| ModelRegistry.Find | app/scripts/services/modelRegistry.js:35 | `find`: none exactly when no key matches; otherwise the first entry with that key |
| ModelRegistry.FindByKey | app/scripts/services/modelRegistry.js:34-36 | an entry of the registry: the one with the key, or the first when no entry has it |
| ModelRegistry.DefaultModelKey | app/scripts/services/modelRegistry.js:38-40 | the default key is the first entry's key |
| ModelRegistry.FindByKeyOwnKey | app/scripts/services/modelRegistry.js:34-36 | looking up an entry's own key finds that entry |
| ModelRegistry.AccessorsOnUnknownKey | app/scripts/services/modelRegistry.js:42-56 | an unknown key reads the GPT-5 entry's fields |
| ModelRegistry.DefaultKeyFindsFirst | app/scripts/services/modelRegistry.js:34-40 | the default key finds the first entry |
| ModelRegistry.AccessorsOnKnownKey | app/scripts/services/modelRegistry.js:42-56 | the accessors on a registered key read that entry's fields |
| NewsRoute.CoerceCategory | server/routes/news.js:8-12 | always one of the three categories: the lower-cased value when it is one, else "national" |
| NewsRoute.CoerceCategoryIdempotent | server/routes/news.js:8-12 | coercing a coerced category changes nothing |
| NewsRoute.CoerceCategoryIgnoresCase | server/routes/news.js:9 | an upper-cased category coerces as the category itself |
| NewsRoute.CoerceCategoryExamples | server/routes/news.js:8-12 | "WORLD" is world; a missing category is national |
| NewsRoute.RouteQueryIgnoresPlace | server/routes/news.js:20-24 | a local request asks for news near "your area", whatever city and state it names |
| NewsRoute.SliceEnd | server/routes/news.js:26 | the end `slice(0, n)` uses: clamped to the length, NaN as 0, a negative end counted from the back |
| NewsRoute.ItemOf | server/routes/news.js:27-30 | the title is never empty; the url and source come from the result |
| NewsRoute.NewsItems | server/routes/news.js:26-31 | the results cut at `maxItems` and mapped in order |
| NewsRoute.NewsItemsCapped | server/routes/news.js:26 | at most `maxItems` items and at most the results; none when `maxItems` does not parse or the results are missing |
| NewsRoute.ItemTitle | server/routes/news.js:27 | the title falls back to the host, then to "Untitled" |
| NewsRoute.Respond | server/routes/news.js:33-37 | a valid category, and a missing answer sent as "" |
| RedditRoute.StripPrefix | server/routes/reddit.js:7 | removes one leading "/r/" or "r/" (either case of r), or nothing |
| RedditRoute.NormalizeSubreddit | server/routes/reddit.js:6-8 | the normalised name neither starts nor ends with white space |
| RedditRoute.NormalizeSubredditPlain | server/routes/reddit.js:6-8 | a name without an "r/" or "/r/" prefix (in either case) is only trimmed |
| RedditRoute.NormalizeSubredditPrefixes | server/routes/reddit.js:6-8 | "/r/x", "r/x", "R/x" and "/R/x" all name x, trimmed |
| RedditRoute.NormalizeSubredditOnce | server/routes/reddit.js:7 | only one prefix is removed |
| RedditRoute.NormalizeSubredditMissing | server/routes/reddit.js:6-8 | a missing name is the empty name |
| RedditRoute.CoerceLimit | server/routes/reddit.js:10-16 | between 1 and 25: the default 6 for missing or less than 1, clamped at 25 |
| RedditRoute.CoerceLimitIdempotent | server/routes/reddit.js:10-16 | a coerced limit is its own coercion |
| RedditRoute.CheckRequest | server/routes/reddit.js:32-39 | fails with 400 "Subreddit required" exactly when the normalised name is empty |
| RedditRoute.CheckRequestRefusesBlank | server/routes/reddit.js:35-39 | a bare "/r/" and a missing name are refused |
| RedditRoute.Present | server/routes/reddit.js:55-57 | the present children, none added |
| RedditRoute.PresentAppend | server/routes/reddit.js:55-57 | the filter keeps the order of the children |
| RedditRoute.PresentAll | server/routes/reddit.js:55-57 | present children are all kept |
| RedditRoute.LinkOf | server/routes/reddit.js:60 | the permalink on reddit.com, else the overriding url, else the url |
| RedditRoute.ItemOf | server/routes/reddit.js:59-66 | the title is never empty; the body is the trimmed text; the url is the link |
| RedditRoute.Items | server/routes/reddit.js:51-67 | the present children cut at the limit and shaped in order |
| RedditRoute.ItemsBound | server/routes/reddit.js:51-67 | a checked request gets at most 25 items, and missing children give none |
| RedditRoute.ItemsSkipNull | server/routes/reddit.js:55-57 | a null child is skipped |
| ChatRoute.EffectiveSpec | server/routes/chat.js:123 | the mode's specification, or the basic one |
| ChatRoute.SpecFacts | server/routes/chat.js:7-33 | only doctor and therapist have a disclaimer and high reasoning; only web searches by default |
| ChatRoute.EffectiveWebSearch | server/routes/chat.js:138 | an explicit boolean wins; otherwise the mode's default, off for an unknown mode |
| ChatRoute.EffectiveWebSearchDefault | server/routes/chat.js:138 | without a setting only the web mode searches |
| ChatRoute.RoleOf | server/routes/chat.js:43 | system and assistant are kept, every other role is the user's |
| ChatRoute.Clean | server/routes/chat.js:42-45 | the role mapped, the content cut to its first 8000 characters, a non-string content as "" |
| ChatRoute.Kept | server/routes/chat.js:41-46 | no more messages than given, each non-empty and at most 8000 characters |
| ChatRoute.KeptAppend | server/routes/chat.js:41-46 | sanitisation keeps the order of the messages |
| ChatRoute.KeptOne | server/routes/chat.js:41-46 | one message is kept exactly when its content is a non-empty string |
| ChatRoute.KeptFrom | server/routes/chat.js:41-46 | every kept message is the cleaned form of a given one |
| ChatRoute.SanitizeMessages | server/routes/chat.js:35-47 | a non-array gives no messages; a null element throws; otherwise the kept messages |
| ChatRoute.FinalMessages | server/routes/chat.js:133-141 | the system message with the mode's prompt, then the messages |
| ChatRoute.LastUserContentSpec | server/routes/chat.js:127-131 | the content of the last user message, or "" when there is none |
| ChatRoute.LastUserContentEmpty | server/routes/chat.js:126-131 | on sanitised messages the scan gives "" exactly when no message is the user's |
| ChatRoute.LastUser | server/routes/chat.js:128-131 | a list with a user message has a last one |
| ChatRoute.LatestUserContent | server/routes/chat.js:127-131 | the reverse loop returns the specified content |
| ChatRoute.PrepareChat | server/routes/chat.js:113-153 | the handler up to the provider call gives the specified plan |
| ChatRoute.PlanUnknownMode | server/routes/chat.js:123-138 | an unknown mode gets low reasoning, no disclaimer, the generic prompt and no default search |
| ChatRoute.PlanMissingMode | server/routes/chat.js:116 | a missing mode is the basic mode |
| ChatRoute.PlanWithoutMessages | server/routes/chat.js:35-37 | messages that are not a list send the system message alone |
| ChatRoute.PayloadOf | server/routes/chat.js:155-161 | the reply as an assistant message, the mode's disclaimer, no sources |
| ChatRoute.PayloadDisclaimer | server/routes/chat.js:159 | the disclaimer reaches the client exactly for doctor and therapist |
| AppState.Loaded | app/scripts/state.js:84-93 | each of theme, model key and mode is read on its own: a stored valid theme, a stored non-empty model key and a stored valid mode are adopted, otherwise the current value is kept, whatever the other keys hold; nothing else changes and the store's invariant is kept |
| AppState.WithTheme | app/scripts/state.js:106-111 | an unknown theme changes nothing; a known one becomes the theme and is written under `pw.theme`, and nothing else changes; the invariant is kept |
| AppState.WithModelKey | app/scripts/state.js:113-117 | any key becomes the model key and is written under `pw.model`, and nothing else changes; the invariant is kept |
| AppState.WithMode | app/scripts/state.js:119-124 | an unknown mode changes nothing; a known one becomes the mode and is written under `pw.mode`, and nothing else changes; the invariant is kept |
| AppState.Cut | app/scripts/state.js:135 | the whole content when it fits, exactly its first 8000 characters otherwise |
| AppState.AppendUnknownMode | app/scripts/state.js:133 | appending to an unknown mode changes nothing |
| AppState.AppendAddsOne | app/scripts/state.js:132-137 | exactly one message at the end of the mode's history, role kept, content cut to exactly its first 8000 characters when longer and kept whole otherwise; nothing else changes |
| AppState.ClearEmpties | app/scripts/state.js:139-143 | a known mode's history becomes empty, the others stay; an unknown mode changes nothing |
| AppState.HistoryUnknownMode | app/scripts/state.js:128-130 | an unknown mode's history reads empty |
| AppState.PreferencesPersist | app/scripts/state.js:84-124 | a theme, model key and mode that were set are what the next load adopts |
| AppState.ThemePersists | app/scripts/state.js:84-111 | a theme that was set is what the next load adopts, whatever else is stored |
| AppState.ModelKeyPersists | app/scripts/state.js:84-117 | a non-empty model key that was set is what the next load adopts; an empty one leaves the loaded key |
| AppState.ModePersists | app/scripts/state.js:84-124 | a mode that was set is what the next load adopts, whatever else is stored |
| AppState.LoadIgnoresInvalid | app/scripts/state.js:84-93 | with no valid value stored, loading leaves the state as it was |
| AppState.LocationRoundTrip | app/scripts/state.js:150-173 | the location reads back trimmed, state upper-cased; an empty value removes its key |
| AppState.CityRoundTrip | app/scripts/state.js:150-165 | the city reads back trimmed |
| AppState.StateRoundTrip | app/scripts/state.js:150-168 | the state reads back trimmed and upper-cased |
| AppState.StoredAfterLocation | app/scripts/state.js:160-168 | the storage holds the trimmed city and upper-cased state, or no key for an empty one |
| AppState.PutReads | app/scripts/state.js:164-168 | a written key reads its value, an empty value removes it, other keys are untouched |
| AppState.UpperTrimmed | app/scripts/state.js:153 | re-reading a stored upper-cased state changes nothing |
| AppState.Store.constructor | app/scripts/state.js:68-82 | theme "matrix", the default model key, mode "basic", every history empty |
| AppState.Store.LoadPersisted | app/scripts/state.js:84-93 | the new state is the loaded state; the invariant is kept |
| AppState.Store.SetTheme | app/scripts/state.js:106-111 | the new state is the specified `setTheme` state |
| AppState.Store.SetModelKey | app/scripts/state.js:113-117 | the new state is the specified `setModelKey` state |
| AppState.Store.SetMode | app/scripts/state.js:119-124 | the new state is the specified `setMode` state |
| AppState.Store.GetChatHistory | app/scripts/state.js:128-130 | a copy of the mode's history, empty for an unknown mode |
| AppState.Store.AppendChatMessage | app/scripts/state.js:132-137 | the new state is the specified append |
| AppState.Store.ClearChat | app/scripts/state.js:139-143 | the new state is the specified clear |
| AppState.Store.SetLocation | app/scripts/state.js:160-173 | the new storage is the specified location write |

## Left out

- Floating point: the calculator's numbers are exact reals. Binary rounding, `toFixed` on numbers of 1e21 or more, overflow to Infinity and the NaN/Infinity distinction are not modelled; non-finite values are one constructor.
- Strings are sequences of characters, not UTF-16 code units. Case mapping is ASCII only. `\s` is the JavaScript white-space set as a character predicate.
- The DOM is not modelled: elements, event listeners, focus, the collapse/expand animation of the calculator (calculatorUI.js lines 60-211), and the `paste` timer, which is modelled as an immediate edit.
- `getDisplay` turns a missing value into "". Every display value here is a string.
- `CalcDisplay.Calculator.HandleKey` takes the `data-key` string of a button. Other JavaScript values passed through `String(...)` are not modelled.
- The `try`/`catch` in `compute` is not modelled as a branch. `evaluateTokens` never throws on a list `tokenize` returns (`CalcEval.EvaluateTokens` shows the empty list is its only throwing input).
- `formatResult`'s `s === ''` branch and its `'Error'` branch are unreachable from `compute` and are not modelled separately.
- Local storage is a map. Its exceptions, the `dispatch` of custom events, and `initState`'s re-creation of missing histories are not modelled; histories always exist for the seven modes.
- JavaScript prototype keys are not modelled. For example, `MODES['constructor']`, `MODE_SPECS['toString']` and `{...}[category]` are truthy for such keys; here they are unknown modes and categories.
- `parseInt`, `Number.isFinite` and the checks of request values (`typeof ... === 'string'`, `Array.isArray`) are modelled by `Option` parameters: `None` stands for a value that does not parse or has the wrong type.
- `Tavily.HostAllowed` takes an already extracted, normalised host. `urlHost`/`hostFromUrl` parse URLs with the platform's URL parser, which is not modelled; news items take the host function as a parameter.
- The HTTP calls are not modelled: the Tavily search request, the Nominatim reverse-geocoding request, the Reddit listing request, the provider call `callPreferredModels` and its retry over providers. Their answers are parameters.
- `Tavily.FetchNewsQuery` takes whether coordinates were given, and the geocoder's answer, as parameters.
- `ChatRoute.SystemPrompt` states no contract. Its value is the literal prompts of the source.
- The chat route computes the latest user message but never uses it. It is modelled, and proved, as the handler computes it.
- The news item's `favicon` field is always undefined, because the search client never sets it.
- The news route passes `{city, state}` to `fetchNews`, which reads only `lat` and `lon`. So a local request always asks about "your area" (`NewsRoute.RouteQueryIgnoresPlace`).
- `Helpers.TruncateText` appends the three characters written in the file (`â€¦`, the UTF-8 bytes of "…" read as Windows-1252), as written.
- `Helpers.TruncateText`: its own contract states only the uncut case. The cut case is stated by `Helpers.TruncateTextCuts`, `Helpers.TruncateTextBound` and `Helpers.TruncateTextAtWord`.
