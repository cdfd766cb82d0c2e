# Quiz widget core, modelled in Dafny

This project models the logic of a multiple-choice quiz widget and proves
properties of that model. The widget shows a list of questions one at a time
and records one answer per question. Once an answer is chosen, the widget reveals
which options were right. At the end it reports the score, the accuracy, the
progress and the time taken. Question and option texts may contain TeX
formulas between `$` or `$$` delimiters.

The modules follow the source files:

- `QuizTypes` (`quiz_types.dfy`): the question and option records of
  `app/components/Quiz/types.ts`, plus two small result types. `Option` stands
  for `number | null`. `Outcome` stands for a call that returns or throws.
- `JsNumber` (`js_number.dfy`): the JavaScript built-ins the metrics use, over
  unbounded integers:
  - `Math.round` of a percentage, as exact round-half-up;
  - the truncating `%`;
  - `Number.prototype.toString` on integers, with a decimal reader as its inverse;
  - `String.prototype.padStart`.
- `QuizSession` (`quiz_session.dfy`): the `QuizManager` class of
  `app/components/Quiz/QuizManager.ts`. It is a Dafny class with the same five
  fields. The mutators are methods with `modifies` frames, and the accessors
  are functions that read the object. Scoring is specified as the set of
  question slots whose stored answer names a correct option. The clock
  (`Date.now()`) becomes a parameter `now`.
- `QuizWidget` (`quiz_widget.dfy`): the component in
  `app/components/Quiz/index.tsx`. It holds the manager (null while questions
  are missing), the `showHint` and `isCompleted` state, and the five event
  handlers. The widget invariant is that `isCompleted` agrees with the
  manager's end stamp.
- `MathText` (`math_text.dfy`): `parseText` of
  `app/components/Quiz/MathText/index.tsx`. The `while` loop over `pos` is
  proved to compute a recursive specification `Parse`, one loop pass at a time
  (`Step`). Properties of the parts are proved about that specification.
- `QuizOption` (`quiz_option.dfy`): the reveal rules of
  `app/components/Quiz/QuizOption/index.tsx`: the icon, the explanation, the
  disabled state and the click guard. The option's props are built as the
  question card builds them.
- `QuizScenarios` (`quiz_scenarios.dfy`): whole attempts driven through the
  manager's methods, with the scores they report.

In these places the model follows the code as written, which may surprise a
reader:

- A slot scores when its stored answer names *an* option flagged correct
  (`options[answer].isCorrect`), not only when it equals the first correct
  index.
- An out-of-range stored answer makes scoring throw.
- Elapsed time uses the end stamp only when it is truthy, so an end stamp of
  `0` counts as "not completed".
- `handleToggleHint` has no guard for a missing manager.

## Model

| member | source | states |
|---|---|---|
| JsNumber.RoundPercent | app/components/Quiz/QuizManager.ts:114 | the result is the integer nearest to 100·part/whole, a tie rounding up |
| JsNumber.RoundPercentAtMost100 | app/components/Quiz/QuizManager.ts:112-115 | a share of at most the whole is at most 100 percent |
| JsNumber.RoundPercentMonotone | app/components/Quiz/QuizManager.ts:158-160 | a larger share never gives a smaller percentage |
| JsNumber.RoundPercentEnds | app/components/Quiz/QuizManager.ts:158-160 | a share of none of the whole is 0 percent and a share of all of it is 100 percent |
| JsNumber.TruncRem | app/components/Quiz/QuizManager.ts:130 | JavaScript's `%`: the remainder takes the dividend's sign, is smaller than the divisor in size, and goes with the quotient truncated toward zero |
| JsNumber.NatToString | app/components/Quiz/QuizManager.ts:131 | a non-negative number is written as at least one decimal digit, with a leading zero only for 0 |
| JsNumber.IntToString | app/components/Quiz/QuizManager.ts:131 | the text is non-empty and starts with a minus sign exactly when the number is negative |
| JsNumber.IntToStringRoundTrip | app/components/Quiz/QuizManager.ts:129-131 | reading back the text written for any integer, negative minutes and seconds included, gives the integer |
| JsNumber.IntToStringInjective | app/components/Quiz/QuizManager.ts:129-131 | different integers are written differently |
| JsNumber.NatToStringRoundTrip | app/components/Quiz/QuizManager.ts:131 | reading back the digits of a number gives the number |
| JsNumber.NatToStringInjective | app/components/Quiz/QuizManager.ts:131 | different numbers are written differently |
| JsNumber.TwoDigits | app/components/Quiz/QuizManager.ts:131 | a number below 100 padded to two places with `0` is exactly its tens digit and its units digit |
| JsNumber.PadStart | app/components/Quiz/QuizManager.ts:131 | `padStart` reaches the requested length by prefixing fill characters only, and keeps the string as its suffix |
| QuizSession.FirstCorrectIndex | app/components/Quiz/QuizManager.ts:143-145 | `findIndex`: the result names a correct option with no correct option before it, or is -1 when no option is correct |
| QuizSession.AnsweredCount | app/components/Quiz/QuizManager.ts:153-155 | the number of answered slots is at most the number of slots |
| QuizSession.AnsweredCountIsCard | app/components/Quiz/QuizManager.ts:153-155 | the `filter(...).length` count equals the size of the set of answered slots |
| QuizSession.ScoreBounds | app/components/Quiz/QuizManager.ts:101-109 | 0 ≤ score ≤ answered count ≤ number of questions |
| QuizSession.AnswerChangesOneSlot | app/components/Quiz/QuizManager.ts:44-46 | answering the current question changes whether that slot scores and no other slot |
| QuizSession.CorrectAnswerNeverLowersScore | app/components/Quiz/QuizManager.ts:101-109 | storing a correct answer never lowers the score |
| QuizSession.FormatTime | app/components/Quiz/QuizManager.ts:127-131 | no ensures; computes the `m:ss` text: whole seconds by floor division by 1000, minutes by floor division by 60, seconds by JavaScript's signed `% 60`, padded to two places with `0` |
| QuizSession.FormatTimeShape | app/components/Quiz/QuizManager.ts:126-132 | for a non-negative time, the text is unpadded whole minutes, a colon, and exactly two digits of seconds below 60 |
| QuizSession.FormatTimeRoundTrip | app/components/Quiz/QuizManager.ts:126-132 | for a non-negative time, the text reads back as (ms div 1000) div 60 minutes and (ms div 1000) mod 60 seconds |
| QuizSession.FormatTimeNegative | app/components/Quiz/QuizManager.ts:128-131 | a time one second below zero reads "-1:-1", because JavaScript's `%` is signed |
| QuizSession.QuizManager.constructor | app/components/Quiz/QuizManager.ts:10-16 | one empty slot per question, the cursor on the first question, started at `now`, not completed |
| QuizSession.QuizManager.GetCurrentQuestion | app/components/Quiz/QuizManager.ts:19-21 | the question under the cursor, which is one of the questions |
| QuizSession.QuizManager.GetCurrentQuestionIndex | app/components/Quiz/QuizManager.ts:24-26 | the cursor, within the question count |
| QuizSession.QuizManager.GetTotalQuestions | app/components/Quiz/QuizManager.ts:29-31 | the number of questions, which is also the number of slots and at least 1 |
| QuizSession.QuizManager.GetCurrentAnswer | app/components/Quiz/QuizManager.ts:34-36 | the slot of the question under the cursor |
| QuizSession.QuizManager.GetAnswers | app/components/Quiz/QuizManager.ts:39-41 | the slots, one per question |
| QuizSession.QuizManager.AnswerCurrentQuestion | app/components/Quiz/QuizManager.ts:44-46 | only the current slot changes, to the given index; the cursor and the time stamps stay |
| QuizSession.QuizManager.CanGoPrevious | app/components/Quiz/QuizManager.ts:49-51 | true exactly when a step back lands on a question |
| QuizSession.QuizManager.CanGoNext | app/components/Quiz/QuizManager.ts:54-56 | true exactly when a step forward lands on a question, which is exactly when the cursor is not on the last question |
| QuizSession.QuizManager.IsLastQuestion | app/components/Quiz/QuizManager.ts:59-61 | true exactly when the cursor is on the last question |
| QuizSession.QuizManager.GoToPrevious | app/components/Quiz/QuizManager.ts:64-70 | moves back one and returns true exactly when a step back was possible; otherwise changes nothing |
| QuizSession.QuizManager.GoToNext | app/components/Quiz/QuizManager.ts:73-79 | moves forward one and returns true exactly when a step forward was possible; otherwise changes nothing |
| QuizSession.QuizManager.GoToQuestion | app/components/Quiz/QuizManager.ts:82-88 | moves to `index` and returns true exactly when `index` names a question; otherwise changes nothing |
| QuizSession.QuizManager.Complete | app/components/Quiz/QuizManager.ts:91-93 | stamps the end at `now`, which completes the quiz |
| QuizSession.QuizManager.IsCompleted | app/components/Quiz/QuizManager.ts:96-98 | true exactly when there is an end stamp |
| QuizSession.QuizManager.CalculateScore | app/components/Quiz/QuizManager.ts:101-109 | returns exactly when every stored answer indexes its question's options, and then returns the number of slots whose answer names a correct option |
| QuizSession.QuizManager.CalculateAccuracy | app/components/Quiz/QuizManager.ts:112-115 | returns under the same condition as the score, and then returns the score as a rounded percentage of the question count, at most 100 |
| QuizSession.QuizManager.GetElapsedTime | app/components/Quiz/QuizManager.ts:118-123 | time from the start up to a truthy end stamp, or up to `now` when the stamp is missing or 0 |
| QuizSession.QuizManager.GetFormattedTime | app/components/Quiz/QuizManager.ts:126-132 | the elapsed time as `m:ss`, which for a non-negative time reads back as its minutes and seconds |
| QuizSession.QuizManager.Reset | app/components/Quiz/QuizManager.ts:135-140 | the post-construction state at the new `now`, with the same questions |
| QuizSession.QuizManager.GetCorrectAnswerIndex | app/components/Quiz/QuizManager.ts:143-145 | the current question's first correct option (flagged correct, none before it), or -1 exactly when it has none |
| QuizSession.QuizManager.IsCurrentQuestionAnswered | app/components/Quiz/QuizManager.ts:148-150 | true exactly when the current slot holds an answer |
| QuizSession.QuizManager.GetAnsweredQuestionsCount | app/components/Quiz/QuizManager.ts:153-155 | the size of the set of answered slots, at most the question count |
| QuizSession.QuizManager.GetProgress | app/components/Quiz/QuizManager.ts:158-160 | the answered share as a rounded percentage, at most 100 |
| QuizWidget.QuizWidget.constructor | app/components/Quiz/index.tsx:12-18 | a manager exists exactly when the question list is present and non-empty; it starts at `now`; hint hidden, not completed |
| QuizWidget.QuizWidget.HandleOptionClick | app/components/Quiz/index.tsx:25-29 | without a manager nothing changes; otherwise the click is recorded for the current question and the flags, the cursor and the stamps stay |
| QuizWidget.QuizWidget.HandlePrevious | app/components/Quiz/index.tsx:31-37 | steps back when possible and then hides the hint; on the first question, or without a manager, nothing changes |
| QuizWidget.QuizWidget.HandleNext | app/components/Quiz/index.tsx:39-49 | before the last question it steps forward and hides the hint; on the last one it stamps the end and sets the completed flag, keeping the cursor and the hint; completion happens only from the last question; the widget invariant is kept |
| QuizWidget.QuizWidget.HandleToggleHint | app/components/Quiz/index.tsx:51-53 | flips the hint, manager or not |
| QuizWidget.QuizWidget.HandleRetake | app/components/Quiz/index.tsx:55-62 | puts the manager back to its start state at `now`, hides the hint and clears the completed flag; without a manager nothing changes |
| MathText.ParsedPart | app/components/Quiz/MathText/index.tsx:12-15 | a datatype: one segment of the parsed text, plain text, an inline formula or a display formula, each with its content |
| MathText.PartsFrom | app/components/Quiz/MathText/index.tsx:25-74 | no ensures; computes the parts the loop pushes from `pos` to the end: one `Step`, then the parts from where that pass continues, or nothing more when the pass breaks out |
| MathText.IndexOf | app/components/Quiz/MathText/index.tsx:27 | `indexOf` returns -1 or a position at or after `from` where the pattern occurs |
| MathText.IndexOfFirst | app/components/Quiz/MathText/index.tsx:38 | no occurrence lies between `from` and the position found, nor anywhere after `from` when -1 is returned |
| MathText.Step | app/components/Quiz/MathText/index.tsx:42-43 | every loop pass that continues moves `pos` strictly forward and stays within the text, so the loop terminates |
| MathText.StepDisplay | app/components/Quiz/MathText/index.tsx:27-44 | a matched `$$…$$` pushes the text before it when non-empty and the formula, then continues after the closing `$$` |
| MathText.StepInline | app/components/Quiz/MathText/index.tsx:47-65 | with no matched `$$`, a matched `$…$` pushes the text before the unmatched `$$` (if any), the text before the `$`, and the formula, then continues after the closing `$` |
| MathText.StepRest | app/components/Quiz/MathText/index.tsx:68-73 | with no formula found, the pass pushes the text before any unmatched delimiter and then the whole rest from `pos`, and stops |
| MathText.Parse | app/components/Quiz/MathText/index.tsx:76 | the result is never empty, and the empty string gives exactly one empty text part |
| MathText.ParseText | app/components/Quiz/MathText/index.tsx:21-77 | the `while` loop computes `Parse` |
| MathText.DisplayContentFree | app/components/Quiz/MathText/index.tsx:38-41 | a display formula's content holds no `$$` |
| MathText.InlineContentNoDollar | app/components/Quiz/MathText/index.tsx:59-61 | an inline formula's content holds no `$` |
| MathText.StepWellFormed | app/components/Quiz/MathText/index.tsx:25-74 | every pass pushes at least one part, and every text part it pushes is non-empty |
| MathText.PartsFromWellFormed | app/components/Quiz/MathText/index.tsx:25-74 | from any position before the end the loop pushes something, and every part pushed is well formed |
| MathText.ParseWellFormed | app/components/Quiz/MathText/index.tsx:21-77 | for non-empty input the result is the parts pushed: no empty text part, no `$` in an inline formula, no `$$` in a display formula |
| MathText.PlainText | app/components/Quiz/MathText/index.tsx:68-76 | text without `$` parses to itself as one text part |
| MathText.DisplayOnly | app/components/Quiz/MathText/index.tsx:27-44 | `$$m$$` with no `$` in `m` parses to one display formula `m` |
| MathText.InlineOnly | app/components/Quiz/MathText/index.tsx:47-65 | `$m$` with a non-empty `m` holding no `$` parses to one inline formula `m` |
| MathText.UnmatchedDisplayRepeatsText | app/components/Quiz/MathText/index.tsx:28-35 | an unmatched `$$` makes the text before it appear twice: `a$$b` parses to `a` and then `a$$b` |
| MathText.RenderPartsFrom | app/components/Quiz/MathText/index.tsx:47-73 | without `$$`, and with an even number of `$` left, the parts from `pos` render back to the text from `pos` |
| MathText.RenderParse | app/components/Quiz/MathText/index.tsx:21-77 | text with no `$$` and an even number of `$` is rebuilt exactly by writing text parts verbatim and inline formulas between `$` |
| QuizOption.PropsFor | app/components/Quiz/QuizQuestion/index.tsx:61-69 | an option is selected exactly when the stored answer equals its position, and its correct position is the question's first correct option |
| QuizOption.ShowIcon | app/components/Quiz/QuizOption/index.tsx:23 | no ensures; computes `showIcon`: the option is selected, or an answer exists that differs from the first correct position and this option is flagged correct |
| QuizOption.ShouldShowExplanation | app/components/Quiz/QuizOption/index.tsx:71-78 | no ensures; computes `shouldShowExplanation` as its chain of early returns: nothing without an answer, then the selected option, then the first correct option when the answer differs from it |
| QuizOption.IsDisabled | app/components/Quiz/QuizOption/index.tsx:80-84 | no ensures; computes `isDisabled`: enabled without an answer, and once answered enabled only for the selected option and the first correct option |
| QuizOption.AcceptsClick | app/components/Quiz/QuizOption/index.tsx:100 | no ensures; computes the click guard: the option is not disabled and no answer is stored yet |
| QuizOption.NothingRevealedBeforeAnswer | app/components/Quiz/QuizOption/index.tsx:71-84 | before an answer no option shows an icon or an explanation, none is disabled, and every one accepts a click |
| QuizOption.ExplainedOptions | app/components/Quiz/QuizOption/index.tsx:71-78 | after an answer, an option is explained exactly when it is the chosen one or the first correct one |
| QuizOption.SelectedOptionRevealed | app/components/Quiz/QuizOption/index.tsx:73 | the chosen option shows its icon and its explanation and stays enabled |
| QuizOption.CorrectOptionExplainedAfterWrongAnswer | app/components/Quiz/QuizOption/index.tsx:74-76 | the first correct option, when not chosen, is explained exactly when an answer exists |
| QuizOption.DisabledOptions | app/components/Quiz/QuizOption/index.tsx:80-84 | an option is disabled exactly when an answer exists and the option is neither the chosen one nor the first correct one |
| QuizOption.EnabledMeansExplained | app/components/Quiz/QuizOption/index.tsx:71-84 | once answered, the options left enabled are exactly the explained ones |
| QuizOption.ClickOnlyBeforeAnswer | app/components/Quiz/QuizOption/index.tsx:100 | a click calls the handler exactly while the question has no answer, so this control chooses at most once |
| QuizOption.OneCorrectAt | app/components/Quiz/QuizQuestion/index.tsx:31 | with exactly one correct option, an option is flagged correct exactly when it is at the first correct position |
| QuizOption.IconMatchesExplanation | app/components/Quiz/QuizOption/index.tsx:23 | with exactly one correct option, an option shows its icon exactly when it shows its explanation |
| QuizOption.IconWithoutExplanation | app/components/Quiz/QuizOption/index.tsx:23 | with two correct options and a wrong answer, the second correct option shows an icon but no explanation |
| QuizScenarios.SingleQuestionAttempt | app/components/Quiz/QuizManager.ts:101-115 | one question with the second of four options correct, answered 1 and completed: score 1, accuracy 100, correct index 1 |
| QuizScenarios.TwoQuestionAttempt | app/components/Quiz/QuizManager.ts:101-115 | two questions, the first answered right and the second wrong: score 1, accuracy 50 |
| QuizScenarios.AnswerSurvivesNavigation | app/components/Quiz/QuizManager.ts:44-79 | answering, stepping back and stepping forward returns to the same question with the answer still stored |
| QuizScenarios.AdvanceToLast | app/components/Quiz/QuizManager.ts:73-79 | stepping forward until refused takes one step per remaining question and ends on the last question, answers and end stamp unchanged |
| QuizScenarios.UnscorableQuestion | app/components/Quiz/QuizManager.ts:101-109 | a question with no correct option never scores, and its correct index is -1 |

## Left out

- Rendering is not modelled: JSX, framer-motion animation, the class-string and colour helpers of the option, `next/image` and i18n.
- The KaTeX rendering effect of the math text component is a DOM and foreign-library call. Only `parseText` is modelled.
- The `forceUpdate` re-render counter of the widget is not modelled. It triggers a redraw and carries no state the handlers read.
- The MCP tools, the HTTP and auth glue, the alternative widget under `app/widgets`, the completion screen (whose `formatTime` is the same computation as `getFormattedTime`) and the hint button are not part of this model.
- `Date.now()` is a parameter `now` of the operations that read the clock. Nothing is assumed about successive values.
- `QuizSession.QuizManager.constructor`: requires a non-empty question list. The source constructor accepts an empty list, but leaves its cursor on no question. Its only caller builds it only for a non-empty list (index.tsx:13).
- `QuizWidget.QuizWidget.constructor`: the manager is built once. The source's `useMemo` rebuilds it when the `questions` prop object changes, while `showHint` and `isCompleted` keep their values. That rebuild is not modelled, so in the source the widget invariant (`isCompleted` agrees with the manager's end stamp) holds only between rebuilds: a rebuild while `isCompleted` is true gives a manager with no end stamp.
- `JsNumber.RoundPercent`: computes `Math.round(x / n * 100)` exactly. The floating-point quotient and product of the source could land just below a `.5` tie and round down; that rounding artefact is not modelled.
- JavaScript numbers are modelled as unbounded integers. Indices and stored answers that are fractional, `NaN` or beyond 2^53 are not modelled.
- `MathText.IndexOf`: modelled for a non-empty pattern only, which covers the two patterns `$` and `$$` the scanner searches for.
- Strings are sequences of Dafny characters. JavaScript's UTF-16 code units are not distinguished from them.
- `getAnswers` returns a copy of the array. The model returns the sequence value, which cannot be aliased.
