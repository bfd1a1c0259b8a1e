# stepper-input, modelled in Dafny

stepper-input enhances every `<input type="number">` on a page with an
increment and a decrement button. Pressing a button only dispatches a
synthetic keydown on the field and arms a wait. If the press is still held
when the wait ends, the value steps on every repeat of an interval; releasing
the button steps it once more and focuses the field. Each step adds or
subtracts the `step` attribute, clamps the result to `min`/`max`, writes it
back with as many decimals as the step has (dropping an all-zero fraction),
and dispatches a synthetic key event, `input` and `change`.

The widget ships twice, as `src/stepper-input.js` and as its compiled copy
`dist/stepper-input.js`, with the same logic; one model serves both. The table
below cites the source file; the compiled copy has the same functions at
dist/stepper-input.js:34-41 (getDecimalPlaces), 43-47 (clamp), 49 (the trim),
51-73 (updateNumberInputValue), 80-84 (repeatUpdateNumberInputValue), 87-94
(press start) and 96-102 (press end).

Modules:

- `Decimal` (decimal.dfy): exact decimals `Dec(mant, scale)` = mant / 10^scale,
  decimal numerals, and the least number of fractional digits of a decimal.
- `JsNumber` (js_number.dfy): the JavaScript number operations the widget
  relies on, on exact decimals — `parseFloat` (longest numeric prefix after
  white space, NaN when there is none), `parseInt`, the number-to-string
  conversion, `indexOf`, and `toFixed`, which rounds half away from zero —
  with the proof that what `toFixed` writes reads back through `parseFloat`
  as the rounded value.
- `Stepping` (stepping.dfy): the key and sign tables, `clamp`,
  `getDecimalPlaces`, the `/[.,]0+$/` trim, and the value
  `updateNumberInputValue` computes and the string it writes.
- `Field` (field.dfy): the field as a class holding its attribute strings and
  an append-only log of what is dispatched on it, and
  `updateNumberInputValue` as a method that writes the value and logs the
  three events in order.
- `PressTiming` (press_timing.dfy): the press handlers as a class whose
  `timeoutID`/`intervalID` fields are the module-level handles shared by every
  field and both arrows, beside the host's table of armed timers. `Start`,
  `TimeoutFires`, `Tick` and `End` are the four things that can happen.

Numbers are exact: the model takes every number read from a numeral to be the
decimal it denotes, so sums such as 0.1 + 0.2 are exact and `toFixed` rounds
the exact value. A non-empty `min` or `max` that `parseFloat` cannot read is
NaN; NaN passes through `Math.max`/`Math.min`, and the code assigns the
string "NaN" to the field's value. A browser then sanitises that assignment
to "", which the model leaves out (see below).

## Where the code and its description differ

The model follows the code in each case.

- Press start does not step. The handlers' start only dispatches a keydown
  and arms the wait timeout (src/stepper-input.js:97-100). The value changes
  on each repeat and once on release, never on press. A press released before
  the wait therefore changes the value once, not twice (`PressTiming.QuickPress`).
- The trim keeps "2.50". The expression `/[.,]0+$/` only removes a separator
  followed by zeros up to the end, so "3.00" becomes "3" but "2.50" stays
  (`Stepping.TrimExamples`).
- The timer handles are global. One `timeoutID`/`intervalID` pair serves
  every field and both arrows, so while one press is held a press anywhere
  else is ignored (`PressTiming.SecondStartIgnored`). The pair is not per field.
- The written value can leave [min, max]. The clamped value is rounded to the
  step's decimals after clamping. With value 2.5, step 0.1 and max 2.56,
  clamp gives 2.56 and one decimal makes it "2.6", which reads back as 2.6
  (`Stepping.SteppedTextPassesMax`). The model states the rounding bound
  that does hold: within half a unit of the step's last place of the clamped
  value.

## Model

| member | source | states |
|---|---|---|
| Stepping.KeyCode | src/stepper-input.js:10-13 | ArrowUp has key code 38 and ArrowDown 40; no other code occurs |
| Stepping.Sign | src/stepper-input.js:57 | the sign is +1 exactly for ArrowUp and -1 for ArrowDown |
| Field.KeyEventFor | src/stepper-input.js:21-35 | a synthetic key event has the requested phase and key and carries the key's code (38 up, 40 down) |
| Stepping.MathMax | src/stepper-input.js:48 | Math.max is NaN iff either argument is; otherwise it is one of the two and at least both |
| Stepping.MathMin | src/stepper-input.js:49 | Math.min is NaN iff either argument is; otherwise it is one of the two and at most both |
| Stepping.Clamp | src/stepper-input.js:47-52 | no bounds leaves the value; NaN iff the value or a given bound is NaN; result >= min when min <= max (or max absent), <= max when max is given, equal to max when min > max; a value inside the bounds is kept; the result is the value or a bound |
| Stepping.ClampIsNearest | src/stepper-input.js:47-52 | with min <= max, the result lies in [min, max] and no point of [min, max] is nearer the value |
| Stepping.ClampIdempotent | src/stepper-input.js:47-52 | clamping an already clamped value changes nothing |
| Stepping.DecimalPlaces | src/stepper-input.js:37-45 | getDecimalPlaces as the code computes it, with no contract of its own; its meaning is proved by Stepping.DecimalPlacesWhole, Stepping.DecimalPlacesFraction, Stepping.DecimalPlacesIsScale and Stepping.DecimalPlacesIsLeast |
| Stepping.DecimalPlacesWhole | src/stepper-input.js:38-40 | a number whose shortest decimal has no fraction digits has 0 places (the parseInt branch) |
| Stepping.DecimalPlacesFraction | src/stepper-input.js:42-44 | a number whose shortest decimal has fraction digits has exactly that many places: the length after the '.' of its string |
| Stepping.DecimalPlacesIsScale | src/stepper-input.js:37-45 | getDecimalPlaces (0 when parseInt of the number's string equals it, else the length after the first '.') equals the scale of the normalized decimal |
| Stepping.DecimalPlacesIsLeast | src/stepper-input.js:37-45 | step * 10^places is whole, and step * 10^k is not for any smaller k |
| Stepping.WholeStepHasNoPlaces | src/stepper-input.js:38-40 | a whole step gives 0 places |
| Decimal.NormalizeIsLeastPlaces | src/stepper-input.js:42-44 | the shortest decimal string of a number has exactly its least number of fractional digits |
| JsNumber.IndexOf | src/stepper-input.js:44 | indexOf gives the first position of the character, or -1 when it does not occur |
| Stepping.TrimZeroFraction | src/stepper-input.js:54 | the trimmed string is a prefix of the input |
| Stepping.MatchUnique | src/stepper-input.js:54 | /[.,]0+$/ can match at one position at most |
| Stepping.TrimRemovesMatch | src/stepper-input.js:54 | where the expression matches, exactly the separator and the zeros after it are removed |
| Stepping.TrimKeepsUnmatched | src/stepper-input.js:54 | where the expression matches nowhere, the string is unchanged |
| Stepping.TrimExamples | src/stepper-input.js:54 | "3.00" becomes "3", "2,0" becomes "2", while "2.50", "2.5" and "100" are unchanged |
| Stepping.TrimFixedForm | src/stepper-input.js:67 | on a toFixed string the trim removes the point and fraction exactly when every fraction digit is 0, and with 0 decimals never changes it |
| Stepping.StepOf | src/stepper-input.js:59 | parseFloat(step), or 1: a step that reads as NaN or 0 is 1, any other is the number read; the step is never 0 |
| Stepping.ValueOf | src/stepper-input.js:65 | parseFloat(value), or 0: NaN counts as 0, any number read is kept |
| Stepping.BoundOf | src/stepper-input.js:63-64 | an empty attribute is no bound; a non-empty one is whatever parseFloat reads, NaN included |
| Stepping.NewValue | src/stepper-input.js:57-65 | with no bounds the new value is value + sign * step; it is NaN iff a non-empty bound is unreadable; it is >= min when min <= max and <= max when max is given |
| Stepping.WholeStepWritesNoSeparator | src/stepper-input.js:61-67 | with a whole step the written string holds neither '.' nor ',' |
| Stepping.SteppedText | src/stepper-input.js:67 | the string the code assigns: toFixed of the new value to the step's places, then the trim; no contract of its own, its meaning is proved by Stepping.SteppedTextReadBack, Stepping.WholeStepWritesNoSeparator, Stepping.UnreadableBoundWritesNaN and Stepping.SteppedTextPassesMax |
| Stepping.SteppedTextReadBack | src/stepper-input.js:67 | the written string reads back through parseFloat as a number within half a unit of the step's last decimal place of the clamped value, and as the clamped value itself when that has no more decimals than the step |
| Stepping.UnreadableBoundWritesNaN | src/stepper-input.js:63-67 | a non-empty min or max that parseFloat cannot read makes the code assign the string "NaN" as the value (before any browser sanitising) |
| Stepping.SteppedTextPassesMax | src/stepper-input.js:57-67 | with value 2.5, step 0.1, no min and max 2.56, ArrowUp clamps to 2.56, and the string written reads back through parseFloat as 2.6, past max |
| Stepping.StepIsOneTenth | src/stepper-input.js:59-61 | a step attribute reading as 0.1 is used as 0.1 and has one decimal place |
| Stepping.ClampedToMax | src/stepper-input.js:57-65 | with value 2.5, step 0.1, no min and max 2.56, the ArrowUp value 2.6 is clamped to max, 2.56 |
| Stepping.RoundingPassesMax | src/stepper-input.js:65-67 | rounding after clamping can pass max: 2.56 with one decimal is 2.6 |
| JsNumber.ParseIntSigned | src/stepper-input.js:38 | parseInt of an optional '-' followed by a digit reads the signed value of the leading digit run, ignoring what follows it; one unfolding of the definition, which Stepping.DecimalPlacesIsScale and Stepping.DecimalPlacesIsLeast build on |
| JsNumber.NumberToStringWhole | src/stepper-input.js:38 | a whole number is written as an optional '-' and its digits, with no '.'; one unfolding of the definition, which Stepping.DecimalPlacesIsScale and Stepping.DecimalPlacesIsLeast build on |
| JsNumber.NumberToStringFraction | src/stepper-input.js:42-44 | a number whose shortest decimal has fraction digits is written as an optional '-', the digits of its whole part, '.', and its fraction digits zero-padded to that decimal's scale; one unfolding of the definition, which Stepping.DecimalPlacesIsScale and Stepping.DecimalPlacesIsLeast build on |
| JsNumber.ToFixedReadBack | src/stepper-input.js:67 | what toFixed(f) writes for x parses as the decimal with f fractional digits whose mantissa is x * 10^f rounded half away from zero |
| JsNumber.RoundScaledBounds | src/stepper-input.js:67 | toFixed's rounded mantissa is within 0.5 of x * 10^f, has the sign of x, and is exact when x * 10^f is whole |
| JsNumber.RoundScaledTies | src/stepper-input.js:67 | at a tie toFixed rounds away from zero: x * 10^f halfway between two integers rounds to the upper one for x >= 0 and to the lower one for x < 0 |
| JsNumber.RoundedVal | src/stepper-input.js:67 | the rounded value lies within half a unit of the last place of x, and is x itself when x has no more places |
| Field.NumberInput.DispatchEvent | src/stepper-input.js:69-79 | dispatching appends the notification to the field's log and changes nothing else |
| Field.NumberInput.Focus | src/stepper-input.js:109 | focusing is logged after everything before it |
| Field.UpdateNumberInputValue | src/stepper-input.js:56-80 | the field's new value is the stepped, clamped, formatted, trimmed string; the log grows by exactly the key event of the caller's phase, input and change, in that order; step, min and max are untouched |
| PressTiming.PressController.constructor | src/stepper-input.js:82-85 | both handles start unset, with no timer armed |
| PressTiming.PressController.Start | src/stepper-input.js:94-101 | with no timeout handle: one keydown on the field, value untouched, the 300 timeout armed for this field and arrow; with a handle set, from any field or arrow: nothing changes |
| PressTiming.PressController.RepeatUpdate | src/stepper-input.js:87-91 | arms the 50 interval for the given field, key and phase only when no interval handle is set |
| PressTiming.PressController.TimeoutFires | src/stepper-input.js:99 | the fired timeout is gone but timeoutID keeps its id; the interval is armed for the field and arrow the timeout captured, and never blocked by its guard |
| PressTiming.PressController.Tick | src/stepper-input.js:89 | one keydown-phase update of the captured field in the captured direction; handles unchanged |
| PressTiming.PressController.End | src/stepper-input.js:103-110 | both handles and both timers cleared whatever was armed; then exactly one keyup-phase update of its own field, then focus |
| PressTiming.PressController.ClearInterval | src/stepper-input.js:106 | clearInterval cancels the interval with that id and ignores any other id, unset included |
| PressTiming.PressController.ClearTimeout | src/stepper-input.js:107 | clearTimeout cancels the timeout with that id and ignores any other id, unset included |
| PressTiming.QuickPress | src/stepper-input.js:94-110 | a press released before the wait changes the value exactly once: keydown, then keyup, input, change, focus |
| PressTiming.SecondStartIgnored | src/stepper-input.js:112-119 | while one press is held, a start on another field logs nothing and arms nothing |
| PressTiming.HeldPress | src/stepper-input.js:84-110 | a press held for two repeats and released steps the value three times, with the events in order |

## Left out

- DOM discovery and markup (`querySelectorAll`, `wrapInputElements`, class names, element insertion) and the handler wiring: mouse down and touch start both call `Start`, mouse up and touch end both call `End`. These are host plumbing with nothing to state.
- `preventDefault` on the press events is not modelled. It cancels the browser's default action for the event. On a touch start that includes the mouse events a browser sends after a tap, so one tap runs `Start` and `End` once and the field steps once; on a mouse down it keeps the field from losing focus. The model leaves the order of `Start`/`End` calls to its caller, which plays the part of the browser after that cancellation.
- Real timers and the event loop: the host's timers are a table that `TimeoutFires` and `Tick` act on, and the 300 and 50 delays are recorded as data. The model does not say when a timer fires.
- Event options (`bubbles`, `cancelable`, `composed`, `view`, `charCode`, `code`, `which`): events are logged by kind, phase, key and key code.
- Binary floating point: numbers are exact decimals, so `0.1 + 0.2` is `0.3` here and `toFixed` rounds the exact value. The model does not capture binary rounding artefacts, nor overflow and underflow: JavaScript reads "1e309" as Infinity and "1e-400" as 0 (so such a step falls back to 1), while here both are the exact decimals they denote.
- Exponent notation: `parseFloat` reads an exponent, but the number-to-string conversion always writes positional digits, so a step below 1e-6 (which JavaScript writes as "1e-7") gets its true number of places instead of the length after the '.'. `toFixed` for |x| >= 1e21, which JavaScript writes in exponent form, is likewise positional here.
- `parseFloat` does not read "Infinity", and `parseInt` does not read a "0x" prefix. In the model neither occurs in the number strings passed to `parseInt`; in JavaScript a step attribute of "Infinity" makes getDecimalPlaces call `parseInt("Infinity")`, which the model does not capture.
- The `.trim()` in getDecimalPlaces is left out: the number-to-string conversion never produces white space.
- The browser's sanitising of a number field's `value` (an invalid string reads as "") is left out; the model uses the attribute strings as given.
- `keypress`, the third event type, exists as a phase but the widget never dispatches it.
