# Jerry, the rule-based chat bot, in Dafny

This project models the chat component of the `Ai-chat-bot` web app
(`src/components/chat/RuleBot.tsx`) and proves properties of the model. The
component has two parts.

**The responder** (`getRuleBasedResponse`) takes the text a user typed. It
trims and lower-cases it, then tries an ordered list of twenty rules. The first
rule whose regular expression matches decides the reply. The rules cover:
- blank input;
- greeting and "how are you";
- time, date and weekday;
- a weather stub;
- `sum A and B` and `A op B`;
- temperature conversions;
- date math;
- jokes and quotes;
- the reverse, uppercase and lowercase transforms;
- help and farewell.

If no rule matches, a fallback reply is given. Each regular expression the
responder uses is written out as a matcher at a start position. `Find` wraps it
to give the leftmost match, as `String.prototype.match` does. None of these
patterns can backtrack into a different match at the same start position, so
one greedy reading per position is exact.

**The controller** is the `RuleBot` component's state: the message log, the
text box and the typing indicator. Its operations are:
- the mount effect, which greets an empty log;
- the text box's change handler;
- `send`, which ignores blank input, empties the log on `clear`, and otherwise
  posts the trimmed text and, after a pause, the bot's reply.

`send` is split into `Submit` (up to the pause) and `Deliver` (after it), so
that what can happen during the pause can be stated. `Send` runs the two back
to back.

Files:
- `text.dfy` (`JsText`): the JavaScript string built-ins and regular-expression
  classes the responder relies on.
- `responder.dfy` (`Responder`): the rules, their matchers, the handlers and the
  rendering of replies.
- `responder_props.dfy` (`ResponderProperties`): what the responder promises.
- `controller.dfy` (`Controller`): the component state as a class, the same
  steps as functions on values, and their properties.

Everything the responder reads from outside is a field of `Env`: the clock, the
locale, number formatting and `Math.random`.

**Where the help text and the code disagree.** The bot's own help reply
(`src/components/chat/RuleBot.tsx:136`) offers `days until 2025-01-01 | weekday
for 2025-01-01`, so `days until 2025-01-01` should answer with a day count and
`weekday for 2025-01-01` with that date's weekday name. As written, neither
date-math rule ever answers. The arithmetic rule comes before both, and the
year and month of any `dddd-dd-dd` date read as `dddd - dd`, so `days until
2025-01-01` is answered with a subtraction. `weekday for 2025-01-01` is caught earlier still,
by the whole-word `weekday` rule, and answered with today's weekday, not that
date's. The model follows the code. `ResponderProperties.DaysUntilNeverWins`
and `ResponderProperties.WeekdayForNeverWins` prove that neither date-math rule
is ever reached, and `ResponderProperties.WeekdayWordWins` and
`ResponderProperties.WeekdayForToday` show where `weekday for` goes instead.

## Model

| member | source | states |
|---|---|---|
| JsText.TrimSpec | src/components/chat/RuleBot.tsx:21 | `trim` leaves exactly the part of the text between its leading and trailing white space. The result is empty exactly when the text is blank. |
| JsText.LowerSpec | src/components/chat/RuleBot.tsx:21 | `toLowerCase` maps each character on its own, keeping the length. |
| JsText.LowerKeepsSpaces | src/components/chat/RuleBot.tsx:21 | Lower-casing keeps white space where it was and is idempotent. |
| JsText.UpperCases | src/components/chat/RuleBot.tsx:123 | `toUpperCase` leaves no lower-case letter and keeps every character's lower-case form. |
| JsText.ReverseInvolution | src/components/chat/RuleBot.tsx:121 | Reversing the characters twice gives the text back. |
| JsText.ReverseSpec | src/components/chat/RuleBot.tsx:121 | The reversed text has the character at position `i` at the mirror position. |
| JsText.Trim | src/components/chat/RuleBot.tsx:21 | `trim`, on the JavaScript white-space set. What it leaves is stated by `JsText.TrimSpec`. |
| JsText.Lower | src/components/chat/RuleBot.tsx:21 | `toLowerCase`, keeping the length. Stated character by character by `JsText.LowerSpec`, and `JsText.LowerKeepsSpaces`. |
| JsText.Upper | src/components/chat/RuleBot.tsx:123 | `toUpperCase`, keeping the length. Stated by `JsText.UpperCases`. |
| JsText.Reverse | src/components/chat/RuleBot.tsx:121 | `split("").reverse().join("")`, keeping the length. Stated by `JsText.ReverseSpec` and `JsText.ReverseInvolution`. |
| Responder.NormalizeSpec | src/components/chat/RuleBot.tsx:21 | The normalised input is empty exactly when the raw input is blank. It has no white space at either end and no upper-case letter. |
| Responder.Normalize | src/components/chat/RuleBot.tsx:21 | The responder's `trim().toLowerCase()`. Stated by `Responder.NormalizeSpec` and `ResponderProperties.NormalizeIdempotent`. |
| Responder.DecimalValue | src/components/chat/RuleBot.tsx:57-58 | `parseFloat` of a matched `\d+(?:\.\d+)?`: at least the whole part and less than one more. Its exact value is stated by `Responder.DecimalScaled`. |
| Responder.DecimalScaled | src/components/chat/RuleBot.tsx:57-58 | The value `parseFloat` gives is all the digits, read as one whole number, over ten to the number of fraction digits. |
| Responder.NaturalConcat | src/components/chat/RuleBot.tsx:57-58 | Reading two digit runs one after the other as one number shifts the first by the length of the second. |
| Responder.NumberAt | src/components/chat/RuleBot.tsx:55 | `-?\d+(?:\.\d+)?` matches at a position exactly when a digit, or a minus sign and a digit, starts there. The number read ends before a non-digit, and is not negative without a minus sign. Its value and its fraction are stated by `Responder.NumberValue`. |
| Responder.NumberValue | src/components/chat/RuleBot.tsx:55-58 | The number read is the `parseFloat` value of the text it spans, as `Responder.DecimalNumeral` defines it, with the sign of its minus. When a dot and a digit follow the whole digits, the fraction is read too. |
| Responder.NumeralUnique | src/components/chat/RuleBot.tsx:57-58 | A matched `\d+(?:\.\d+)?` has exactly one value, so `Responder.NumberValue` fixes the number read. |
| Responder.ReadsFraction | src/components/chat/RuleBot.tsx:55-58 | `1.5` is read as 1.5, ending after the `5`. |
| Responder.GreetingWord | src/components/chat/RuleBot.tsx:26 | `^(hi|hello|hey)\b` for one of the three words. Stated by `ResponderProperties.GreetingWins` and `ResponderProperties.GreetingNeedsWholeWord`. |
| Responder.WeatherAt | src/components/chat/RuleBot.tsx:46 | `weather in ([a-z\s]+)` at a start position. Stated by `ResponderProperties.WeatherCapture` and `ResponderProperties.CityIsLower`. |
| Responder.SumAt | src/components/chat/RuleBot.tsx:55 | The sum pattern at a start position. Stated by `ResponderProperties.SumCapture` and `ResponderProperties.SumBeforeArithmetic`. |
| Responder.ArithAt | src/components/chat/RuleBot.tsx:62 | The arithmetic pattern at a start position. Stated by `ResponderProperties.ArithCapture` and `ResponderProperties.IsoDateArithmetic`. |
| Responder.ConversionAt | src/components/chat/RuleBot.tsx:72-78 | Both conversion patterns at a start position, by source and target scale. Stated by `ResponderProperties.ConversionCapture`, `ResponderProperties.CelsiusToFExample` and `ResponderProperties.FahrenheitToCExample`. |
| Responder.DaysUntilAt | src/components/chat/RuleBot.tsx:86 | `days? until (\d{4}-\d{2}-\d{2})` at a start position. Stated by `ResponderProperties.DaysUntilIsArithmetic`. |
| Responder.WeekdayForAt | src/components/chat/RuleBot.tsx:95 | `weekday for (\d{4}-\d{2}-\d{2})` at a start position. Stated by `ResponderProperties.WeekdayForIsArithmetic`. |
| Responder.CaptureAt | src/components/chat/RuleBot.tsx:120-124 | `keyword (.+)` at a start position, for the three transforms. Stated by `ResponderProperties.CaptureFollowsKeyword`. |
| Responder.Pick | src/components/chat/RuleBot.tsx:50 | `list[Math.floor(Math.random() * list.length)]` is always an element of the list. |
| Responder.Evaluate | src/components/chat/RuleBot.tsx:67 | The result is `undefined` exactly for division by zero. Otherwise a quotient times the divisor gives back the dividend, and a difference plus the subtrahend gives back the minuend. |
| Responder.TitleCaseSpec | src/components/chat/RuleBot.tsx:48 | Title-casing changes exactly the lower-case letters that start a word, and keeps every character's lower-case form. With the length kept, this fixes the result. |
| Responder.TitleCase | src/components/chat/RuleBot.tsx:48 | `replace(/\b\w/g, (m) => m.toUpperCase())`, keeping the length. Stated by `Responder.TitleCaseSpec` and `ResponderProperties.TitleCaseIdempotent`. |
| Responder.FirstNone | src/components/chat/RuleBot.tsx:46 | The leftmost search finds nothing exactly when the pattern matches at no position. |
| Responder.FirstIndex | src/components/chat/RuleBot.tsx:46 | The leftmost search reports the match at the first position where the pattern matches. |
| Responder.FirstAt | src/components/chat/RuleBot.tsx:46 | A match with none before it is the one the leftmost search reports. |
| Responder.Find | src/components/chat/RuleBot.tsx:46 | `String.prototype.match` without the `g` flag: the leftmost match. Stated by `Responder.FirstNone`, `Responder.FirstIndex` and `Responder.FirstAt`. |
| Responder.DispatchFirst | src/components/chat/RuleBot.tsx:23-147 | The dispatch picks the first rule that matches, and picks none when no rule matches. |
| Responder.WinnerSpec | src/components/chat/RuleBot.tsx:23-147 | The answering rule matches and no earlier rule does. There is no answering rule exactly when no rule matches. |
| Responder.Test | src/components/chat/RuleBot.tsx:23-145 | Each rule's test on the normalised input, with its groups. What the tests of the individual rules mean is stated by the lemmas below. |
| Responder.Dispatch | src/components/chat/RuleBot.tsx:23-147 | The chain of early returns over a list of rules. Stated by `Responder.DispatchFirst`. |
| Responder.Winner | src/components/chat/RuleBot.tsx:23-147 | The rule that answers. Stated by `Responder.WinnerSpec` and `ResponderProperties.FirstMatchWins`. |
| Responder.Handle | src/components/chat/RuleBot.tsx:23-145 | What each rule's handler answers. Stated by `ResponderProperties.HandleAnswers` and the per-rule reply lemmas below. |
| Responder.Decide | src/components/chat/RuleBot.tsx:23-147 | The reply the winning handler gives, or the fallback. Stated by `ResponderProperties.Fallback`. |
| Responder.Render | src/components/chat/RuleBot.tsx:23-147 | The reply as text. Stated by `ResponderProperties.FallbackVerbatim` and `ResponderProperties.UndefinedText`. |
| Responder.Respond | src/components/chat/RuleBot.tsx:20-148 | `getRuleBasedResponse`. Stated by `ResponderProperties.RespondNormalized`, `ResponderProperties.BlankInput` and `ResponderProperties.FallbackVerbatim`. |
| ResponderProperties.NormalizeIdempotent | src/components/chat/RuleBot.tsx:21 | Trimming and lower-casing a second time changes nothing. |
| ResponderProperties.RespondNormalized | src/components/chat/RuleBot.tsx:20-23 | The reply to any input equals the reply to its trimmed, lower-cased form. |
| ResponderProperties.BlankInput | src/components/chat/RuleBot.tsx:23 | The empty-input rule answers exactly the blank inputs, with the fixed prompt. |
| ResponderProperties.FirstMatchWins | src/components/chat/RuleBot.tsx:23-147 | A matching rule with no earlier matching rule is the one that answers. |
| ResponderProperties.MatchBounds | src/components/chat/RuleBot.tsx:23-147 | When a rule matches, the answer comes from it or from an earlier rule. |
| ResponderProperties.Fallback | src/components/chat/RuleBot.tsx:147 | The fallback is chosen exactly when no rule matches. |
| ResponderProperties.FallbackVerbatim | src/components/chat/RuleBot.tsx:147 | An input no rule matches gets the fallback text, verbatim. |
| ResponderProperties.HandleAnswers | src/components/chat/RuleBot.tsx:23-145 | No rule's handler answers with the fallback. |
| ResponderProperties.GreetingWins | src/components/chat/RuleBot.tsx:26-28 | Input that starts with the whole word `hi`, `hello` or `hey` is greeted, whatever follows. |
| ResponderProperties.GreetingNeedsWholeWord | src/components/chat/RuleBot.tsx:26 | `history` is not a greeting; `hi there` is. |
| ResponderProperties.TimeBeatsLaterRules | src/components/chat/RuleBot.tsx:26-43 | A whole-word `time` is answered by the greeting, the "how are you" or the time rule, and by no later rule. |
| ResponderProperties.SumBeforeArithmetic | src/components/chat/RuleBot.tsx:55-69 | A sum request is never answered by the generic arithmetic rule. |
| ResponderProperties.SumCapture | src/components/chat/RuleBot.tsx:55-58 | The sum rule's numbers come from the leftmost match of its pattern. |
| ResponderProperties.SumExact | src/components/chat/RuleBot.tsx:56-59 | The sum reply shows both numbers and their exact sum. |
| ResponderProperties.ArithCapture | src/components/chat/RuleBot.tsx:62-66 | The arithmetic rule's operands and operator come from the leftmost match of its pattern. |
| ResponderProperties.ArithmeticExact | src/components/chat/RuleBot.tsx:62-68 | The arithmetic reply shows the operands and the operator. `+`, `-`, `*` and division by a non-zero number are exact. The result is `undefined` exactly for division by zero. |
| ResponderProperties.UndefinedText | src/components/chat/RuleBot.tsx:68 | A division by zero is shown with the literal word `undefined` in the result slot. |
| ResponderProperties.FahrenheitReply | src/components/chat/RuleBot.tsx:72-76 | The Celsius-to-Fahrenheit reply shows the number asked about, and a Fahrenheit value that converts back to it exactly. |
| ResponderProperties.CelsiusReply | src/components/chat/RuleBot.tsx:78-82 | The Fahrenheit-to-Celsius reply shows the number asked about, and a Celsius value that converts back to it exactly. |
| ResponderProperties.ConversionCapture | src/components/chat/RuleBot.tsx:72-82 | Each conversion rule's number comes from the leftmost match of its pattern. |
| ResponderProperties.CelsiusToFExample | src/components/chat/RuleBot.tsx:72-76 | `30 c to f` is answered by the Celsius-to-Fahrenheit rule, as 30 °C = 86 °F. No earlier rule catches it. |
| ResponderProperties.FahrenheitToCExample | src/components/chat/RuleBot.tsx:78-82 | `86 f to c` is answered by the Fahrenheit-to-Celsius rule, as 86 °F = 30 °C. No earlier rule catches it. |
| ResponderProperties.IsoDateArithmetic | src/components/chat/RuleBot.tsx:62 | A `dddd-dd-dd` date starts a match of the arithmetic pattern: the operation is the value of its year minus the value of its month. |
| ResponderProperties.YearNumber | src/components/chat/RuleBot.tsx:62 | The number pattern at the start of a date reads the year's value and stops at the dash. |
| ResponderProperties.MonthNumber | src/components/chat/RuleBot.tsx:62 | The number pattern after the first dash of a date reads the month's value and stops at the second dash. |
| ResponderProperties.DaysUntilIsArithmetic | src/components/chat/RuleBot.tsx:86 | Whenever `days until <date>` matches, the arithmetic pattern matches too. |
| ResponderProperties.WeekdayForIsArithmetic | src/components/chat/RuleBot.tsx:95 | Whenever `weekday for <date>` matches, the arithmetic pattern matches too. |
| ResponderProperties.Shadowed | src/components/chat/RuleBot.tsx:23-147 | A rule that never matches unless an earlier rule matches too never answers. |
| ResponderProperties.DaysUntilNeverWins | src/components/chat/RuleBot.tsx:86-92 | The `days until` rule never answers. |
| ResponderProperties.WeekdayForNeverWins | src/components/chat/RuleBot.tsx:95-99 | The `weekday for` rule never answers. |
| ResponderProperties.WeekdayWordWins | src/components/chat/RuleBot.tsx:23-43 | Input with a whole-word `weekday` is answered by the weekday rule or an earlier one, so never by the arithmetic or date-math rules. |
| ResponderProperties.WeekdayAnswers | src/components/chat/RuleBot.tsx:23-43 | Input with a whole-word `weekday` and no `h` or `t` is answered by the weekday rule. |
| ResponderProperties.WeekdayForToday | src/components/chat/RuleBot.tsx:41-42 | `weekday for 2025-01-01` is answered with today's weekday by the rule on line 41. |
| ResponderProperties.TitleCaseIdempotent | src/components/chat/RuleBot.tsx:48 | Title-casing a second time changes nothing. |
| ResponderProperties.WeatherCapture | src/components/chat/RuleBot.tsx:46 | The city is the run of letters and white space after `weather in ` at the leftmost match. |
| ResponderProperties.CityIsLower | src/components/chat/RuleBot.tsx:46 | The captured city holds no upper-case letter when the input holds none, as after normalisation. |
| ResponderProperties.WeatherReply | src/components/chat/RuleBot.tsx:46-51 | The weather stub names the trimmed city with exactly the lower-case letters that start a word capitalised, and nothing else changed. The mood is one of the five fixed moods. |
| ResponderProperties.JokePick | src/components/chat/RuleBot.tsx:102-109 | A joke request is answered with one of the three fixed jokes. |
| ResponderProperties.QuotePick | src/components/chat/RuleBot.tsx:110-117 | A quote request is answered with one of the three fixed quotes. |
| ResponderProperties.CaptureFollowsKeyword | src/components/chat/RuleBot.tsx:120-125 | A transform's group is the rest of the line after its keyword. |
| ResponderProperties.TransformCapture | src/components/chat/RuleBot.tsx:120-125 | A transform's group comes from the leftmost match of its pattern. |
| ResponderProperties.ReverseReply | src/components/chat/RuleBot.tsx:120-121 | Reversing the reply to `reverse X` gives back X. |
| ResponderProperties.UppercaseReply | src/components/chat/RuleBot.tsx:122-123 | The reply to `uppercase X` has X's length and letters, with no lower-case letter. |
| ResponderProperties.CaptureIsLower | src/components/chat/RuleBot.tsx:124 | A transform's group holds no upper-case letter when the input holds none, as after normalisation. |
| ResponderProperties.LowercaseUnchanged | src/components/chat/RuleBot.tsx:124-125 | The reply to `lowercase X` is X unchanged. |
| ResponderProperties.ReverseBeforeCase | src/components/chat/RuleBot.tsx:120-125 | When `reverse` matches, neither case transform answers. |
| ResponderProperties.UppercaseBeforeLowercase | src/components/chat/RuleBot.tsx:122-125 | When `uppercase` matches, the lowercase transform does not answer. |
| Controller.RuleBot.constructor | src/components/chat/RuleBot.tsx:151-153 | The component starts with an empty log, an empty text box and no typing indicator. |
| Controller.RuleBot.Mount | src/components/chat/RuleBot.tsx:185-191 | The mount effect's new state is `Seeded` of the old one. |
| Controller.RuleBot.Edit | src/components/chat/RuleBot.tsx:240 | The text box's change handler sets the input and nothing else. |
| Controller.RuleBot.Submit | src/components/chat/RuleBot.tsx:157-171 | `send` up to its pause: the new state is `Submitted`, and the text handed on is `Pending`. |
| Controller.RuleBot.Deliver | src/components/chat/RuleBot.tsx:173-177 | `send` after its pause: the new state is `Delivered`. |
| Controller.RuleBot.Send | src/components/chat/RuleBot.tsx:157-178 | A whole `send`: the new state is `Sent`. |
| Controller.RuleBot.SubmitForm | src/components/chat/RuleBot.tsx:180-183 | The form sends the text box's contents. |
| Controller.IsClearCommand | src/components/chat/RuleBot.tsx:162 | `/^clear$/i` on the trimmed text. Stated by `Controller.ClearCommandSpec`. |
| Controller.Seeded | src/components/chat/RuleBot.tsx:185-191 | The mount effect on the state. Stated by `Controller.SeededSpec` and `Controller.MountedSession`. |
| Controller.Pending | src/components/chat/RuleBot.tsx:157-166 | The text `send` hands to the responder after its pause, if any. Stated by `Controller.PendingSpec` and `Controller.BlankIgnored`. |
| Controller.Submitted | src/components/chat/RuleBot.tsx:157-172 | The state when `send` reaches its pause. Stated by `Controller.BlankIgnored`, `Controller.ClearEmpties` and `Controller.PostedTextTrimmed`. |
| Controller.Delivered | src/components/chat/RuleBot.tsx:173-177 | The state once the reply is posted. Stated by `Controller.SendPostsPair`, `Controller.ClearDuringPause` and `Controller.TypingOffEarly`. |
| Controller.Sent | src/components/chat/RuleBot.tsx:157-178 | A whole `send` with nothing during its pause. Stated by `Controller.SendPostsPair` and `Controller.SendKeepsLog`. |
| Controller.Session | src/components/chat/RuleBot.tsx:157-178 | Sends one after another, each reply posted before the next send. Stated by `Controller.SessionKeepsLog`, `Controller.SessionExtends` and `Controller.SessionEndsCleared`. |
| Controller.ClearCommandSpec | src/components/chat/RuleBot.tsx:162 | `clear` is recognised in any letter case, and nothing else is. |
| Controller.SeededSpec | src/components/chat/RuleBot.tsx:185-191 | Mounting puts exactly the greeting into an empty log, with the text box and the typing indicator unchanged. It leaves a non-empty log alone, and a second mount changes nothing. |
| Controller.BlankIgnored | src/components/chat/RuleBot.tsx:158-159 | Blank input changes nothing and does not reach the responder. |
| Controller.PendingSpec | src/components/chat/RuleBot.tsx:158-166 | Input skips the responder exactly when it is blank or `clear`. |
| Controller.ClearEmpties | src/components/chat/RuleBot.tsx:161-166 | `clear` empties the log, whatever it held. It leaves the text box and the typing indicator alone, does not reach the responder, and clearing twice is clearing once. |
| Controller.PostedTextTrimmed | src/components/chat/RuleBot.tsx:168-172 | Other input is appended as one user message holding the trimmed text, which is non-empty. The text box is emptied and the typing indicator turned on. |
| Controller.RespondTrimmed | src/components/chat/RuleBot.tsx:157-174 | The reply to the trimmed text equals the reply to the text as typed. |
| Controller.SendPostsPair | src/components/chat/RuleBot.tsx:168-177 | A turn appends exactly the user message and the bot's reply to it, keeps the earlier messages in order, empties the text box and ends with the typing indicator off. |
| Controller.SendKeepsLog | src/components/chat/RuleBot.tsx:157-178 | With nothing happening during the pause, `send` keeps every user message answered at once by a bot message, and every user text trimmed and non-empty. |
| Controller.SessionKeepsLog | src/components/chat/RuleBot.tsx:157-178 | Any sequence of such sends keeps that invariant. |
| Controller.SessionExtends | src/components/chat/RuleBot.tsx:161-176 | Sends with no `clear` among them keep every earlier message in front, in order. |
| Controller.SessionEndsCleared | src/components/chat/RuleBot.tsx:161-165 | Sends that end with `clear` leave the log empty. |
| Controller.MountedSession | src/components/chat/RuleBot.tsx:185-191 | A freshly mounted component holds exactly the greeting. After any sequence of sends the invariant holds, and if no `clear` was sent the log still opens with the greeting. |
| Controller.ClearDuringPause | src/components/chat/RuleBot.tsx:161-177 | A `clear` sent during another message's pause leaves that message's reply alone in the log, with no question before it. |
| Controller.TypingOffEarly | src/components/chat/RuleBot.tsx:170-177 | With two messages sent within one pause, the first reply turns the typing indicator off while the second is still pending. |

## Left out

- Floating point: numbers are exact reals. `parseFloat` reads the matched decimal exactly, with no rounding, and overflow to `Infinity` is not modelled. The conversion of a number to text (`${x}`) and `toFixed(2)` are functions passed in through `Env`. No claim is made about the digits they print.
- The clock and the locale are inputs passed in through `Env`: `toLocaleTimeString`, `toLocaleDateString`, `toDateString` and the day difference. The date-math handlers are modelled, but no rule that uses them is ever reached.
- `Math.random` is a parameter `0 <= r < 1` for the mood, joke and quote picks. Message ids and timestamps are parameters, with no claim that ids are unique, because `generateId` does not ensure it.
- The 450 ms pause. The split into `Submit` and `Deliver` shows what can happen during it (`ClearDuringPause`, `TypingOffEarly`). Which events the browser schedules during the pause is not modelled.
- The toast on `clear`, scrolling to the newest message, rendering, and the form's `preventDefault`.
- `src/pages/Index.tsx` and `src/components/BrandBackground.tsx` are not part of this model.
- JsText.Lower: maps only the ASCII letters `A`-`Z`. Letters outside ASCII keep their case, unlike `toLowerCase`.
- JsText.Upper: maps only the ASCII letters `a`-`z`. Letters outside ASCII keep their case, and no letter expands into several characters, unlike `toUpperCase`.
- Responder.Normalize: inherits the ASCII-only lower-casing of `JsText.Lower`.
- JsText.Reverse: reverses Unicode scalar values. JavaScript's `split("")` reverses UTF-16 code units, and so splits surrogate pairs.
