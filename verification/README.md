# Landing-page rules of the mystery-shopper application page

This project models, in Dafny, the pure rules buried in the event handlers of
the two landing-page scripts `landing-new.js` and `landing-script.js`, and
proves properties of them. The two scripts implement the same features with
different constants and precedence rules; each concern is one module holding
both variants side by side.

- `Text` — ASCII whitespace and digits, `trim`, decimal rendering of numbers,
  `padStart`, and a reader that parses numbers back out of rendered text.
- `Patterns` — the email, phone and ZIP regular expressions as hand-written
  predicates, and the phone cleaning step.
- `Countdown` — "Dd Hh Mm Ss"/"EXPIRED" (landing-new.js) and zero-padded
  "HH:MM:SS" (landing-script.js), with parsers proving the text determines
  the split.
- `Income` — the four-band rate table with a ±10% range (landing-new.js), the
  flat $500–$600 range (landing-script.js), yearly figures, and tier choice.
- `Deadline` — the last day of the month (with the `Date` constructor's reading
  of years 0–99 as 1900–1999) and its ordinal suffix.
- `Validation` — per-field checks, first-failure (landing-new.js) versus
  last-failure (landing-script.js) message precedence, and the submit gate.
- `Faq` — the accordion: at most one item open.
- `Positions` — the scarcity counter with its floor of 15, storage and displays.

Environment inputs are parameters: the remaining milliseconds of a countdown,
the current year and month, the coin flip of `Math.random`, and the value in
local storage (`Option<int>`), and the `active` classes of the tier cards
before a slider change (`seq<bool>`). The slider value is an `int`.

Each script has two textual copies of some handlers: `updateIncome` and
`window.calculateIncome` in landing-new.js; the two `calculateIncome` copies
and the two FAQ click handlers in landing-script.js. Each pair performs the
same computation with the same constants, so each pair is modelled once. The
copies differ only in ways that do not touch a modelled value:

- `updateIncome` computes a `yearlyIncome` it never uses
  (landing-new.js:92); `window.calculateIncome` (landing-new.js:139-173) lacks
  that line and looks its elements up again before the same early return.
- The global `window.calculateIncome` of landing-script.js
  (landing-script.js:102-109) looks its elements up again instead of using
  those captured by `initIncomeCalculator`, and like it returns early only
  when the slider is missing.
- The FAQ click handler uses the `item` it closes over and the list found at
  start-up (landing-script.js:338-352); `window.toggleFAQ` finds the item with
  `closest('.faq-item')` and queries the list afresh (landing-script.js:357-370).

The counter does not quite keep the promise of never displaying a value below
its floor of 15. A stored value below 15 is displayed as loaded
(`Positions.Load`) and is only lifted to 15 on the first firing tick. The model
follows the code here.

## Model

| member | source | states |
|---|---|---|
| Text.Trim | landing-new.js:258 | `trim` returns a contiguous slice of the value, with only whitespace outside it, that neither starts nor ends with whitespace |
| Text.TrimEmptyIff | landing-script.js:154-163 | the trimmed value is empty (the `!value` test) exactly when the raw value is all whitespace |
| Text.NatToStringRoundTrip | landing-new.js:64 | the decimal text interpolated for a number reads back as that number |
| Text.ZeroPadValue | landing-script.js:50 | `padStart(2, '0')` does not change the number the digits denote |
| Text.ReadFieldZeroPad | landing-script.js:50 | a padded number followed by a separator is read back as the number and the text after the separator |
| Text.ReadFieldNat | landing-new.js:64 | an interpolated number followed by its unit label is read back as the number and the text after the label |
| Text.LeadingZerosValue | landing-script.js:50 | zeros put in front of a digit string do not change its value |
| Patterns.IsEmail | landing-new.js:268-269 | the email test as a reader states it: no whitespace, one '@' with text before it, and after it a '.' at neither its first nor last position; Patterns.EmailMatchesRegex proves it equal to the regex language |
| Patterns.EmailMatchesRegex | landing-script.js:170-171 | the email pattern (also landing-new.js:268-269) accepts exactly values with no whitespace, one '@' with text before it, and after it a '.' at neither its first nor last position |
| Patterns.CleanPhone | landing-new.js:277 | cleaning leaves no whitespace, '-', '(' or ')', removes a value made only of them entirely, and leaves a value without them unchanged; with Patterns.CleanPhoneConcat this is deletion of exactly those characters |
| Patterns.CleanPhoneConcat | landing-script.js:180 | cleaning works piece by piece: clean(a+b) = clean(a)+clean(b) |
| Patterns.CleanPhoneIdempotent | landing-new.js:277 | cleaning twice is cleaning once |
| Patterns.IsPhone | landing-new.js:276 | `^[\+]?[1-9][\d]{0,15}$`: an optional '+', a non-zero digit and at most fifteen more digits; Patterns.PhoneShape states its consequences |
| Patterns.PhoneShape | landing-new.js:276 | an accepted phone string has 1–17 characters, never starts with '0', and is all digits apart from an optional leading '+' |
| Patterns.PhoneScriptStricter | landing-script.js:179-181 | landing-script.js accepts exactly the landing-new.js phones whose cleaned length is at least 10, so 10–17 characters |
| Patterns.IsZip | landing-script.js:189 | `^\d{5}(-\d{4})?$`: five digits, optionally followed by '-' and four digits; Patterns.ZipShape and Patterns.ZipAcceptsCodes bound it from both sides |
| Patterns.ZipShape | landing-script.js:188-190 | an accepted ZIP has length 5 or 10, all digits except a '-' at index 5 in the long form |
| Patterns.ZipAcceptsCodes | landing-script.js:189 | every five-digit code is accepted, alone or with any four-digit extension |
| Countdown.DaysCountdown | landing-new.js:54-62 | negative distance is expired; otherwise hours < 24, minutes and seconds < 60, and the parts add up to the distance to the whole second below |
| Countdown.DaysSplitUnique | landing-new.js:59-62 | any in-range days/hours/minutes/seconds adding up to the distance are exactly the ones shown |
| Countdown.RenderDays | landing-new.js:55-64 | "EXPIRED", or `${days}d ${hours}h ${minutes}m ${seconds}s`; Countdown.ParseRenderDays proves the text determines the view |
| Countdown.DaysText | landing-new.js:50-65 | the text shown for a distance; Countdown.DaysTextDeterminesSecond and Countdown.DaysTextEdges state what it reveals |
| Countdown.ParseRenderDays | landing-new.js:55-64 | the "Dd Hh Mm Ss" or "EXPIRED" text reads back as the view it was rendered from |
| Countdown.DaysCountdownSecond | landing-new.js:59-62 | the shown view stands for the distance rounded down to whole seconds |
| Countdown.RenderDaysInjective | landing-new.js:54-64 | distinct views render to distinct texts |
| Countdown.DaysTextDeterminesSecond | landing-new.js:54-64 | two non-negative distances show the same text exactly when they fall in the same whole second |
| Countdown.DaysTextEdges | landing-new.js:54-64 | a negative distance shows "EXPIRED"; a distance of 0 (or under a second) shows "0d 0h 0m 0s" |
| Countdown.ClockSplit | landing-script.js:45-47 | minutes and seconds < 60, hours not reduced mod 24, and the parts add up to the time left to the whole second below |
| Countdown.RenderClock | landing-script.js:49-50 | the three parts padded to two digits and joined by ':'; Countdown.ParseRenderClock and Countdown.RenderClockShape state its round trip and shape |
| Countdown.ClockText | landing-script.js:40-53 | the split while time is left, "00:00:00" otherwise; Countdown.ClockTextShape and Countdown.ClockZeroIff state what it reveals |
| Countdown.RenderClockShape | landing-script.js:49-50 | with minutes and seconds below 60 the text has at least two digits of hours, then ':', exactly two digits of minutes, ':', and exactly two digits of seconds |
| Countdown.ClockTextShape | landing-script.js:44-53 | the shown text reads back as the split (all zeros once time is up) and has that "HH:MM:SS" shape |
| Countdown.ParseRenderClock | landing-script.js:49-50 | the "HH:MM:SS" text reads back as the clock it was rendered from |
| Countdown.RenderClockInjective | landing-script.js:49-50 | distinct clocks render to distinct texts |
| Countdown.ClockSplitZeroIff | landing-script.js:45-47 | the split is all zeros exactly when less than one second is left |
| Countdown.ClockZeroIff | landing-script.js:44-53 | the display reads "00:00:00" exactly when less than one second is left, including all times at or past the end |
| Income.JsRound | landing-new.js:95-96 | `Math.round` gives the integer within one half of the exact quotient, halves rounded up |
| Income.RatePerAssignment | landing-new.js:85-89 | the rate is one of the bands from 500 to 650 in steps of 50; Income.RateMonotone and Income.TierFollowsRate order the bands |
| Income.MonthlyIncome | landing-new.js:91 | assignments × rate; Income.MonthlyMultipleOf50 and Income.MonthlyStrictlyIncreasing state its properties |
| Income.MonthlyMultipleOf50 | landing-new.js:85-91 | every monthly income is a multiple of 50 |
| Income.RateMonotone | landing-new.js:85-89 | the per-assignment rate never drops as assignments grow |
| Income.MonthlyStrictlyIncreasing | landing-new.js:85-91 | monthly income = assignments × rate is strictly increasing in assignments |
| Income.TieredEstimate | landing-new.js:91-102 | the bounds are exactly 9/10 and 11/10 of monthly income with no rounding loss; yearly = 12× monthly; lower ≤ monthly ≤ upper iff assignments ≥ 0 (same figures at landing-new.js:151-167) |
| Income.TieredEstimateIncreasing | landing-new.js:91-96 | both shown monthly bounds grow strictly with assignments |
| Income.TierIndexNew | landing-new.js:122-130 | a tier index in 0..2; Income.TierFollowsRate ties it to the rate bands |
| Income.TierFollowsRate | landing-new.js:115-130 | tier 0 iff rate 500, tier 1 iff rate 550, tier 2 iff rate 600 or 650 (two bands share tier 2) |
| Income.FlatEstimate | landing-script.js:72-83 | yearly = 12× monthly, max = 6/5 of min, spread 100 per assignment, min ≤ max iff assignments ≥ 0 (same figures at landing-script.js:111-122) |
| Income.TierIndexScript | landing-script.js:88-94 | a tier index in 0..2 by the 10/20 thresholds; Income.TierRulesCompared sets it against the other rule |
| Income.TierRulesCompared | landing-script.js:88-94 | both tier rules are monotone into {0,1,2}; they disagree exactly at 9–10 and 16–20 assignments |
| Income.ClearAll | landing-new.js:119 | after the clearing loop no tier is active and the number of tiers is unchanged (also landing-script.js:86) |
| Income.Mark | landing-new.js:133-135 | marking adds exactly the chosen tier to the active ones when the page has it, and changes nothing otherwise (also landing-script.js:89-93 with `?.`) |
| Income.HighlightNewActive | landing-new.js:115-136 | whatever was active before, afterwards the active set is exactly {the new rule's tier} when the page has it, and empty otherwise |
| Income.HighlightScriptActive | landing-script.js:86-94 | the same for the landing-script.js rule |
| Income.HighlightsCompared | landing-script.js:86-94 | on a three-tier page both files highlight the same tier except at 9–10 and 16–20 assignments (landing-new.js:115-136) |
| Deadline.LastDayOfMonth | landing-new.js:212 | day 0 of the next month is the month's last day, between 28 and 31, and 29 only for February of a leap year as the `Date` constructor reads the year |
| Deadline.MonthsMakeAYear | landing-new.js:212 | the twelve last days sum to 365 or 366, and February has 29 exactly when the constructor's year is a leap year |
| Deadline.TwoDigitYears | landing-new.js:212 | years 0–99 get the month lengths of 1900–1999, so February of year 0 has 28 days |
| Deadline.OrdinalSuffix | landing-new.js:224-228 | the suffix is one of "st", "nd", "rd", "th"; Deadline.SuffixIsEnglishOrdinal and Deadline.SuffixChainDeparts compare it with the English rule |
| Deadline.SuffixIsEnglishOrdinal | landing-new.js:224-228 | for days 1–31 the suffix chain equals the English ordinal rule, with 11–13 getting "th" |
| Deadline.SuffixChainDeparts | landing-new.js:224-228 | over all numbers, the chain differs from the English rule exactly past 31 where the last digit is 1–3 outside the teens |
| Deadline.DeadlineText | landing-new.js:211-230 | "<Month> <day><suffix>, <year>"; Deadline.DeadlineSuffix states which suffix appears |
| Deadline.DeadlineSuffix | landing-new.js:211-230 | the deadline line ends the day with "st" for a 31-day month and "th" for every other month |
| Validation.FirstFailure | landing-new.js:262-283 | valid iff no check fails; otherwise the message of the first failing check |
| Validation.RunChecks | landing-script.js:155-200 | the flag ends false iff some check fails, with the message of the last failing check; otherwise the message stays empty |
| Validation.LastFailure | landing-script.js:155-200 | valid iff no check fails; otherwise the message of a failing check after which none fails |
| Validation.PrecedenceIrrelevantForOneFailure | landing-script.js:163-194 | with at most one failing check the two precedence rules give the same verdict |
| Validation.ValidateFieldNew | landing-new.js:256-284 | invalid iff required-and-blank, or a bad email, or a bad cleaned phone; the first such decides the message |
| Validation.ValidateFieldScript | landing-script.js:152-201 | invalid iff required-and-blank, bad email, bad phone (pattern or under 10 characters), or bad ZIP on the field named "zip"; the last such decides the message |
| Validation.LastFailureOfFour | landing-script.js:152-201 | with four checks run in order, the last failing one's message is the one left standing, and none failing means valid |
| Validation.NewChecksExclusive | landing-new.js:262-281 | in landing-new.js at most one check can fail for any field |
| Validation.ScriptLastMessageWins | landing-script.js:178-194 | a field failing both phone and ZIP checks shows the ZIP message, where an early return would show the phone message |
| Validation.ShortTelZip | landing-script.js:178-194 | every tel field named "zip" whose trimmed value has 1–4 characters fails both the phone and the ZIP check |
| Validation.TelFieldNamedZip | landing-script.js:178-194 | such a field exists: a required tel field named "zip" holding "abc" |
| Validation.BlankOptionalFieldValid | landing-new.js:258-283 | an optional field that is empty or all whitespace is valid under both scripts |
| Validation.RequiredBlankReported | landing-new.js:262-265 | a required field shows "This field is required" exactly when its value is all whitespace |
| Validation.ValidateEach | landing-new.js:347-353 | every field is validated with no early exit, and the flag ends true iff every verdict is valid |
| Validation.HandleSubmissionNew | landing-new.js:346-360 | every field gets its verdict; the form is sent iff all are valid, otherwise the correction banner shows |
| Validation.HandleSubmissionScript | landing-script.js:236-253 | every field gets its verdict; the terms error shows iff the box is unchecked; the form is sent iff all fields are valid and the box is checked |
| Faq.ToggleNew | landing-new.js:458-474 | clicking an open item leaves none open, clicking a closed one leaves exactly it open, and every answer is shown iff its item is open |
| Faq.ToggleScript | landing-script.js:357-370 | clicking an open item leaves none open, clicking a closed one leaves exactly it open (the same computation as the click handler at landing-script.js:340-352) |
| Faq.ToggleTwiceRestores | landing-script.js:341-351 | clicking the same item twice restores any state in which no other item is open |
| Faq.TogglesAgree | landing-new.js:461-473 | both scripts leave the same items open after the same click |
| Positions.Decrement | landing-new.js:178 | `Math.max(p - 1, 15)` (also landing-script.js:394); Positions.DecrementBounds states its bounds |
| Positions.DecrementBounds | landing-new.js:177-179 | a firing tick gives at least 15 and at least p−1, never more than p from p ≥ 15, and lifts a value below 15 to 15 |
| Positions.Load | landing-script.js:389-419 | a saved value replaces the initial 47 and is displayed; with nothing saved the count is 47 and the displays are untouched |
| Positions.TickNew | landing-new.js:176-189 | the count drops only on heads, but storage and displays are rewritten on every tick |
| Positions.TickScript | landing-script.js:391-407 | tails changes nothing at all; heads sets count, storage and displays to the decremented count |
| Positions.RunNewCount | landing-new.js:176-179 | from at least 15, after a run the count is start minus the number of heads, stopped at 15 |
| Positions.RunScriptCount | landing-script.js:393-394 | from at least 15, after a run the count is start minus the number of heads, stopped at 15 |
| Positions.RunsAgreeOnCount | landing-script.js:391-406 | both files move the count identically for the same coins |
| Positions.RunScriptConsistent | landing-script.js:393-419 | storage and displays stay equal to each other and to the count, and an empty storage means the count is still 47 |
| Positions.RunNewConsistent | landing-new.js:176-201 | storage and displays stay equal to each other and to the count, and an empty storage means the count is still 47 |
| Positions.ReloadRestoresCount | landing-script.js:405-412 | loading what a run of ticks left in storage restores the count that run reached |

## Left out

- DOM effects are not modelled because they carry no rule beyond the state captured above. This covers `innerHTML`/`textContent` writes, `classList`, creating and removing error spans and banners, `insertBefore`, `scrollIntoView` and the injected CSS.
- The fade-in observers, smooth scrolling, the exit-intent popup, scroll-depth and load-time logging, `gtag` and `trackConversion` are not modelled: they are browser effects and logging.
- `submitToGoogleSheets`, the redirect and the `setTimeout`-simulated submission are not modelled. They are network I/O or timers. The submit handlers are modelled up to the decision to send.
- The clock (`Date`, `setInterval`) is an input. The construction of the deadline instant (end of month at 23:59:59) and of `endTime` (now + 24 h) is not modelled; the countdowns take the remaining milliseconds.
- `Math.random` is a boolean coin. The odds (0.3 and 0.1) are not modelled.
- Local storage is an `Option<int>`. `parseInt` yielding NaN and the truthiness of an empty stored string are not modelled, because the scripts only ever store numbers.
- Income.TieredEstimate: `Math.round(x * 0.9)` is computed on the exact rational, not on binary floating point. `toLocaleString` thousands separators are locale-dependent and left out.
- Text.Trim: whitespace for `trim` and `\s` is the ASCII set (space, tab, LF, CR, VT, FF); the Unicode space characters JavaScript also strips are left out.
- The call `updatePositionCounter()` at landing-script.js:331 names a function that exists only inside `initPositionCounter`, so it cannot run from there; it is not modelled.
- How error elements are shown, reused or removed (`showFieldError`, `removeFieldError`, `clearFieldError`) is DOM plumbing and not modelled; the model states which message each field would show.
