# Campus information widget — a Dafny model

This project models the logic of a single-page campus information widget. The
page holds a tabbed information panel, a keyword-matching chat assistant and
four dialogs opened from quick-action buttons: a month calendar, a campus map,
an FAQ accordion and a support contact form. The model covers:

- **the calendar dialog.** The month grid built by `generateCalendar`: rows of
  seven cells, Sunday first, each empty or a day with "today" and "event" marks.
  Also the previous/next month buttons of `navigateMonth`, which call
  `setMonth(getMonth() ± 1)` on the displayed date. JavaScript `Date` arithmetic
  is written out as a proleptic Gregorian calendar on integer
  (year, month 0–11, day) triples. Weekdays count from 1 January 1970, a Thursday.
  Month and day overflow are normalised as `new Date(y, m, d)` and `setMonth`
  do it (modules `Gregorian`, `CalendarGrid`, `CalendarNav`);
- **the chat assistant.** `processInput` lower-cases the question and returns the
  answer of the first table entry, in insertion order, whose keyword is a
  substring of it, or else the "default" answer. `handleSend` appends the
  question and its answer to the transcript (module `Chat`);
- **the contact form.** Five fields, `handleSubmit`'s presence-only check on
  name, email, subject and message, a reset and close after an accepted submission, and
  single-field updates (module `Contact`);
- **the FAQ accordion.** One optional open index, toggled by clicks (module `Faq`);
- **the page shell.** The active tab and the single optional open dialog, from
  which the four dialogs' `isOpen` flags derive (module `Page`).

"Now" (`new Date()`) is a parameter: the calendar's `today`, which is also the date the calendar dialog first displays. The generic
`Option` type lives in module `Wrappers`.

The grid is built by a method, `CalendarGrid.GenerateCalendar`. Its loops
(`CalendarGrid.FillWeeks`, with the inner loop in `CalendarGrid.BuildWeek`)
follow the source: two nested loops, a running day counter and a `break` after
the week that holds the last day. It is proved equal to a closed-form layout
(`CalendarGrid.MonthLayout`), where slot `7 * i + j` of the grid holds day
`7 * i + j - firstDay + 1` when that day exists. The grid's properties are
lemmas about that layout.

The year quirk of `new Date(y, m, d)` is modelled (`Gregorian.ConstructorYear`)
rather than excluded: years 0 to 99 denote 1900 to 1999. So a displayed date in
those years takes its grid from the twentieth-century month, as the source
does. The navigation round trip holds exactly when the day exists in the month
stepped to (`CalendarNav.NextThenPrev`). This is not the same as "the day is at
most 28": 30 March → 30 April → 30 March round-trips. The model follows the code.

## Model

| member | source | states |
|---|---|---|
| Gregorian.YearLength | src/components/CalendarModal.tsx:23 | a year has 366 days exactly when it is a leap year, else 365 |
| Gregorian.DaysInMonth | src/components/CalendarModal.tsx:23 | month lengths are 28–31: February 29 days exactly in leap years, April, June, September and November 30, the rest 31 |
| Gregorian.Weekday | src/components/CalendarModal.tsx:22 | `getDay` of a day number is in 0..6, 0 being Sunday |
| Gregorian.NextMonth | src/components/CalendarModal.tsx:60 | one month on: December rolls over to January of the next year |
| Gregorian.PrevMonth | src/components/CalendarModal.tsx:60 | one month back: January rolls back to December of the previous year |
| Gregorian.PrevNextMonthInverse | src/components/CalendarModal.tsx:60 | stepping a month on and back, or back and on, returns to the same month |
| Gregorian.NormalizeDay | src/components/CalendarModal.tsx:22-23 | a day outside its month (0, negative, past the end) is carried into neighbouring months, giving a valid date with the same day number |
| Gregorian.MakeDate | src/components/CalendarModal.tsx:59-60 | `Date` normalisation: any month and day give a valid date on the same day as the month carried into the year and the day counted from the 1st |
| Gregorian.DayNumberInjective | src/components/CalendarModal.tsx:22-23 | two valid dates with the same day number are the same date, so a normalised date is unique |
| Gregorian.ConstructorYear | src/components/CalendarModal.tsx:22-23 | `new Date(y, m, d)` reads years 0–99 as 1900–1999 and keeps every other year |
| Gregorian.ConstructDate | src/components/CalendarModal.tsx:22-23 | `new Date(y, m, d)` is the normalised date of the constructor's year |
| Gregorian.MakeDateOfValid | src/components/CalendarModal.tsx:59 | normalising a date that is already valid leaves it unchanged |
| Gregorian.DayZeroIsLastDay | src/components/CalendarModal.tsx:23 | day 0 of the following month is the last day of the month, so its `getDate` is the month length |
| Gregorian.NextMonthWeekday | src/components/CalendarModal.tsx:22 | the 1st of the next month falls on the weekday (first weekday + month length) mod 7 |
| Gregorian.KnownWeekdays | src/components/CalendarModal.tsx:22 | reference points: 1970-01-01 Thursday, 2000-01-01 Saturday, 2023-09-01 Friday, 2024-02-29 Thursday, 1900-01-01 Monday |
| CalendarGrid.FirstDay | src/components/CalendarModal.tsx:22 | the number of leading blanks is a weekday, in 0..6 |
| CalendarGrid.MonthLength | src/components/CalendarModal.tsx:23 | a displayed month has 28 to 31 days |
| CalendarGrid.ConstructedMonth | src/components/CalendarModal.tsx:22-23 | the leading blanks are `getDay` of the constructed 1st of the month, and the month length is `getDate` of day 0 of the following month |
| CalendarGrid.BuildWeek | src/components/CalendarModal.tsx:30-49 | one pass of the inner loop produces week `i` of the closed-form layout and advances the day counter past the days it placed |
| CalendarGrid.FillWeeks | src/components/CalendarModal.tsx:26-54 | the week loop with its `break` produces exactly the closed-form layout: 1 to 6 weeks of 7 cells |
| CalendarGrid.GenerateCalendar | src/components/CalendarModal.tsx:19-55 | the grid of the displayed month is exactly its closed-form layout: 1 to 6 weeks of 7 cells |
| CalendarGrid.LayoutCell | src/components/CalendarModal.tsx:29-52 | the cell at week `i`, column `j` is day `7i + j - firstDay + 1` when that day exists, and empty otherwise |
| CalendarGrid.GridShape | src/components/CalendarModal.tsx:29-51 | every week has 7 cells; there are 4 to 6 weeks, exactly ceil((firstDay + days) / 7) |
| CalendarGrid.LeadingBlanks | src/components/CalendarModal.tsx:32-33 | week 0 opens with exactly `firstDay` empty cells, then day 1 |
| CalendarGrid.TrailingBlanks | src/components/CalendarModal.tsx:34-51 | every cell after the last day is empty, and the last week holds the last day, so no empty week trails |
| CalendarGrid.CellMarks | src/components/CalendarModal.tsx:37-40 | in the layout of any month, a shown day lies in 1..days; it is marked today exactly when day, month and year equal today's; it has an event exactly when it is 5, 12, 19 or 26 |
| CalendarGrid.AtMostOneToday | src/components/CalendarModal.tsx:37-39 | in the layout of any month, at most one cell is marked today, and none unless the displayed month and year are today's |
| CalendarGrid.TodayIsMarked | src/components/CalendarModal.tsx:24-39 | when today lies in the displayed month, its cell is present and marked today |
| CalendarGrid.DaysInRowMajorOrder | src/components/CalendarModal.tsx:27-47 | read row by row, the present cells are exactly 1, 2, …, days, with no gap or repeat |
| CalendarGrid.NextMonthContinues | src/components/CalendarModal.tsx:22-23 | the next month's leading blanks are (firstDay + days) mod 7 |
| CalendarGrid.September2023 | src/components/CalendarModal.tsx:19-55 | September 2023 seen on the 15th: 5 weeks, day 1 in column 5 of week 0, the 15th marked today, events on the 5th and 19th, day 30 closing week 4 |
| CalendarNav.TargetMonth | src/components/CalendarModal.tsx:60 | the buttons aim at a month in 0..11 |
| CalendarNav.NavigateMonth | src/components/CalendarModal.tsx:57-63 | the day is kept when the target month has it; otherwise it runs over into the month after the target by the excess days |
| CalendarNav.YearRollover | src/components/CalendarModal.tsx:60 | next from December gives January of the next year, previous from January gives December of the previous year, day kept |
| CalendarNav.NextThenPrev | src/components/CalendarModal.tsx:57-63 | next then previous restores the date exactly when the day exists in the next month |
| CalendarNav.PrevThenNext | src/components/CalendarModal.tsx:57-63 | previous then next restores the date exactly when the day exists in the previous month |
| CalendarNav.RoundTripUpTo28 | src/components/CalendarModal.tsx:57-63 | from a day up to the 28th, the two buttons undo each other |
| CalendarNav.JanuaryThirtyFirstSkipsFebruary | src/components/CalendarModal.tsx:57-63 | from 31 January 2023, next shows 3 March, and previous then shows 3 February |
| CalendarNav.NavigateMonthClamped | src/components/CalendarModal.tsx:57-63 | corrected navigation: always lands in the target month, the day kept or clamped to the month's last day |
| CalendarNav.ClampedRoundTrip | src/components/CalendarModal.tsx:57-63 | with clamping, back and forth always returns to the displayed month, and to the same date when the day existed in the month visited |
| CalendarNav.ClampedAgreesWhenDayFits | src/components/CalendarModal.tsx:57-63 | where the day fits the target month, the clamped and the as-written navigation agree |
| Chat.LowerChar | src/components/ChatContainer.tsx:53 | lower-casing maps A–Z to a–z and leaves every other character unchanged |
| Chat.ToLowerPointwise | src/components/ChatContainer.tsx:53 | `toLowerCase` lower-cases the question character by character, in place, and leaves no capital letter |
| Chat.ToLowerIdempotent | src/components/ChatContainer.tsx:53 | lower-casing twice is lower-casing once |
| Chat.ToLowerOfToUpper | src/components/ChatContainer.tsx:53 | lower-casing forgets any upper-casing before it |
| Chat.ContainsIffOccurs | src/components/ChatContainer.tsx:55 | `includes` holds exactly when the keyword equals the slice of the question at some position |
| Chat.ResponsesShape | src/components/ChatContainer.tsx:20-33 | the table has 12 entries with non-empty keywords, the last keyed "default" |
| Chat.Respond | src/components/ChatContainer.tsx:54-59 | the answer of the earliest entry whose keyword occurs, the fallback when none does, and always the fallback or one of the table's answers |
| Chat.ProcessInputFirstMatch | src/components/ChatContainer.tsx:52-60 | the reply is the answer of the earliest entry whose keyword occurs in the lower-cased question, "default" when none does, and always one of the table's answers |
| Chat.CaseInsensitive | src/components/ChatContainer.tsx:53 | questions differing only in letter case get the same answer |
| Chat.EmptyTextFallsBack | src/components/ChatContainer.tsx:54-59 | with non-empty keywords, an empty question gets the fallback |
| Chat.EmptyInputGetsDefault | src/components/ChatContainer.tsx:59 | the empty question gets the "default" answer |
| Chat.FirstMatchWins | src/components/ChatContainer.tsx:54-57 | the first matching entry answers, not the longest: "library hours" listed before "library" answers a question about library hours |
| Chat.GreetingAnswer | src/components/ChatContainer.tsx:21-56 | a question holding "hi" but not "hello" gets the greeting answer, whatever topic it names |
| Chat.ScholarshipQuestionGetsGreeting | src/components/ChatContainer.tsx:22-56 | the sample question "How to apply for scholarships?" holds "scholarship", yet gets the "hi" answer |
| Chat.RespondAppend | src/components/ChatContainer.tsx:54-58 | searching two tables in a row: the first answers when one of its keywords occurs, the second otherwise |
| Chat.SwapAgrees | src/components/ChatContainer.tsx:54-58 | swapping two blocks of entries changes no answer when at most one block has a keyword in the question |
| Chat.TopicsFirstAgrees | src/components/ChatContainer.tsx:20-60 | the reordered table answers as the original for every question not holding both a greeting and a topic keyword |
| Chat.ScholarshipTopicAnswer | src/components/ChatContainer.tsx:31-56 | with topics first, "scholarship" without an earlier topic keyword gets the scholarship answer, greeting or not |
| Chat.ScholarshipQuestionGetsScholarshipAnswer | src/components/ChatContainer.tsx:31-40 | with topics first, the scholarship sample question gets the scholarship answer |
| Chat.TrimEmptyIffBlank | src/components/ChatContainer.tsx:63 | `trim` leaves nothing exactly when the input is all white space |
| Chat.InitialChat | src/components/ChatContainer.tsx:12-16 | the chat opens with two assistant messages and an empty input |
| Chat.SetInput | src/components/ChatContainer.tsx:138 | typing changes the input and nothing else |
| Chat.Send | src/components/ChatContainer.tsx:62-76 | a blank input changes nothing; otherwise the raw question and then its answer are appended, earlier messages kept, and the input cleared |
| Chat.InitialWellFormed | src/components/ChatContainer.tsx:12-15 | the opening transcript is well formed |
| Chat.SendKeepsAlternation | src/components/ChatContainer.tsx:62-76 | for any responder, sending keeps the transcript as the two opening messages followed by question/answer pairs |
| Chat.SendPreservesWellFormed | src/components/ChatContainer.tsx:62-76 | sending keeps the campus transcript well formed |
| Chat.AnswerFollows | src/components/ChatContainer.tsx:65-73 | in an alternating transcript every question is directly followed by its answer |
| Chat.RepliesAreTableAnswers | src/components/ChatContainer.tsx:65-73 | every assistant message after the opening two is one of the table's answers, and follows its question |
| Contact.HandleInputChange | src/components/ContactModal.tsx:58-60 | the changed field takes the new value and the other four keep theirs |
| Contact.HandleSubmit | src/components/ContactModal.tsx:27-56 | rejected exactly when name, email, subject or message is empty; a rejection keeps the form and the dialog; an acceptance clears all five fields and asks to close |
| Contact.DepartmentNeverChecked | src/components/ContactModal.tsx:31 | the department never affects whether a submission is accepted |
| Contact.PresenceOnly | src/components/ContactModal.tsx:31 | `handleSubmit` itself tests emptiness only: blank-only values and an email without an at-sign pass its test |
| Contact.AcceptedResetsForm | src/components/ContactModal.tsx:46-53 | after an acceptance the form is empty, so submitting again straight away is rejected |
| Contact.RejectionIsStable | src/components/ContactModal.tsx:31-38 | resubmitting a rejected form is rejected again with the same outcome |
| Contact.FillingRequiredFieldsSuffices | src/components/ContactModal.tsx:31-60 | entering any non-empty name, email, subject and message makes the form acceptable |
| Contact.InputChangeLaws | src/components/ContactModal.tsx:58-60 | rewriting a field's own value changes nothing; of two writes to a field the later wins |
| Contact.InputChangesCommute | src/components/ContactModal.tsx:58-60 | writes to different fields can be made in either order |
| Faq.Toggle | src/components/FAQModal.tsx:48-50 | clicking the open question closes it; clicking any other opens exactly that one |
| Faq.Shown | src/components/FAQModal.tsx:74 | the shown answers are those whose index is the open one: at most one |
| Faq.NothingShownInitially | src/components/FAQModal.tsx:11 | no answer is shown at first |
| Faq.AtMostOneVisible | src/components/FAQModal.tsx:11-74 | two shown answers are the same answer |
| Faq.ToggleShows | src/components/FAQModal.tsx:49-74 | after a click the clicked answer is shown exactly when it was not, and no other is shown |
| Faq.ToggleTwice | src/components/FAQModal.tsx:49 | two clicks on one question restore the state exactly when nothing or that question was open |
| Faq.ClicksStayInRange | src/components/FAQModal.tsx:48-63 | clicks on the eight listed questions only ever open one of them |
| Faq.ReplayLast | src/components/FAQModal.tsx:48-50 | a run of clicks with one more at its end is the run followed by that click |
| Faq.RepeatedClicks | src/components/FAQModal.tsx:48-50 | clicking one question n times from the folded dialog leaves its answer open exactly when n is odd |
| Page.HandleActionClick | src/pages/Index.tsx:15-17 | the clicked action becomes the open dialog, replacing any other; the tab is kept |
| Page.CloseModal | src/pages/Index.tsx:19-21 | no dialog is open afterwards; the tab is kept |
| Page.SetActiveTab | src/pages/Index.tsx:12-31 | choosing a tab keeps the open dialog |
| Page.NothingOpenInitially | src/pages/Index.tsx:12-13 | no dialog is shown at first, and the first tab is "academics" |
| Page.AtMostOneOpen | src/pages/Index.tsx:46-61 | at most one of the four `isOpen` flags holds |
| Page.QuickActionOpensItsDialog | src/components/InfoPanel.tsx:121-125 | each quick-action id opens exactly the dialog of that name |
| Page.UnknownActionShowsNothing | src/pages/Index.tsx:46-61 | an action that names no dialog shows none |
| Page.CloseShutsAll | src/pages/Index.tsx:19-61 | closing shuts every dialog, and closing twice is closing once |
| Page.TabAndDialogIndependent | src/pages/Index.tsx:12-21 | tab changes and dialog changes commute |
| Page.SubmitContact | src/components/ContactModal.tsx:40-55 | an accepted request clears the form and closes the dialog; a rejected one leaves page and form unchanged |
| Page.AcceptedContactClosesDialog | src/components/ContactModal.tsx:47-55 | after an accepted request no dialog is shown and the tab is kept |

## Left out

- The map dialog: it consists of calls into a third-party map library and tile downloads.
- Rendering, styling, icons, scrolling to the newest message and toast pop-ups. The toasts are kept only as the `Contact.Notice` of a submission.
- Chat.Send: the one-second typing delay is collapsed. Question and answer are appended in one step. Two sends within a second, which the source allows, could interleave two questions before their answers; that case is not modelled.
- The sample-question buttons (`handleSampleQuestion`): they depend on timer and React closure timing. A sample question typed in is modelled like any other question.
- Chat.ToLower: lower-cases A–Z only, not the full Unicode case mapping of `toLowerCase`.
- Chat.LowerChar: maps A–Z to a–z and leaves every other character alone. `toLowerCase` also lowers non-ASCII capitals such as 'É'.
- Chat.ToLowerPointwise: the character-by-character, length-preserving statement holds for ASCII lowering only. `toLowerCase` can change the length, as 'İ' lowers to two characters.
- Local time zone, time of day and the range limits of JavaScript dates: dates are whole days of an unbounded proleptic Gregorian calendar.
- Contact.HandleSubmit: the browser's own form validation is not modelled. The name, email, subject and message inputs carry `required`, the email input has `type="email"`, and the form has no `noValidate`, so the browser stops an empty or malformed form before `handleSubmit` runs. The model describes `handleSubmit` alone. Its rejection branch and `Contact.PresenceOnly`'s accepted malformed email are therefore not reachable through the rendered page.
- Contact.HandleInputChange: takes one of the five form fields. The source's string field name could add an unrelated key, but every input passes one of the five names.
- Static content (panel cards, tab labels, FAQ texts, contact details, header). Only the tab ids, the quick-action ids and the number of FAQ entries are kept.
- CalendarGrid.NextMonthContinues: excludes December of the years 99 and -1. There the two-digit year rule puts the displayed December and the following January in different centuries, so the two grids need not line up.

## Findings

| source | as written | input that shows it | evidently intended | confidence | as-written member | corrected member |
|---|---|---|---|---|---|---|
| src/components/CalendarModal.tsx:57-63 | `setMonth(getMonth() ± 1)` keeps the day, so a day missing from the target month runs over into the month after | displayed date 31 January 2023, next: 3 March 2023 is shown and February is skipped; previous then gives 3 February | move exactly one month, clamping the day to the target month's length | high, not executed | CalendarNav.JanuaryThirtyFirstSkipsFebruary | CalendarNav.ClampedRoundTrip |
| src/components/ChatContainer.tsx:22-40 | the greeting keyword "hi" is matched as a substring and sits before every topic in the table | the sample question "How to apply for scholarships?" is answered "Hi there! What can I help you with?", because "scholarships" contains "hi" | topic keywords consulted before the greetings, so the question gets the scholarship answer | medium, not executed | Chat.ScholarshipQuestionGetsGreeting | Chat.ScholarshipQuestionGetsScholarshipAnswer |

The transcript lemmas are stated for any responder (`Chat.SendKeepsAlternation`),
so they hold for the reordered table as well as for the table as written. Month
navigation is modelled both ways; nothing else in the model depends on it.
