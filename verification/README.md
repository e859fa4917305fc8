# ClassMate-Bot timetable core in Dafny

ClassMate-Bot is a browser assistant for students. The user uploads a calendar
export, and the assistant answers spoken questions about the schedule. This
project models the two files that do the work:

- `src/utils/timetable.ts`: turns the calendar library's VEVENT records into
  timetable events, picks the next class (overall or on a named weekday),
  validates a timetable and formats an event for display.
- `src/utils/ai.ts`: `processQuestion`, which validates the timetable first,
  answers next-class questions from a fixed template and hands every other
  question to an external language model.

Both files only compute values, so the model is made of datatypes, functions
and lemmas. There are no classes or loops.

| file | module | models |
|---|---|---|
| `options.dfy` | `Options` | `Option`, standing in for `undefined` / `null` |
| `strings.dfy` | `Strings` | the JavaScript string behaviour the core relies on: `trim`, `toLowerCase`, `includes`, the regular-expression `.`, and integers written into template literals |
| `selection.dfy` | `Selection` | `Array.prototype.filter` and what it keeps: which positions, in which order |
| `timetable.dfy` | `Timetable` | `parseICSFile`, `getNextClass`, `getNextClassOnDay`, `validateTimetable` and `formatEventDetails` |
| `assistant.dfy` | `Assistant` | `processQuestion` |

Modelling choices:

- **Time.** An instant is an integer. Every `new Date()` becomes one `now`
  parameter. With a single `now`, validation and next-class selection agree,
  so the "couldn't find any upcoming classes" reply is provably unreachable.
- **Locale.** The English weekday name and the long date text of an instant
  are the two function fields of `Locale`. Nothing is assumed about them.
- **Calendar library.** The iCalendar library is represented by its output: a
  `LibraryResult` that is either a failure or the list of VEVENT records. A
  record whose start or end the library cannot resolve has `None` there.
  Reading that instant throws in the source, so `parseICSFile` returns `[]`.
- **Sorting.** `getNextClass` is modelled the way it is written: filter, sort
  by start, take the first element. The sort is a stable insertion sort,
  because `Array.prototype.sort` is stable. `SortedHeadIsFirstMin` and
  `EarliestOfSelection` prove that the head is the first event, in input
  order, among those with the earliest start.
- **Description fields.** `MatchesAt` models the expression
  `/Class Title: (.+?)(?:\n|$)/` exactly. A match at position `p` needs three
  things: the label occurs at `p`; at least one character that is not a line
  terminator follows it; and that run of characters ends at a `\n` or at the
  end of the text. A run that ends at `\r`, U+2028 or U+2029 fails at `p`, and
  the search moves on to later positions.
- **External answerer.** `processQuestion` is split in two. `Dispatch` covers
  everything up to the network call and returns `Local(text)`,
  `Delegate(prompt)` or `Apology`. `ProcessQuestion` then applies the
  answerer, given as a function from the prompt to `Answered(text)` or
  `Raised`. `JSON.parse` of the events text is an input: `None` means it
  threw.

Two consequences of the code that are easy to miss:

- `processQuestion` has no weekday branch (`src/utils/ai.ts:17-25`). It
  answers next-class questions with `getNextClass` alone, so
  `getNextClassOnDay` is modelled as a standalone function.
- `getNextClass` keeps every event whose end is after now
  (`src/utils/timetable.ts:47`). A class already under way still ends after
  now, so it is the next class if it has the earliest start: with A starting
  in one hour, B in three, and C started an hour ago and ending in half an
  hour, the next class is C (`NextClassExample`). Once C is over, the next
  class is A (`NextClassSkipsPastExample`).

## Model

| member | source | states |
|---|---|---|
| `Timetable.MatchesAt` | src/utils/timetable.ts:13-14 | where the expression matches; its meaning is stated by `MatchesAtIsRegexMatch` |
| `Timetable.Capture` | src/utils/timetable.ts:13-14 | the group's text: the characters of the description right after the label, on one line; at a match it is non-empty, followed by a `\n` or the end of the text, and ends where the lazy group can end (`CaptureEndsAt`) |
| `Timetable.MatchesAtIsRegexMatch` | src/utils/timetable.ts:13-14 | the lazy capture group, followed by a `\n` or the end of the text, can end at `j` exactly when `MatchesAt` holds and `j` is the first line terminator after the label |
| `Timetable.FirstMatch` | src/utils/timetable.ts:13-14 | the leftmost position where the expression matches, or none when it matches nowhere |
| `Timetable.Extract` | src/utils/timetable.ts:13-14 | undefined exactly when the expression matches nowhere in the description; otherwise a trimmed value with no line terminator |
| `Timetable.ExtractIsLeftmostMatch` | src/utils/timetable.ts:13-14 | the extracted value is the trimmed capture of the leftmost match |
| `Timetable.ExtractLine` | src/utils/timetable.ts:13-14 | a label followed by a clean value and then a `\n` or the end of the text is read back as that value, if the label does not occur earlier |
| `Timetable.ExtractExampleClassTitle` | src/utils/timetable.ts:13 | `"Class Title: CS101\nInstructor: Dr. Lee\n"` gives class title `CS101` |
| `Timetable.ExtractExampleInstructor` | src/utils/timetable.ts:14 | the same description gives instructor `Dr. Lee` |
| `Strings.Trim` | src/utils/timetable.ts:13 | `trim`: the result has no white space at either end and is the input with only white space removed around it |
| `Strings.IntToStringRoundTrip` | src/utils/timetable.ts:18 | the decimal text written into the duration token reads back as the same integer |
| `Timetable.TokenReadsBack` | src/utils/timetable.ts:18 | `PT<h>H<m>M` reads back as the hours `h` and minutes `m` |
| `Timetable.DurationToken` | src/utils/timetable.ts:17-19 | the duration token; what it denotes is stated by `TokenReadsBack` and `DurationTokenRoundTrip` |
| `Timetable.DurationTokenRoundTrip` | src/utils/timetable.ts:17-19 | the token denotes the library duration's floored hours and its minutes; without a duration it is `PT1H`, which denotes one hour |
| `Timetable.Normalize` | src/utils/timetable.ts:8-33 | a record can be read exactly when its start and end exist; its status and duration are never empty |
| `Timetable.NormalizeDefaults` | src/utils/timetable.ts:10-31 | summary, location, start, end and recurrence rule are copied from the record; status is the record's or `CONFIRMED`, description the record's or `""` (the or-else defaults); the duration token denotes the floored hours and the minutes, or one hour; class title and instructor are exactly what `Extract` reads from the description, so undefined exactly when their expression matches nowhere, otherwise trimmed and on one line |
| `Timetable.NormalizeAll` | src/utils/timetable.ts:8-33 | the mapping succeeds exactly when every record can be read, and then it gives each record's event at the same position |
| `Selection.Filter` | src/utils/timetable.ts:37 | `filter`: an element is kept exactly when it is in the input and passes the test |
| `Selection.FilterIsStableSelection` | src/utils/timetable.ts:37 | `filter` keeps exactly the positions that pass the test, in increasing order |
| `Timetable.ParseIcs` | src/utils/timetable.ts:35-37 | every event `parseICSFile` returns ends strictly after now |
| `Timetable.ParseIcsSpec` | src/utils/timetable.ts:4-42 | `[]` when the library fails or a record cannot be read; otherwise exactly the readable events that end after now, in input order |
| `Timetable.InsertByStart` | src/utils/timetable.ts:48 | inserting into a start-sorted list keeps it sorted and adds exactly one element |
| `Timetable.SortByStart` | src/utils/timetable.ts:48 | the sort by start returns a start-sorted permutation of its input |
| `Timetable.FirstMinIndex` | src/utils/timetable.ts:46-50 | the index of an earliest start, with every earlier index starting strictly later |
| `Timetable.SortedHeadIsFirstMin` | src/utils/timetable.ts:48-50 | the head of the stable sort is the first event, in input order, among those with the earliest start |
| `Timetable.EarliestOfSelection` | src/utils/timetable.ts:46-50 | sorting a stable selection and taking the head gives null exactly when nothing passes; otherwise the earliest passing event, first in input order among ties |
| `Timetable.NextClass` | src/utils/timetable.ts:44-51 | `getNextClass` is null exactly when no event ends after now; otherwise an input event that ends after now and starts no later than any other such event (`NextClassSpec` adds the input-order tie-break) |
| `Timetable.NextClassSpec` | src/utils/timetable.ts:44-51 | `getNextClass` is null exactly when no event ends after now; otherwise it is the event ending after now with the earliest start, first in input order among ties |
| `Timetable.NextClassOnDay` | src/utils/timetable.ts:53-69 | when it exists, `getNextClassOnDay` gives an input event that ends after now, starts on the lower-cased weekday and starts no later than any other such event (`NextClassOnDayNone` and `NextClassOnDayEarliest` complete it) |
| `Selection.SelectionCompose` | src/utils/timetable.ts:58-65 | filtering by one test and then another selects, stably, what both tests together select |
| `Timetable.OnDaySelection` | src/utils/timetable.ts:58-65 | the events `getNextClassOnDay` sorts are, in input order, the events that end after now and start on the named weekday |
| `Timetable.NextClassOnDayNone` | src/utils/timetable.ts:53-69 | `getNextClassOnDay` is null exactly when no event both ends after now and starts on the named weekday, compared in lower case |
| `Timetable.NextClassOnDayEarliest` | src/utils/timetable.ts:53-69 | otherwise it is the earliest-starting such event, first in input order among ties |
| `Timetable.NextClassNoLaterThanOnDay` | src/utils/timetable.ts:44-69 | when both exist, `getNextClass` starts no later than `getNextClassOnDay` |
| `Timetable.NextClassExample` | src/utils/timetable.ts:44-51 | a class that started an hour ago and ends in half an hour comes before classes starting in one and three hours |
| `Timetable.NextClassSkipsPastExample` | src/utils/timetable.ts:44-51 | once that class is over, the class starting in one hour is next |
| `Timetable.ValidateTimetable` | src/utils/timetable.ts:95-112 | the only messages `validateTimetable` can give are the empty-timetable and the past-events messages (`ValidateTimetableSpec` says when) |
| `Timetable.ValidateTimetableSpec` | src/utils/timetable.ts:95-112 | the "No events found" message exactly for an empty list; the "only past events" message exactly when events exist but none ends after now; null exactly when one does |
| `Timetable.ParsedTimetableValidates` | src/utils/timetable.ts:104-110 | validating what `parseICSFile` returned, at the same instant, never reports only past events |
| `Timetable.FormatEventDetails` | src/utils/timetable.ts:82-93 | `formatEventDetails`; its layout is stated by `FormatEventDetailsShape` |
| `Timetable.FormatEventDetailsShape` | src/utils/timetable.ts:82-93 | the details open with `summary at location on date`; the class line follows it when the class title is non-empty; the text ends with the instructor line when the instructor is non-empty; the length is the base line's plus exactly those lines, so nothing else appears, and with neither line the base line is everything |
| `Timetable.DetailsShowClassTitle` | src/utils/timetable.ts:85-87 | a clean, non-empty class title is read back from the details' `Class: ` line |
| `Timetable.DetailsShowInstructor` | src/utils/timetable.ts:88-90 | a clean, non-empty instructor is read back from the details' `Instructor: ` line |
| `Strings.Lower` | src/utils/ai.ts:19 | `toLowerCase`, on ASCII letters: same length, each character lowered, no upper-case ASCII letter left |
| `Strings.Contains` | src/utils/ai.ts:19 | `includes`: true exactly when the phrase occurs at some position |
| `Assistant.AnyKeywordIn` | src/utils/ai.ts:18-19 | `some(... includes ...)`: true exactly when some keyword occurs in the text |
| `Assistant.AsksForNextClassSpec` | src/utils/ai.ts:18-19 | the next-class branch fires exactly when the lower-cased question contains `next class`, `next lecture`, `upcoming class` or `upcoming lecture` |
| `Assistant.ValidationShortCircuits` | src/utils/ai.ts:11-15 | a validation message is the whole answer: no keyword matching and no delegation, whatever the answerer |
| `Assistant.KeywordDispatch` | src/utils/ai.ts:17-40 | once validation passes, a next-class question gets the template around `getNextClass`, which then exists; any other question is delegated with the prompt |
| `Assistant.NextClassAnswer` | src/utils/ai.ts:24 | the next-class reply template; `KeywordDispatch` states when it is given |
| `Assistant.NoUpcomingIsUnreachable` | src/utils/ai.ts:20-23 | the "couldn't find any upcoming classes" reply is never produced |
| `Assistant.Prompt` | src/utils/ai.ts:31-40 | the prompt template; its pieces are stated by `PromptQuotesVerbatim` |
| `Assistant.PromptQuotesVerbatim` | src/utils/ai.ts:31-40 | the prompt is the fixed preamble, the events' JSON text, the fixed middle, the question and the fixed postamble, each recoverable by position |
| `Assistant.Dispatch` | src/utils/ai.ts:7-40 | `processQuestion` up to the external call: the apology exactly when the events' JSON cannot be parsed; delegation exactly for a usable timetable and a question that is not about the next class; a local answer is never empty |
| `Assistant.ProcessQuestion` | src/utils/ai.ts:7-51 | `processQuestion` never answers with an empty string |
| `Assistant.DelegatedReply` | src/utils/ai.ts:42-46 | a non-empty reply is returned unchanged; an empty one becomes the "couldn't find an answer" apology; a raised error becomes the failure apology |
| `Assistant.UnreadableEventsApologise` | src/utils/ai.ts:47-50 | when the events' JSON cannot be parsed, the answer is exactly the failure apology, whatever the answerer |

## Left out

- iCalendar parsing internals (`ICAL.parse`, `ICAL.Component`, `ICAL.Event`): the model starts from the library's VEVENT records or its failure. How the library resolves start and end instants and time zones is not modelled.
- The recurrence rule is the library's `ICAL.Recur` value in the source. The model keeps it as opaque optional text. Like the source, it never expands it.
- Only the hours and minutes of the library's duration object are read by the source, so its weeks, days and seconds take no part in the token. An event of 25 hours gets `PT1H0M` in the source and in the model alike.
- Integers written into the token are modelled as plain decimal text. JavaScript's exponent notation for numbers of 10^21 and above is not modelled. Minutes are whole numbers.
- A missing SUMMARY or LOCATION: the library gives `null` for it and the source keeps that value. The model types summary and location as strings and does not represent a missing one.
- `new Date()` clock reads: replaced by one `now` parameter. The source reads the clock several times, so an event can pass validation and then miss the next-class filter a moment later. That race is not modelled.
- `toLocaleDateString` / `toLocaleString` (`formatEventDate`): the `Locale` function fields stand in for them.
- Strings.Lower: lowers only the ASCII letters. JavaScript's `toLowerCase` also maps other Unicode letters, some into several characters. Characters are Unicode scalar values here, while JavaScript strings are UTF-16 code units.
- The Gemini client, the network call and its awaiting: replaced by the `answerer` function. Timeouts and retries do not exist in the source either.
- The JSON round trip of events: `src/App.tsx` passes `JSON.stringify(events)` to `processQuestion`, so after `JSON.parse` every `startDate` is an ISO date string. With two or more future events the sort's `getTime()` call throws, and the answer is the failure apology. With exactly one future event the comparator never runs and the answer is produced, but `formatEventDate` then receives a string, whose `toLocaleString` ignores the options and gives the ISO text itself. The model selects over real instants and formats with `locale.format`, so it encodes neither divergence.
- `console.log` / `console.error` calls: no effect on results.
- `src/utils/speech.ts`: a wrapper over the browser's speech recognition and synthesis.
- `src/App.tsx`: React state, session storage, file reading and rendering.
- `src/types.ts`: declarations only. `TimetableEvent` gives the shape of `Timetable.Event`.
