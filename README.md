# Sighting timestamp normaliser, modelled in Dafny

The sightings web app lets a user edit a stored sighting in a form. When the form opens, the
sighting's free-text `timeStamp` is turned into the value of the date field,
`YYYY-MM-DDTHH:MM`. The model takes that field to be a `datetime-local` input (see
"## Left out"). The function `tryParse` in `public/index.js` reads the timestamp in
three ways and takes the first one that works:

1. the browser's own `new Date(input)`;
2. a long form such as `21 December 2025, 14:00` or `7 Jan 2025 at 10:00`, whose month word
   is resolved through a table of names and abbreviations;
3. a day-first numeric form such as `21/12/2025, 14:00` or `5-3-25 09:30`, in which a
   two-digit year means 20xx.

The date it gets is written out with two-digit padding. When nothing can be read, the field
is left empty. When the form is submitted, the handler refuses it first if a text field is
empty and then if the date field is empty.

The project models this as pure functions with proofs.

- `Text` covers `parseInt`, `String(n)`, `padStart` and `toLowerCase` on the characters
  involved.
- `Calendar` covers the part of JavaScript's `Date` that is used: the five-argument
  constructor with its roll-over of out-of-range fields, built from the ECMA-262 abstract
  operations MakeDay, MakeDate, MakeFullYear and TimeClip, counted in minutes.
- `MonthNames` covers the month table.
- `Patterns` covers the two regular expressions.
  - A deterministic scanner per start position is proved sound and complete against a
    declarative reading of each expression.
  - The `match` call is the search for the leftmost start. It is proved to return exactly
    the leftmost match, or nothing when there is none.
- `Normalizer` covers `tryParse`, the formatting step and the date field. The string the
  code assigns to the field passes through the (assumed) `datetime-local` input's value
  sanitization algorithm, which the HTML standard defines for the input's Local Date and
  Time state. That keeps a valid local date and time string (section 2.3.5.5) and empties
  anything else. The model reads such strings only in the form the formatter writes: `YYYY-MM-DDTHH:MM`, with four or more
  year digits, a year of at least 1 and a day that exists in its month.
- `EditForm` covers the submit-time checks.
- `Examples` works through concrete inputs.

The browser's own parser depends on the engine and the time zone. It is not modelled. It is
a parameter, `native: string -> JsDate`. Most properties hold for any choice of it. The
exceptions say so in their `requires`:

- `Normalizer.NormalizeIdempotent` needs an engine that reads `YYYY-MM-DDTHH:MM` strings as
  local time (`ReadsLocalInput`).
- The lemmas that follow `tryParse` past the engine's own attempt state the engine's
  answer in their `requires`: Invalid Date for the expression fallbacks and every
  `Examples` lemma about `tryParse`, a date for `Normalizer.NativeFirst`.

Behaviour the code has that a reader of the comments might not expect:

- **Day-first only as a fallback.** The numeric expression is tried only after the
  engine's own parser has refused the string (`Normalizer.NativeFirst`). An engine that
  reads `03/04/2025 10:00` month first decides that string before the day-first reading is
  ever tried.
- **A stored field value passes through.** A timestamp already in the form
  `YYYY-MM-DDTHH:MM`, with a year of 1000 or later, comes back unchanged when the engine
  reads that form as local time (`Normalizer.NormalizePassesThrough`,
  `Examples.FieldFormExample`).
- **Out-of-range dates roll over.** Nothing checks the numeric fields against the calendar:
  `31/02/2025, 10:00` becomes 3 March 2025, 10:00 (`Examples.RolledOverExample`).
  A numeric date that matches is never refused (`Normalizer.NumericStrategy`,
  `Normalizer.NumericRollsOver`).
- **Numeric years may have three digits.** The numeric expression takes a year of two to
  four digits. A three-digit year of 100 or more is used as it stands
  (`Examples.ThreeDigitYearExample`). The groups `000`–`099` and `0000`–`0099` have a value
  below 100, so they become 2000–2099 like two-digit years (`Normalizer.NumericCenturyYear`).
- **Years below 1000 do not reach the field.** `String(year)` writes such a year with fewer
  than four digits, or with a leading `-`, which is not a valid local date and time string. The input empties the
  value, and submitting the form unchanged asks for a date
  (`Normalizer.FieldValueOfFormat`, `EditForm.UnreadableTimestampAsksForDate`).
- **Two different year windows.** A numeric year below 100 becomes 2000 + year
  (`Normalizer.NumericCenturyYear`). A long-form year must have four digits, but if it is
  `0000`–`0099` the Date constructor reads it as 1900 + year
  (`Normalizer.LongFormCenturyYear`).
- **No retry after an unknown month.** When the long form matches but its month word does
  not resolve, later positions are not tried for another long-form match; the numeric form
  is tried instead (`Normalizer.UnknownMonthFallsThrough`).

## Model

| member | source | states |
|---|---|---|
| Text.DecimalValue | public/index.js:98-102 | `parseInt(s, 10)` of a digit string is below 10^len(s) |
| Text.NatToString | public/index.js:132 | `String(n)` of a natural number is a non-empty string of digits with no leading zero, one character exactly when n < 10, two when 10 <= n < 100 |
| Text.NatToStringValue | public/index.js:132 | reading `String(n)` back with `parseInt` gives n |
| Text.NatToStringOfDecimal | public/index.js:132 | `String(parseInt(s))` is s for any digit string without a superfluous leading zero |
| Text.NatToStringSize | public/index.js:132 | `String(n)` has exactly k characters when 10^(k-1) <= n < 10^k |
| Text.IntToString | public/index.js:132 | `String(n)` is non-empty, all digits for n >= 0, and starts with `-` for n < 0 |
| Text.PadStart | public/index.js:131 | `padStart(len, fill)` yields length max(len, len(s)), ends with s and is fill before it |
| Text.Pad | public/index.js:131 | `pad(n)` is two digits for every n in 0..99 and is `String(n)` unchanged once that has two or more characters |
| Text.PadIsPadStart | public/index.js:131 | `pad(n)` equals `String(n).padStart(2, '0')` for every integer n |
| Text.PadTwoDigits | public/index.js:131 | for n in 0..99, `pad(n)` is two digits whose value is n |
| Text.FullYearText | public/index.js:132 | a year from 1000 on is written as four or more digits whose value is the year, exactly four up to 9999 |
| Text.ShortYearText | public/index.js:132 | a year below 1000 is written with at most three characters, or starts with `-` |
| Text.LowerChar | public/index.js:99 | `toLowerCase` on the ASCII letters `[A-Za-z]+` can capture: the capital 'A' + k becomes 'a' + k, and a lower-case letter stays as it is |
| Text.IsSpace | public/index.js:96 | `\s` is the WhiteSpace and LineTerminator code points of ECMA-262 |
| Text.Lower | public/index.js:99 | `toLowerCase` keeps the length and lowers each character |
| Calendar.DaysInMonth | public/index.js:111 | month lengths lie in 28..31, and a month has 29 days exactly when it is February of a leap year |
| Calendar.YearLength | public/index.js:111 | the ECMA-262 DayFromYear formula advances by the length of each year |
| Calendar.NextMonthStart | public/index.js:122 | the first day of the next month follows the last day of the month |
| Calendar.RollDays | public/index.js:122 | an out-of-range day of month rolls into a valid (year, month, day) with the same day number |
| Calendar.Fields | public/index.js:122 | the getters report valid fields whose time value is MakeDate of the constructor's arguments |
| Calendar.NewDate | public/index.js:111 | `new Date(y, m, d, h, mi)` is Invalid Date exactly when TimeClip fails, and otherwise has the time value MakeDate(MakeDay(MakeFullYear(y), m, d), h:mi) |
| Calendar.DayNumberBounds | public/index.js:132 | a valid date's day number lies within its year |
| Calendar.DayNumberUnique | public/index.js:132 | two valid dates with the same day number have the same year, month and day |
| Calendar.DecompositionUnique | public/index.js:132 | two valid field sets with the same time value are equal, so the getters are determined by the time value |
| Calendar.NewDateInRange | public/index.js:111 | fields that are already in range come back unchanged from the constructor |
| Calendar.NewDateNeverInvalid | public/index.js:122 | the constructor never yields Invalid Date for fields the two expressions can capture |
| MonthNames.Lookup | public/index.js:103-108 | looking up `monthsMap[key]` finds something exactly when the key is in the table |
| MonthNames.MonthIndex | public/index.js:99-111 | the month word is lower-cased, its first three letters are looked up, then the whole word; an index is used only when it is defined and >= 0 |
| MonthNames.MonthIndexByPrefix | public/index.js:109-111 | a month word resolves to i exactly when it has at least three letters whose lower case is the i-th abbreviation; the whole-word fallback never adds anything |
| MonthNames.ShortKeysAbsent | public/index.js:103-108 | no key of the table is shorter than three letters |
| MonthNames.PrefixOfKey | public/index.js:103-108 | every key's first three letters spell the abbreviation of its month index, which lies in 0..11 |
| MonthNames.AbbreviationsInTable | public/index.js:103-108 | each of the twelve abbreviations is a key mapped to its calendar position |
| MonthNames.EveryKeyResolves | public/index.js:103-111 | every key of the table, used as a month word, resolves to its own entry (`sep`, `sept`, `september` give 8, `may` gives 4) |
| MonthNames.CaseInsensitivePrefix | public/index.js:99 | two words that agree on their first three letters up to case resolve alike |
| Patterns.Skip | public/index.js:96 | `\s+` and similar runs are read greedily: all of s[i..j] is in the class and s[j] is not |
| Patterns.Digits | public/index.js:96 | `\d{1,max}` is read greedily up to max digits |
| Patterns.ScanClock | public/index.js:96 | the clock reader only returns a position where `(\d{1,2}):(\d{2})` matches |
| Patterns.ScanClockComplete | public/index.js:96 | wherever `(\d{1,2}):(\d{2})` matches, the clock reader finds that match |
| Patterns.Number | public/index.js:98-102 | `parseInt` of a captured digit run is below 10^length |
| Patterns.FirstHit | public/index.js:96 | the start search returns only a start at which the expression matches |
| Patterns.FirstHitLeast | public/index.js:96 | the start search finds a start no later than any start at which the expression matches |
| Patterns.ScanLongDate | public/index.js:96 | the day/month-word/year reader only returns groups that match `(\d{1,2})\s+([A-Za-z]+)\s+(\d{4})` |
| Patterns.ScanLongDateComplete | public/index.js:96 | any such match at a start is the one the reader returns |
| Patterns.ScanSeparator | public/index.js:96 | the separator reader returns a reading of the optional comma or `at` and the blanks before the hour |
| Patterns.ScanSeparatorComplete | public/index.js:96 | every reading of the separator that reaches a digit is the reader's |
| Patterns.LongFormMatches | public/index.js:96 | the long-form expression read as a language: day, blanks, month word, blanks, four-digit year, the optional comma or `at`, blanks, clock |
| Patterns.LongFormAt | public/index.js:96 | the long-form reader at a start returns only a full match starting there |
| Patterns.LongFormAtComplete | public/index.js:96 | any long-form match is what the reader returns at its start, so matches are unique per start |
| Patterns.MatchLongForm | public/index.js:96 | `input.match` with the long form returns only real matches |
| Patterns.MatchLongFormFirst | public/index.js:96 | it returns a match whenever one exists, starting no later than it |
| Patterns.LongFormShape | public/index.js:96 | a long-form match starts with a digit and its month word starts with a letter |
| Patterns.MatchLongFormSpec | public/index.js:96 | `input.match` returns m exactly when m matches and no match starts earlier; it returns null exactly when nothing matches |
| Patterns.LongCaptures | public/index.js:98-102 | the groups give day < 100, year < 10000, hour < 100, minute < 100, and the month word is the matched letters |
| Patterns.ScanNumericDate | public/index.js:115 | the numeric date reader only returns groups that match `(\d{1,2})[\/\-](\d{1,2})[\/\-](\d{2,4})` |
| Patterns.ScanNumericDateComplete | public/index.js:115 | any such match whose year is not followed by a digit is the reader's |
| Patterns.NumericMatches | public/index.js:115 | the numeric expression read as a language: day, `/` or `-`, month, `/` or `-`, year of two to four digits, a run of commas and spaces, clock |
| Patterns.NumericAt | public/index.js:115 | the numeric reader at a start returns only a full match starting there |
| Patterns.NumericAtComplete | public/index.js:115 | any numeric match is what the reader returns at its start |
| Patterns.MatchNumeric | public/index.js:115 | `input.match` with the numeric expression returns only real matches |
| Patterns.MatchNumericFirst | public/index.js:115 | it returns a match whenever one exists, starting no later than it |
| Patterns.NumericShape | public/index.js:115 | a numeric match starts with a digit |
| Patterns.MatchNumericSpec | public/index.js:115 | `input.match` returns m exactly when m matches and no match starts earlier; it returns null exactly when nothing matches |
| Patterns.NumericCaptures | public/index.js:117-121 | the groups give day, month, hour and minute < 100 and year < 10000 |
| Patterns.NoDigitNoMatch | public/index.js:96-97 | a string without a digit matches neither expression |
| Patterns.NoLetterNoLongForm | public/index.js:96-97 | a string without an ASCII letter does not match the long form |
| Normalizer.NativeStrategy | public/index.js:92-93 | the engine's reading is kept exactly when it is not Invalid Date |
| Normalizer.LongFormStrategy | public/index.js:96-112 | the long form yields a date exactly when the expression matches and its month word resolves, and that date is never Invalid Date |
| Normalizer.NumericYear | public/index.js:122 | a numeric year below 100 becomes 2000 + year; other years stay as they are |
| Normalizer.NumericStrategy | public/index.js:115-123 | the numeric form yields a date exactly when the expression matches, and that date is never Invalid Date |
| Normalizer.TryParse | public/index.js:89-126 | empty input gives null; a result is always a valid date; the result is null exactly when the engine, the long form and the numeric expression all fail |
| Normalizer.Normalize | public/index.js:84-137 | the value assigned to the field, `iso`, is non-empty exactly when there is a timestamp and it can be read, and then it is that date written as `YYYY-MM-DDTHH:MM` |
| Normalizer.Format | public/index.js:130-132 | the written date is 12 characters longer than `String(year)` |
| Normalizer.ParseLocalInput | public/index.js:137 | a string read as a local date and time has the layout `Y-MM-DDTHH:MM` with four or more year digits, and its year is at least 1 |
| Normalizer.FieldValue | public/index.js:137 | the input holds the assigned value or the empty string |
| Normalizer.ReadLayout | public/index.js:132 | a string laid out from five digit strings reads back as their values (month minus one), when those form a valid date with a year of at least 1 |
| Normalizer.FormatRoundTrip | public/index.js:130-132 | from year 1000 on the output reads back as exactly the same date; up to 9999 it has 16 characters |
| Normalizer.ShortYearUnreadable | public/index.js:130-132 | for a year below 1000 the output is not a valid local date and time string |
| Normalizer.FieldValueOfFormat | public/index.js:130-137 | the input keeps the written date exactly when its year is 1000 or later, and otherwise holds "" |
| Normalizer.DateFieldShown | public/index.js:84-137 | once the form has opened, the date field is non-empty exactly when the timestamp is read with a year of 1000 or later, and then it shows that date written out |
| Normalizer.NativeFirst | public/index.js:92-93 | when the engine reads the input, its date is the result and the patterns are not consulted |
| Normalizer.PatternsIgnoreNative | public/index.js:92-125 | once the engine fails, the result no longer depends on the engine |
| Normalizer.LongFormBeforeNumeric | public/index.js:96-111 | when the engine fails and the long form yields a date, that date is the result |
| Normalizer.UnknownMonthFallsThrough | public/index.js:109-116 | a long-form match with an unresolved month falls through to the numeric form |
| Normalizer.NothingReadable | public/index.js:125 | when the engine fails and neither expression matches anywhere, the result is null |
| Normalizer.ReachesNumeric | public/index.js:115-125 | once the engine and the long form decline, the numeric form decides |
| Normalizer.LongFormFromMatch | public/index.js:96-111 | the long form's result is `new Date(year, month, day, hour, minute)` built from the leftmost match's groups, or nothing when the month does not resolve |
| Normalizer.NumericFromMatch | public/index.js:115-122 | the numeric result is `new Date(year < 100 ? 2000 + year : year, month - 1, day, hour, minute)` from the leftmost match, day first |
| Normalizer.LongFormInRange | public/index.js:96-111 | with in-range long-form fields, the result is exactly those fields with the month given by the word's first three letters |
| Normalizer.NumericInRange | public/index.js:115-122 | with in-range numeric fields, the result is exactly day, month - 1, the 20xx-adjusted year, hour and minute |
| Normalizer.LongFormCenturyYear | public/index.js:96-111 | a long-form year group 0000..0099 with in-range fields gives `getFullYear()` = 1900 + year |
| Normalizer.NumericCenturyYear | public/index.js:115-122 | a numeric year below 100 with in-range fields gives `getFullYear()` = 2000 + year |
| Normalizer.NumericRollsOver | public/index.js:115-122 | any numeric match yields a date, never a refusal, whose time value is that of the raw fields (roll-over) |
| Normalizer.NormalizedReadsBack | public/index.js:128-137 | from year 1000 on, the value written into the field is kept by the input and reads back as the parsed date |
| Normalizer.ParsedFields | public/index.js:137 | a string the input reads is its five digit fields joined by the separators, and the date it is read as holds their values, the month one below the written one |
| Normalizer.LeadingZeroYear | public/index.js:130-137 | in a 16-character field value the year field starts with `0` exactly when the year is below 1000 |
| Normalizer.ParseThenFormat | public/index.js:130-137 | the reverse round trip: a string the input reads is written back unchanged exactly when its year field has no leading zero; in 16 characters, exactly when the year is 1000 or later |
| Normalizer.NormalizePassesThrough | public/index.js:84-137 | a timestamp stored in the field's 16-character form is normalised to itself, and kept by the field, exactly when its year is 1000 or later, for an engine that reads that form as local time |
| Normalizer.NormalizeIdempotent | public/index.js:84-137 | for a parsed year in 1000..9999, normalising the value again gives the same value, when the engine reads `YYYY-MM-DDTHH:MM` strings as local time |
| Examples.DayFirstExample | public/index.js:115-132 | `21/12/2025, 14:00` gives 21 December 2025, 14:00, written `2025-12-21T14:00` |
| Examples.DayFirstText | public/index.js:130-132 | 21 December 2025, 14:00 is written `2025-12-21T14:00` |
| Examples.RolledOverExample | public/index.js:115-132 | `31/02/2025, 10:00` gives 3 March 2025, 10:00, written `2025-03-03T10:00` |
| Examples.MarchThird | public/index.js:122 | the time value of 31 February 2025, 10:00 belongs to 3 March 2025, 10:00 |
| Examples.RolledOverText | public/index.js:130-132 | 3 March 2025, 10:00 is written `2025-03-03T10:00` |
| Examples.ShortYearExample | public/index.js:115-122 | `5-3-25 09:30` gives 5 March 2025, 09:30 |
| Examples.LongFormExample | public/index.js:96-132 | `7 Jan 2025 at 10:00` gives 7 January 2025, 10:00, written `2025-01-07T10:00` |
| Examples.LongFormText | public/index.js:130-132 | 7 January 2025, 10:00 is written `2025-01-07T10:00` |
| Examples.FullMonthExample | public/index.js:96-132 | `21 December 2025, 14:00` gives 21 December 2025, 14:00, written `2025-12-21T14:00` |
| Examples.ThreeDigitYearExample | public/index.js:115-137 | `21/12/202, 14:00` gives 21 December 202, 14:00, and the date field stays empty |
| Examples.FieldFormExample | public/index.js:84-137 | `2025-12-21T14:00` is read as 21 December 2025, 14:00 and comes back unchanged, in the value and in the field, for an engine that reads that form as local time |
| Examples.ProseExample | public/index.js:90-137 | `not a date` matches neither expression, and the field stays empty |
| EditForm.CheckSubmission | public/index.js:179-191 | "Please complete all fields!" exactly when location, text or title is empty; "Please select a date and time!" exactly when those are filled and the date is empty; otherwise the four values go on unchanged |
| EditForm.FieldsCheckedFirst | public/index.js:179-183 | an empty text field is reported whatever the date field holds |
| EditForm.UnreadableTimestampAsksForDate | public/index.js:84-191 | a missing or unreadable timestamp, or one read with a year below 1000, leaves the field empty, so an unchanged form with its text fields filled is refused for its date |
| EditForm.ReadableTimestampIsSent | public/index.js:84-191 | a timestamp read with a year of 1000 or later passes both checks; the value passed on to the send step is the written date and reads back as the parsed date |

## Left out

- The browser's `new Date(input)` string parser (public/index.js:92) is engine- and
  zone-dependent, so it is the parameter `native`. Strategy 1 is modelled only as "use its
  result if it is not Invalid Date".
- Calendar.NewDate: local time is taken to coincide with UTC; the zone offset and
  daylight-saving gaps and overlaps are not modelled. Seconds and milliseconds are always
  zero and are not represented.
- Normalizer.NormalizeIdempotent: it is stated only for parsed years 1000..9999. It holds
  only for an engine that reads every `YYYY-MM-DDTHH:MM` string as that local date and time
  (the predicate `ReadsLocalInput`). Browsers do this, but the model does not derive it.
- The date field's type is an assumption. public/index.js never states it, and the page's
  markup is not part of this model. It is inferred from the `YYYY-MM-DDTHH:MM` value the
  code writes into the field. Normalizer.FieldValue, Normalizer.DateField and everything
  stated about the field's contents rest on it.
- Normalizer.ParseLocalInput: it reads only the layout the formatter writes. The HTML
  standard also accepts a space instead of `T`, and seconds with an optional fraction.
  The model empties such strings where the input would keep them normalised. No value
  assigned by this code takes those forms.
- Normalizer.FieldValue: a valid value is kept as assigned. The input's normalisation
  (shortest time form, `T` separator) is not modelled, because the formatter's output is
  already in that form. Any `min`, `max` or `step` attribute on the input is not
  modelled either.
- Text.IntToString: for a negative year, only the leading `-` is stated, not the digits
  after it. Negative years reach the formatter only through the engine's own parser.
- Strings are sequences of Unicode scalar values, while JavaScript strings are UTF-16 code
  units. Both expressions match only BMP characters, so only the positions of characters
  outside the BMP differ, and those positions are not observable in the result.
- Month-table lookups through the object prototype are not modelled. A lower-case
  letters-only word can reach an inherited property only as `constructor`, whose value
  fails `monthIndex >= 0`. That gives the same outcome as a missing key.
- `sighting.timeStamp` values that are not strings are not modelled. The model's input is a
  string, or nothing for a missing or empty value.
- The DOM is not modelled: the `if (datetime)` and `if (title)` guards, `.value`
  assignments, focus, `console.log`/`console.warn` and the message element.
- Everything after the two submit checks is not modelled: `new Date(isoDateString)`,
  `toISOString`, `fetch`, reloading the list.
- The rest of the repository is UI, network or server plumbing and is not part of this
  model: card rendering, the expand/collapse toggle, `closeEditForm`, the Express server,
  routes, SQL controllers and the news event stream.
