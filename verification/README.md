# Repeated tasks: a Dafny model of `handleRepeatedTask`

The Obsidian plugin watches notes' front-matter. When a note describes a
task (`kind: task`) that has just been ticked done (`task.done`) and that
repeats (`task.repeat`), the handler resets the task to not done and moves
`task.scheduled` one day or one week on. Only the phrases `every day` and
`every week` are understood; any other repeat value produces the notice
`Unsupported repeat value: <value>` and nothing is written. The next date is
counted from `task.scheduled` when that field is present, otherwise from
today, and it is written back as `YYYY-MM-DD`.

This project models that handler as a pure function of the front-matter and
today's date, and replaces the moment.js date library with an explicit
proleptic Gregorian calendar (the `full-date` of section 5.6 of RFC 3339,
with the month lengths and leap-year rule of section 5.7).

Modules, one per concern:

- `Wrappers` (`wrappers.dfy`): `Option`, which stands for JavaScript's
  `undefined` and for a failed parse.
- `Decimal` (`decimal.dfy`): decimal digit strings, zero-filling, reading
  digits back.
- `Calendar` (`calendar.dfy`): `Date`, `IsLeap`, `DaysInMonth`, day numbers
  counted from 0000-01-01, `NextDay`, `AddDays` and their laws.
- `DateFormat` (`date_format.dfy`): `Format` (moment's `YYYY-MM-DD`) and the
  strict `Parse`, with both round trips.
- `Frontmatter` (`frontmatter.dfy`): front-matter values, missing keys,
  JavaScript truthiness and `String(v)` as a template literal applies it.
- `RepeatedTask` (`repeated_task.dfy`): the eligibility guard, the repeat
  vocabulary, the anchor choice, the outcome of one run, the patch, and the
  repeated-completion ("no drift") property.

The outcome of one run is one of `NoOp` (return silently), `Unsupported(message)`
(show the notice, write nothing), `Mutate(done, scheduled)` (the two-field
patch handed to `processFrontMatter`), or `BadAnchor`. `BadAnchor` covers an
anchor text the strict `YYYY-MM-DD` parse rejects: a malformed or empty
`task.scheduled` string, a non-string value there, or a today whose year has
more than four digits. The source hands such text to moment's lenient parser
and writes whatever comes out (for an unparseable string, the text
`Invalid date`). The model reports the case instead of guessing moment's
fallback.

The code uses a boolean-like `task.done` field and anchors on
`task.scheduled ?? today`, and the model follows it.

## Model

| member | source | states |
|---|---|---|
| RepeatedTask.HandleRepeatedTask | src/repeatedTask.ts:3-25 | The result is `NoOp` exactly when the front-matter is missing, `kind` is not the string `task`, or `task.done` or `task.repeat` is falsy. It is `Unsupported` exactly when the record is eligible and `task.repeat` is neither `every day` nor `every week`. In that case the message is `Unsupported repeat value: ` followed by the value's string form, which is the string itself for a string value. It is `BadAnchor` exactly when the anchor does not parse. A `Mutate` always sets `done` to false, and the record it produces is no longer eligible, so the handler run again by the change notifier does nothing. |
| RepeatedTask.Apply | src/repeatedTask.ts:21-24 | A `Mutate` writes `task.done` and `task.scheduled` with the outcome's values. Every other key, `kind` and `task.repeat` included, reads exactly as before. Outcomes other than `Mutate` leave the front-matter unchanged. |
| RepeatedTask.RepeatInterval | src/repeatedTask.ts:9-18 | A repeat value names one day exactly when it is the string `every day`, and one week exactly when it is the string `every week`. No other value, including other spellings and non-strings, is recognised, as the strict `!==` comparisons demand. |
| RepeatedTask.Anchor | src/repeatedTask.ts:15 | An accepted anchor is a valid date. A missing or `null` `task.scheduled` anchors on today (for four-digit years). A string anchor is accepted only as the canonical `YYYY-MM-DD` text of the date it names. Any other kind of value is not accepted. |
| RepeatedTask.AnchorReadsScheduled | src/repeatedTask.ts:15-16 | A `task.scheduled` holding the `YYYY-MM-DD` text of a four-digit-year date anchors on that date, whatever today is. |
| Frontmatter.FalsyValues | src/repeatedTask.ts:5 | The values the `!` tests of the guard treat as absent are exactly `undefined`, `null`, `false`, `0` and the empty string. An empty list or mapping still counts as present. |
| Frontmatter.IntString | src/repeatedTask.ts:10 | A number's text in the notice is at least one decimal digit of its magnitude, with no leading zero, preceded by `-` when it is negative (so `0` gives `0` and `-5` gives `-5`), and reads back as the number. |
| Frontmatter.JoinAppend | src/repeatedTask.ts:10 | A list's text in the notice is built left to right as JavaScript's `join(",")` builds it. One element gives that element's text. Each further element appends a comma and its text, and `null` elements give empty text. |
| RepeatedTask.NextIsOneIntervalLater | src/repeatedTask.ts:14-19 | On an eligible record with a supported repeat value and a parseable anchor, the handler writes `Format(AddDays(anchor, 1 or 7))`. That date is valid and strictly later than the anchor, exactly 1 or 7 day numbers on. Its text parses back to it while the year has four digits. |
| RepeatedTask.HandlerOnMarked | src/repeatedTask.ts:5-24 | A task scheduled for date `a`, with a four-digit year, and ticked done again gets the outcome `Mutate(false, Format(a + one interval))`. |
| RepeatedTask.CompleteAgainAdvances | src/repeatedTask.ts:15-24 | One cycle of "tick done, run handler, write patch" turns a task scheduled for `a` (a four-digit year) into the same task, with the same kind and repeat value, scheduled for `a + one interval`. |
| RepeatedTask.NoDrift | src/repeatedTask.ts:15-23 | After `k` such cycles the task is scheduled exactly `k` intervals after its first scheduled date, whatever today is: no drift and no repeated date. |
| Calendar.DaysInMonth | src/repeatedTask.ts:16-18 | Every month has 28 to 31 days. February has 29 days exactly in a leap year and 28 otherwise. |
| Calendar.NextDay | src/repeatedTask.ts:16-18 | The day after a valid date is a valid date whose day number is one higher. This covers the month and year rollovers. |
| Calendar.AddDays | src/repeatedTask.ts:16-18 | Adding `n` days to a valid date gives a valid date whose day number is exactly `n` higher. |
| Calendar.AddDaysUnique | src/repeatedTask.ts:16-18 | `AddDays(d, n)` is the one valid date whose day number is `n` past `d`'s. |
| Calendar.DayNumberOrder | src/repeatedTask.ts:16-18 | On valid dates, calendar order (year, then month, then day) agrees with day-number order in both directions. |
| Calendar.DayNumberInjective | src/repeatedTask.ts:16-18 | Two valid dates with the same day number are the same date. |
| Calendar.AddDaysLater | src/repeatedTask.ts:16-18 | Adding a positive number of days gives a strictly later date. |
| Calendar.AddDaysNotEarlier | src/repeatedTask.ts:16-18 | Adding days never gives an earlier year. |
| Calendar.AddDaysAdd | src/repeatedTask.ts:16-18 | Adding `a` days and then `b` days is the same as adding `a + b` days. This is why week steps and day steps compose without drift. |
| Calendar.MonthsFillYear | src/repeatedTask.ts:16-18 | The twelve month lengths add up to the year length, 365 or 366. |
| DateFormat.FormatShape | src/repeatedTask.ts:17-19 | For a valid date with a four-digit year, the formatted text has the shape `DDDD-DD-DD` and its fields are the date's. A longer year breaks that shape. |
| DateFormat.ParseFormat | src/repeatedTask.ts:15-19 | Parsing the formatted text of a valid four-digit-year date gives the date back. This is why formatting today and reading it back anchors on today. |
| DateFormat.FormatParse | src/repeatedTask.ts:15-17 | Any text that parses is exactly the formatted text of the date it parses to. |
| Decimal.ZeroFill | src/repeatedTask.ts:19 | The zero-filled field consists of digits only, denotes the number, and has the requested width, or more digits when the number needs them. |
| Decimal.Digits | src/repeatedTask.ts:19 | The decimal text of a number consists of at least one digit, denotes the number, and has no leading zero. |
| Decimal.ValueInjective | src/repeatedTask.ts:15-19 | Two digit strings of the same length that denote the same number are equal. |

## Left out

- `src/main.ts` is not part of this model. It registers the metadata-change event, dispatches the handler without awaiting it, and reopens the active editor. That is plugin plumbing, and its interest is scheduling rather than logic.
- The `Notice` shown to the user and the `processFrontMatter` write are returned as the `Outcome` value and applied by `Apply`. They are not modelled as side effects, and a write that fails is not modelled.
- The clock (`globalThis.moment()`) is not modelled: today's date is a parameter.
- Time zones and daylight-saving time are not modelled. Adding a day or a week is whole-calendar-day arithmetic.
- moment's lenient parsing is not modelled. This covers non-`YYYY-MM-DD` strings, empty strings and non-string `task.scheduled` values. These give `BadAnchor`, whereas the source writes whatever moment makes of them.
- ISO texts that carry a time, such as `2024-01-05T10:00`, give `BadAnchor`. moment reads them through its ISO path, and the source writes the next date (`2024-01-06`); the model's strict parse rejects them.
- Text with the `YYYY-MM-DD` shape that names no real date, such as `2023-02-29` or `2024-13-01`, also gives `BadAnchor`. moment marks such a date invalid, and the source then writes `task.done = false` and `task.scheduled = "Invalid date"`.
- RepeatedTask.Anchor: the "anchor is today" half is stated only for years up to 9999. For a longer year moment's text is not in the strict `YYYY-MM-DD` form.
- RepeatedTask.AnchorReadsScheduled: stated only for four-digit years, for the same reason.
- RepeatedTask.HandlerOnMarked: stated only for a scheduled date with a four-digit year, for the same reason. For a longer year the model's handler gives `BadAnchor`.
- RepeatedTask.CompleteAgainAdvances: stated only for a scheduled date with a four-digit year, for the same reason.
- RepeatedTask.NoDrift: stated only while the dates stay within four-digit years, for the same reason.
- RepeatedTask.NextIsOneIntervalLater: the round trip of the written text is stated only for four-digit years, for the same reason.
- Front-matter numbers are modelled as integers. YAML floats and `.nan` are not modelled. They only matter for the truthiness of `task.done` and `task.repeat` and for the text of the notice.
- Frontmatter.IntString: numbers are treated as exact unbounded integers. JavaScript holds them as doubles, so for a magnitude of 2^53 or more its text differs. It shows the rounded double (`9007199254740993` prints as `9007199254740992`) and, from 10^21 on, exponent form (`1e+21`). The notice for such a `task.repeat` differs accordingly.
- Richer recurrence rules are not modelled: frequencies, intervals, BY-filters, and skipping occurrences in the rule's initial period. The code accepts only the two fixed phrases.
