# Calendar helpers of date-input-custom, in Dafny

This project models `src/components/calendarUtil.ts`, the helper module behind
a calendar date-input component. Five of its seven functions are modelled:

- it buckets a year into its decade (`getDecade`);
- it compares two optional dates by calendar day (`isSameDay`);
- it left-pads a number with zeros (`padWithZero`);
- it builds a machine-readable, hyphen-joined date string (`machineFormat`);
- it hands out component ids from a post-increment counter (`getNextCompId`).

Modules, one concept each:

- `Optional`: `Option`, standing for JavaScript's absent (`undefined`) arguments.
- `Text`: the host string primitives the module uses. These are
  `padStart` with a one-character fill and `Array.prototype.join` with a
  one-character separator. `Split` is added as the inverse of the join.
- `Decimal`: `String(n)` for integers (`NatToString`, `IntToString`) and
  `Value`, the number a digit string denotes (the inverse of `String(n)`).
- `CalendarUtil`: the source's operations. A JavaScript `Date` becomes a
  record of already-extracted local-time fields. The year is an `int`. The
  month is zero-based (0..11) and the day of the month is 1..31, as the
  `getMonth`/`getDate` accessors return them. A time-of-day record is kept so
  that "isSameDay ignores the time" can be stated. The module-level `compId`
  variable becomes a `Counter` value. A `CompIdSource` class also keeps it as
  mutable state, the way the source does.
- `CalendarProperties`: lemmas that tie each operation to an independent
  description. Decades are compared with rounding by division. Same-day is
  compared with equality of the day-truncated date. The machine format is
  checked against a reader that splits on `-` and decodes the pieces; an
  empty first piece marks a negative year. The
  counter is described as a run of consecutive ids.

Notes on fidelity:

- `getDecade` uses JavaScript's truncating `%`. The model spells it out as
  `TruncatedRem` instead of using Dafny's Euclidean `%`, so negative years
  are modelled too: their decade rounds toward zero.
- The year part of `machineFormat` is `String(year)` with no padding,
  exactly as the code does. The output therefore has the shape of an ISO 8601
  calendar date (`YYYY-MM-DD`) only for four-digit years. A negative year
  carries a minus sign that looks like a separator: the output then starts
  with a `-`, splits into an empty piece followed by the digit runs, and holds
  one more `-` than it has gaps between parts. The reader treats that empty
  first piece as the year's sign, so the round trip holds for every year.
- The optional boolean flags of `machineFormat` are `Option<bool>`. A flag is
  truthy only when it is `Some(true)`, so absent and `false` behave alike.

## Model

| member | source | states |
|---|---|---|
| Decimal.NatToString | src/components/calendarUtil.ts:15 | `String(n)` of a natural is a non-empty digit string with no leading zero unless n is 0 |
| Decimal.ValueOfNatToString | src/components/calendarUtil.ts:15 | reading the digits of `String(n)` back gives n |
| Decimal.NatToStringOfValue | src/components/calendarUtil.ts:15 | a canonical digit string is `String` of its own value (the other direction of the round trip) |
| Decimal.NatToStringLength | src/components/calendarUtil.ts:15 | `String(n)` has k digits where 10^(k-1) <= n < 10^k |
| Decimal.IntToString | src/components/calendarUtil.ts:33 | `String(year)` starts with `-` exactly for a negative year; the remaining digits read back as the year's magnitude and have no leading zero, so the year is never zero-padded |
| Text.PadStart | src/components/calendarUtil.ts:15 | `padStart`: length is max(length, target); the original string is a suffix; everything before it is fill |
| Text.JoinLength | src/components/calendarUtil.ts:36 | `join('-')` has the parts' total length plus one separator per gap between neighbouring parts |
| Text.JoinEnds | src/components/calendarUtil.ts:36 | the join starts with the first part, ends with the last, and has the separator right after the first part when there are two or more (its length is `Text.JoinLength`'s) |
| Text.JoinSplit | src/components/calendarUtil.ts:36 | joining the pieces of a split on `-` gives back the string |
| Text.SplitJoin | src/components/calendarUtil.ts:36 | splitting a `-`-join of dash-free parts gives back exactly those parts |
| Text.JoinSeparatorCount | src/components/calendarUtil.ts:36 | a join of k >= 1 dash-free parts contains exactly k - 1 separators |
| CalendarUtil.TruncatedRem | src/components/calendarUtil.ts:3 | JavaScript `%`: a = b * trunc(a / b) + r, with abs(r) < b and r taking the sign of a |
| CalendarUtil.GetDecade | src/components/calendarUtil.ts:1-5 | the decade is a multiple of ten within 10 of the year, at or below it for non-negative years and at or above it for negative ones |
| CalendarProperties.DecadeOfMultipleOfTen | src/components/calendarUtil.ts:1-5 | a year that is a multiple of ten is its own decade |
| CalendarProperties.DecadeIsUnique | src/components/calendarUtil.ts:1-5 | for a non-negative year the decade is the only multiple of ten in (year - 10, year] |
| CalendarProperties.DecadeIsTruncatedDivision | src/components/calendarUtil.ts:1-5 | the decade equals the year divided by ten and multiplied back, rounding toward zero |
| CalendarProperties.DecadeIsIdempotent | src/components/calendarUtil.ts:1-5 | the decade of a decade is itself |
| CalendarUtil.IsSameDay | src/components/calendarUtil.ts:7 | false whenever either argument is absent, including both |
| CalendarProperties.IsSameDayIffSameStartOfDay | src/components/calendarUtil.ts:8-12 | two present dates are on the same day iff they are equal once their time of day is cleared |
| CalendarProperties.IsSameDayIsSymmetric | src/components/calendarUtil.ts:6-13 | swapping the arguments never changes the answer |
| CalendarProperties.IsSameDayIsReflexiveOnPresentDates | src/components/calendarUtil.ts:6-13 | a date is on the same day as itself iff it is present |
| CalendarProperties.IsSameDayIsTransitive | src/components/calendarUtil.ts:8-12 | same-day is transitive |
| CalendarProperties.IsSameDayIgnoresTimeOfDay | src/components/calendarUtil.ts:8-12 | changing the time of day of an argument never changes the answer |
| CalendarProperties.IsSameDayIffSameFullFormat | src/components/calendarUtil.ts:8-12 | for any years, negative ones included, two dates are on the same day iff their full machine formats are the same string |
| CalendarUtil.PadWithZero | src/components/calendarUtil.ts:14-16 | result length is max(digits of n, width); it ends with `String(n)`; every character before that is `0`; it still denotes n |
| CalendarProperties.PadToTwoDigits | src/components/calendarUtil.ts:14-16 | a number below 100 padded to width 2 is its tens digit followed by its units digit |
| CalendarProperties.MonthPartIsTwoDigits | src/components/calendarUtil.ts:34 | the month part is the two digits of month + 1 ("01" to "12"), with a leading `0` exactly for January to September |
| CalendarProperties.DayPartIsTwoDigits | src/components/calendarUtil.ts:35 | the day part is the two digits of the day, with a leading `0` exactly for days 1 to 9 |
| CalendarUtil.Truthy | src/components/calendarUtil.ts:33-35 | an optional flag counts as set exactly when it is present and `true`; `undefined` is falsy |
| CalendarUtil.YearPart | src/components/calendarUtil.ts:33 | the year part is `String(year)`: a `-` first exactly for a negative year, then digits that read back as the year's magnitude with no leading zero (no padding) |
| CalendarUtil.MonthPart | src/components/calendarUtil.ts:34 | the month part is two digits that read back as the one-based month |
| CalendarUtil.DayPart | src/components/calendarUtil.ts:35 | the day part is two digits that read back as the day of the month |
| CalendarUtil.Parts | src/components/calendarUtil.ts:32-35 | the `parts` array is empty exactly when no flag is truthy, and no pushed part is empty |
| CalendarUtil.MachineFormat | src/components/calendarUtil.ts:32-36 | the result is empty iff no flag is truthy (false and absent alike) |
| CalendarProperties.MachineFormatRoundTrip | src/components/calendarUtil.ts:26-37 | for every date and every flag combination, reading the output back gives exactly the requested numbers (year, month + 1, day) in that order, a negative year keeping its sign |
| CalendarProperties.MachineFormatSeparators | src/components/calendarUtil.ts:32-36 | with a non-negative or unrequested year the output splits into exactly the pushed parts and holds one `-` fewer than the number of truthy flags; with a requested negative year it splits into an empty piece and the digit runs, and holds one `-` per truthy flag |
| CalendarProperties.MachineFormatLayout | src/components/calendarUtil.ts:32-36 | the output is the `-`-join of the parts' digit runs, preceded by one extra `-` exactly when a negative year is requested |
| CalendarProperties.FullFormatDecodes | src/components/calendarUtil.ts:32-36 | the full output of any date reads back as [year, month + 1, day] |
| CalendarProperties.AbsentFlagActsAsFalse | src/components/calendarUtil.ts:33-35 | for each flag, leaving it out and passing `false` give the same output |
| CalendarProperties.NegativeYearAddsDash | src/components/calendarUtil.ts:33 | a negative year part starts with a `-` even when it is the only part |
| CalendarProperties.FullFormatIsIsoForFourDigitYears | src/components/calendarUtil.ts:32-36 | for years 1000..9999 the full output has the ISO 8601 extended calendar-date shape `YYYY-MM-DD` |
| CalendarProperties.ShortYearIsNotIso | src/components/calendarUtil.ts:33 | a three-digit year is not padded, so the full output is 9 characters and not ISO shaped |
| CalendarProperties.FullFormatExample | src/components/calendarUtil.ts:26-37 | 5 March 2024 with all three flags gives `2024-03-05` |
| CalendarProperties.MonthOnlyExample | src/components/calendarUtil.ts:26-37 | 5 March 2024 with only the month flag gives `03` |
| CalendarUtil.CompIdSource.Init | src/components/calendarUtil.ts:49 | the counter starts at 0 when the module is loaded |
| CalendarUtil.NextCompId | src/components/calendarUtil.ts:51 | one call returns the current id and leaves the counter exactly one higher |
| CalendarUtil.Issue | src/components/calendarUtil.ts:49-52 | k successive calls return c, c+1, ..., c+k-1 and leave the counter at c+k |
| CalendarProperties.IssueComposes | src/components/calendarUtil.ts:50-52 | a+b calls are a calls followed by b calls from where the counter stopped |
| CalendarProperties.IssuedIdsAreDistinct | src/components/calendarUtil.ts:49-52 | issued ids strictly increase and all lie below the final counter, so none repeats |
| CalendarProperties.FirstThreeIds | src/components/calendarUtil.ts:49-52 | from a fresh counter the first three calls return 0, 1, 2 and leave the counter at 3 |
| CalendarUtil.CompIdSource.GetNextCompId | src/components/calendarUtil.ts:50-52 | post-increment: returns the old counter and raises it by exactly one |
| CalendarUtil.CompIdSource.GetNextCompIds | src/components/calendarUtil.ts:50-52 | k calls on the mutable counter return the same ids as `Issue` and leave the counter where `Issue` does |

## Left out

- `getWeekdayName` and `getMonthName` (src/components/calendarUtil.ts:38-47) are left out. They only call `Intl.DateTimeFormat` with `en` locale data, which the model cannot see.
- Building JavaScript `Date` values is left out: time zones, local-time conversion and invalid (NaN) dates are host behaviour. The model takes the year, month and day as already extracted.
- `String(n)` for fractions, `NaN` and `-0` is left out. Padding is modelled over naturals, which covers the month (1..12) and day (1..31) it is applied to.
- Overflow of the counter past the host's safe-integer range is not modelled, because the counter is unbounded here. Thread safety is not modelled either: the source is single-threaded and has no guard.
- `vite.config.ts` is build configuration with no program logic, so it is not part of this model.
