# AP-style date formatting, in Dafny

This project models `ApStyleDateFormatter::formatTimestamp` from the Drupal
module `date_ap_style`. The function turns a point in time into a date string
in Associated Press style, such as "Sept. 9, 2023 9 a.m.", "Noon July 4, 2024"
or "September".

The model takes the local date-time (year, month, day, hour, minute) that the
host's date library resolves from the timestamp. It also takes the current
year and the option array, and returns the output string. It works in three
stages, as the source does:

- **Date part.** A PHP `date()` pattern is built from format characters, then
  formatted. The characters are modelled as the `PhpDate.Token` datatype and
  interpreted by `PhpDate.Render`.
- **Time part.** The formatter chooses among "midnight", "noon", `g a` and
  `g:i a`. It then rewrites "am"/"pm" to "a.m."/"p.m." with `str_replace`.
- **Assembly.** The time part goes before or after the date part with one
  space between them, or it is left out.

Modules:

- `PhpStrings`: the PHP string primitives the formatter uses (decimal
  digits, two-digit padding, `str_replace` with one search string, `ucfirst`)
  and the text predicates the properties are stated with.
- `PhpDate`: the civil date-time, the English month names, and the format
  characters with the text `date()` prints for each.
- `ApStyleDateFormatter`: the options, the patterns and `Format` itself.
- `ApStyleProperties`: what the formatter promises, proved about `Format`
  against independent reference definitions (`ApMonth`, `ApMeridiemWord`).
- `ApStyleExamples`: whole outputs for particular inputs.

The functions that compute the output, and the source they model:
`ApStyleDateFormatter.Format` is the whole of src/ApStyleDateFormatter.php:49-149
from the resolved date-time on; `ApStyleDateFormatter.DatePattern` and
`ApStyleDateFormatter.DateString` are :69-108; `ApStyleDateFormatter.TimeString`
is :110-135; `ApStyleDateFormatter.ApMeridiem` and `PhpStrings.ReplaceAll` are
the `str_replace` at :135; `PhpDate.Render` is `$date->format(...)` at :108,
:111-112, :128 and :131.

The plugin's settings form describes the option `display_noon_and_midnight`
as converting 12:00 p.m. to "noon" and 12:00 a.m. to "midnight"
(src/Plugin/Field/FieldFormatter/ApStyleDateFieldFormatter.php:126-130), and
it defaults to off (same file, :88). Read that way, 00:00 would print as
"12 a.m." with the option off. `formatTimestamp` never reads that option, and
the model follows the code. Whenever the time is displayed, 00:00 prints as
"midnight" and 12:00 as "noon". The lemmas
`ApStyleProperties.NoonAndMidnightOptionUnused` and
`ApStyleExamples.MidnightWithoutTheOption` state this.

Every option is tested with `isset($options[...]) && $options[...]`, so a
missing option acts as a false one. The options are therefore plain booleans.

## Model

| member | source | states |
|---|---|---|
| PhpStrings.NatToString | src/ApStyleDateFormatter.php:92-131 | `j` (:92), `Y` (:105) and `g` (:128, :131) print the decimal digits of the value: at least one digit, all digits, no leading zero, and the digits parse back to the value |
| PhpStrings.NatToStringLength | src/ApStyleDateFormatter.php:105-108 | a day or an hour prints as one or two digits; a year in 1000..9999 prints as exactly four |
| PhpStrings.Pad2 | src/ApStyleDateFormatter.php:111-112 | `H` and `i` print exactly two digits that parse back to the value |
| PhpStrings.ReplaceAllSkips | src/ApStyleDateFormatter.php:135 | `str_replace` leaves unchanged a prefix without the search string's first character, and only rewrites what follows it |
| PhpStrings.Ucfirst | src/ApStyleDateFormatter.php:116-118 | `ucfirst` keeps the length and the tail and upper-cases a lower-case first letter; any other string is unchanged |
| PhpStrings.SpaceJoin | src/ApStyleDateFormatter.php:138-141 | joining two trimmed strings with no double spaces by one space gives a trimmed string with no double spaces |
| PhpStrings.NoRunExcludes | src/ApStyleDateFormatter.php:100-106 | four digits cannot occur in a string with no run of four digits |
| PhpDate.MonthName | src/ApStyleDateFormatter.php:78 | `F` prints a name of at least three letters |
| PhpDate.ShortMonthName | src/ApStyleDateFormatter.php:83-88 | `M` prints the first three letters of the full month name |
| PhpDate.TwelveHour | src/ApStyleDateFormatter.php:128-131 | `g` is in 1..12 and, with the half of the day, gives back the 24-hour hour |
| PhpDate.AmPm | src/ApStyleDateFormatter.php:128-131 | `a` is "am" or "pm", and together with `g` it gives back the 24-hour hour: the `g` value modulo 12, plus 12 for "pm" |
| PhpDate.RenderAppend | src/ApStyleDateFormatter.php:92-108 | formatting a pattern extended with `.=` gives the formatted parts joined |
| ApStyleProperties.MonthWithDay | src/ApStyleDateFormatter.php:69-91 | with the day shown, the month part is March to July in full, "Sept." for September, and otherwise the first three letters plus "." |
| ApStyleProperties.MonthAndDay | src/ApStyleDateFormatter.php:69-92 | with the day shown, the month form is followed by " " and the day with no leading zero |
| ApStyleProperties.DateWithoutDay | src/ApStyleDateFormatter.php:94-108 | without the day, the date part is the full month name, then " " and the year exactly when the year is shown; no day and no comma |
| ApStyleProperties.DateWithDay | src/ApStyleDateFormatter.php:69-108 | with the day, the date part is the month form, " ", the day, then ", " and the year exactly when the year is shown |
| ApStyleProperties.ClockTexts | src/ApStyleDateFormatter.php:111-114 | `H:i` is "00:00" exactly at midnight and "12:00" exactly at noon; `i` is "00" exactly on the hour |
| ApStyleProperties.ApMeridiemRewrite | src/ApStyleDateFormatter.php:134-135 | the rewrite turns a trailing "am"/"pm" after clock digits into "a.m."/"p.m." and leaves text without "a" or "p" alone |
| ApStyleProperties.MidnightSegment | src/ApStyleDateFormatter.php:114-119 | at 00:00 the time part is exactly "midnight", or "Midnight" when capitalisation is asked for |
| ApStyleProperties.NoonSegment | src/ApStyleDateFormatter.php:120-125 | at 12:00 the time part is exactly "noon", or "Noon" when capitalisation is asked for |
| ApStyleProperties.OnTheHourSegment | src/ApStyleDateFormatter.php:126-135 | on any other hour at minute 0 the time part is the 12-hour hour, " " and "a.m."/"p.m." |
| ApStyleProperties.HourAndMinuteText | src/ApStyleDateFormatter.php:131 | `g:i a` prints the 12-hour hour, ":", two-digit minutes, " " and "am"/"pm" |
| ApStyleProperties.HourAndMinuteSegment | src/ApStyleDateFormatter.php:130-135 | off the hour the time part is the 12-hour hour, ":", two-digit minutes, " " and "a.m." before noon or "p.m." from noon on |
| ApStyleProperties.TimeSegment | src/ApStyleDateFormatter.php:110-135 | the time part in all four cases at once |
| ApStyleProperties.TimeSegmentShape | src/ApStyleDateFormatter.php:110-135 | the time part has no space at either end, no double space, no comma and no run of four digits |
| ApStyleProperties.DateSegmentShape | src/ApStyleDateFormatter.php:69-108 | the date part has no space at either end and no double space; it has a comma exactly when the day and the year are shown; without the year it has no run of four digits |
| ApStyleProperties.FormatAssembly | src/ApStyleDateFormatter.php:137-148 | without the time the output is the date part alone; with it the time part goes before or after the date part as `time_before_date` says, joined by one space, with no space at either end and no double space |
| ApStyleProperties.YearInDate | src/ApStyleDateFormatter.php:100-108 | a shown year's digits occur in the date part |
| ApStyleProperties.YearShownAppears | src/ApStyleDateFormatter.php:100-148 | a shown year's digits occur in the output |
| ApStyleProperties.YearHiddenAbsent | src/ApStyleDateFormatter.php:100-148 | a hidden year's digits do not occur anywhere in the output |
| ApStyleProperties.YearAppearsIff | src/ApStyleDateFormatter.php:100 | the year's digits occur in the output exactly when `always_display_year` is set or the year differs from the current year |
| ApStyleProperties.CommaIff | src/ApStyleDateFormatter.php:101-105 | the output holds a comma exactly when the year is shown and the day is displayed, and the date part then ends with ", " and the year |
| ApStyleProperties.NoonAndMidnightOptionUnused | src/ApStyleDateFormatter.php:110-135 | the output is the same whatever `display_noon_and_midnight` is |
| ApStyleExamples.SeptemberMorning | src/ApStyleDateFormatter.php:81-84 | 2023-09-09 09:00 with the day and the time, in 2024, is "Sept. 9, 2023 9 a.m." |
| ApStyleExamples.MonthOnly | src/ApStyleDateFormatter.php:94-97 | a date in the current year with no option set is "September" |
| ApStyleExamples.AfternoonWithMinutes | src/ApStyleDateFormatter.php:130-135 | 13:30 gives the time part "1:30 p.m." |
| ApStyleExamples.MidnightWithoutTheOption | src/ApStyleDateFormatter.php:114-119 | 2023-12-25 00:00 with the day and the time and `display_noon_and_midnight` off is "Dec. 25 midnight" |
| ApStyleExamples.NoonBeforeTheDate | src/ApStyleDateFormatter.php:120-138 | 2024-07-04 12:00 with every option set is "Noon July 4, 2024" |

## Left out

- Converting the timestamp to a local date-time with a time zone and daylight
  saving time (src/ApStyleDateFormatter.php:56-58, :66): this is the host
  date library. The model takes the resolved date-time as a parameter.
- Reading the clock for "now" (src/ApStyleDateFormatter.php:67): the model
  takes the current year as the parameter `nowYear`.
- The language manager and translation (src/ApStyleDateFormatter.php:50-52,
  :115, :121): the model uses the English month names and the English words
  "noon" and "midnight". A translation holding "am" or "pm" would be
  rewritten too, and the model does not cover that.
- The constructor (src/ApStyleDateFormatter.php:29-31): it only stores the
  language manager, which the model does not have.
- The field formatter plugin: src/Plugin/Field/FieldFormatter/ApStyleDateFieldFormatter.php
  is not part of this model. It passes only the settings that are true, which
  the plain-boolean options already capture.
- Years outside 1000..9999: `Y` would need padding or a sign there.
- Whether a day exists in its month: the host library only produces valid
  dates, so the model lets the day range over 1..31.
- A general `date()` interpreter: only the format characters the formatter
  emits are modelled (`F`, `M`, `j`, `Y`, `g`, `H`, `i`, `a`, `m`, and literals).
  The switch on `m` (src/ApStyleDateFormatter.php:71) is modelled as a test on
  the month number: `m` prints "01".."12", so the cases '03'..'07' and '09'
  pick exactly months 3..7 and 9.
- PhpStrings.Ucfirst: covers ASCII letters only, since the words it is applied
  to are English.
