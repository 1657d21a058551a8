/** `ApStyleDateFormatter::formatTimestamp`: a resolved local date-time, the
    current year and the formatter's options become an AP-style date string.
    The date part is built as a `date()` pattern and then formatted; the time
    part is chosen among "midnight", "noon" and the 12-hour clock, and its
    "am"/"pm" is rewritten to "a.m."/"p.m."; the two are joined by one space. */
module ApStyleDateFormatter {
  import opened PhpStrings
  import opened PhpDate

  /** The option array. The source tests every option with `isset(...) &&`,
      so an absent option is a false one. `displayNoonAndMidnight` is carried
      because callers pass it, but the formatter never reads it. */
  datatype Options = Options(
    alwaysDisplayYear: bool,
    displayDay: bool,
    displayTime: bool,
    timeBeforeDate: bool,
    displayNoonAndMidnight: bool,
    capitalizeNoonAndMidnight: bool)

  /** An empty option array. */
  const NoOptions := Options(false, false, false, false, false, false)

  /** Whether the year is printed: always when asked for, otherwise when the
      date's year is not the current year. The two `Y` strings compared are
      numeric strings, which PHP compares as numbers. */
  predicate YearShown(opts: Options, date: CivilDateTime, nowYear: int)
  {
    opts.alwaysDisplayYear || date.year != nowYear
  }

  /** The month part of the pattern when the day is shown: March to July in
      full (`F`), September as `M\t.`, every other month as `M.`. The source
      switches on the `m` text ("01".."12"); its cases '03'..'07' and '09' are
      exactly months 3..7 and 9, so the switch is a test on the month number. */
  function MonthPattern(m: Month): (r: seq<Token>)
  {
    if 3 <= m <= 7 then [FullMonth]
    else if m == 9 then [ShortMonth, Lit('t'), Lit('.')]
    else [ShortMonth, Lit('.')]
  }

  /** `$ap_date_format`: the month (and the day, after a space, when it is
      shown), then `, Y` or ` Y` when the year is shown. */
  function DatePattern(opts: Options, date: CivilDateTime, nowYear: int): (r: seq<Token>)
  {
    var monthAndDay :=
      if opts.displayDay then MonthPattern(date.month) + [Lit(' '), DayOfMonth]
      else [FullMonth];
    if YearShown(opts, date, nowYear) then
      monthAndDay + (if opts.displayDay then [Lit(',')] else []) + [Lit(' '), FullYear]
    else
      monthAndDay
  }

  /** `$ap_date_string`. */
  function DateString(opts: Options, date: CivilDateTime, nowYear: int): (r: string)
  {
    Render(DatePattern(opts, date, nowYear), date)
  }

  /** `H:i`, `i`, `g a` and `g:i a`. */
  const HoursAndMinutesPattern: seq<Token> := [Hour24, Lit(':'), Minutes]
  const MinutesPattern: seq<Token> := [Minutes]
  const OnTheHourPattern: seq<Token> := [Hour12, Lit(' '), Meridiem]
  const HourAndMinutePattern: seq<Token> := [Hour12, Lit(':'), Minutes, Lit(' '), Meridiem]

  /** `str_replace(['am', 'pm'], ['a.m.', 'p.m.'], s)`: PHP applies the two
      replacements one after the other over the whole string. */
  function ApMeridiem(s: string): (r: string)
  {
    ReplaceAll(ReplaceAll(s, "am", "a.m."), "pm", "p.m.")
  }

  /** "noon" or "midnight", with `ucfirst` when capitalisation is asked for. */
  function NoonOrMidnight(word: string, capital: bool): (r: string)
  {
    if capital then Ucfirst(word) else word
  }

  /** `$ap_time_string`. Midnight and noon are recognised by the `H:i` text,
      the top of the hour by the `i` text. */
  function TimeString(opts: Options, date: CivilDateTime): (r: string)
  {
    var minutesAndHours := Render(HoursAndMinutesPattern, date);
    var minutes := Render(MinutesPattern, date);
    var capital := opts.capitalizeNoonAndMidnight;
    var raw :=
      if minutesAndHours == "00:00" then NoonOrMidnight("midnight", capital)
      else if minutesAndHours == "12:00" then NoonOrMidnight("noon", capital)
      else if minutes == "00" then Render(OnTheHourPattern, date)
      else Render(HourAndMinutePattern, date);
    ApMeridiem(raw)
  }

  /** `formatTimestamp`, from the resolved date-time and the current year on. */
  function Format(date: CivilDateTime, nowYear: int, opts: Options): (r: string)
  {
    var dateString := DateString(opts, date, nowYear);
    if opts.displayTime then
      var timeString := TimeString(opts, date);
      if opts.timeBeforeDate then timeString + " " + dateString
      else dateString + " " + timeString
    else
      dateString
  }
}
