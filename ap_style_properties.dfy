/** What `formatTimestamp` promises, proved about the model in
    ApStyleDateFormatter: the AP month forms, when the year and its comma
    appear, the midnight/noon words and the 12-hour clock with "a.m."/"p.m.",
    and how the date and time are joined. */
module ApStyleProperties {
  import opened PhpStrings
  import opened PhpDate
  import opened ApStyleDateFormatter

  /** The AP stylebook's month form when a day follows it, stated over the
      full English names: March to July in full, "Sept.", and otherwise the
      first three letters and a period. */
  function ApMonth(m: Month): (r: string)
  {
    if 3 <= m <= 7 then MonthName(m)
    else if m == 9 then "Sept."
    else MonthName(m)[..3] + "."
  }

  /** "a.m." before noon, "p.m." from noon on. */
  function ApMeridiemWord(h: Hour): (r: string)
  {
    if h < 12 then "a.m." else "p.m."
  }

  /** A month form holds no space, comma or digit. */
  lemma ApMonthPlain(m: Month)
    ensures |ApMonth(m)| > 0 && ' ' !in ApMonth(m) && ',' !in ApMonth(m)
    ensures forall i :: 0 <= i < |ApMonth(m)| ==> !IsDigit(ApMonth(m)[i])
  {
    var name := MonthName(m);
    assert forall i :: 0 <= i < |name| ==> IsLetter(name[i]);
  }

  lemma DigitsArePlain(s: string)
    requires AllDigits(s)
    ensures ' ' !in s && ',' !in s && ':' !in s && 'a' !in s && 'p' !in s
  {
  }

  /** With the day shown, the month pattern formats to the AP month form. */
  lemma MonthWithDay(date: CivilDateTime)
    ensures Render(MonthPattern(date.month), date) == ApMonth(date.month)
  {
    var m := date.month;
    if 3 <= m <= 7 {
      RenderOne(FullMonth, date);
    } else if m == 9 {
      Render3(ShortMonth, Lit('t'), Lit('.'), date);
    } else {
      Render2(ShortMonth, Lit('.'), date);
    }
  }

  /** Appending ` Y` to a pattern appends " " and the year. */
  lemma SpaceYearSuffix(p: seq<Token>, date: CivilDateTime)
    ensures Render(p + [Lit(' '), FullYear], date) == Render(p, date) + (" " + NatToString(date.year))
  {
    RenderAppend(p, [Lit(' '), FullYear], date);
    Render2(Lit(' '), FullYear, date);
  }

  /** Appending `,` and then ` Y` to a pattern appends ", " and the year. */
  lemma CommaYearSuffix(p: seq<Token>, date: CivilDateTime)
    ensures Render(p + [Lit(',')] + [Lit(' '), FullYear], date) == Render(p, date) + (", " + NatToString(date.year))
  {
    RenderAppend(p, [Lit(',')], date);
    RenderOne(Lit(','), date);
    SpaceYearSuffix(p + [Lit(',')], date);
    CommaSpace(Render(p, date), NatToString(date.year));
  }

  /** The month and day part, `F j`, `M\t. j` or `M. j`, formats to the AP
      month form, a space and the day. */
  lemma MonthAndDay(date: CivilDateTime)
    ensures Render(MonthPattern(date.month) + [Lit(' '), DayOfMonth], date)
         == ApMonth(date.month) + " " + NatToString(date.day)
  {
    MonthWithDay(date);
    RenderAppend(MonthPattern(date.month), [Lit(' '), DayOfMonth], date);
    Render2(Lit(' '), DayOfMonth, date);
    ConcatAssoc(ApMonth(date.month), " ", NatToString(date.day));
  }

  /** Without the day: the full month name, then " " and the year when the
      year is shown; no day and no comma. */
  lemma DateWithoutDay(opts: Options, date: CivilDateTime, nowYear: int)
    requires !opts.displayDay
    ensures DateString(opts, date, nowYear)
         == MonthName(date.month) + (if YearShown(opts, date, nowYear) then " " + NatToString(date.year) else "")
  {
    RenderOne(FullMonth, date);
    if YearShown(opts, date, nowYear) {
      assert DatePattern(opts, date, nowYear) == [FullMonth] + [] + [Lit(' '), FullYear];
      assert [FullMonth] + [] == [FullMonth];
      SpaceYearSuffix([FullMonth], date);
    } else {
      assert MonthName(date.month) + "" == MonthName(date.month);
    }
  }

  /** With the day: the AP month form, " ", the day without a leading zero,
      then ", " and the year when the year is shown. */
  lemma DateWithDay(opts: Options, date: CivilDateTime, nowYear: int)
    requires opts.displayDay
    ensures DateString(opts, date, nowYear)
         == ApMonth(date.month) + " " + NatToString(date.day)
            + (if YearShown(opts, date, nowYear) then ", " + NatToString(date.year) else "")
  {
    var monthAndDay := MonthPattern(date.month) + [Lit(' '), DayOfMonth];
    MonthAndDay(date);
    if YearShown(opts, date, nowYear) {
      assert DatePattern(opts, date, nowYear) == monthAndDay + [Lit(',')] + [Lit(' '), FullYear];
      CommaYearSuffix(monthAndDay, date);
    } else {
      var head := Render(monthAndDay, date);
      assert head + "" == head;
    }
  }

  /** The `H:i` and `i` texts the time decision reads, and what they say:
      "00:00" exactly at midnight, "12:00" exactly at noon, "00" exactly on
      the hour. */
  lemma ClockTexts(date: CivilDateTime)
    ensures Render(HoursAndMinutesPattern, date) == Pad2(date.hour) + ":" + Pad2(date.minute)
    ensures Render(MinutesPattern, date) == Pad2(date.minute)
    ensures Render(HoursAndMinutesPattern, date) == "00:00" <==> date.hour == 0 && date.minute == 0
    ensures Render(HoursAndMinutesPattern, date) == "12:00" <==> date.hour == 12 && date.minute == 0
    ensures Render(MinutesPattern, date) == "00" <==> date.minute == 0
  {
    Render3(Hour24, Lit(':'), Minutes, date);
    RenderOne(Minutes, date);
    var hh, mm := Pad2(date.hour), Pad2(date.minute);
    var text := hh + ":" + mm;
    assert text[..2] == hh && text[3..] == mm;
    assert ParseDecimal("00") == 0 && ParseDecimal("12") == 12;
    assert "00:00"[..2] == "00" && "00:00"[3..] == "00" && "12:00"[..2] == "12" && "12:00"[3..] == "00";
    if date.minute == 0 {
      assert mm == "00";
    }
    if date.hour == 0 {
      assert hh == "00";
    } else if date.hour == 12 {
      assert hh == "12";
    }
  }

  /** The a.m./p.m. rewrite leaves text without an 'a' or a 'p' alone, and
      turns a trailing "am" or "pm" into "a.m." or "p.m.". */
  lemma ApMeridiemRewrite(p: string)
    requires 'a' !in p && 'p' !in p
    ensures ApMeridiem(p) == p
    ensures ApMeridiem(p + "am") == p + "a.m."
    ensures ApMeridiem(p + "pm") == p + "p.m."
  {
    ReplaceAllSkips(p, [], "am", "a.m.");
    ReplaceAllSkips(p, [], "pm", "p.m.");
    assert p + [] == p;

    ReplaceAllSkips(p, "am", "am", "a.m.");
    assert ReplaceAll("am", "am", "a.m.") == "a.m.";
    var q := p + "a.m.";
    assert 'p' !in q;
    ReplaceAllSkips(q, [], "pm", "p.m.");
    assert q + [] == q;

    ReplaceAllSkips(p, "pm", "am", "a.m.");
    assert "pm"[..2] != "am" && "pm"[1..] == "m";
    assert ReplaceAll("pm", "am", "a.m.") == "pm";
    ReplaceAllSkips(p, "pm", "pm", "p.m.");
    assert ReplaceAll("pm", "pm", "p.m.") == "p.m.";
  }

  lemma MidnightSegment(opts: Options, date: CivilDateTime)
    requires date.hour == 0 && date.minute == 0
    ensures TimeString(opts, date) == if opts.capitalizeNoonAndMidnight then "Midnight" else "midnight"
  {
    ClockTexts(date);
    assert Ucfirst("midnight") == "Midnight";
    ApMeridiemRewrite("midnight");
    ApMeridiemRewrite("Midnight");
  }

  lemma NoonSegment(opts: Options, date: CivilDateTime)
    requires date.hour == 12 && date.minute == 0
    ensures TimeString(opts, date) == if opts.capitalizeNoonAndMidnight then "Noon" else "noon"
  {
    ClockTexts(date);
    assert Ucfirst("noon") == "Noon";
    ApMeridiemRewrite("noon");
    ApMeridiemRewrite("Noon");
  }

  lemma OnTheHourSegment(opts: Options, date: CivilDateTime)
    requires date.minute == 0 && date.hour != 0 && date.hour != 12
    ensures TimeString(opts, date) == NatToString(TwelveHour(date.hour)) + " " + ApMeridiemWord(date.hour)
  {
    ClockTexts(date);
    var hour := NatToString(TwelveHour(date.hour));
    DigitsArePlain(hour);
    Render3(Hour12, Lit(' '), Meridiem, date);
    assert Render(OnTheHourPattern, date) == (hour + " ") + AmPm(date.hour);
    ApMeridiemRewrite(hour + " ");
  }

  /** `g:i a` formats to the hour, ":", the minutes, " " and "am"/"pm". */
  lemma HourAndMinuteText(date: CivilDateTime)
    ensures Render(HourAndMinutePattern, date)
         == NatToString(TwelveHour(date.hour)) + ":" + Pad2(date.minute) + " " + AmPm(date.hour)
  {
    assert HourAndMinutePattern == [Hour12, Lit(':'), Minutes] + [Lit(' '), Meridiem];
    RenderAppend([Hour12, Lit(':'), Minutes], [Lit(' '), Meridiem], date);
    Render3(Hour12, Lit(':'), Minutes, date);
    Render2(Lit(' '), Meridiem, date);
    ConcatAssoc(NatToString(TwelveHour(date.hour)) + ":" + Pad2(date.minute), " ", AmPm(date.hour));
  }

  lemma HourAndMinuteSegment(opts: Options, date: CivilDateTime)
    requires date.minute != 0
    ensures TimeString(opts, date)
         == NatToString(TwelveHour(date.hour)) + ":" + Pad2(date.minute) + " " + ApMeridiemWord(date.hour)
  {
    ClockTexts(date);
    var hour := NatToString(TwelveHour(date.hour));
    var minutes := Pad2(date.minute);
    DigitsArePlain(hour);
    DigitsArePlain(minutes);
    HourAndMinuteText(date);
    ApMeridiemRewrite(hour + ":" + minutes + " ");
  }


  /** The time segment: "midnight" at 00:00 and "noon" at 12:00 (with a
      capital first letter when asked for), otherwise the 12-hour clock hour
      without a leading zero, ":" and two-digit minutes unless on the hour,
      and "a.m." before noon or "p.m." from noon on, after one space. */
  lemma TimeSegment(opts: Options, date: CivilDateTime)
    ensures var t := TimeString(opts, date);
            var capital := opts.capitalizeNoonAndMidnight;
            && (date.hour == 0 && date.minute == 0 ==> t == if capital then "Midnight" else "midnight")
            && (date.hour == 12 && date.minute == 0 ==> t == if capital then "Noon" else "noon")
            && (date.minute == 0 && date.hour != 0 && date.hour != 12 ==>
                  t == NatToString(TwelveHour(date.hour)) + " " + ApMeridiemWord(date.hour))
            && (date.minute != 0 ==>
                  t == NatToString(TwelveHour(date.hour)) + ":" + Pad2(date.minute) + " " + ApMeridiemWord(date.hour))
  {
    if date.minute != 0 {
      HourAndMinuteSegment(opts, date);
    } else if date.hour == 0 {
      MidnightSegment(opts, date);
    } else if date.hour == 12 {
      NoonSegment(opts, date);
    } else {
      OnTheHourSegment(opts, date);
    }
  }

  /** The plain shape of a meridiem word or of "noon"/"midnight". */
  lemma WordShape(w: string)
    requires |w| > 0 && ' ' !in w && ',' !in w
    requires forall i :: 0 <= i < |w| ==> !IsDigit(w[i])
    ensures Trimmed(w) && NoDoubleSpace(w) && NoFourDigitRun(w)
  {
    WordIsTrimmed(w);
    NoDigitsNoRun(w);
  }

  /** The shape of "h a.m." and "h:mm a.m.". */
  lemma ClockShape(hour: string, minutes: string, word: string)
    requires 1 <= |hour| <= 2 && AllDigits(hour)
    requires |minutes| == 2 && AllDigits(minutes)
    requires word == "a.m." || word == "p.m."
    ensures Trimmed(hour + " " + word) && NoDoubleSpace(hour + " " + word)
    ensures ',' !in hour + " " + word && NoFourDigitRun(hour + " " + word)
    ensures Trimmed(hour + ":" + minutes + " " + word) && NoDoubleSpace(hour + ":" + minutes + " " + word)
    ensures ',' !in hour + ":" + minutes + " " + word && NoFourDigitRun(hour + ":" + minutes + " " + word)
  {
    DigitsArePlain(hour);
    DigitsArePlain(minutes);
    WordShape(word);
    WordIsTrimmed(hour);
    SpaceJoin(hour, word);
    NoFourDigitRunJoin(hour, ' ', word);
    var clock := hour + ":" + minutes;
    WordIsTrimmed(clock);
    NoFourDigitRunJoin(hour, ':', minutes);
    SpaceJoin(clock, word);
    NoFourDigitRunJoin(clock, ' ', word);
  }

  /** No space at either end, no double space, no comma, no four-digit run. */
  ghost predicate PlainSegment(t: string)
  {
    Trimmed(t) && NoDoubleSpace(t) && ',' !in t && NoFourDigitRun(t)
  }

  lemma NoonAndMidnightWords()
    ensures PlainSegment("midnight") && PlainSegment("Midnight")
    ensures PlainSegment("noon") && PlainSegment("Noon")
  {
    WordShape("midnight");
    WordShape("Midnight");
    WordShape("noon");
    WordShape("Noon");
  }

  lemma NoonOrMidnightShape(opts: Options, date: CivilDateTime)
    requires date.minute == 0 && (date.hour == 0 || date.hour == 12)
    ensures PlainSegment(TimeString(opts, date))
  {
    NoonAndMidnightWords();
    if date.hour == 0 {
      MidnightSegment(opts, date);
    } else {
      NoonSegment(opts, date);
    }
  }

  lemma ClockSegmentShape(opts: Options, date: CivilDateTime)
    requires !(date.minute == 0 && (date.hour == 0 || date.hour == 12))
    ensures PlainSegment(TimeString(opts, date))
  {
    var h, m := date.hour, date.minute;
    var hour := NatToString(TwelveHour(h));
    NatToStringLength(TwelveHour(h));
    if m == 0 {
      OnTheHourSegment(opts, date);
      ClockShape(hour, "00", ApMeridiemWord(h));
    } else {
      HourAndMinuteSegment(opts, date);
      ClockShape(hour, Pad2(m), ApMeridiemWord(h));
    }
  }

  /** The time segment starts and ends with no space, never doubles one, has
      no comma and no four-digit run. */
  lemma TimeSegmentShape(opts: Options, date: CivilDateTime)
    ensures PlainSegment(TimeString(opts, date))
  {
    if date.minute == 0 && (date.hour == 0 || date.hour == 12) {
      NoonOrMidnightShape(opts, date);
    } else {
      ClockSegmentShape(opts, date);
    }
  }

  /** The shape of "Sept. 9" and "Sept. 9, 2023". */
  lemma DayDateText(month: string, day: string, year: string)
    requires |month| > 0 && ' ' !in month && ',' !in month
    requires forall i :: 0 <= i < |month| ==> !IsDigit(month[i])
    requires 1 <= |day| <= 2 && AllDigits(day)
    requires AllDigits(year) && |year| > 0
    ensures PlainSegment(month + " " + day)
    ensures var s := month + " " + day + (", " + year);
            Trimmed(s) && NoDoubleSpace(s) && ',' in s
  {
    DigitsArePlain(day);
    DigitsArePlain(year);
    WordShape(month);
    WordIsTrimmed(day);
    SpaceJoin(month, day);
    NoFourDigitRunJoin(month, ' ', day);
    var dayComma := day + ",";
    WordIsTrimmed(dayComma);
    WordIsTrimmed(year);
    var head := month + " " + dayComma;
    SpaceJoin(month, dayComma);
    SpaceJoin(head, year);
    ConcatAssoc(month + " ", day, ", " + year);
    ConcatAssoc(",", " ", year);
    ConcatAssoc(day, ",", " " + year);
    ConcatAssoc(month + " ", dayComma, " " + year);
    ConcatAssoc(head, " ", year);
    assert month + " " + day + (", " + year) == head + " " + year;
    assert (head + " " + year)[|head| - 1] == ',';
  }

  /** The shape of "September" and "September 2023". */
  lemma MonthDateText(month: string, year: string)
    requires |month| > 0 && AllLetters(month)
    requires AllDigits(year) && |year| > 0
    ensures PlainSegment(month)
    ensures var s := month + " " + year;
            Trimmed(s) && NoDoubleSpace(s) && ',' !in s
  {
    assert forall i :: 0 <= i < |month| ==> IsLetter(month[i]);
    DigitsArePlain(year);
    WordShape(month);
    WordIsTrimmed(year);
    SpaceJoin(month, year);
  }

  lemma DayDateShape(opts: Options, date: CivilDateTime, nowYear: int)
    requires opts.displayDay
    ensures var s := DateString(opts, date, nowYear);
            && Trimmed(s) && NoDoubleSpace(s)
            && (',' in s <==> YearShown(opts, date, nowYear))
            && (!YearShown(opts, date, nowYear) ==> NoFourDigitRun(s))
  {
    var month, day := ApMonth(date.month), NatToString(date.day);
    DateWithDay(opts, date, nowYear);
    ApMonthPlain(date.month);
    NatToStringLength(date.day);
    DayDateText(month, day, NatToString(date.year));
    if !YearShown(opts, date, nowYear) {
      assert month + " " + day + "" == month + " " + day;
    }
  }


  lemma MonthDateShape(opts: Options, date: CivilDateTime, nowYear: int)
    requires !opts.displayDay
    ensures var s := DateString(opts, date, nowYear);
            && Trimmed(s) && NoDoubleSpace(s) && ',' !in s
            && (!YearShown(opts, date, nowYear) ==> NoFourDigitRun(s))
  {
    DateWithoutDay(opts, date, nowYear);
    MonthDateText(MonthName(date.month), NatToString(date.year));
    assert MonthName(date.month) + "" == MonthName(date.month);
  }

  /** The date segment starts and ends with no space and never doubles one;
      it holds a comma exactly when the day and the year are both shown; and
      without the year it has no four-digit run. */
  lemma DateSegmentShape(opts: Options, date: CivilDateTime, nowYear: int)
    ensures var s := DateString(opts, date, nowYear);
            && Trimmed(s) && NoDoubleSpace(s)
            && (',' in s <==> opts.displayDay && YearShown(opts, date, nowYear))
            && (!YearShown(opts, date, nowYear) ==> NoFourDigitRun(s))
  {
    if opts.displayDay {
      DayDateShape(opts, date, nowYear);
    } else {
      MonthDateShape(opts, date, nowYear);
    }
  }


  /** Assembly: without the time the output is the date segment alone; with
      it, the time segment goes before or after the date segment. Either way
      there is exactly one space between them and none at either end. */
  lemma FormatAssembly(opts: Options, date: CivilDateTime, nowYear: int)
    ensures var out := Format(date, nowYear, opts);
            var d := DateString(opts, date, nowYear);
            var t := TimeString(opts, date);
            && (!opts.displayTime ==> out == d)
            && (opts.displayTime && opts.timeBeforeDate ==> out == t + " " + d)
            && (opts.displayTime && !opts.timeBeforeDate ==> out == d + " " + t)
            && Trimmed(out) && NoDoubleSpace(out)
  {
    var d := DateString(opts, date, nowYear);
    var t := TimeString(opts, date);
    DateSegmentShape(opts, date, nowYear);
    TimeSegmentShape(opts, date);
    SpaceJoin(t, d);
    SpaceJoin(d, t);
  }

  lemma OccursInJoin(needle: string, d: string, t: string)
    requires Occurs(needle, d)
    ensures Occurs(needle, d + " " + t) && Occurs(needle, t + " " + d)
  {
    var i: nat :| OccursAt(needle, d, i);
    var left, right := d + " " + t, t + " " + d;
    assert left[i..i + |needle|] == d[i..i + |needle|];
    assert OccursAt(needle, left, i);
    var j: nat := |t| + 1 + i;
    assert right[j..j + |needle|] == d[i..i + |needle|];
    assert OccursAt(needle, right, j);
  }

  /** A shown year is in the date segment. */
  lemma YearInDate(opts: Options, date: CivilDateTime, nowYear: int)
    requires YearShown(opts, date, nowYear)
    ensures Occurs(NatToString(date.year), DateString(opts, date, nowYear))
  {
    var year := NatToString(date.year);
    if opts.displayDay {
      DateWithDay(opts, date, nowYear);
      var head := ApMonth(date.month) + " " + NatToString(date.day);
      ConcatAssoc(head, ", ", year);
      OccursAtEnd(head + ", ", year);
    } else {
      DateWithoutDay(opts, date, nowYear);
      ConcatAssoc(MonthName(date.month), " ", year);
      OccursAtEnd(MonthName(date.month) + " ", year);
    }
  }

  lemma YearShownAppears(opts: Options, date: CivilDateTime, nowYear: int)
    requires YearShown(opts, date, nowYear)
    ensures Occurs(NatToString(date.year), Format(date, nowYear, opts))
  {
    YearInDate(opts, date, nowYear);
    OccursInJoin(NatToString(date.year), DateString(opts, date, nowYear), TimeString(opts, date));
  }

  lemma YearHiddenAbsent(opts: Options, date: CivilDateTime, nowYear: int)
    requires !YearShown(opts, date, nowYear)
    ensures !Occurs(NatToString(date.year), Format(date, nowYear, opts))
  {
    var d := DateString(opts, date, nowYear);
    var t := TimeString(opts, date);
    DateSegmentShape(opts, date, nowYear);
    TimeSegmentShape(opts, date);
    NatToStringLength(date.year);
    NoFourDigitRunJoin(t, ' ', d);
    NoFourDigitRunJoin(d, ' ', t);
    NoRunExcludes(NatToString(date.year), Format(date, nowYear, opts));
  }

  /** The year's four digits appear in the output exactly when the year is
      always displayed or differs from the current year. */
  lemma YearAppearsIff(opts: Options, date: CivilDateTime, nowYear: int)
    ensures Occurs(NatToString(date.year), Format(date, nowYear, opts))
        <==> opts.alwaysDisplayYear || date.year != nowYear
  {
    if YearShown(opts, date, nowYear) {
      YearShownAppears(opts, date, nowYear);
    } else {
      YearHiddenAbsent(opts, date, nowYear);
    }
  }

  /** A comma appears in the output exactly when the year is shown and the
      day is displayed; it is then the one right before " " and the year. */
  lemma CommaIff(opts: Options, date: CivilDateTime, nowYear: int)
    ensures ',' in Format(date, nowYear, opts) <==> YearShown(opts, date, nowYear) && opts.displayDay
    ensures YearShown(opts, date, nowYear) && opts.displayDay ==>
              var d := DateString(opts, date, nowYear);
              var tail := ", " + NatToString(date.year);
              |tail| <= |d| && d[|d| - |tail|..] == tail
  {
    DateSegmentShape(opts, date, nowYear);
    TimeSegmentShape(opts, date);
    if YearShown(opts, date, nowYear) && opts.displayDay {
      DateWithDay(opts, date, nowYear);
      var head := ApMonth(date.month) + " " + NatToString(date.day);
      var d := DateString(opts, date, nowYear);
      var tail := ", " + NatToString(date.year);
      assert d == head + tail;
      assert d[|d| - |tail|..] == tail;
    }
  }

  /** The `display_noon_and_midnight` option is never read: the output is
      the same whichever value it has. */
  lemma NoonAndMidnightOptionUnused(opts: Options, date: CivilDateTime, nowYear: int, flag: bool)
    ensures Format(date, nowYear, opts.(displayNoonAndMidnight := flag)) == Format(date, nowYear, opts)
  {
    var other := opts.(displayNoonAndMidnight := flag);
    assert DatePattern(other, date, nowYear) == DatePattern(opts, date, nowYear);
    assert TimeString(other, date) == TimeString(opts, date);
  }
}
