/** Whole outputs of `formatTimestamp` for particular dates and options. Each
    is put together from the segment lemmas and the digits worked out apart.

    Most examples take the date and the options as parameters pinned by a
    `requires`, rather than writing the literals in the `ensures`: with the
    literals in place the verifier unfolds `Format` on them in full and runs
    out of resource. For the same reason the text of each output is checked
    in a helper lemma whose left-hand side has exactly the shape the segment
    lemmas conclude, down to the empty year suffix (`+ ""`) that
    `DateWithDay` gives when the year is hidden. */
module ApStyleExamples {
  import opened PhpStrings
  import opened PhpDate
  import opened ApStyleDateFormatter
  import opened ApStyleProperties

  lemma Digits()
    ensures NatToString(1) == "1" && NatToString(4) == "4" && NatToString(9) == "9"
    ensures NatToString(25) == "25" && NatToString(2023) == "2023" && NatToString(2024) == "2024"
    ensures Pad2(30) == "30"
  {
  }

  /** Day, year (another year than now) and time after the date. */
  lemma SeptemberMorning(date: CivilDateTime, opts: Options)
    requires date == CivilDateTime(2023, 9, 9, 9, 0)
    requires opts == Options(false, true, true, false, false, false)
    ensures Format(date, 2024, opts) == "Sept. 9, 2023 9 a.m."
  {
    DateWithDay(opts, date, 2024);
    OnTheHourSegment(opts, date);
    SeptemberMorningText(date);
  }

  lemma SeptemberMorningText(date: CivilDateTime)
    requires date == CivilDateTime(2023, 9, 9, 9, 0)
    ensures ApMonth(date.month) + " " + NatToString(date.day) + (", " + NatToString(date.year)) + " "
            + (NatToString(TwelveHour(date.hour)) + " " + ApMeridiemWord(date.hour)) == "Sept. 9, 2023 9 a.m."
  {
    Digits();
    assert ApMonth(9) + " " + NatToString(9) + ", " + NatToString(2023) == "Sept. 9, 2023";
    assert NatToString(TwelveHour(9)) + " " + ApMeridiemWord(9) == "9 a.m.";
  }

  /** Same year as now and no option set: the full month name only. */
  lemma MonthOnly()
    ensures Format(CivilDateTime(2023, 9, 9, 9, 0), 2023, NoOptions) == "September"
  {
    DateWithoutDay(NoOptions, CivilDateTime(2023, 9, 9, 9, 0), 2023);
  }

  /** An afternoon time with minutes. */
  lemma AfternoonWithMinutes(opts: Options, date: CivilDateTime)
    requires date.hour == 13 && date.minute == 30
    ensures TimeString(opts, date) == "1:30 p.m."
  {
    Digits();
    HourAndMinuteSegment(opts, date);
    AfternoonClock(date);
  }

  lemma AfternoonClock(date: CivilDateTime)
    requires date.hour == 13 && date.minute == 30
    ensures NatToString(TwelveHour(date.hour)) + ":" + Pad2(date.minute) + " " + ApMeridiemWord(date.hour) == "1:30 p.m."
  {
    Digits();
    assert TwelveHour(13) == 1;
  }

  /** 00:00 prints as "midnight" even with `display_noon_and_midnight` off:
      the formatter does not read that option. */
  lemma MidnightWithoutTheOption(date: CivilDateTime, opts: Options)
    requires date == CivilDateTime(2023, 12, 25, 0, 0)
    requires opts == Options(false, true, true, false, false, false)
    ensures Format(date, 2023, opts) == "Dec. 25 midnight"
  {
    DateWithDay(opts, date, 2023);
    MidnightSegment(opts, date);
    DecemberText();
  }

  lemma DecemberText()
    ensures ApMonth(12) + " " + NatToString(25) + "" + " " + "midnight" == "Dec. 25 midnight"
  {
    Digits();
    assert ApMonth(12) + " " + NatToString(25) + "" == "Dec. 25";
  }

  /** Capitalised noon before the date; July is spelled out. */
  lemma NoonBeforeTheDate(date: CivilDateTime, opts: Options)
    requires date == CivilDateTime(2024, 7, 4, 12, 0)
    requires opts == Options(true, true, true, true, true, true)
    ensures Format(date, 2024, opts) == "Noon July 4, 2024"
  {
    DateWithDay(opts, date, 2024);
    NoonSegment(opts, date);
    JulyText();
  }

  lemma JulyText()
    ensures "Noon" + " " + (ApMonth(7) + " " + NatToString(4) + (", " + NatToString(2024))) == "Noon July 4, 2024"
  {
    Digits();
    assert ApMonth(7) + " " + NatToString(4) + (", " + NatToString(2024)) == "July 4, 2024";
  }
}
