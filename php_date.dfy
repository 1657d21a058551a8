/** The part of PHP's `date()` formatting that the AP-style formatter uses: a
    civil date-time already resolved into its time zone, the English month
    names, and the format characters the formatter emits, each with the text
    `date()` prints for it. */
module PhpDate {
  import opened PhpStrings

  /** Four-digit years, so that `Y` needs no padding. */
  type Year = y: int | 1000 <= y <= 9999 witness 1000
  type Month = m: int | 1 <= m <= 12 witness 1
  type Day = d: int | 1 <= d <= 31 witness 1
  type Hour = h: int | 0 <= h <= 23
  type Minute = m: int | 0 <= m <= 59

  /** A local date and time of day, as the host's date library resolves a
      timestamp against a time zone. */
  datatype CivilDateTime = CivilDateTime(year: Year, month: Month, day: Day, hour: Hour, minute: Minute)

  /** `F`: the full English month name. */
  function MonthName(m: Month): (r: string)
    ensures |r| >= 3 && AllLetters(r)
  {
    match m
    case 1 => "January"
    case 2 => "February"
    case 3 => "March"
    case 4 => "April"
    case 5 => "May"
    case 6 => "June"
    case 7 => "July"
    case 8 => "August"
    case 9 => "September"
    case 10 => "October"
    case 11 => "November"
    case 12 => "December"
  }

  /** `M`: the three-letter English month abbreviation, which is the first
      three letters of the full name. */
  function ShortMonthName(m: Month): (r: string)
    ensures r == MonthName(m)[..3]
  {
    match m
    case 1 => "Jan"
    case 2 => "Feb"
    case 3 => "Mar"
    case 4 => "Apr"
    case 5 => "May"
    case 6 => "Jun"
    case 7 => "Jul"
    case 8 => "Aug"
    case 9 => "Sep"
    case 10 => "Oct"
    case 11 => "Nov"
    case 12 => "Dec"
  }

  /** `g`'s value: the hour on a 12-hour clock. Together with the half of the
      day it gives back the 24-hour hour. */
  function TwelveHour(h: Hour): (r: int)
    ensures 1 <= r <= 12
    ensures h == r % 12 + (if h < 12 then 0 else 12)
  {
    if h % 12 == 0 then 12 else h % 12
  }

  /** `a`: the lower-case half-of-day marker. Read next to `g`, it gives back
      the 24-hour hour. */
  function AmPm(h: Hour): (r: string)
    ensures r == "am" || r == "pm"
    ensures h == TwelveHour(h) % 12 + (if r == "pm" then 12 else 0)
  {
    if h < 12 then "am" else "pm"
  }

  /** The `date()` format characters the formatter emits. `Lit` is a character
      printed as it is: punctuation and space, and the escaped `\t`. */
  datatype Token =
    | FullMonth     // F
    | ShortMonth    // M
    | DayOfMonth    // j
    | FullYear      // Y
    | Hour12        // g
    | Hour24        // H
    | Minutes       // i
    | Meridiem      // a
    | Lit(c: char)

  function RenderToken(t: Token, d: CivilDateTime): (r: string)
  {
    match t
    case FullMonth => MonthName(d.month)
    case ShortMonth => ShortMonthName(d.month)
    case DayOfMonth => NatToString(d.day)
    case FullYear => NatToString(d.year)
    case Hour12 => NatToString(TwelveHour(d.hour))
    case Hour24 => Pad2(d.hour)
    case Minutes => Pad2(d.minute)
    case Meridiem => AmPm(d.hour)
    case Lit(c) => [c]
  }

  /** `$date->format(pattern)`: each format character's text, in order. */
  function Render(pattern: seq<Token>, d: CivilDateTime): (r: string)
  {
    if pattern == [] then [] else RenderToken(pattern[0], d) + Render(pattern[1..], d)
  }

  /** Formatting a pattern built by appending is appending the formatted
      parts, which is what makes the formatter's `.=` on the pattern sound. */
  lemma {:induction false} RenderAppend(p: seq<Token>, q: seq<Token>, d: CivilDateTime)
    ensures Render(p + q, d) == Render(p, d) + Render(q, d)
  {
    if p == [] {
      assert p + q == q;
    } else {
      assert (p + q)[1..] == p[1..] + q;
      RenderAppend(p[1..], q, d);
    }
  }

  lemma RenderOne(t: Token, d: CivilDateTime)
    ensures Render([t], d) == RenderToken(t, d)
  {
    assert [t][1..] == [];
  }

  lemma Render2(a: Token, b: Token, d: CivilDateTime)
    ensures Render([a, b], d) == RenderToken(a, d) + RenderToken(b, d)
  {
    assert [a, b][1..] == [b];
    RenderOne(b, d);
  }

  lemma Render3(a: Token, b: Token, c: Token, d: CivilDateTime)
    ensures Render([a, b, c], d) == RenderToken(a, d) + RenderToken(b, d) + RenderToken(c, d)
  {
    assert [a, b, c][1..] == [b, c];
    Render2(b, c, d);
  }
}
