/** The PHP string primitives the AP-style formatter relies on, over ASCII text:
    decimal rendering of integers (as `date()` prints days, hours and years),
    two-digit zero padding (as `date()` prints `H` and `i`), `str_replace` with
    one search string, and `ucfirst`. Also the small text predicates the
    formatter's properties are stated with. */
module PhpStrings {

  predicate IsDigit(c: char) { '0' <= c <= '9' }

  predicate IsLetter(c: char) { 'a' <= c <= 'z' || 'A' <= c <= 'Z' }

  predicate AllDigits(s: string) { forall i :: 0 <= i < |s| ==> IsDigit(s[i]) }

  predicate AllLetters(s: string) { forall i :: 0 <= i < |s| ==> IsLetter(s[i]) }

  function DigitValue(c: char): (r: int) { c as int - '0' as int }

  function DigitChar(d: nat): (c: char)
    requires d < 10
    ensures IsDigit(c) && DigitValue(c) == d
  {
    ('0' as int + d) as char
  }

  function Pow10(k: nat): (r: nat)
    ensures r >= 1
  {
    if k == 0 then 1 else 10 * Pow10(k - 1)
  }

  lemma {:induction false} Pow10Monotone(i: nat, j: nat)
    requires i <= j
    ensures Pow10(i) <= Pow10(j)
  {
    if i < j {
      Pow10Monotone(i, j - 1);
    }
  }

  /** The value of a string of decimal digits, most significant digit first;
      the reference against which the renderings below are checked. */
  function ParseDecimal(s: string): (r: int)
  {
    if s == [] then 0 else 10 * ParseDecimal(s[..|s| - 1]) + DigitValue(s[|s| - 1])
  }

  /** The decimal digits of n without leading zeros, as PHP prints an integer
      and as `date()` prints the day (`j`), the 12-hour clock hour (`g`) and
      the year (`Y`). */
  function NatToString(n: nat): (s: string)
    ensures 1 <= |s| && AllDigits(s)
    ensures n == 0 ==> s == "0"
    ensures n > 0 ==> s[0] != '0'
    ensures ParseDecimal(s) == n
    ensures n < Pow10(|s|) && (n > 0 ==> Pow10(|s| - 1) <= n)
    decreases n
  {
    if n < 10 then [DigitChar(n)]
    else
      var prefix := NatToString(n / 10);
      var s := prefix + [DigitChar(n % 10)];
      assert s[..|s| - 1] == prefix && s[|s| - 1] == DigitChar(n % 10);
      assert ParseDecimal(s) == 10 * (n / 10) + n % 10;
      s
  }

  /** How many characters NatToString gives for the sizes of number the
      formatter prints: one or two for a day or an hour, four for a year. */
  lemma NatToStringLength(n: nat)
    ensures n < 10 ==> |NatToString(n)| == 1
    ensures n < 100 ==> |NatToString(n)| <= 2
    ensures 1000 <= n < 10000 ==> |NatToString(n)| == 4
  {
    if 1000 <= n < 10000 {
      var k := |NatToString(n)|;
      if k < 4 {
        Pow10Monotone(k, 3);
      } else if k > 4 {
        Pow10Monotone(4, k - 1);
      }
    }
  }

  /** Two decimal digits with a leading zero, as `date()` prints `H` and `i`. */
  function Pad2(n: nat): (s: string)
    requires n < 100
    ensures |s| == 2 && AllDigits(s)
    ensures ParseDecimal(s) == n
  {
    var s := [DigitChar(n / 10), DigitChar(n % 10)];
    assert s[..1] == [s[0]] && s[..1][..0] == [];
    assert ParseDecimal(s[..1]) == DigitValue(s[0]);
    s
  }

  /** PHP's `str_replace` with a single search string: the subject is scanned
      from left to right and every non-overlapping occurrence is replaced; an
      empty search string leaves the subject as it is. */
  function ReplaceAll(s: string, search: string, replacement: string): (r: string)
    decreases |s|
  {
    if search == [] || |s| < |search| then s
    else if s[..|search|] == search then replacement + ReplaceAll(s[|search|..], search, replacement)
    else [s[0]] + ReplaceAll(s[1..], search, replacement)
  }

  /** A prefix that does not hold the first character of the search string
      passes through `str_replace` unchanged. */
  lemma {:induction false} ReplaceAllSkips(a: string, b: string, search: string, replacement: string)
    requires |search| > 0 && search[0] !in a
    ensures ReplaceAll(a + b, search, replacement) == a + ReplaceAll(b, search, replacement)
  {
    if a != [] {
      var s := a + b;
      if |s| >= |search| {
        assert a[0] in a;
        assert s[..|search|][0] == a[0];
        assert s[..|search|] != search;
        assert ReplaceAll(s, search, replacement) == [a[0]] + ReplaceAll(s[1..], search, replacement);
        assert s[1..] == a[1..] + b;
        ReplaceAllSkips(a[1..], b, search, replacement);
        assert [a[0]] + (a[1..] + ReplaceAll(b, search, replacement)) == a + ReplaceAll(b, search, replacement);
      } else {
        assert |b| < |search|;
      }
    } else {
      assert a + b == b;
    }
  }

  lemma ConcatAssoc(a: string, b: string, c: string)
    ensures (a + b) + c == a + (b + c)
  {
  }

  lemma CommaSpace(x: string, y: string)
    ensures (x + ",") + (" " + y) == x + (", " + y)
  {
    ConcatAssoc(x, ",", " " + y);
    ConcatAssoc(",", " ", y);
    assert "," + " " == ", ";
  }

  /** PHP's `ucfirst`: the first character, when it is a lower-case ASCII
      letter, becomes upper case. */
  function Ucfirst(s: string): (r: string)
    ensures |r| == |s|
    ensures |s| > 0 ==> r[1..] == s[1..]
    ensures |s| > 0 && 'a' <= s[0] <= 'z' ==> 'A' <= r[0] <= 'Z' && r[0] as int + 32 == s[0] as int
    ensures |s| > 0 && !('a' <= s[0] <= 'z') ==> r == s
  {
    if |s| > 0 && 'a' <= s[0] <= 'z' then [(s[0] as int - 32) as char] + s[1..] else s
  }

  /** s begins and ends with something other than a space. */
  predicate Trimmed(s: string) { |s| > 0 && s[0] != ' ' && s[|s| - 1] != ' ' }

  /** No two spaces stand next to each other in s. */
  predicate NoDoubleSpace(s: string)
  {
    forall i :: 0 <= i < |s| - 1 ==> !(s[i] == ' ' && s[i + 1] == ' ')
  }

  lemma WordIsTrimmed(s: string)
    requires |s| > 0 && ' ' !in s
    ensures Trimmed(s) && NoDoubleSpace(s)
  {
    assert s[0] in s && s[|s| - 1] in s;
  }

  /** Joining two trimmed strings without double spaces by exactly one space
      gives a trimmed string without double spaces. */
  lemma SpaceJoin(a: string, b: string)
    requires Trimmed(a) && NoDoubleSpace(a)
    requires Trimmed(b) && NoDoubleSpace(b)
    ensures Trimmed(a + " " + b) && NoDoubleSpace(a + " " + b)
  {
    var s := a + " " + b;
    forall i | 0 <= i < |s| - 1
      ensures !(s[i] == ' ' && s[i + 1] == ' ')
    {
      if i + 1 < |a| {
        assert s[i] == a[i] && s[i + 1] == a[i + 1];
      } else if i + 1 == |a| {
        assert s[i] == a[|a| - 1];
      } else if i == |a| {
        assert s[i + 1] == b[0];
      } else {
        assert s[i] == b[i - |a| - 1] && s[i + 1] == b[i - |a|];
      }
    }
  }

  /** Four decimal digits start at position i of s. */
  predicate FourDigitsAt(s: string, i: nat)
  {
    i + 4 <= |s| && AllDigits(s[i..i + 4])
  }

  /** No four decimal digits stand next to each other in s. */
  ghost predicate NoFourDigitRun(s: string)
  {
    forall i: nat :: !FourDigitsAt(s, i)
  }

  /** needle occurs in s starting at position i. */
  predicate OccursAt(needle: string, s: string, i: nat)
  {
    i + |needle| <= |s| && s[i..i + |needle|] == needle
  }

  /** needle occurs in s as a contiguous substring. */
  ghost predicate Occurs(needle: string, s: string)
  {
    exists i: nat :: OccursAt(needle, s, i)
  }

  lemma NoDigitsNoRun(s: string)
    requires forall i :: 0 <= i < |s| ==> !IsDigit(s[i])
    ensures NoFourDigitRun(s)
  {
    forall i: nat | i + 4 <= |s|
      ensures !FourDigitsAt(s, i)
    {
      assert s[i..i + 4][0] == s[i];
    }
  }

  /** Gluing two strings without a four-digit run around one non-digit keeps
      the result free of four-digit runs. */
  lemma NoFourDigitRunJoin(a: string, c: char, b: string)
    requires NoFourDigitRun(a) && NoFourDigitRun(b) && !IsDigit(c)
    ensures NoFourDigitRun(a + [c] + b)
  {
    var s := a + [c] + b;
    forall i: nat | i + 4 <= |s|
      ensures !FourDigitsAt(s, i)
    {
      if i + 4 <= |a| {
        assert s[i..i + 4] == a[i..i + 4];
        assert !FourDigitsAt(a, i);
      } else if i <= |a| {
        assert s[i..i + 4][|a| - i] == c;
      } else {
        var j: nat := i - |a| - 1;
        assert s[i..i + 4] == b[j..j + 4];
        assert !FourDigitsAt(b, j);
      }
    }
  }

  /** A four-digit string cannot occur in a string without four-digit runs. */
  lemma NoRunExcludes(needle: string, s: string)
    requires |needle| == 4 && AllDigits(needle) && NoFourDigitRun(s)
    ensures !Occurs(needle, s)
  {
    forall i: nat ensures !OccursAt(needle, s, i) {
      assert !FourDigitsAt(s, i);
    }
  }

  lemma OccursAtEnd(a: string, needle: string)
    ensures Occurs(needle, a + needle)
  {
    var s := a + needle;
    assert s[|a|..|a| + |needle|] == needle;
    assert OccursAt(needle, s, |a|);
  }
}
