/** The weekly window: the end date six days after the start on the
    proleptic Gregorian calendar (Python's `date + timedelta(days=6)`),
    the `%Y/%m/%d` date texts, the Gmail search query and the two output
    file names. */
module Window {
  import opened Wrappers
  import opened Text

  datatype Date = Date(year: int, month: int, day: int)

  /** Python's `datetime.MINYEAR` and `datetime.MAXYEAR`. */
  const MinYear := 1
  const MaxYear := 9999

  predicate IsLeap(y: int)
  {
    y % 4 == 0 && (y % 100 != 0 || y % 400 == 0)
  }

  function DaysInYear(y: int): int
  {
    if IsLeap(y) then 366 else 365
  }

  function DaysInMonth(y: int, m: int): int
    requires 1 <= m <= 12
  {
    if m == 2 then (if IsLeap(y) then 29 else 28)
    else if m == 4 || m == 6 || m == 9 || m == 11 then 30
    else 31
  }

  predicate ValidDate(d: Date)
  {
    MinYear <= d.year <= MaxYear && 1 <= d.month <= 12 && 1 <= d.day <= DaysInMonth(d.year, d.month)
  }

  /** A date Python's `datetime` can represent. */
  type CivilDate = d: Date | ValidDate(d) witness Date(1, 1, 1)

  /** Days in the years before `y`. */
  function DaysBeforeYear(y: int): int
    requires y >= 1
  {
    var z := y - 1;
    365 * z + z / 4 - z / 100 + z / 400
  }

  /** Days in the months of year `y` before month `m`. */
  function DaysBeforeMonth(y: int, m: int): int
    requires 1 <= m <= 12
  {
    var common :=
      if m == 1 then 0 else if m == 2 then 31 else if m == 3 then 59
      else if m == 4 then 90 else if m == 5 then 120 else if m == 6 then 151
      else if m == 7 then 181 else if m == 8 then 212 else if m == 9 then 243
      else if m == 10 then 273 else if m == 11 then 304 else 334;
    if m > 2 && IsLeap(y) then common + 1 else common
  }

  /** Python's `date.toordinal()`: 0001-01-01 is day 1. */
  function Ordinal(d: CivilDate): int
  {
    DaysBeforeYear(d.year) + DaysBeforeMonth(d.year, d.month) + d.day
  }

  /** The last representable date, 9999-12-31. */
  const LastDate: CivilDate := Date(MaxYear, 12, 31)

  lemma YearStep(y: int)
    requires y >= 1
    ensures DaysBeforeYear(y + 1) == DaysBeforeYear(y) + DaysInYear(y)
  {
    var z := y - 1;
    assert y / 4 == z / 4 + (if y % 4 == 0 then 1 else 0);
    assert y / 100 == z / 100 + (if y % 100 == 0 then 1 else 0);
    assert y / 400 == z / 400 + (if y % 400 == 0 then 1 else 0);
  }

  lemma MonthStep(y: int, m: int)
    requires 1 <= m < 12
    ensures DaysBeforeMonth(y, m + 1) == DaysBeforeMonth(y, m) + DaysInMonth(y, m)
  {
  }

  /** Calendar order: year first, then month, then day. */
  predicate Before(d1: Date, d2: Date)
  {
    || d1.year < d2.year
    || (d1.year == d2.year && d1.month < d2.month)
    || (d1.year == d2.year && d1.month == d2.month && d1.day < d2.day)
  }

  /** A date's ordinal lies within its own year. */
  lemma WithinYear(d: CivilDate)
    ensures DaysBeforeYear(d.year) < Ordinal(d) <= DaysBeforeYear(d.year) + DaysInYear(d.year)
  {
    assert DaysBeforeMonth(d.year, d.month) + DaysInMonth(d.year, d.month) <= DaysInYear(d.year);
  }

  /** The days of year `y` all come before year `z > y`. */
  lemma {:induction false} YearsOrdered(y: int, z: int)
    requires 1 <= y < z
    ensures DaysBeforeYear(y) + DaysInYear(y) <= DaysBeforeYear(z)
    decreases z - y
  {
    YearStep(y);
    if y + 1 < z {
      YearsOrdered(y + 1, z);
    }
  }

  /** The days of month `m` all come before month `n > m` of the same year. */
  lemma MonthsOrdered(y: int, m: int, n: int)
    requires 1 <= m < n <= 12
    ensures DaysBeforeMonth(y, m) + DaysInMonth(y, m) <= DaysBeforeMonth(y, n)
  {
  }

  /** The ordinal follows calendar order, in both directions. */
  lemma OrdinalOrder(d1: CivilDate, d2: CivilDate)
    ensures Before(d1, d2) <==> Ordinal(d1) < Ordinal(d2)
  {
    WithinYear(d1);
    WithinYear(d2);
    if d1.year < d2.year {
      YearsOrdered(d1.year, d2.year);
    } else if d2.year < d1.year {
      YearsOrdered(d2.year, d1.year);
    } else if d1.month < d2.month {
      MonthsOrdered(d1.year, d1.month, d2.month);
    } else if d2.month < d1.month {
      MonthsOrdered(d1.year, d2.month, d1.month);
    }
  }

  /** Different dates have different ordinals, so a contract that fixes a
      result's ordinal fixes the date. */
  lemma OrdinalInjective(d1: CivilDate, d2: CivilDate)
    ensures d1 == d2 <==> Ordinal(d1) == Ordinal(d2)
  {
    OrdinalOrder(d1, d2);
    OrdinalOrder(d2, d1);
  }

  /** The day after `d`, or None after 9999-12-31 (Python's OverflowError). */
  function NextDay(d: CivilDate): (r: Option<CivilDate>)
    ensures r.Some? ==> Ordinal(r.value) == Ordinal(d) + 1
    ensures r.None? <==> d == LastDate
  {
    if d.day < DaysInMonth(d.year, d.month) then
      Some(Date(d.year, d.month, d.day + 1))
    else if d.month < 12 then
      MonthStep(d.year, d.month);
      Some(Date(d.year, d.month + 1, 1))
    else if d.year < MaxYear then
      YearStep(d.year);
      Some(Date(d.year + 1, 1, 1))
    else
      None
  }

  /** No date lies after 9999-12-31. */
  lemma {:induction false} YearsBounded(y: int)
    requires MinYear <= y <= MaxYear
    ensures DaysBeforeYear(y) + DaysInYear(y) <= Ordinal(LastDate)
    decreases MaxYear - y
  {
    if y < MaxYear {
      YearsBounded(y + 1);
      YearStep(y);
    }
  }

  lemma OrdinalBounded(d: CivilDate)
    ensures Ordinal(d) <= Ordinal(LastDate)
  {
    YearsBounded(d.year);
    if d.month < 12 {
      assert DaysBeforeMonth(d.year, d.month) + DaysInMonth(d.year, d.month) <= DaysBeforeMonth(d.year, 12);
    }
  }

  /** `d + timedelta(days=n)`, or None where Python raises OverflowError. */
  function AddDays(d: CivilDate, n: nat): (r: Option<CivilDate>)
    ensures r.Some? ==> Ordinal(r.value) == Ordinal(d) + n
    ensures r.None? <==> Ordinal(d) + n > Ordinal(LastDate)
    decreases n
  {
    if n == 0 then OrdinalBounded(d); Some(d)
    else
      match NextDay(d)
      case None => None
      case Some(e) => AddDays(e, n - 1)
  }

  /** The length of the digest window after its first day. */
  const WindowDays := 6

  datatype DigestWindow = DigestWindow(after: CivilDate, before: CivilDate)

  /** `after_date` and `after_date + timedelta(days=6)`. */
  function MakeWindow(start: CivilDate): (r: Option<DigestWindow>)
    ensures r.Some? ==> r.value.after == start && Ordinal(r.value.before) == Ordinal(start) + WindowDays
    ensures r.None? <==> Ordinal(start) + WindowDays > Ordinal(LastDate)
  {
    match AddDays(start, WindowDays)
    case None => None
    case Some(e) => Some(DigestWindow(start, e))
  }

  function DigitChar(n: int): char
    requires 0 <= n < 10
  {
    ('0' as int + n) as char
  }

  predicate IsDigit(c: char)
  {
    '0' <= c <= '9'
  }

  /** `n` in decimal, zero-padded to `width` digits (its last `width`
      digits when it is wider). */
  function Padded(n: nat, width: nat): (s: string)
    ensures |s| == width && forall i :: 0 <= i < |s| ==> IsDigit(s[i])
  {
    if width == 0 then "" else Padded(n / 10, width - 1) + [DigitChar(n % 10)]
  }

  function Pow10(k: nat): nat
  {
    if k == 0 then 1 else 10 * Pow10(k - 1)
  }

  /** The number a string of decimal digits stands for. */
  function DigitsValue(s: string): int
  {
    if s == [] then 0 else 10 * DigitsValue(s[..|s| - 1]) + (s[|s| - 1] as int - '0' as int)
  }

  /** Padding loses nothing when the number fits. */
  lemma {:induction false} PaddedValue(n: nat, width: nat)
    requires n < Pow10(width)
    ensures DigitsValue(Padded(n, width)) == n
  {
    if width > 0 {
      PaddedValue(n / 10, width - 1);
      var s := Padded(n, width);
      assert s[..|s| - 1] == Padded(n / 10, width - 1);
    }
  }

  /** `strftime('%Y/%m/%d')`. */
  function Slashed(d: CivilDate): string
  {
    Padded(d.year, 4) + "/" + Padded(d.month, 2) + "/" + Padded(d.day, 2)
  }

  /** `strftime('%Y/%m/%d').replace('/', '')`. */
  function Compact(d: CivilDate): string
  {
    Replace(Slashed(d), "/", "")
  }

  /** Reading the three numbers back from a `YYYY/MM/DD` text. */
  function ReadSlashed(s: string): Date
    requires |s| == 10
  {
    Date(DigitsValue(s[..4]), DigitsValue(s[5..7]), DigitsValue(s[8..]))
  }

  /** The slash-separated text is ten characters with slashes at 4 and 7
      and gives the date back. */
  lemma SlashedRoundTrip(d: CivilDate)
    ensures var s := Slashed(d);
      |s| == 10 && s[4] == '/' && s[7] == '/' && ReadSlashed(s) == d
  {
    var s := Slashed(d);
    PaddedValue(d.year, 4);
    PaddedValue(d.month, 2);
    PaddedValue(d.day, 2);
    assert s[..4] == Padded(d.year, 4);
    assert s[5..7] == Padded(d.month, 2);
    assert s[8..] == Padded(d.day, 2);
  }

  /** Replacing the two slashes of `y/m/d` by nothing when the three
      fields hold none. */
  lemma DropSlashes(y: string, m: string, dd: string)
    requires '/' !in y && '/' !in m && '/' !in dd
    ensures Replace(y + "/" + m + "/" + dd, "/", "") == y + m + dd
  {
    SlashSplit(y, m, dd);
    JoinThree(y, m, dd);
  }

  lemma SlashSplit(y: string, m: string, dd: string)
    requires '/' !in y && '/' !in m && '/' !in dd
    ensures Split(y + "/" + m + "/" + dd, "/") == [y, m, dd]
  {
    SplitWhole(dd, "/");
    SplitAfter(m, "/", dd);
    SplitAfter(y, "/", m + "/" + dd);
    assert y + "/" + m + "/" + dd == y + "/" + (m + "/" + dd);
  }

  lemma JoinThree(y: string, m: string, dd: string)
    ensures Join("", [y, m, dd]) == y + m + dd
  {
    assert Join("", [m, dd]) == m + "" + Join("", [dd]);
    assert Join("", [y, m, dd]) == y + "" + Join("", [m, dd]);
  }

  lemma DigitsLackChar(s: string, c: char)
    requires !IsDigit(c) && forall i :: 0 <= i < |s| ==> IsDigit(s[i])
    ensures c !in s
  {
  }

  /** Removing the slashes leaves the eight digits `YYYYMMDD`. */
  lemma CompactDigits(d: CivilDate)
    ensures Compact(d) == Padded(d.year, 4) + Padded(d.month, 2) + Padded(d.day, 2)
  {
    var y, m, dd := Padded(d.year, 4), Padded(d.month, 2), Padded(d.day, 2);
    DigitsLackChar(y, '/');
    DigitsLackChar(m, '/');
    DigitsLackChar(dd, '/');
    DropSlashes(y, m, dd);
  }

  /** `f'subject:{subject_filter} after:{a} before:{b}'`. */
  function Query(subjectFilter: string, w: DigestWindow): string
  {
    "subject:" + subjectFilter + " after:" + Slashed(w.after) + " before:" + Slashed(w.before)
  }

  const RawSuffix := ".txt"
  const FormattedSuffix := "_formatted.txt"

  /** `f'output_{a}-{b}.txt'` with slash-free dates. */
  function RawFileName(w: DigestWindow): string
  {
    "output_" + Compact(w.after) + "-" + Compact(w.before) + RawSuffix
  }

  /** `output_filename.replace('.txt', '_formatted.txt')`. */
  function FormattedFileName(w: DigestWindow): string
  {
    Replace(RawFileName(w), RawSuffix, FormattedSuffix)
  }

  /** Replacing a suffix that occurs only at the end. */
  lemma ReplaceSuffix(stem: string, suffix: string, replacement: string)
    requires |suffix| > 0 && suffix[0] !in stem
    ensures Replace(stem + suffix, suffix, replacement) == stem + replacement
  {
    SplitAfter(stem, suffix, "");
    SplitWhole("", suffix);
    assert stem + suffix + "" == stem + suffix;
    assert Split(stem + suffix, suffix) == [stem, ""];
    assert Join(replacement, [stem, ""]) == stem + replacement + Join(replacement, [""]);
  }

  /** The raw file name is `output_YYYYMMDD-YYYYMMDD.txt`, and the formatted
      one has the same stem with `_formatted.txt`: `.txt` occurs only once,
      at the end. */
  lemma FileNames(w: DigestWindow)
    ensures RawFileName(w) == "output_" + Padded(w.after.year, 4) + Padded(w.after.month, 2) + Padded(w.after.day, 2)
                              + "-" + Padded(w.before.year, 4) + Padded(w.before.month, 2) + Padded(w.before.day, 2)
                              + ".txt"
    ensures FormattedFileName(w) == "output_" + Compact(w.after) + "-" + Compact(w.before) + "_formatted.txt"
  {
    CompactDigits(w.after);
    CompactDigits(w.before);
    FileNameAssociation(Padded(w.after.year, 4), Padded(w.after.month, 2), Padded(w.after.day, 2),
                Padded(w.before.year, 4), Padded(w.before.month, 2), Padded(w.before.day, 2));
    CompactLacks(w.after, '.');
    CompactLacks(w.before, '.');
    StemLacksDot(Compact(w.after), Compact(w.before));
    ReplaceSuffix("output_" + Compact(w.after) + "-" + Compact(w.before), RawSuffix, FormattedSuffix);
  }

  /** The file name with the date stems grouped, and without. */
  lemma FileNameAssociation(y: string, m: string, d: string, y': string, m': string, d': string)
    ensures "output_" + (y + m + d) + "-" + (y' + m' + d') + ".txt"
         == "output_" + y + m + d + "-" + y' + m' + d' + ".txt"
  {
  }

  lemma CompactLacks(d: CivilDate, c: char)
    requires !IsDigit(c)
    ensures c !in Compact(d)
  {
    CompactDigits(d);
    DigitsLackChar(Padded(d.year, 4), c);
    DigitsLackChar(Padded(d.month, 2), c);
    DigitsLackChar(Padded(d.day, 2), c);
  }

  lemma StemLacksDot(a: string, b: string)
    requires '.' !in a && '.' !in b
    ensures '.' !in "output_" + a + "-" + b
  {
    assert '.' !in "output_";
  }

  /** The run the entry point starts: the week of 2025-05-05. */
  lemma WeekOfMay5()
    ensures MakeWindow(Date(2025, 5, 5)) == Some(DigestWindow(Date(2025, 5, 5), Date(2025, 5, 11)))
  {
    assert DaysInMonth(2025, 5) == 31;
    assert AddDays(Date(2025, 5, 11), 0) == Some(Date(2025, 5, 11));
    assert AddDays(Date(2025, 5, 10), 1) == Some(Date(2025, 5, 11));
    assert AddDays(Date(2025, 5, 9), 2) == Some(Date(2025, 5, 11));
    assert AddDays(Date(2025, 5, 8), 3) == Some(Date(2025, 5, 11));
    assert AddDays(Date(2025, 5, 7), 4) == Some(Date(2025, 5, 11));
    assert AddDays(Date(2025, 5, 6), 5) == Some(Date(2025, 5, 11));
  }

  /** The last day of a year rolls over into the next. */
  lemma YearRollover()
    ensures AddDays(Date(2024, 12, 28), 6) == Some(Date(2025, 1, 3))
  {
    assert AddDays(Date(2025, 1, 3), 0) == Some(Date(2025, 1, 3));
    assert AddDays(Date(2025, 1, 2), 1) == Some(Date(2025, 1, 3));
    assert AddDays(Date(2025, 1, 1), 2) == Some(Date(2025, 1, 3));
    assert AddDays(Date(2024, 12, 31), 3) == Some(Date(2025, 1, 3));
    assert AddDays(Date(2024, 12, 30), 4) == Some(Date(2025, 1, 3));
    assert AddDays(Date(2024, 12, 29), 5) == Some(Date(2025, 1, 3));
  }

  /** A window ending past 9999-12-31 overflows. */
  lemma LastWeekOverflows()
    ensures AddDays(Date(9999, 12, 26), 6) == None
  {
    assert AddDays(Date(9999, 12, 31), 1) == None;
    assert AddDays(Date(9999, 12, 30), 2) == None;
    assert AddDays(Date(9999, 12, 29), 3) == None;
    assert AddDays(Date(9999, 12, 28), 4) == None;
    assert AddDays(Date(9999, 12, 27), 5) == None;
  }

  /** February of a leap year has a 29th. */
  lemma LeapFebruary()
    ensures AddDays(Date(2024, 2, 25), 6) == Some(Date(2024, 3, 2))
  {
    assert IsLeap(2024) && DaysInMonth(2024, 2) == 29;
    assert AddDays(Date(2024, 3, 2), 0) == Some(Date(2024, 3, 2));
    assert AddDays(Date(2024, 3, 1), 1) == Some(Date(2024, 3, 2));
    assert AddDays(Date(2024, 2, 29), 2) == Some(Date(2024, 3, 2));
    assert AddDays(Date(2024, 2, 28), 3) == Some(Date(2024, 3, 2));
    assert AddDays(Date(2024, 2, 27), 4) == Some(Date(2024, 3, 2));
    assert AddDays(Date(2024, 2, 26), 5) == Some(Date(2024, 3, 2));
  }
}
