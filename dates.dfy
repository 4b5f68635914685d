/** Calendar dates as Python's `date` sees them: a proleptic Gregorian day
    number (`date.toordinal()`), its ISO rendering (`str(date)`), and the
    day arithmetic `date + timedelta(days=n)`. */
module Dates {
  import opened Wrappers

  /** `date.max.toordinal()`, the ordinal of 9999-12-31; 0001-01-01 is day 1. */
  const MaxOrdinal: int := 3652059

  /** A value of Python's `date` type, as its ordinal. */
  type Date = d: int | 1 <= d <= MaxOrdinal witness 1

  /** `d + timedelta(days=n)`, which raises OverflowError when the result
      falls outside 0001-01-01 .. 9999-12-31. */
  function AddDays(d: Date, n: int): (r: Option<Date>)
    ensures r.Some? <==> 1 <= d + n <= MaxOrdinal
    ensures r.Some? ==> r.value - d == n
  {
    if 1 <= d + n <= MaxOrdinal then Some(d + n) else None
  }

  /** Year, month and day of a date. */
  datatype CivilDate = CivilDate(year: int, month: int, day: int)

  predicate IsLeapYear(year: int)
  {
    year % 4 == 0 && (year % 100 != 0 || year % 400 == 0)
  }

  /** Days in `month` of a common year (`_DAYS_IN_MONTH`). */
  function CommonMonthLength(month: int): int
  {
    if month == 2 then 28
    else if month == 4 || month == 6 || month == 9 || month == 11 then 30
    else 31
  }

  /** Days before the first of `month` in a common year (`_DAYS_BEFORE_MONTH`). */
  function CommonDaysBeforeMonth(month: int): int
  {
    if month <= 1 then 0
    else if month == 2 then 31
    else if month == 3 then 59
    else if month == 4 then 90
    else if month == 5 then 120
    else if month == 6 then 151
    else if month == 7 then 181
    else if month == 8 then 212
    else if month == 9 then 243
    else if month == 10 then 273
    else if month == 11 then 304
    else 334
  }

  function DaysInMonth(year: int, month: int): int
  {
    CommonMonthLength(month) + (if month == 2 && IsLeapYear(year) then 1 else 0)
  }

  function DaysBeforeMonth(year: int, month: int): int
  {
    CommonDaysBeforeMonth(month) + (if month > 2 && IsLeapYear(year) then 1 else 0)
  }

  /** Days in the years before `year` (year 1 starts the count). */
  function DaysBeforeYear(year: int): int
  {
    var y := year - 1;
    y * 365 + y / 4 - y / 100 + y / 400
  }

  /** `date(year, month, day).toordinal()` */
  function ToOrdinal(c: CivilDate): int
  {
    DaysBeforeYear(c.year) + DaysBeforeMonth(c.year, c.month) + c.day
  }

  predicate ValidCivil(c: CivilDate)
  {
    1 <= c.year <= 9999 && 1 <= c.month <= 12 && 1 <= c.day <= DaysInMonth(c.year, c.month)
  }

  /** Month and day of month of the zero-based day `n` of a year:
      estimate the month as `(n + 50) >> 5`, then correct it by one. */
  function MonthAndDay(n: int, leap: bool): (md: (int, int))
  {
    var month := (n + 50) / 32;
    var preceding := CommonDaysBeforeMonth(month) + (if month > 2 && leap then 1 else 0);
    if preceding > n then
      var m := month - 1;
      var preceding' := preceding - (CommonMonthLength(m) + (if m == 2 && leap then 1 else 0));
      (m, n - preceding' + 1)
    else
      (month, n - preceding + 1)
  }

  /** Position of the zero-based day `n0` in the 400-, 100-, 4- and 1-year
      cycles, and the day within the remaining year. */
  datatype Cycles = Cycles(n400: int, n100: int, n4: int, n1: int, n: int)

  function SplitCycles(n0: nat): Cycles
  {
    var n100 := n0 % 146097 / 36524;
    var r100 := n0 % 146097 % 36524;
    Cycles(n0 / 146097, n100, r100 / 1461, r100 % 1461 / 365, r100 % 1461 % 365)
  }

  /** The date at a position in the cycles. */
  function FromCycles(p: Cycles): CivilDate
  {
    var year := p.n400 * 400 + 1 + p.n100 * 100 + p.n4 * 4 + p.n1;
    if p.n1 == 4 || p.n100 == 4 then
      CivilDate(year - 1, 12, 31)
    else
      var md := MonthAndDay(p.n, p.n1 == 3 && (p.n4 != 24 || p.n100 == 3));
      CivilDate(year, md.0, md.1)
  }

  /** `date.fromordinal(d)`: split off 400-, 100-, 4- and 1-year cycles, then
      find the month within the remaining year. */
  function FromOrdinal(d: Date): CivilDate
  {
    FromCycles(SplitCycles(d - 1))
  }

  lemma SplitCyclesBounds(n0: nat)
    ensures var p := SplitCycles(n0);
      && n0 == 146097 * p.n400 + 36524 * p.n100 + 1461 * p.n4 + 365 * p.n1 + p.n
      && 0 <= p.n400 && 0 <= p.n100 <= 4 && 0 <= p.n4 <= 24 && 0 <= p.n1 <= 4 && 0 <= p.n < 365
      && (p.n100 == 4 ==> p.n4 == 0 && p.n1 == 0 && p.n == 0)
      && (p.n1 == 4 ==> p.n == 0)
      && (p.n100 < 4 ==> 1461 * p.n4 + 365 * p.n1 + p.n < 36524)
  {
  }

  lemma DivMod4(x: int, q: int, r: int)
    requires x == 4 * q + r && 0 <= r < 4
    ensures x / 4 == q && x % 4 == r
  {
  }

  lemma DivMod100(x: int, q: int, r: int)
    requires x == 100 * q + r && 0 <= r < 100
    ensures x / 100 == q && x % 100 == r
  {
  }

  lemma DivMod400(x: int, q: int, r: int)
    requires x == 400 * q + r && 0 <= r < 400
    ensures x / 400 == q && x % 400 == r
  {
  }

  /** Days before a year given by its position in the 400-, 100-, 4- and
      1-year cycles. */
  lemma DaysBeforeCycles(a: int, b: int, c: int, e: int)
    requires 0 <= a && 0 <= b < 4 && 0 <= c < 25 && 0 <= e < 4
    ensures DaysBeforeYear(400 * a + 100 * b + 4 * c + e + 1) == 146097 * a + 36524 * b + 1461 * c + 365 * e
  {
    var y := 400 * a + 100 * b + 4 * c + e;
    DivMod4(y, 100 * a + 25 * b + c, e);
    DivMod100(y, 4 * a + b, 4 * c + e);
    DivMod400(y, a, 100 * b + 4 * c + e);
  }

  /** The leap-year test of `date.fromordinal`, read off the cycle positions. */
  lemma LeapFromCycles(a: int, b: int, c: int, e: int)
    requires 0 <= a && 0 <= b < 4 && 0 <= c < 25 && 0 <= e < 4
    ensures IsLeapYear(400 * a + 100 * b + 4 * c + e + 1) == (e == 3 && (c != 24 || b == 3))
  {
    var year := 400 * a + 100 * b + 4 * c + e + 1;
    if e == 3 {
      DivMod4(year, 100 * a + 25 * b + c + 1, 0);
      if c == 24 {
        DivMod100(year, 4 * a + b + 1, 0);
        if b == 3 {
          DivMod400(year, a + 1, 0);
        } else {
          DivMod400(year, a, 100 * b + 100);
        }
      } else {
        DivMod100(year, 4 * a + b, 4 * c + 4);
      }
    } else {
      DivMod4(year, 100 * a + 25 * b + c, e + 1);
    }
  }

  /** The month estimate lands on the right month, and the day is in range. */
  lemma MonthAndDayCorrect(n: int, leap: bool)
    requires 0 <= n < 365
    ensures var md := MonthAndDay(n, leap);
      && 1 <= md.0 <= 12
      && 1 <= md.1 <= CommonMonthLength(md.0) + (if md.0 == 2 && leap then 1 else 0)
      && CommonDaysBeforeMonth(md.0) + (if md.0 > 2 && leap then 1 else 0) + md.1 == n + 1
  {
    var month := (n + 50) / 32;
    assert 1 <= month <= 12;
  }

  /** The last day of a 4-year or 100-year cycle is December 31. */
  lemma YearEndInverse(a: int, b: int, c: int)
    requires 0 <= a <= 24 && 0 <= b < 4 && 0 <= c < 25
    requires c == 24 ==> b == 3
    requires 146097 * a + 36524 * b + 1461 * c + 365 * 4 + 1 <= MaxOrdinal
    ensures var year := 400 * a + 100 * b + 4 * c + 3 + 1;
      && ValidCivil(CivilDate(year, 12, 31))
      && ToOrdinal(CivilDate(year, 12, 31)) == 146097 * a + 36524 * b + 1461 * c + 365 * 4 + 1
  {
    DaysBeforeCycles(a, b, c, 3);
    LeapFromCycles(a, b, c, 3);
  }

  /** Every other day: the month and day found within the year. */
  lemma WithinYearInverse(a: int, b: int, c: int, e: int, n: int)
    requires 0 <= a <= 24 && 0 <= b < 4 && 0 <= c < 25 && 0 <= e < 4 && 0 <= n < 365
    requires 146097 * a + 36524 * b + 1461 * c + 365 * e + n < MaxOrdinal
    ensures var year := 400 * a + 100 * b + 4 * c + e + 1;
      var md := MonthAndDay(n, e == 3 && (c != 24 || b == 3));
      && ValidCivil(CivilDate(year, md.0, md.1))
      && ToOrdinal(CivilDate(year, md.0, md.1)) == 146097 * a + 36524 * b + 1461 * c + 365 * e + n + 1
  {
    DaysBeforeCycles(a, b, c, e);
    LeapFromCycles(a, b, c, e);
    MonthAndDayCorrect(n, e == 3 && (c != 24 || b == 3));
  }

  /** `toordinal` undoes `date.fromordinal`, whose result is a real calendar date. */
  lemma FromOrdinalInverse(d: Date)
    ensures ValidCivil(FromOrdinal(d))
    ensures ToOrdinal(FromOrdinal(d)) == d
  {
    var p := SplitCycles(d - 1);
    SplitCyclesBounds(d - 1);
    CyclesInverse(p, d);
  }

  lemma CyclesInverse(p: Cycles, d: Date)
    requires d - 1 == 146097 * p.n400 + 36524 * p.n100 + 1461 * p.n4 + 365 * p.n1 + p.n
    requires 0 <= p.n400 && 0 <= p.n100 <= 4 && 0 <= p.n4 <= 24 && 0 <= p.n1 <= 4 && 0 <= p.n < 365
    requires p.n100 == 4 ==> p.n4 == 0 && p.n1 == 0 && p.n == 0
    requires p.n1 == 4 ==> p.n == 0
    requires p.n100 < 4 ==> 1461 * p.n4 + 365 * p.n1 + p.n < 36524
    ensures ValidCivil(FromCycles(p)) && ToOrdinal(FromCycles(p)) == d
  {
    if p.n100 == 4 {
      YearEndInverse(p.n400, 3, 24);
    } else if p.n1 == 4 {
      YearEndInverse(p.n400, p.n100, p.n4);
    } else {
      WithinYearInverse(p.n400, p.n100, p.n4, p.n1, p.n);
    }
  }

  /** The character of the decimal digit `k`. */
  function DigitChar(k: int): char
    requires 0 <= k < 10
  {
    "0123456789"[k]
  }

  /** Decimal digits of `n`, most significant first, without leading zeros. */
  function Digits(n: nat): (s: string)
    ensures 1 <= |s|
    ensures forall i :: 0 <= i < |s| ==> '0' <= s[i] <= '9'
  {
    if n < 10 then [DigitChar(n)] else Digits(n / 10) + [DigitChar(n % 10)]
  }

  /** The number a string of decimal digits stands for. */
  function DecimalValue(s: string): nat
    requires forall i :: 0 <= i < |s| ==> '0' <= s[i] <= '9'
  {
    if s == [] then 0 else 10 * DecimalValue(s[..|s| - 1]) + (s[|s| - 1] - '0') as nat
  }

  function Zeros(k: nat): (s: string)
    ensures |s| == k && forall i :: 0 <= i < k ==> s[i] == '0'
  {
    if k == 0 then "" else "0" + Zeros(k - 1)
  }

  /** `"%0*d" % (width, n)` for a non-negative `n`. */
  function ZeroPadded(n: nat, width: nat): (s: string)
    ensures forall i :: 0 <= i < |s| ==> '0' <= s[i] <= '9'
  {
    var ds := Digits(n);
    Zeros(if |ds| < width then width - |ds| else 0) + ds
  }

  /** `str(d)`, that is `d.isoformat()`: YYYY-MM-DD. */
  function IsoFormat(d: Date): string
  {
    var c := FromOrdinal(d);
    FromOrdinalInverse(d);
    ZeroPadded(c.year, 4) + "-" + ZeroPadded(c.month, 2) + "-" + ZeroPadded(c.day, 2)
  }

  /** Reads back the date of a YYYY-MM-DD text. */
  function ReadIso(s: string): int
    requires |s| == 10
    requires forall i :: 0 <= i < 10 && i != 4 && i != 7 ==> '0' <= s[i] <= '9'
  {
    ToOrdinal(CivilDate(DecimalValue(s[..4]), DecimalValue(s[5..7]), DecimalValue(s[8..])))
  }

  lemma {:induction false} DigitsValue(n: nat)
    ensures DecimalValue(Digits(n)) == n
  {
    if n >= 10 {
      var s := Digits(n);
      assert s[..|s| - 1] == Digits(n / 10);
      DigitsValue(n / 10);
    }
  }

  lemma {:induction false} DigitsLength(n: nat, k: nat)
    requires n < Pow10(k) && 1 <= k
    ensures |Digits(n)| <= k
  {
    if n >= 10 {
      DigitsLength(n / 10, k - 1);
    }
  }

  function Pow10(k: nat): nat
  {
    if k == 0 then 1 else 10 * Pow10(k - 1)
  }

  lemma {:induction false} LeadingZerosValue(z: nat, s: string)
    requires forall i :: 0 <= i < |s| ==> '0' <= s[i] <= '9'
    ensures DecimalValue(Zeros(z) + s) == DecimalValue(s)
  {
    if s == [] {
      ZerosValue(z);
      assert Zeros(z) + s == Zeros(z);
    } else {
      var t := Zeros(z) + s;
      assert t[..|t| - 1] == Zeros(z) + s[..|s| - 1];
      LeadingZerosValue(z, s[..|s| - 1]);
    }
  }

  lemma {:induction false} ZerosValue(z: nat)
    ensures DecimalValue(Zeros(z)) == 0
  {
    if z > 0 {
      assert Zeros(z)[..z - 1] == Zeros(z - 1);
      ZerosValue(z - 1);
    }
  }

  /** A padded field is exactly `width` long when `n` has at most `width`
      digits, and reads back as `n`. */
  lemma PaddedField(n: nat, width: nat)
    requires 1 <= width && n < Pow10(width)
    ensures |ZeroPadded(n, width)| == width
    ensures DecimalValue(ZeroPadded(n, width)) == n
  {
    DigitsLength(n, width);
    DigitsValue(n);
    LeadingZerosValue(width - |Digits(n)|, Digits(n));
  }

  /** The three fields of a YYYY-MM-DD text. */
  lemma IsoFields(y: string, m: string, d: string)
    requires |y| == 4 && |m| == 2 && |d| == 2
    ensures var s := y + "-" + m + "-" + d;
      |s| == 10 && s[..4] == y && s[5..7] == m && s[8..] == d && s[4] == '-' && s[7] == '-'
      && (forall i :: 0 <= i < 4 ==> s[i] == y[i])
      && (forall i :: 5 <= i < 7 ==> s[i] == m[i - 5])
      && (forall i :: 8 <= i < 10 ==> s[i] == d[i - 8])
  {
  }

  /** The ISO text of a date is ten characters, YYYY-MM-DD, and determines
      the date: reading it back gives the same day number. */
  lemma IsoFormatRoundTrip(d: Date)
    ensures |IsoFormat(d)| == 10
    ensures IsoFormat(d)[4] == '-' && IsoFormat(d)[7] == '-'
    ensures forall i :: 0 <= i < 10 && i != 4 && i != 7 ==> '0' <= IsoFormat(d)[i] <= '9'
    ensures ReadIso(IsoFormat(d)) == d
  {
    var c := FromOrdinal(d);
    FromOrdinalInverse(d);
    assert Pow10(2) == 100 && Pow10(4) == 10000;
    var y, m, dd := ZeroPadded(c.year, 4), ZeroPadded(c.month, 2), ZeroPadded(c.day, 2);
    PaddedField(c.year, 4);
    PaddedField(c.month, 2);
    PaddedField(c.day, 2);
    IsoFields(y, m, dd);
    assert IsoFormat(d) == y + "-" + m + "-" + dd;
  }
}
