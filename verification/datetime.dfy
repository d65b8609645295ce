/** The slice of .NET `DateTime` the delete confirmation relies on: an instant
    counted in 100-nanosecond ticks from 0001-01-01 00:00:00 (proleptic
    Gregorian calendar), its rendering with the invariant-culture format
    `yyyy-MM-dd HH:mm:ss`, `DateTime.ParseExact` with that format, and
    `AddSeconds`. */
module DateTime {
  import opened Wrappers

  const TicksPerSecond: int := 10_000_000
  const SecondsPerDay: int := 86_400
  const TicksPerDay: int := 864_000_000_000
  /** Days from 0001-01-01 to 10000-01-01. */
  const DaysTo10000: int := 3_652_059
  /** `DateTime.MaxValue.Ticks`: 9999-12-31 23:59:59.9999999. */
  const MaxTicks: int := 3_155_378_975_999_999_999

  /** A representable `DateTime`. */
  type Instant = t: int | 0 <= t <= MaxTicks

  // ---------------------------------------------------------------------------
  // Calendar

  predicate IsLeapYear(y: int)
  {
    y % 4 == 0 && (y % 100 != 0 || y % 400 == 0)
  }

  function DaysInYear(y: int): int
  {
    if IsLeapYear(y) then 366 else 365
  }

  /** Days before the first of each month, and (last entry) in the whole year. */
  const DaysToMonth365: seq<int> := [0, 31, 59, 90, 120, 151, 181, 212, 243, 273, 304, 334, 365]
  const DaysToMonth366: seq<int> := [0, 31, 60, 91, 121, 152, 182, 213, 244, 274, 305, 335, 366]

  /** Days of year `y` before the first of month `m`; month 13 stands for the
      first day of the following year. */
  function DaysBeforeMonth(y: int, m: int): int
    requires 1 <= m <= 13
  {
    if IsLeapYear(y) then DaysToMonth366[m - 1] else DaysToMonth365[m - 1]
  }

  function DaysInMonth(y: int, m: int): int
    requires 1 <= m <= 12
  {
    DaysBeforeMonth(y, m + 1) - DaysBeforeMonth(y, m)
  }

  /** Days from 0001-01-01 to the first of January of year `y`. */
  function DaysBeforeYear(y: int): int
    requires y >= 1
  {
    var n := y - 1;
    n * 365 + n / 4 - n / 100 + n / 400
  }

  lemma MonthFacts(y: int, m: int)
    requires 1 <= m <= 12
    ensures 28 <= DaysInMonth(y, m) <= 31
    ensures DaysBeforeMonth(y, 1) == 0
    ensures DaysBeforeMonth(y, 13) == DaysInYear(y)
  {
  }

  lemma {:induction false} DaysBeforeMonthMonotone(y: int, m: int, m': int)
    requires 1 <= m <= m' <= 13
    ensures DaysBeforeMonth(y, m) <= DaysBeforeMonth(y, m')
    decreases m' - m
  {
    if m < m' {
      MonthFacts(y, m);
      DaysBeforeMonthMonotone(y, m + 1, m');
    }
  }

  /** Going from `n - 1` to `n`, the quotient by 4, 100 or 400 grows by one
      exactly when that divisor divides `n`. */
  lemma QuotientSteps(n: int)
    requires n >= 1
    ensures n / 4 - (n - 1) / 4 == if n % 4 == 0 then 1 else 0
    ensures n / 100 - (n - 1) / 100 == if n % 100 == 0 then 1 else 0
    ensures n / 400 - (n - 1) / 400 == if n % 400 == 0 then 1 else 0
  {
  }

  /** The day count grows by 365, plus one for each of 4, 100 and 400 that
      divides the year, minus the middle one. */
  lemma DaysBeforeYearDelta(y: int)
    requires y >= 1
    ensures DaysBeforeYear(y + 1) - DaysBeforeYear(y) ==
      365 + (if y % 4 == 0 then 1 else 0) - (if y % 100 == 0 then 1 else 0) + (if y % 400 == 0 then 1 else 0)
  {
    QuotientSteps(y);
  }

  lemma CenturyIsQuadrennial(y: int)
    requires y % 100 == 0
    ensures y % 4 == 0
  {
  }

  lemma QuadricentennialIsCentury(y: int)
    requires y % 400 == 0
    ensures y % 100 == 0
  {
  }

  lemma DaysBeforeYearStep(y: int)
    requires y >= 1
    ensures DaysBeforeYear(y + 1) == DaysBeforeYear(y) + DaysInYear(y)
  {
    DaysBeforeYearDelta(y);
    if y % 400 == 0 {
      QuadricentennialIsCentury(y);
    }
    if y % 100 == 0 {
      CenturyIsQuadrennial(y);
    }
  }

  lemma {:induction false} DaysBeforeYearMonotone(y: int, y': int)
    requires 1 <= y <= y'
    ensures DaysBeforeYear(y) + (y' - y) * 365 <= DaysBeforeYear(y')
    decreases y' - y
  {
    if y < y' {
      DaysBeforeYearStep(y);
      DaysBeforeYearMonotone(y + 1, y');
    }
  }

  /** The year containing day `n` counted from the start of year `y`, and the
      zero-based day within that year. */
  function YearOf(y: int, n: int): (r: (int, int))
    requires y >= 1 && n >= 0
    ensures r.0 >= y && 0 <= r.1 < DaysInYear(r.0)
    ensures DaysBeforeYear(r.0) + r.1 == DaysBeforeYear(y) + n
    decreases n
  {
    if n < DaysInYear(y) then (y, n)
    else
      DaysBeforeYearStep(y);
      YearOf(y + 1, n - DaysInYear(y))
  }

  /** The month containing zero-based day-of-year `doy`, searching from month
      `m`, and the one-based day within that month. */
  function MonthOf(y: int, m: int, doy: int): (r: (int, int))
    requires 1 <= m <= 12
    requires DaysBeforeMonth(y, m) <= doy < DaysInYear(y)
    ensures m <= r.0 <= 12 && 1 <= r.1 <= DaysInMonth(y, r.0)
    ensures DaysBeforeMonth(y, r.0) + r.1 - 1 == doy
    decreases 12 - m
  {
    MonthFacts(y, m);
    if doy < DaysBeforeMonth(y, m + 1) then (m, doy - DaysBeforeMonth(y, m) + 1)
    else MonthOf(y, m + 1, doy)
  }

  /** Day `DaysBeforeYear(y') - DaysBeforeYear(y) + d` from year `y` is day
      `d` of year `y'`: the year search finds the one year that fits. */
  lemma {:induction false} YearOfUnique(y: int, y': int, d: int)
    requires 1 <= y <= y' && 0 <= d < DaysInYear(y')
    ensures YearOf(y, DaysBeforeYear(y') - DaysBeforeYear(y) + d) == (y', d)
    decreases y' - y
  {
    var n := DaysBeforeYear(y') - DaysBeforeYear(y) + d;
    if y < y' {
      DaysBeforeYearStep(y);
      DaysBeforeYearMonotone(y + 1, y');
      assert n >= DaysInYear(y);
      assert n - DaysInYear(y) == DaysBeforeYear(y') - DaysBeforeYear(y + 1) + d;
      YearOfUnique(y + 1, y', d);
      assert YearOf(y, n) == YearOf(y + 1, n - DaysInYear(y));
    }
  }

  lemma {:induction false} MonthOfUnique(y: int, m: int, m': int, d: int)
    requires 1 <= m <= m' <= 12 && 1 <= d <= DaysInMonth(y, m')
    ensures DaysBeforeMonth(y, m') + d - 1 < DaysInYear(y)
    ensures MonthOf(y, m, DaysBeforeMonth(y, m') + d - 1) == (m', d)
    decreases m' - m
  {
    MonthFacts(y, m');
    DaysBeforeMonthMonotone(y, m' + 1, 13);
    DaysBeforeMonthMonotone(y, m, m');
    if m < m' {
      DaysBeforeMonthMonotone(y, m + 1, m');
      MonthOfUnique(y, m + 1, m', d);
    }
  }

  // ---------------------------------------------------------------------------
  // Broken-down date and time

  datatype Parts = Parts(year: int, month: int, day: int, hour: int, minute: int, second: int)

  /** The fields of a representable `DateTime` to the second. */
  predicate ValidParts(p: Parts)
  {
    && 1 <= p.year <= 9999
    && 1 <= p.month <= 12
    && 1 <= p.day <= DaysInMonth(p.year, p.month)
    && 0 <= p.hour < 24
    && 0 <= p.minute < 60
    && 0 <= p.second < 60
  }

  function DayNumber(p: Parts): int
    requires ValidParts(p)
  {
    DaysBeforeYear(p.year) + DaysBeforeMonth(p.year, p.month) + p.day - 1
  }

  function SecondOfDay(p: Parts): int
  {
    p.hour * 3600 + p.minute * 60 + p.second
  }

  lemma DayNumberBound(p: Parts)
    requires ValidParts(p)
    ensures 0 <= DayNumber(p) < DaysTo10000
  {
    MonthFacts(p.year, p.month);
    DaysBeforeMonthMonotone(p.year, p.month + 1, 13);
    DaysBeforeYearStep(p.year);
    DaysBeforeYearMonotone(p.year + 1, 10000);
  }

  /** The instant at the start of second `p` (the `DateTime(y, M, d, H, m, s)`
      constructor). */
  function TicksOf(p: Parts): (t: Instant)
    requires ValidParts(p)
    ensures t % TicksPerSecond == 0
  {
    DayNumberBound(p);
    ClockFieldsOf(p);
    TicksInRange(DayNumber(p), SecondOfDay(p));
    (DayNumber(p) * SecondsPerDay + SecondOfDay(p)) * TicksPerSecond
  }

  lemma TicksInRange(n: int, sod: int)
    requires 0 <= n < DaysTo10000 && 0 <= sod < SecondsPerDay
    ensures 0 <= (n * SecondsPerDay + sod) * TicksPerSecond <= MaxTicks
    ensures (n * SecondsPerDay + sod) * TicksPerSecond % TicksPerSecond == 0
  {
    var s := n * SecondsPerDay + sod;
    assert 0 <= s < DaysTo10000 * SecondsPerDay;
  }

  /** The fields of second `sod` of day `days`, counted from 0001-01-01. */
  function PartsAt(days: int, sod: int): (p: Parts)
    requires 0 <= days < DaysTo10000 && 0 <= sod < SecondsPerDay
    ensures ValidParts(p)
    ensures DayNumber(p) == days
  {
    DaysBeforeYearMonotone(1, 10000);
    var (y, doy) := YearOf(1, days);
    assert y < 10000 by {
      if y >= 10000 {
        DaysBeforeYearMonotone(10000, y);
      }
    }
    MonthFacts(y, 1);
    var (m, d) := MonthOf(y, 1, doy);
    Parts(y, m, d, sod / 3600, sod % 3600 / 60, sod % 60)
  }

  /** The fields of instant `t`, sub-second ticks dropped. */
  function PartsOf(t: Instant): (p: Parts)
    ensures ValidParts(p)
  {
    var s := t / TicksPerSecond;
    PartsAt(s / SecondsPerDay, s % SecondsPerDay)
  }

  /** Instant `t` truncated to a whole second. */
  function Truncate(t: Instant): Instant
  {
    t - t % TicksPerSecond
  }

  lemma SecondOfDayOf(sod: int)
    requires 0 <= sod < SecondsPerDay
    ensures (sod / 3600) * 3600 + (sod % 3600 / 60) * 60 + sod % 60 == sod
  {
  }

  /** Breaking an instant down and building it back loses exactly the
      fraction of a second. */
  lemma TicksOfPartsOf(t: Instant)
    ensures TicksOf(PartsOf(t)) == Truncate(t)
  {
    var s := t / TicksPerSecond;
    var sod := s % SecondsPerDay;
    SecondOfDayOf(sod);
    assert SecondOfDay(PartsAt(s / SecondsPerDay, sod)) == sod;
  }

  lemma ClockFieldsOf(p: Parts)
    requires ValidParts(p)
    ensures 0 <= SecondOfDay(p) < SecondsPerDay
    ensures SecondOfDay(p) / 3600 == p.hour
    ensures SecondOfDay(p) % 3600 / 60 == p.minute
    ensures SecondOfDay(p) % 60 == p.second
  {
  }

  lemma SecondsOfTicks(n: int, sod: int)
    requires 0 <= n && 0 <= sod < SecondsPerDay
    ensures (n * SecondsPerDay + sod) * TicksPerSecond / TicksPerSecond / SecondsPerDay == n
    ensures (n * SecondsPerDay + sod) * TicksPerSecond / TicksPerSecond % SecondsPerDay == sod
  {
    var s := n * SecondsPerDay + sod;
    assert s * TicksPerSecond / TicksPerSecond == s;
  }

  /** Valid fields are recovered from their day number and second of day. */
  lemma PartsAtOf(p: Parts)
    requires ValidParts(p)
    ensures 0 <= DayNumber(p) < DaysTo10000 && 0 <= SecondOfDay(p) < SecondsPerDay
    ensures PartsAt(DayNumber(p), SecondOfDay(p)) == p
  {
    var doy := DaysBeforeMonth(p.year, p.month) + p.day - 1;
    ClockFieldsOf(p);
    DayNumberBound(p);
    MonthOfUnique(p.year, 1, p.month, p.day);
    MonthFacts(p.year, p.month);
    YearOfUnique(1, p.year, doy);
    assert YearOf(1, DayNumber(p)) == (p.year, doy);
  }

  /** Building an instant from valid fields and breaking it down again gives
      the same fields. */
  lemma PartsOfTicksOf(p: Parts)
    requires ValidParts(p)
    ensures PartsOf(TicksOf(p)) == p
  {
    var t := TicksOf(p);
    PartsAtOf(p);
    DayAndSecondOf(p);
    assert PartsOf(t) == PartsAt(DayNumber(p), SecondOfDay(p));
  }

  /** The day number and second of day of `TicksOf(p)` are those of `p`. */
  lemma DayAndSecondOf(p: Parts)
    requires ValidParts(p)
    ensures TicksOf(p) / TicksPerSecond / SecondsPerDay == DayNumber(p)
    ensures TicksOf(p) / TicksPerSecond % SecondsPerDay == SecondOfDay(p)
  {
    DayNumberBound(p);
    ClockFieldsOf(p);
    SecondsOfTicks(DayNumber(p), SecondOfDay(p));
  }

  // ---------------------------------------------------------------------------
  // Text form "yyyy-MM-dd HH:mm:ss"

  predicate IsDigit(c: char)
  {
    '0' <= c <= '9'
  }

  function DigitChar(v: int): (c: char)
    requires 0 <= v <= 9
    ensures IsDigit(c)
  {
    ('0' as int + v) as char
  }

  function DigitValue(c: char): int
    requires IsDigit(c)
  {
    c as int - '0' as int
  }

  /** `v` written with exactly `width` digits, leading zeros included. */
  function Digits(v: int, width: nat): (r: string)
    requires 0 <= v
    ensures |r| == width
    ensures forall i :: 0 <= i < width ==> IsDigit(r[i])
  {
    if width == 0 then [] else Digits(v / 10, width - 1) + [DigitChar(v % 10)]
  }

  function Pow10(n: nat): nat
  {
    if n == 0 then 1 else 10 * Pow10(n - 1)
  }

  /** The value of a string of decimal digits. */
  function NumberValue(s: string): (v: int)
    requires forall i :: 0 <= i < |s| ==> IsDigit(s[i])
    ensures 0 <= v < Pow10(|s|)
  {
    if s == [] then 0 else NumberValue(s[..|s| - 1]) * 10 + DigitValue(s[|s| - 1])
  }

  lemma {:induction false} NumberValueDigits(v: int, width: nat)
    requires 0 <= v < Pow10(width)
    ensures NumberValue(Digits(v, width)) == v
  {
    if width > 0 {
      var r := Digits(v, width);
      var below := Pow10(width - 1);
      assert Pow10(width) == 10 * below;
      assert v / 10 < below;
      assert r[..width - 1] == Digits(v / 10, width - 1);
      assert DigitValue(r[width - 1]) == v % 10;
      NumberValueDigits(v / 10, width - 1);
      assert NumberValue(r) == NumberValue(r[..width - 1]) * 10 + DigitValue(r[width - 1]);
    }
  }

  lemma {:induction false} DigitsNumberValue(s: string)
    requires forall i :: 0 <= i < |s| ==> IsDigit(s[i])
    ensures Digits(NumberValue(s), |s|) == s
  {
    if s != [] {
      var init := s[..|s| - 1];
      var v := NumberValue(s);
      assert v / 10 == NumberValue(init);
      assert v % 10 == DigitValue(s[|s| - 1]);
      DigitsNumberValue(init);
      assert init + [s[|s| - 1]] == s;
    }
  }

  /** The fields as `yyyy-MM-dd HH:mm:ss` writes them. */
  function Render(p: Parts): (s: string)
    requires 0 <= p.year && 0 <= p.month && 0 <= p.day
    requires 0 <= p.hour && 0 <= p.minute && 0 <= p.second
  {
    Digits(p.year, 4) + "-" + Digits(p.month, 2) + "-" + Digits(p.day, 2) + " "
    + Digits(p.hour, 2) + ":" + Digits(p.minute, 2) + ":" + Digits(p.second, 2)
  }

  /** The positions of the six digit fields in a 19-character stamp. */
  predicate DigitsAt(s: string, lo: int, hi: int)
    requires 0 <= lo <= hi <= |s|
  {
    forall i :: lo <= i < hi ==> IsDigit(s[i])
  }

  /** Whether `s` has the shape `dddd-dd-dd dd:dd:dd` with ASCII digits. */
  predicate Shaped(s: string)
  {
    && |s| == 19
    && s[4] == '-' && s[7] == '-' && s[10] == ' ' && s[13] == ':' && s[16] == ':'
    && DigitsAt(s, 0, 4) && DigitsAt(s, 5, 7) && DigitsAt(s, 8, 10)
    && DigitsAt(s, 11, 13) && DigitsAt(s, 14, 16) && DigitsAt(s, 17, 19)
  }

  /** Reads the six fields of a well-shaped stamp; no range checks yet. */
  function Scan(s: string): Option<Parts>
  {
    if Shaped(s) then
      Some(Parts(NumberValue(s[0..4]), NumberValue(s[5..7]), NumberValue(s[8..10]),
                 NumberValue(s[11..13]), NumberValue(s[14..16]), NumberValue(s[17..19])))
    else None
  }

  /** `DateTime.ParseExact(s, "yyyy-MM-dd HH:mm:ss", InvariantCulture)`:
      exactly four year digits and two digits per other field, the literal
      separators, nothing before or after, and fields that name an existing
      second; `None` where .NET throws `FormatException`. */
  function ParseExact(s: string): (r: Option<Instant>)
    ensures r.Some? <==> Shaped(s) && ValidParts(Scan(s).value)
    ensures r.Some? ==> r.value % TicksPerSecond == 0
  {
    match Scan(s)
    case None => None
    case Some(p) => if ValidParts(p) then Some(TicksOf(p)) else None
  }

  /** `t.ToString("yyyy-MM-dd HH:mm:ss", InvariantCulture)`: a well-shaped
      stamp that scans back to the fields of `t`. */
  function Format(t: Instant): (s: string)
    ensures |s| == 19
    ensures Shaped(s) && Scan(s) == Some(PartsOf(t))
  {
    ScanRender(PartsOf(t));
    Render(PartsOf(t))
  }

  /** A rendered stamp is well shaped, with each field's digits in place. */
  lemma RenderPieces(p: Parts)
    requires ValidParts(p)
    ensures var s := Render(p);
      && Shaped(s)
      && s[0..4] == Digits(p.year, 4) && s[5..7] == Digits(p.month, 2) && s[8..10] == Digits(p.day, 2)
      && s[11..13] == Digits(p.hour, 2) && s[14..16] == Digits(p.minute, 2) && s[17..19] == Digits(p.second, 2)
  {
    var s := Render(p);
    assert s[0..4] == Digits(p.year, 4);
    assert s[5..7] == Digits(p.month, 2);
    assert s[8..10] == Digits(p.day, 2);
    assert s[11..13] == Digits(p.hour, 2);
    assert s[14..16] == Digits(p.minute, 2);
    assert s[17..19] == Digits(p.second, 2);
  }

  lemma ScanRender(p: Parts)
    requires ValidParts(p)
    ensures Scan(Render(p)) == Some(p)
  {
    RenderPieces(p);
    NumberValueDigits(p.year, 4);
    NumberValueDigits(p.month, 2);
    NumberValueDigits(p.day, 2);
    NumberValueDigits(p.hour, 2);
    NumberValueDigits(p.minute, 2);
    NumberValueDigits(p.second, 2);
  }

  lemma RenderScan(s: string)
    requires Scan(s).Some?
    ensures Render(Scan(s).value) == s
  {
    DigitsNumberValue(s[0..4]);
    DigitsNumberValue(s[5..7]);
    DigitsNumberValue(s[8..10]);
    DigitsNumberValue(s[11..13]);
    DigitsNumberValue(s[14..16]);
    DigitsNumberValue(s[17..19]);
    StampPieces(s);
  }

  /** A well-shaped stamp is its six digit fields with the separators. */
  lemma StampPieces(s: string)
    requires Shaped(s)
    ensures s == s[0..4] + "-" + s[5..7] + "-" + s[8..10] + " " + s[11..13] + ":" + s[14..16] + ":" + s[17..19]
  {
    var date := s[0..4] + "-" + s[5..7] + "-" + s[8..10];
    var time := s[11..13] + ":" + s[14..16] + ":" + s[17..19];
    assert s[0..10] == date;
    assert s[11..19] == time;
    assert s == s[0..10] + " " + s[11..19];
  }

  /** Writing an instant and parsing the text back yields the instant
      truncated to the whole second. */
  lemma ParseFormat(t: Instant)
    ensures ParseExact(Format(t)) == Some(Truncate(t))
  {
    ScanRender(PartsOf(t));
    TicksOfPartsOf(t);
  }

  /** Every text `ParseExact` accepts is the formatted form of what it
      parses to: the stored stamp is canonical. */
  lemma FormatParse(s: string)
    requires ParseExact(s).Some?
    ensures Format(ParseExact(s).value) == s
  {
    var p := Scan(s).value;
    PartsOfTicksOf(p);
    RenderScan(s);
  }

  /** `t.AddSeconds(seconds)` for a whole, non-negative number of seconds;
      `None` where .NET throws `ArgumentOutOfRangeException`. */
  function AddSeconds(t: Instant, seconds: nat): (r: Option<Instant>)
    ensures r.Some? <==> t + seconds * TicksPerSecond <= MaxTicks
    ensures r.Some? ==> r.value - t == seconds * TicksPerSecond
  {
    var u := t + seconds * TicksPerSecond;
    if u <= MaxTicks then Some(u) else None
  }
}
