/** The parts of Python's `datetime` module that the helpers rely on: the proleptic
    Gregorian calendar of years 1 to 9999, time of day to the microsecond, an optional
    UTC offset with an optional zone name, and whole-second instants counted from the
    spreadsheet origin 1899-12-30T00:00:00 UTC. */
module Calendar {
  import opened Wrappers

  const MinYear := 1
  const MaxYear := 9999
  const SecondsPerDay := 86400
  const MicrosPerSecond := 1000000

  /** A UTC offset in minutes east of UTC; Python requires it strictly within a day. */
  type Offset = m: int | -1440 < m < 1440

  datatype Date = Date(year: int, month: int, day: int)
  datatype Time = Time(hour: int, minute: int, second: int, micro: int)

  /** `tzinfo`: absent (a naive value), or a fixed UTC offset together with what
      `tzname()` answers for it, which may itself be None. */
  datatype TzInfo = Naive | Aware(offset: Offset, name: Option<string>)

  datatype DateTime = DateTime(date: Date, time: Time, tz: TzInfo)

  /** What Python's `tzname()` answers: None for a naive value. */
  function TzName(tz: TzInfo): Option<string> {
    if tz.Naive? then None else tz.name
  }

  const Utc := Aware(0, Some("UTC"))

  /** What a time-zone database answers for one zone at one moment: the UTC offset in
      force and its abbreviation (`tzname()`). */
  datatype LocalZone = LocalZone(offset: Offset, abbreviation: string)

  predicate IsLeap(y: int) {
    y % 4 == 0 && (y % 100 != 0 || y % 400 == 0)
  }

  function DaysInYear(y: int): int {
    if IsLeap(y) then 366 else 365
  }

  function DaysInMonth(y: int, m: int): int
    requires 1 <= m <= 12
  {
    if m == 2 then (if IsLeap(y) then 29 else 28)
    else if m == 4 || m == 6 || m == 9 || m == 11 then 30
    else 31
  }

  /** Days of year `y` before the first of month `m`. */
  function DaysBeforeMonth(y: int, m: int): int
    requires 1 <= m <= 12
  {
    [0, 31, 59, 90, 120, 151, 181, 212, 243, 273, 304, 334][m - 1]
    + (if m > 2 && IsLeap(y) then 1 else 0)
  }

  /** Days from 0001-01-01 to the first of January of year `y`. */
  function DaysBeforeYear(y: int): int
    requires y >= 1
  {
    if y == 1 then 0 else DaysBeforeYear(y - 1) + DaysInYear(y - 1)
  }

  /** Number of days in the whole supported range, years 1 to 9999 (Python's
      `date.max.toordinal()`); DayCountIsEndOfRange ties it to DaysBeforeYear. */
  const DayCount := 3652059

  /** Leap years among years 1 to `n`. */
  function LeapYearsThrough(n: int): int {
    n / 4 - n / 100 + n / 400
  }

  /** Python's closed form for the days before a year (`_days_before_year`) agrees
      with counting the years one by one. */
  lemma {:induction false} DaysBeforeYearClosedForm(y: int)
    requires y >= 1
    ensures DaysBeforeYear(y) == 365 * (y - 1) + LeapYearsThrough(y - 1)
  {
    if y > 1 {
      DaysBeforeYearClosedForm(y - 1);
      LeapStep(y - 1);
    }
  }

  lemma LeapStep(y: int)
    requires y >= 1
    ensures LeapYearsThrough(y) == LeapYearsThrough(y - 1) + (if IsLeap(y) then 1 else 0)
  {
    DivStep(y, 4);
    DivStep(y, 100);
    DivStep(y, 400);
    Multiples(y);
  }

  /** Stepping `y` down by one lowers `y / d` exactly when `d` divides `y`. */
  lemma DivStep(y: int, d: int)
    requires d > 0
    ensures y / d - (y - 1) / d == if y % d == 0 then 1 else 0
  {
    var q, r := y / d, y % d;
    if r == 0 {
      DivUnique(y - 1, d, q - 1, d - 1);
    } else {
      DivUnique(y - 1, d, q, r - 1);
    }
  }

  /** Division by a positive `d` is determined by quotient and remainder. */
  lemma DivUnique(x: int, d: int, q: int, r: int)
    requires d > 0 && 0 <= r < d && x == d * q + r
    ensures x / d == q
  {
    var k := x / d - q;
    assert d * k == r - x % d;
    MulBound(d, k);
  }

  lemma MulBound(d: int, k: int)
    requires d > 0
    ensures k >= 1 ==> d * k >= d
    ensures k <= -1 ==> d * k <= -d
  {
  }

  lemma Multiples(y: int)
    ensures y % 400 == 0 ==> y % 100 == 0
    ensures y % 100 == 0 ==> y % 4 == 0
  {
    if y % 400 == 0 {
      DivUnique(y, 100, 4 * (y / 400), 0);
    }
    if y % 100 == 0 {
      DivUnique(y, 4, 25 * (y / 100), 0);
    }
  }

  lemma DayCountIsEndOfRange()
    ensures DaysBeforeYear(MaxYear + 1) == DayCount
  {
    DaysBeforeYearClosedForm(MaxYear + 1);
  }

  /** Every year of the range starts before the end of the range. */
  lemma DaysBeforeYearInRange(y: int)
    requires MinYear <= y <= MaxYear + 1
    ensures 0 <= DaysBeforeYear(y) <= DayCount
  {
    DaysBeforeYearMonotone(MinYear, y);
    DaysBeforeYearMonotone(y, MaxYear + 1);
    DayCountIsEndOfRange();
  }

  predicate ValidDate(d: Date) {
    && MinYear <= d.year <= MaxYear
    && 1 <= d.month <= 12
    && 1 <= d.day <= DaysInMonth(d.year, d.month)
  }

  predicate ValidTime(t: Time) {
    && 0 <= t.hour < 24
    && 0 <= t.minute < 60
    && 0 <= t.second < 60
    && 0 <= t.micro < MicrosPerSecond
  }

  predicate ValidDateTime(dt: DateTime) {
    ValidDate(dt.date) && ValidTime(dt.time)
  }

  lemma YearStep(y: int)
    requires y >= 1
    ensures DaysBeforeYear(y + 1) == DaysBeforeYear(y) + DaysInYear(y)
  {
  }

  /** Splitting a count of seconds into whole days and the seconds left over. */
  lemma DaySplit(q: int, r: int)
    requires 0 <= r < SecondsPerDay
    ensures (q * SecondsPerDay + r) / SecondsPerDay == q
    ensures (q * SecondsPerDay + r) % SecondsPerDay == r
  {
  }

  lemma MonthStep(y: int, m: int)
    requires 1 <= m <= 12
    ensures DaysBeforeMonth(y, m) + DaysInMonth(y, m)
         == if m < 12 then DaysBeforeMonth(y, m + 1) else DaysInYear(y)
  {
  }

  lemma {:induction false} DaysBeforeYearMonotone(a: int, b: int)
    requires 1 <= a <= b
    ensures DaysBeforeYear(a) <= DaysBeforeYear(b)
    decreases b - a
  {
    if a < b {
      YearStep(a);
      DaysBeforeYearMonotone(a + 1, b);
    }
  }

  lemma {:induction false} DaysBeforeMonthMonotone(y: int, a: int, b: int)
    requires 1 <= a <= b <= 12
    ensures DaysBeforeMonth(y, a) + (if a < b then DaysInMonth(y, a) else 0) <= DaysBeforeMonth(y, b)
    decreases b - a
  {
    if a < b {
      MonthStep(y, a);
      DaysBeforeMonthMonotone(y, a + 1, b);
    }
  }

  /** Day number of a date: days since 0001-01-01 (Python's `toordinal() - 1`). */
  function DayNumber(d: Date): (n: int)
    requires ValidDate(d)
    ensures 0 <= n < DayCount
  {
    MonthStep(d.year, d.month);
    DaysBeforeMonthMonotone(d.year, d.month, 12);
    MonthStep(d.year, 12);
    YearStep(d.year);
    DaysBeforeYearInRange(d.year + 1);
    DaysBeforeYearInRange(d.year);
    DaysBeforeYear(d.year) + DaysBeforeMonth(d.year, d.month) + d.day - 1
  }

  /** The year holding day `DaysBeforeYear(y) + n`, and the day's index within it. */
  function LocateYear(n: int, y: int): (r: (int, int))
    requires MinYear <= y <= MaxYear
    requires 0 <= n && DaysBeforeYear(y) + n < DayCount
    ensures y <= r.0 <= MaxYear && 0 <= r.1 < DaysInYear(r.0)
    ensures DaysBeforeYear(r.0) + r.1 == DaysBeforeYear(y) + n
    decreases n
  {
    if n < DaysInYear(y) then (y, n)
    else
      YearStep(y);
      DayCountIsEndOfRange();
      LocateYear(n - DaysInYear(y), y + 1)
  }

  /** The month and day of month of day index `DaysBeforeMonth(y, m) + k` of year `y`. */
  function LocateMonth(k: int, y: int, m: int): (r: (int, int))
    requires 1 <= m <= 12
    requires 0 <= k && DaysBeforeMonth(y, m) + k < DaysInYear(y)
    ensures m <= r.0 <= 12 && 1 <= r.1 <= DaysInMonth(y, r.0)
    ensures DaysBeforeMonth(y, r.0) + r.1 - 1 == DaysBeforeMonth(y, m) + k
    decreases 12 - m
  {
    MonthStep(y, m);
    if k < DaysInMonth(y, m) then (m, k + 1)
    else LocateMonth(k - DaysInMonth(y, m), y, m + 1)
  }

  /** The date with a given day number (Python's `date.fromordinal(n + 1)`). */
  function FromDayNumber(n: int): (d: Date)
    requires 0 <= n < DayCount
    ensures ValidDate(d) && DayNumber(d) == n
  {
    var (y, k) := LocateYear(n, MinYear);
    var (m, day) := LocateMonth(k, y, 1);
    Date(y, m, day)
  }

  lemma {:induction false} LocateYearFinds(y: int, target: int, k: int)
    requires MinYear <= y <= target <= MaxYear
    requires 0 <= k < DaysInYear(target)
    ensures DaysBeforeYear(y) <= DaysBeforeYear(target)
    ensures DaysBeforeYear(target) + k < DayCount
    ensures LocateYear(DaysBeforeYear(target) - DaysBeforeYear(y) + k, y) == (target, k)
    decreases target - y
  {
    DaysBeforeYearMonotone(y, target);
    YearStep(target);
    DaysBeforeYearInRange(target + 1);
    var n := DaysBeforeYear(target) - DaysBeforeYear(y) + k;
    if y == target {
      assert n == k;
    } else {
      YearStep(y);
      DaysBeforeYearMonotone(y + 1, target);
      assert n >= DaysInYear(y);
      LocateYearStep(n, y);
      assert n - DaysInYear(y) == DaysBeforeYear(target) - DaysBeforeYear(y + 1) + k;
      LocateYearFinds(y + 1, target, k);
    }
  }

  /** A day index past the end of year `y` is located from year `y + 1` on. */
  lemma LocateYearStep(n: int, y: int)
    requires MinYear <= y < MaxYear
    requires DaysInYear(y) <= n && DaysBeforeYear(y) + n < DayCount
    ensures DaysBeforeYear(y + 1) + (n - DaysInYear(y)) < DayCount
    ensures LocateYear(n, y) == LocateYear(n - DaysInYear(y), y + 1)
  {
    YearStep(y);
  }

  lemma {:induction false} LocateMonthFinds(y: int, m: int, target: int, day: int)
    requires 1 <= m <= target <= 12
    requires 1 <= day <= DaysInMonth(y, target)
    ensures DaysBeforeMonth(y, m) <= DaysBeforeMonth(y, target)
    ensures DaysBeforeMonth(y, target) + day - 1 < DaysInYear(y)
    ensures LocateMonth(DaysBeforeMonth(y, target) - DaysBeforeMonth(y, m) + day - 1, y, m) == (target, day)
    decreases target - m
  {
    DaysBeforeMonthMonotone(y, m, target);
    MonthStep(y, target);
    DaysBeforeMonthMonotone(y, target, 12);
    MonthStep(y, 12);
    if m < target {
      MonthStep(y, m);
      DaysBeforeMonthMonotone(y, m + 1, target);
      LocateMonthFinds(y, m + 1, target, day);
    }
  }

  /** Day numbers and dates are in one-to-one correspondence over years 1 to 9999. */
  lemma DayNumberRoundTrip(d: Date)
    requires ValidDate(d)
    ensures FromDayNumber(DayNumber(d)) == d
  {
    var n := DayNumber(d);
    var k := DaysBeforeMonth(d.year, d.month) + d.day - 1;
    LocateMonthFinds(d.year, 1, d.month, d.day);
    assert DaysBeforeMonth(d.year, 1) == 0;
    assert LocateMonth(k, d.year, 1) == (d.month, d.day);
    LocateYearFinds(MinYear, d.year, k);
    assert DaysBeforeYear(MinYear) == 0;
    assert n == DaysBeforeYear(d.year) + k;
    assert LocateYear(n, MinYear) == (d.year, k);
  }

  /** Day number of the spreadsheet origin 1899-12-30 (EpochDayIsOrigin). */
  const EpochDay := 693593

  lemma EpochDayIsOrigin()
    ensures ValidDate(Date(1899, 12, 30)) && DayNumber(Date(1899, 12, 30)) == EpochDay
  {
    DaysBeforeYearClosedForm(1899);
  }

  /** Wall-clock seconds of a date and time since 1899-12-30T00:00:00, microseconds dropped. */
  function WallSeconds(d: Date, t: Time): int
    requires ValidDate(d) && ValidTime(t)
  {
    (DayNumber(d) - EpochDay) * SecondsPerDay + t.hour * 3600 + t.minute * 60 + t.second
  }

  /** The instant an aware value denotes, in whole seconds since 1899-12-30T00:00:00 UTC. */
  function UtcSeconds(dt: DateTime): int
    requires ValidDateTime(dt) && dt.tz.Aware?
  {
    WallSeconds(dt.date, dt.time) - dt.tz.offset * 60
  }

  const MinSeconds := -EpochDay * SecondsPerDay
  const MaxSeconds := (DayCount - EpochDay) * SecondsPerDay - 1

  /** Seconds that Python's `datetime` can represent: 0001-01-01T00:00:00 to 9999-12-31T23:59:59. */
  predicate InRange(s: int) {
    MinSeconds <= s <= MaxSeconds
  }

  /** The date and time `s` seconds after 1899-12-30T00:00:00 (Python's `origin + timedelta(seconds=s)`). */
  function FromSeconds(s: int): (r: (Date, Time))
    requires InRange(s)
    ensures ValidDate(r.0) && ValidTime(r.1) && r.1.micro == 0
    ensures WallSeconds(r.0, r.1) == s
  {
    var rest := s % SecondsPerDay;
    (FromDayNumber(s / SecondsPerDay + EpochDay), Time(rest / 3600, rest % 3600 / 60, rest % 60, 0))
  }

  /** Every whole-second date and time in range is reached from its own seconds. */
  lemma FromWallSeconds(d: Date, t: Time)
    requires ValidDate(d) && ValidTime(t)
    ensures InRange(WallSeconds(d, t))
    ensures FromSeconds(WallSeconds(d, t)) == (d, t.(micro := 0))
  {
    var s := WallSeconds(d, t);
    var n := DayNumber(d);
    var tod := t.hour * 3600 + t.minute * 60 + t.second;
    assert s == (n - EpochDay) * SecondsPerDay + tod;
    assert InRange(s);
    DaySplit(n - EpochDay, tod);
    assert s / SecondsPerDay + EpochDay == n;
    assert s % SecondsPerDay == tod;
    DayNumberRoundTrip(d);
    assert FromDayNumber(n) == d;
    TimeOfDaySplit(t);
    assert Time(tod / 3600, tod % 3600 / 60, tod % 60, 0) == t.(micro := 0);
  }

  lemma TimeOfDaySplit(t: Time)
    requires ValidTime(t)
    ensures var tod := t.hour * 3600 + t.minute * 60 + t.second;
      tod / 3600 == t.hour && tod % 3600 / 60 == t.minute && tod % 60 == t.second
  {
    var ms := t.minute * 60 + t.second;
    assert 0 <= ms < 3600;
    assert (t.hour * 3600 + ms) % 3600 == ms;
    assert (t.hour * 60 + t.minute) * 60 + t.second == t.hour * 3600 + ms;
  }
}
