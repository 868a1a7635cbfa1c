/** The timestamp of an access-log line: epoch seconds to a Gregorian date and time, and the
    date and time to text. */
module Calendar {
  import opened Common
  import Decimal
  import Lex
  import Primes

  datatype DateTime = DateTime(year: nat, month: nat, day: nat, hour: nat, minute: nat, second: nat)

  function IsLeapYear(year: nat): bool {
    year % 4 == 0 && (year % 100 != 0 || year % 400 == 0)
  }

  function DaysInYear(year: nat): nat {
    if IsLeapYear(year) then 366 else 365
  }

  /** The requires is the source's unreachable arm: every caller shows it cannot be taken. */
  function DaysInMonth(month: nat, leap: bool): nat
    requires 1 <= month <= 12
  {
    if month == 4 || month == 6 || month == 9 || month == 11 then 30
    else if month == 2 then if leap then 29 else 28
    else 31
  }

  // ---------------------------------------------------------------------------
  // The reference: counting days without walking
  // ---------------------------------------------------------------------------

  const EPOCH_YEAR: nat := 1970
  const DAY_SECONDS: nat := 86_400

  /** Leap years among the years 1 to `year`. */
  function LeapYearsThrough(year: nat): int {
    year / 4 - year / 100 + year / 400
  }

  /** Days from the epoch to the first of January, in closed form. */
  function DaysBeforeYear(year: nat): int
    requires year >= EPOCH_YEAR
  {
    365 * (year - EPOCH_YEAR) + LeapYearsThrough(year - 1) - LeapYearsThrough(EPOCH_YEAR - 1)
  }

  /** Days of the year before the month, from the usual table. */
  function DaysBeforeMonth(month: nat, leap: bool): nat
    requires 1 <= month <= 13
  {
    [0, 31, 59, 90, 120, 151, 181, 212, 243, 273, 304, 334, 365][month - 1] + if leap && month > 2 then 1 else 0
  }

  predicate Valid(d: DateTime) {
    && d.year >= EPOCH_YEAR
    && 1 <= d.month <= 12
    && 1 <= d.day <= DaysInMonth(d.month, IsLeapYear(d.year))
    && d.hour < 24 && d.minute < 60 && d.second < 60
  }

  /** Days since the epoch of a date. */
  function DayNumber(d: DateTime): int
    requires Valid(d)
  {
    DaysBeforeYear(d.year) + DaysBeforeMonth(d.month, IsLeapYear(d.year)) + d.day - 1
  }

  function SecondOfDay(d: DateTime): (r: nat)
    requires Valid(d)
    ensures r < DAY_SECONDS
  {
    d.hour * 3600 + d.minute * 60 + d.second
  }

  function EpochSeconds(d: DateTime): int
    requires Valid(d)
  {
    DayNumber(d) * DAY_SECONDS + SecondOfDay(d)
  }

  lemma QuotientStep(y: nat, d: nat)
    requires y > 0 && d > 1
    ensures y / d - (y - 1) / d == if y % d == 0 then 1 else 0
  {
    var q, r := y / d, y % d;
    if r == 0 {
      Primes.UniqueQuotient(y - 1, d, q - 1, d - 1);
    } else {
      Primes.UniqueQuotient(y - 1, d, q, r - 1);
    }
  }

  lemma CenturiesDivide(year: nat)
    ensures year % 400 == 0 ==> year % 100 == 0
    ensures year % 100 == 0 ==> year % 4 == 0
  {
    if year % 400 == 0 {
      Primes.UniqueQuotient(year, 100, year / 400 * 4, 0);
    }
    if year % 100 == 0 {
      Primes.UniqueQuotient(year, 4, year / 100 * 25, 0);
    }
  }

  lemma LeapYearsStep(year: nat)
    requires year > 0
    ensures LeapYearsThrough(year) - LeapYearsThrough(year - 1) == if IsLeapYear(year) then 1 else 0
  {
    QuotientStep(year, 4);
    QuotientStep(year, 100);
    QuotientStep(year, 400);
    CenturiesDivide(year);
  }

  lemma YearLength(year: nat)
    requires year >= EPOCH_YEAR
    ensures DaysBeforeYear(year + 1) == DaysBeforeYear(year) + DaysInYear(year)
  {
    hide LeapYearsThrough;
    hide IsLeapYear;
    LeapYearsStep(year);
  }

  lemma MonthLength(month: nat, leap: bool)
    requires 1 <= month <= 12
    ensures DaysBeforeMonth(month + 1, leap) == DaysBeforeMonth(month, leap) + DaysInMonth(month, leap)
    ensures DaysBeforeMonth(13, leap) == if leap then 366 else 365
  {
  }

  lemma {:induction false} YearsIncrease(a: nat, b: nat)
    requires EPOCH_YEAR <= a <= b
    ensures DaysBeforeYear(b) >= DaysBeforeYear(a) + 365 * (b - a)
    decreases b
  {
    if a < b {
      YearsIncrease(a, b - 1);
      YearLength(b - 1);
    }
  }

  lemma {:induction false} MonthsIncrease(a: nat, b: nat, leap: bool)
    requires 1 <= a < b <= 13
    ensures DaysBeforeMonth(b, leap) >= DaysBeforeMonth(a, leap) + DaysInMonth(a, leap)
    decreases b
  {
    MonthLength(b - 1, leap);
    if a < b - 1 {
      MonthsIncrease(a, b - 1, leap);
    }
  }

  // ---------------------------------------------------------------------------
  // Order
  // ---------------------------------------------------------------------------

  predicate DateLess(a: DateTime, b: DateTime) {
    a.year < b.year || (a.year == b.year && (a.month < b.month || (a.month == b.month && a.day < b.day)))
  }

  predicate TimeLess(a: DateTime, b: DateTime) {
    a.hour < b.hour || (a.hour == b.hour && (a.minute < b.minute || (a.minute == b.minute && a.second < b.second)))
  }

  predicate SameDay(a: DateTime, b: DateTime) {
    a.year == b.year && a.month == b.month && a.day == b.day
  }

  predicate Before(a: DateTime, b: DateTime) {
    DateLess(a, b) || (SameDay(a, b) && TimeLess(a, b))
  }

  lemma DayWithinYear(d: DateTime)
    requires Valid(d)
    ensures DaysBeforeYear(d.year) <= DayNumber(d) < DaysBeforeYear(d.year + 1)
  {
    YearLength(d.year);
    MonthsIncrease(d.month, 13, IsLeapYear(d.year));
    MonthLength(12, IsLeapYear(d.year));
  }

  lemma DaysFollowDates(a: DateTime, b: DateTime)
    requires Valid(a) && Valid(b) && DateLess(a, b)
    ensures DayNumber(a) < DayNumber(b)
  {
    if a.year < b.year {
      DayWithinYear(a);
      DayWithinYear(b);
      YearsIncrease(a.year + 1, b.year);
    } else if a.month < b.month {
      MonthsIncrease(a.month, b.month, IsLeapYear(a.year));
    }
  }

  lemma SecondsFollowTimes(a: DateTime, b: DateTime)
    requires Valid(a) && Valid(b) && TimeLess(a, b)
    ensures SecondOfDay(a) < SecondOfDay(b)
  {
  }

  lemma EarlierIsLess(a: DateTime, b: DateTime)
    requires Valid(a) && Valid(b) && Before(a, b)
    ensures EpochSeconds(a) < EpochSeconds(b)
  {
    if DateLess(a, b) {
      DaysFollowDates(a, b);
    } else {
      SecondsFollowTimes(a, b);
    }
  }

  /** Epoch seconds order valid dates exactly as the calendar does, so two valid dates with
      the same epoch second are the same date. */
  lemma EpochOrder(a: DateTime, b: DateTime)
    requires Valid(a) && Valid(b)
    ensures EpochSeconds(a) < EpochSeconds(b) <==> Before(a, b)
    ensures EpochSeconds(a) == EpochSeconds(b) <==> a == b
  {
    if Before(a, b) {
      EarlierIsLess(a, b);
    } else if Before(b, a) {
      EarlierIsLess(b, a);
    } else {
      assert a == b;
    }
  }

  // ---------------------------------------------------------------------------
  // The walk
  // ---------------------------------------------------------------------------

  /** First epoch second of the year 2^32, past which the source's `u32` year overflows. */
  const YEAR_LIMIT: nat := 0x1_0000_0000

  function FirstSecond(year: nat): int
    requires year >= EPOCH_YEAR
  {
    DaysBeforeYear(year) * DAY_SECONDS
  }

  method WalkYears(totalDays: nat) returns (year: nat, rest: nat)
    requires totalDays < DaysBeforeYear(YEAR_LIMIT)
    ensures EPOCH_YEAR <= year < YEAR_LIMIT && rest < DaysInYear(year)
    ensures totalDays == DaysBeforeYear(year) + rest
  {
    year, rest := EPOCH_YEAR, totalDays;
    while rest >= DaysInYear(year)
      invariant EPOCH_YEAR <= year < YEAR_LIMIT
      invariant totalDays == DaysBeforeYear(year) + rest
      decreases rest
    {
      YearLength(year);
      rest := rest - DaysInYear(year);
      year := year + 1;
    }
  }

  method WalkMonths(dayOfYear: nat, leap: bool) returns (month: nat, rest: nat)
    requires dayOfYear < (if leap then 366 else 365)
    ensures 1 <= month <= 12 && rest < DaysInMonth(month, leap)
    ensures dayOfYear == DaysBeforeMonth(month, leap) + rest
  {
    month, rest := 1, dayOfYear;
    while rest >= DaysInMonth(month, leap)
      invariant 1 <= month <= 12
      invariant dayOfYear == DaysBeforeMonth(month, leap) + rest
      decreases rest
    {
      MonthLength(month, leap);
      rest := rest - DaysInMonth(month, leap);
      month := month + 1;
    }
  }

  /** The date split inverts the closed-form count of seconds, for every year that fits the
      source's `u32`. */
  method EpochSecondsToYmdHms(secs: nat) returns (d: DateTime)
    requires secs < FirstSecond(YEAR_LIMIT)
    ensures Valid(d) && d.year < YEAR_LIMIT
    ensures EpochSeconds(d) == secs
  {
    var timeOfDay := secs % DAY_SECONDS;
    var year, dayOfYear := WalkYears(secs / DAY_SECONDS);
    var month, rest := WalkMonths(dayOfYear, IsLeapYear(year));
    d := DateTime(year, month, rest + 1, timeOfDay / 3600, timeOfDay % 3600 / 60, timeOfDay % 60);
    SplitTime(timeOfDay);
  }

  lemma SplitTime(t: nat)
    requires t < DAY_SECONDS
    ensures t / 3600 < 24 && t % 3600 / 60 < 60
    ensures t == t / 3600 * 3600 + t % 3600 / 60 * 60 + t % 60
  {
    var hour, rest := t / 3600, t % 3600;
    assert t == hour * 3600 + rest;
    assert rest == rest / 60 * 60 + rest % 60;
    assert t % 60 == (hour * 60 * 60 + rest) % 60 == rest % 60;
  }

  // ---------------------------------------------------------------------------
  // Text
  // ---------------------------------------------------------------------------

  function Pow10(w: nat): (r: nat)
    ensures r >= 1
  {
    if w == 0 then 1 else 10 * Pow10(w - 1)
  }

  function Zeros(n: nat): (s: string)
    ensures |s| == n && Decimal.AllDigits(s)
  {
    seq(n, _ => '0')
  }

  /** Decimal text, zero-padded on the left to at least `w` characters. */
  function Pad(n: nat, w: nat): string {
    var t := Decimal.Text(n);
    if |t| >= w then t else Zeros(w - |t|) + t
  }

  /** A number below 10^w padded to `w` is its leading digits padded and then its last digit. */
  lemma {:induction false} PadLast(n: nat, w: nat)
    requires w > 1 && n < Pow10(w)
    ensures Pad(n, w) == Pad(n / 10, w - 1) + [Decimal.DigitChar(n % 10)]
  {
    if n < 10 {
      assert Decimal.Text(n / 10) == "0";
      assert Zeros(w - 1) == Zeros(w - 2) + "0";
    }
  }

  lemma {:induction false} PadShape(n: nat, w: nat)
    requires w >= 1 && n < Pow10(w)
    ensures |Pad(n, w)| == w && Decimal.AllDigits(Pad(n, w)) && Decimal.Value(Pad(n, w)) == n
  {
    if w == 1 {
      assert Pow10(1) == 10 * Pow10(0);
      assert Decimal.Text(n) == [Decimal.DigitChar(n)];
      assert Decimal.Value([]) == 0;
      assert Pad(n, w)[..0] == [];
    } else {
      PadLast(n, w);
      PadShape(n / 10, w - 1);
      var t := Pad(n / 10, w - 1);
      assert Pad(n, w)[..w - 1] == t;
    }
  }

  lemma LastDigitOrder(n: nat, m: nat)
    ensures Lex.Less([Decimal.DigitChar(n % 10)], [Decimal.DigitChar(m % 10)]) <==> n % 10 < m % 10
  {
    var c, d := Decimal.DigitChar(n % 10), Decimal.DigitChar(m % 10);
    assert [c][1..] == [] && [d][1..] == [];
  }

  lemma TensOrder(n: nat, m: nat)
    ensures n < m <==> n / 10 < m / 10 || (n / 10 == m / 10 && n % 10 < m % 10)
  {
  }

  lemma PadOne(n: nat)
    requires n < Pow10(1)
    ensures n < 10 && Pad(n, 1) == [Decimal.DigitChar(n % 10)]
  {
    assert Pow10(1) == 10 * Pow10(0);
  }

  lemma PadUnique(n: nat, m: nat, w: nat)
    requires w >= 1 && n < Pow10(w) && m < Pow10(w)
    ensures Pad(n, w) == Pad(m, w) <==> n == m
  {
    PadShape(n, w);
    PadShape(m, w);
  }

  /** Padded numbers that differ in their leading digits are ordered by those, the others by
      their last digit. */
  lemma PadSplit(n: nat, m: nat, w: nat)
    requires w > 1 && n < Pow10(w) && m < Pow10(w)
    ensures Lex.Less(Pad(n, w), Pad(m, w)) <==>
      Lex.Less(Pad(n / 10, w - 1), Pad(m / 10, w - 1)) || (n / 10 == m / 10 && n % 10 < m % 10)
  {
    PadLast(n, w);
    PadLast(m, w);
    PadShape(n / 10, w - 1);
    PadShape(m / 10, w - 1);
    PadUnique(n / 10, m / 10, w - 1);
    LastDigitOrder(n, m);
    hide Pad;
    Lex.Fields(Pad(n / 10, w - 1), Pad(m / 10, w - 1), [Decimal.DigitChar(n % 10)], [Decimal.DigitChar(m % 10)]);
  }

  lemma {:induction false} PadOrder(n: nat, m: nat, w: nat)
    requires w >= 1 && n < Pow10(w) && m < Pow10(w)
    ensures Lex.Less(Pad(n, w), Pad(m, w)) <==> n < m
  {
    hide Pad;
    hide Lex.Less;
    TensOrder(n, m);
    if w == 1 {
      LastDigitOrder(n, m);
      PadOne(n);
      PadOne(m);
    } else {
      PadSplit(n, m, w);
      assert n / 10 < Pow10(w - 1) && m / 10 < Pow10(w - 1);
      PadOrder(n / 10, m / 10, w - 1);
    }
  }

  /** A padded number, a separator, and what follows. */
  function Field(n: nat, w: nat, sep: char, rest: string): string {
    Pad(n, w) + [sep] + rest
  }

  /** `YYYY-MM-DDTHH:MM:SS.mmmZ` */
  function Stamp(d: DateTime, ms: nat): string {
    Field(d.year, 4, '-', Field(d.month, 2, '-', Field(d.day, 2, 'T',
      Field(d.hour, 2, ':', Field(d.minute, 2, ':', Field(d.second, 2, '.', Field(ms, 3, 'Z', "")))))))
  }

  lemma FieldOrder(n: nat, m: nat, w: nat, sep: char, x: string, y: string)
    requires w >= 1 && n < Pow10(w) && m < Pow10(w)
    ensures |Field(n, w, sep, x)| == w + 1 + |x|
    ensures Lex.Less(Field(n, w, sep, x), Field(m, w, sep, y)) <==> n < m || (n == m && Lex.Less(x, y))
  {
    hide Pad;
    PadShape(n, w);
    PadShape(m, w);
    PadOrder(n, m, w);
    PadUnique(n, m, w);
    Lex.Fields(Pad(n, w), Pad(m, w), [sep] + x, [sep] + y);
    assert ([sep] + x)[1..] == x && ([sep] + y)[1..] == y;
    assert Pad(n, w) + ([sep] + x) == Field(n, w, sep, x) && Pad(m, w) + ([sep] + y) == Field(m, w, sep, y);
  }

  lemma Powers()
    ensures Pow10(2) == 100 && Pow10(3) == 1000 && Pow10(4) == 10_000
  {
    assert Pow10(0) == 1 && Pow10(1) == 10;
  }

  predicate Printable(d: DateTime, ms: nat) {
    Valid(d) && d.year <= 9999 && ms < 1000
  }

  lemma TimeTextOrder(a: DateTime, i: nat, b: DateTime, j: nat)
    requires Printable(a, i) && Printable(b, j)
    ensures var x := Field(a.hour, 2, ':', Field(a.minute, 2, ':', Field(a.second, 2, '.', Field(i, 3, 'Z', ""))));
      var y := Field(b.hour, 2, ':', Field(b.minute, 2, ':', Field(b.second, 2, '.', Field(j, 3, 'Z', ""))));
      && |x| == |y| == 13
      && (Lex.Less(x, y) <==>
            TimeLess(a, b) || (a.hour == b.hour && a.minute == b.minute && a.second == b.second && i < j))
  {
    hide Field;
    Powers();
    var x0, y0 := Field(i, 3, 'Z', ""), Field(j, 3, 'Z', "");
    FieldOrder(i, j, 3, 'Z', "", "");
    FieldOrder(j, i, 3, 'Z', "", "");
    var x1, y1 := Field(a.second, 2, '.', x0), Field(b.second, 2, '.', y0);
    FieldOrder(a.second, b.second, 2, '.', x0, y0);
    FieldOrder(b.second, a.second, 2, '.', y0, x0);
    var x2, y2 := Field(a.minute, 2, ':', x1), Field(b.minute, 2, ':', y1);
    FieldOrder(a.minute, b.minute, 2, ':', x1, y1);
    FieldOrder(b.minute, a.minute, 2, ':', y1, x1);
    FieldOrder(a.hour, b.hour, 2, ':', x2, y2);
    FieldOrder(b.hour, a.hour, 2, ':', y2, x2);
  }

  /** Through the year 9999 a timestamp has 24 characters and text order is time order. */
  lemma StampOrder(a: DateTime, i: nat, b: DateTime, j: nat)
    requires Printable(a, i) && Printable(b, j)
    ensures |Stamp(a, i)| == 24
    ensures Lex.Less(Stamp(a, i), Stamp(b, j)) <==> EpochSeconds(a) * 1000 + i < EpochSeconds(b) * 1000 + j
  {
    hide Field;
    hide Lex.Less;
    hide EpochSeconds;
    Powers();
    TimeTextOrder(a, i, b, j);
    var x := Field(a.hour, 2, ':', Field(a.minute, 2, ':', Field(a.second, 2, '.', Field(i, 3, 'Z', ""))));
    var y := Field(b.hour, 2, ':', Field(b.minute, 2, ':', Field(b.second, 2, '.', Field(j, 3, 'Z', ""))));
    var x1, y1 := Field(a.day, 2, 'T', x), Field(b.day, 2, 'T', y);
    FieldOrder(a.day, b.day, 2, 'T', x, y);
    var x2, y2 := Field(a.month, 2, '-', x1), Field(b.month, 2, '-', y1);
    FieldOrder(a.month, b.month, 2, '-', x1, y1);
    FieldOrder(a.year, b.year, 4, '-', x2, y2);
    EpochOrder(a, b);
  }

  // ---------------------------------------------------------------------------
  // Reading a timestamp back
  // ---------------------------------------------------------------------------

  function ReadField(s: string, w: nat, sep: char): Option<(nat, string)> {
    if |s| > w && Decimal.AllDigits(s[..w]) && s[w] == sep then Some((Decimal.Value(s[..w]), s[w + 1..])) else None
  }

  lemma FieldRoundTrip(n: nat, w: nat, sep: char, rest: string)
    requires w >= 1 && n < Pow10(w)
    ensures ReadField(Field(n, w, sep, rest), w, sep) == Some((n, rest))
  {
    PadShape(n, w);
    var s := Field(n, w, sep, rest);
    assert s[..w] == Pad(n, w) && s[w + 1..] == rest;
  }

  function ReadTime(s: string): Option<(nat, nat, nat, nat, string)> {
    var hour := ReadField(s, 2, ':');
    if hour.None? then None else
    var minute := ReadField(hour.value.1, 2, ':');
    if minute.None? then None else
    var second := ReadField(minute.value.1, 2, '.');
    if second.None? then None else
    var ms := ReadField(second.value.1, 3, 'Z');
    if ms.None? then None else
    Some((hour.value.0, minute.value.0, second.value.0, ms.value.0, ms.value.1))
  }

  /** Read the date-time shape of section 5.6 of RFC 3339, in UTC with milliseconds. */
  function ReadStamp(s: string): Option<(DateTime, nat)> {
    var year := ReadField(s, 4, '-');
    if year.None? then None else
    var month := ReadField(year.value.1, 2, '-');
    if month.None? then None else
    var day := ReadField(month.value.1, 2, 'T');
    if day.None? then None else
    match ReadTime(day.value.1)
    case None => None
    case Some((hour, minute, second, ms, rest)) =>
      if rest != [] then None
      else Some((DateTime(year.value.0, month.value.0, day.value.0, hour, minute, second), ms))
  }

  lemma StampRoundTrip(d: DateTime, ms: nat)
    requires Printable(d, ms)
    ensures ReadStamp(Stamp(d, ms)) == Some((d, ms))
  {
    hide Field;
    hide ReadField;
    Powers();
    var x0 := Field(ms, 3, 'Z', "");
    FieldRoundTrip(ms, 3, 'Z', "");
    var x1 := Field(d.second, 2, '.', x0);
    FieldRoundTrip(d.second, 2, '.', x0);
    var x2 := Field(d.minute, 2, ':', x1);
    FieldRoundTrip(d.minute, 2, ':', x1);
    var x3 := Field(d.hour, 2, ':', x2);
    FieldRoundTrip(d.hour, 2, ':', x2);
    var x4 := Field(d.day, 2, 'T', x3);
    FieldRoundTrip(d.day, 2, 'T', x3);
    var x5 := Field(d.month, 2, '-', x4);
    FieldRoundTrip(d.month, 2, '-', x4);
    FieldRoundTrip(d.year, 4, '-', x5);
    assert ReadTime(x3) == Some((d.hour, d.minute, d.second, ms, ""));
  }

  // ---------------------------------------------------------------------------
  // A clock reading to text
  // ---------------------------------------------------------------------------

  /** Milliseconds since the epoch of a clock reading in nanoseconds; a reading before the
      epoch counts as the epoch itself. */
  function Millis(nanos: int): nat {
    if nanos < 0 then 0 else nanos / 1_000_000
  }

  /** A clock reading, in nanoseconds from the epoch, whose year fits the source's `u32`. */
  type Instant = nanos: int | Millis(nanos) / 1000 < FirstSecond(YEAR_LIMIT)

  /** The date and time at an epoch second. */
  ghost predicate IsDateAt(secs: nat, d: DateTime) {
    Valid(d) && EpochSeconds(d) == secs
  }

  lemma {:induction false} FindYear(days: nat, from: nat) returns (year: nat)
    requires from >= EPOCH_YEAR && DaysBeforeYear(from) <= days
    ensures year >= EPOCH_YEAR && DaysBeforeYear(year) <= days < DaysBeforeYear(year + 1)
    decreases days - DaysBeforeYear(from)
  {
    YearLength(from);
    if days < DaysBeforeYear(from + 1) {
      year := from;
    } else {
      year := FindYear(days, from + 1);
    }
  }

  lemma {:induction false} FindMonth(days: nat, leap: bool, from: nat) returns (month: nat)
    requires 1 <= from <= 12 && DaysBeforeMonth(from, leap) <= days < DaysBeforeMonth(13, leap)
    ensures 1 <= month <= 12 && DaysBeforeMonth(month, leap) <= days < DaysBeforeMonth(month + 1, leap)
    decreases 12 - from
  {
    if days < DaysBeforeMonth(from + 1, leap) {
      month := from;
    } else {
      month := FindMonth(days, leap, from + 1);
    }
  }

  /** Every epoch second has a date. */
  lemma DateExists(secs: nat)
    ensures exists d :: IsDateAt(secs, d)
  {
    var days, time := secs / DAY_SECONDS, secs % DAY_SECONDS;
    var year := FindYear(days, EPOCH_YEAR);
    var leap := IsLeapYear(year);
    var dayOfYear := days - DaysBeforeYear(year);
    YearLength(year);
    MonthLength(12, leap);
    var month := FindMonth(dayOfYear, leap, 1);
    MonthLength(month, leap);
    SplitTime(time);
    var d := DateTime(year, month, dayOfYear - DaysBeforeMonth(month, leap) + 1,
      time / 3600, time % 3600 / 60, time % 60);
    assert IsDateAt(secs, d);
  }

  ghost function DateAt(secs: nat): (d: DateTime)
    ensures IsDateAt(secs, d)
  {
    DateExists(secs);
    var d :| IsDateAt(secs, d);
    d
  }

  /** The timestamp of a clock reading: its date, and the milliseconds of its second. */
  ghost function Timestamp(nanos: int): string {
    Stamp(DateAt(Millis(nanos) / 1000), Millis(nanos) % 1000)
  }

  method FormatIso8601(nanos: Instant) returns (s: string)
    ensures s == Timestamp(nanos)
  {
    var elapsed: nat := if nanos < 0 then 0 else nanos;
    var secs := elapsed / 1_000_000_000;
    var ms := elapsed % 1_000_000_000 / 1_000_000;
    SplitNanos(elapsed);
    assert Millis(nanos) == elapsed / 1_000_000;
    var d := EpochSecondsToYmdHms(secs);
    EpochOrder(d, DateAt(secs));
    s := Stamp(d, ms);
  }

  lemma SplitNanos(n: nat)
    ensures n / 1_000_000_000 == n / 1_000_000 / 1000
    ensures n % 1_000_000_000 / 1_000_000 == n / 1_000_000 % 1000
  {
  }

  /** Through the year 9999: timestamps compare as text as their clock readings compare in
      milliseconds, and reading one back gives the millisecond it was printed from. */
  lemma TextOrderIsTimeOrder(a: int, b: int)
    requires Millis(a) / 1000 < FirstSecond(10_000) && Millis(b) / 1000 < FirstSecond(10_000)
    ensures |Timestamp(a)| == 24
    ensures Lex.Less(Timestamp(a), Timestamp(b)) <==> Millis(a) < Millis(b)
    ensures Timestamp(a) == Timestamp(b) <==> Millis(a) == Millis(b)
    ensures var r := ReadStamp(Timestamp(a));
      r.Some? && Valid(r.value.0) && EpochSeconds(r.value.0) * 1000 + r.value.1 == Millis(a)
  {
    var d, e := DateAt(Millis(a) / 1000), DateAt(Millis(b) / 1000);
    var i, j := Millis(a) % 1000, Millis(b) % 1000;
    YearBound(d);
    YearBound(e);
    StampOrder(d, i, e, j);
    StampOrder(e, j, d, i);
    StampRoundTrip(d, i);
    Lex.Total(Timestamp(a), Timestamp(b));
  }

  lemma YearBound(d: DateTime)
    requires Valid(d) && EpochSeconds(d) < FirstSecond(10_000)
    ensures d.year <= 9999
  {
    DayWithinYear(d);
    if d.year >= 10_000 {
      YearsIncrease(10_000, d.year);
    }
  }

  lemma {:induction false} TextLong(n: nat, w: nat)
    requires n >= Pow10(w)
    ensures |Decimal.Text(n)| > w
  {
    if w > 0 {
      TextLong(n / 10, w - 1);
    }
  }

  lemma TimeTextLength(d: DateTime, ms: nat)
    requires Valid(d) && ms < 1000
    ensures |Stamp(d, ms)| == |Pad(d.year, 4)| + 20
  {
    Powers();
    PadShape(d.month, 2);
    PadShape(d.day, 2);
    PadShape(d.hour, 2);
    PadShape(d.minute, 2);
    PadShape(d.second, 2);
    PadShape(ms, 3);
  }

  /** The 24-character shape holds exactly through the year 9999. */
  lemma TwentyFourCharacters(nanos: int)
    ensures |Timestamp(nanos)| == 24 <==> Millis(nanos) / 1000 < FirstSecond(10_000)
  {
    var secs := Millis(nanos) / 1000;
    var d := DateAt(secs);
    Powers();
    TimeTextLength(d, Millis(nanos) % 1000);
    if secs < FirstSecond(10_000) {
      YearBound(d);
      PadShape(d.year, 4);
    } else {
      YearReached(d, 10_000);
      TextLong(d.year, 4);
    }
  }

  lemma YearReached(d: DateTime, year: nat)
    requires Valid(d) && year >= EPOCH_YEAR && EpochSeconds(d) >= FirstSecond(year)
    ensures d.year >= year
  {
    DayWithinYear(d);
  }

  // ---------------------------------------------------------------------------
  // Fixed points
  // ---------------------------------------------------------------------------

  /** The calendar is the Gregorian one: month lengths by the knuckle rule, leap years every
      four years except three centuries out of four, 146097 days every 400 years. */
  lemma Gregorian(year: nat, month: nat)
    requires year >= 1970 && 1 <= month <= 12
    ensures month != 2 ==> DaysInMonth(month, IsLeapYear(year)) == 30 + (if month <= 7 then month % 2 else (month + 1) % 2)
    ensures DaysInMonth(2, IsLeapYear(year)) == 28 + DaysInYear(year) - 365
    ensures DaysInYear(year) == if year % 400 == 0 || (year % 4 == 0 && year % 100 != 0) then 366 else 365
    ensures DaysBeforeYear(year + 400) == DaysBeforeYear(year) + 146_097
  {
    CenturiesDivide(year);
    Cycle(year - 1);
  }

  lemma Cycle(year: nat)
    ensures LeapYearsThrough(year + 400) == LeapYearsThrough(year) + 97
  {
    assert (year + 400) / 4 == year / 4 + 100;
    assert (year + 400) / 100 == year / 100 + 4;
    assert (year + 400) / 400 == year / 400 + 1;
  }

  /** Dates with known epoch seconds, leap days and their neighbours among them. */
  lemma KnownDates(d: DateTime)
    ensures d == DateTime(1970, 1, 1, 0, 0, 0) ==> Valid(d) && EpochSeconds(d) == 0
    ensures d == DateTime(2000, 2, 29, 23, 59, 59) ==> Valid(d) && EpochSeconds(d) == 951_868_799
    ensures d == DateTime(2000, 3, 1, 0, 0, 0) ==> Valid(d) && EpochSeconds(d) == 951_868_800
    ensures d == DateTime(2024, 2, 29, 12, 34, 56) ==> Valid(d) && EpochSeconds(d) == 1_709_210_096
    ensures d == DateTime(2038, 1, 19, 3, 14, 7) ==> Valid(d) && EpochSeconds(d) == 2_147_483_647
    ensures d == DateTime(2100, 2, 28, 23, 59, 59) ==> Valid(d) && EpochSeconds(d) == 4_107_542_399
    ensures d == DateTime(2100, 3, 1, 0, 0, 0) ==> Valid(d) && EpochSeconds(d) == 4_107_542_400
  {
    if d == DateTime(1970, 1, 1, 0, 0, 0) {
      CountDays(d, 477, 0);
    } else if d == DateTime(2000, 2, 29, 23, 59, 59) {
      CountDays(d, 484, 31);
    } else if d == DateTime(2000, 3, 1, 0, 0, 0) {
      CountDays(d, 484, 60);
    } else if d == DateTime(2024, 2, 29, 12, 34, 56) {
      CountDays(d, 490, 31);
    } else if d == DateTime(2038, 1, 19, 3, 14, 7) {
      CountDays(d, 494, 0);
    } else if d == DateTime(2100, 2, 28, 23, 59, 59) {
      CountDays(d, 509, 31);
    } else if d == DateTime(2100, 3, 1, 0, 0, 0) {
      CountDays(d, 509, 59);
    }
    hide EpochSeconds;
  }

  /** The count of seconds from the number of leap years before and the days before the month. */
  lemma CountDays(d: DateTime, leaps: nat, before: nat)
    requires Valid(d) && LeapYearsThrough(d.year - 1) == leaps && DaysBeforeMonth(d.month, IsLeapYear(d.year)) == before
    ensures EpochSeconds(d) ==
      (365 * (d.year - 1970) + leaps - 477 + before + d.day - 1) * 86_400 + d.hour * 3600 + d.minute * 60 + d.second
  {
    assert LeapYearsThrough(EPOCH_YEAR - 1) == 477;
  }

  lemma FieldChars(n: nat, w: nat, sep: char, rest: string)
    requires w >= 1 && n < Pow10(w)
    ensures var s := Field(n, w, sep, rest);
      && |s| == w + 1 + |rest| && s[w] == sep && (forall i | 0 <= i < w :: '0' <= s[i] <= '9')
      && forall i | w < i < |s| :: s[i] == rest[i - w - 1]
  {
    PadShape(n, w);
    hide Pad;
  }

  predicate Digits(s: string, from: nat, to: nat) {
    to <= |s| && forall i | from <= i < to :: '0' <= s[i] <= '9'
  }

  lemma TimeChars(d: DateTime, ms: nat)
    requires Printable(d, ms)
    ensures var s := Field(d.hour, 2, ':', Field(d.minute, 2, ':', Field(d.second, 2, '.', Field(ms, 3, 'Z', ""))));
      && |s| == 13 && s[2] == s[5] == ':' && s[8] == '.' && s[12] == 'Z'
      && Digits(s, 0, 2) && Digits(s, 3, 5) && Digits(s, 6, 8) && Digits(s, 9, 12)
  {
    Powers();
    var x0 := Field(ms, 3, 'Z', "");
    FieldChars(ms, 3, 'Z', "");
    var x1 := Field(d.second, 2, '.', x0);
    FieldChars(d.second, 2, '.', x0);
    var x2 := Field(d.minute, 2, ':', x1);
    FieldChars(d.minute, 2, ':', x1);
    FieldChars(d.hour, 2, ':', x2);
    hide Field;
  }

  lemma DateChars(d: DateTime, rest: string)
    requires Valid(d) && d.year <= 9999
    ensures var s := Field(d.year, 4, '-', Field(d.month, 2, '-', Field(d.day, 2, 'T', rest)));
      && |s| == 11 + |rest| && s[4] == s[7] == '-' && s[10] == 'T'
      && Digits(s, 0, 4) && Digits(s, 5, 7) && Digits(s, 8, 10)
      && forall i | 11 <= i < |s| :: s[i] == rest[i - 11]
  {
    Powers();
    var x4 := Field(d.day, 2, 'T', rest);
    FieldChars(d.day, 2, 'T', rest);
    var x5 := Field(d.month, 2, '-', x4);
    FieldChars(d.month, 2, '-', x4);
    FieldChars(d.year, 4, '-', x5);
    hide Field;
  }

  /** The printed shape: digits, and these separators. */
  lemma StampChars(d: DateTime, ms: nat)
    requires Printable(d, ms)
    ensures var s := Stamp(d, ms);
      && |s| == 24 && s[4] == s[7] == '-' && s[10] == 'T' && s[13] == s[16] == ':' && s[19] == '.' && s[23] == 'Z'
      && Digits(s, 0, 4) && Digits(s, 5, 7) && Digits(s, 8, 10)
      && Digits(s, 11, 13) && Digits(s, 14, 16) && Digits(s, 17, 19) && Digits(s, 20, 23)
  {
    TimeChars(d, ms);
    var time := Field(d.hour, 2, ':', Field(d.minute, 2, ':', Field(d.second, 2, '.', Field(ms, 3, 'Z', ""))));
    DateChars(d, time);
    Behind(Stamp(d, ms), time);
    hide Field;
    hide Digits;
  }

  /** Digits of the time part are digits of the whole, eleven characters further on. */
  lemma Behind(s: string, time: string)
    requires |s| == 11 + |time| && forall i | 11 <= i < |s| :: s[i] == time[i - 11]
    ensures forall a: nat, b: nat | Digits(time, a, b) :: Digits(s, a + 11, b + 11)
  {
  }

  /** Clock readings: milliseconds are whole millions of nanoseconds, and every reading
      before the epoch prints as the epoch. */
  lemma ReadingsMean(nanos: int)
    ensures nanos <= 0 ==> Timestamp(nanos) == Timestamp(0)
    ensures nanos >= 0 ==> Millis(nanos) * 1_000_000 <= nanos < (Millis(nanos) + 1) * 1_000_000
  {
    WholeMillis(if nanos < 0 then 0 else nanos);
    hide DateAt;
  }

  lemma WholeMillis(n: nat)
    ensures n / 1_000_000 * 1_000_000 <= n < (n / 1_000_000 + 1) * 1_000_000
  {
  }
}
