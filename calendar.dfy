/**
  The arithmetic of the host `Date` object that `SC.DateTime` and `SC.Time`
  wrap: an instant is the integer number of milliseconds since
  1970-01-01T00:00:00.000, decomposed with the proleptic Gregorian calendar
  and a zero time-zone offset, exactly as in section 15.9.1 of ECMA-262
  (5.1 edition).  The setters are those of section 15.9.5 (setFullYear,
  setMonth, setDate, setHours, setMinutes, setSeconds, setMilliseconds),
  built from MakeTime, MakeDay and MakeDate (sections 15.9.1.11-13).
*/
module Calendar {

  // Milliseconds per second, minute, hour and day (msPerSecond, msPerMinute,
  // msPerHour, msPerDay of the standard) are written as literals below, so
  // that every product and quotient by them stays linear arithmetic.

  /** The calendar fields a date exposes through its generic getter. */
  datatype Field = Year | Month | Day | DayOfWeek | Hours | Minutes | Seconds | Milliseconds

  /** The seven settable fields of one instant; `month` is 1-based. */
  datatype Fields = Fields(year: int, month: int, day: int,
                           hours: int, minutes: int, seconds: int, milliseconds: int)

  // ---------------------------------------------------------------------
  // Years (section 15.9.1.3).  `%` on a negative year is zero exactly when
  // JavaScript's truncating `%` is zero, so the leap test agrees with the
  // source's `y%4 === 0` for every year.

  predicate IsLeapYear(y: int) {
    (y % 4 == 0 && y % 100 != 0) || y % 400 == 0
  }

  function DaysInYear(y: int): int {
    if IsLeapYear(y) then 366 else 365
  }

  /** Day number of January 1st of year `y` (floor divisions). */
  function DayFromYear(y: int): int {
    365 * (y - 1970) + (y - 1969) / 4 - (y - 1901) / 100 + (y - 1601) / 400
  }

  lemma DayFromYearStep(y: int)
    ensures DayFromYear(y + 1) == DayFromYear(y) + DaysInYear(y)
  {
    assert DayFromYear(y + 1) == 365 * (y - 1969) + (y - 1968) / 4 - (y - 1900) / 100 + (y - 1600) / 400;
    FloorStep4(y);
    FloorStep100(y);
    FloorStep400(y);
  }

  /** A year divisible by 4 adds one leap day to the count since 1969. */
  lemma FloorStep4(y: int)
    ensures (y - 1968) / 4 == (y - 1969) / 4 + (if y % 4 == 0 then 1 else 0)
  {
    var q, r := (y - 1969) / 4, (y - 1969) % 4;
    assert y == 4 * (q + 492) + (r + 1);
    if r == 3 {
      assert y == 4 * (q + 493) && y - 1968 == 4 * (q + 1);
    } else {
      assert y % 4 == r + 1 && y - 1968 == 4 * q + (r + 1);
    }
  }

  /** A year divisible by 100 removes one leap day from the count since 1900. */
  lemma FloorStep100(y: int)
    ensures (y - 1900) / 100 == (y - 1901) / 100 + (if y % 100 == 0 then 1 else 0)
  {
    var q, r := (y - 1901) / 100, (y - 1901) % 100;
    assert y == 100 * (q + 19) + (r + 1);
    if r == 99 {
      assert y == 100 * (q + 20) && y - 1900 == 100 * (q + 1);
    } else {
      assert y % 100 == r + 1 && y - 1900 == 100 * q + (r + 1);
    }
  }

  /** A year divisible by 400 restores one leap day to the count since 1600. */
  lemma FloorStep400(y: int)
    ensures (y - 1600) / 400 == (y - 1601) / 400 + (if y % 400 == 0 then 1 else 0)
  {
    var q, r := (y - 1601) / 400, (y - 1601) % 400;
    assert y == 400 * (q + 4) + (r + 1);
    if r == 399 {
      assert y == 400 * (q + 5) && y - 1600 == 400 * (q + 1);
    } else {
      assert y % 400 == r + 1 && y - 1600 == 400 * q + (r + 1);
    }
  }

  /** DayFromYear stays within 1.5 days of the mean Gregorian year length. */
  lemma DayFromYearNearLinear(y: int)
    ensures -600 <= 400 * DayFromYear(y) - 146097 * (y - 1970) <= 600
  {
    var x := y - 1970;
    assert x + 1 - 3 <= 4 * ((x + 1) / 4) <= x + 1;
    assert x + 69 - 99 <= 100 * ((x + 69) / 100) <= x + 69;
    assert x + 369 - 399 <= 400 * ((x + 369) / 400) <= x + 369;
  }

  /** Years start on strictly increasing day numbers. */
  lemma DayFromYearOrder(a: int, b: int)
    requires a < b
    ensures DayFromYear(a + 1) <= DayFromYear(b)
    ensures DayFromYear(a) < DayFromYear(b)
  {
    DayFromYearStep(a);
    if a + 1 < b {
      DayFromYearNearLinear(a + 1);
      DayFromYearNearLinear(b);
    }
  }

  /** The year holding day number `dn`. */
  function YearFromDay(dn: int): (y: int)
    ensures DayFromYear(y) <= dn < DayFromYear(y + 1)
  {
    var y0 := 1970 + (400 * dn) / 146097;
    YearNear(dn, y0);
    if DayFromYear(y0 + 1) <= dn then y0 + 1
    else if DayFromYear(y0) <= dn then y0
    else y0 - 1
  }

  /** The estimate `1970 + 400 * dn / 146097` is off by at most one year. */
  lemma YearNear(dn: int, y0: int)
    requires y0 == 1970 + (400 * dn) / 146097
    ensures DayFromYear(y0 - 1) <= dn < DayFromYear(y0 + 2)
  {
    var q := (400 * dn) / 146097;
    assert 400 * dn - 146096 <= 146097 * q <= 400 * dn;
    DayFromYearNearLinear(y0 - 1);
    DayFromYearNearLinear(y0 + 2);
  }

  lemma YearFromDayUnique(y: int, dn: int)
    requires DayFromYear(y) <= dn < DayFromYear(y + 1)
    ensures YearFromDay(dn) == y
  {
    var y' := YearFromDay(dn);
    if y' < y {
      DayFromYearOrder(y', y);
    } else if y < y' {
      DayFromYearOrder(y, y');
    }
  }

  // ---------------------------------------------------------------------
  // Months (section 15.9.1.4).  `m0` is the host's 0-based month.

  function MonthStart(m0: int, leap: bool): int
    requires 0 <= m0 <= 12
  {
    [0, 31, 59, 90, 120, 151, 181, 212, 243, 273, 304, 334, 365][m0]
      + (if leap && m0 >= 2 then 1 else 0)
  }

  /**
    The number of days of month `m` (1-based) of year `y`, as the source's
    `daysInMonth` computes it: 30 for April, June, September and November,
    29 or 28 for February, 31 otherwise.
  */
  function DaysInMonth(y: int, m: int): (n: int)
    ensures 28 <= n <= 31
    ensures 1 <= m <= 12 ==> n == MonthStart(m, IsLeapYear(y)) - MonthStart(m - 1, IsLeapYear(y))
    ensures m == 2 ==> (n == 29 <==> IsLeapYear(y))
  {
    if m == 4 || m == 6 || m == 9 || m == 11 then 30
    else if m == 2 then (if IsLeapYear(y) then 29 else 28)
    else 31
  }

  /** The 0-based month holding day `doy` (0-based) of a year. */
  function MonthInYear(doy: int, leap: bool): (m0: int)
    requires 0 <= doy < MonthStart(12, leap)
    ensures 0 <= m0 < 12
    ensures MonthStart(m0, leap) <= doy < MonthStart(m0 + 1, leap)
  {
    if doy < MonthStart(1, leap) then 0
    else if doy < MonthStart(2, leap) then 1
    else if doy < MonthStart(3, leap) then 2
    else if doy < MonthStart(4, leap) then 3
    else if doy < MonthStart(5, leap) then 4
    else if doy < MonthStart(6, leap) then 5
    else if doy < MonthStart(7, leap) then 6
    else if doy < MonthStart(8, leap) then 7
    else if doy < MonthStart(9, leap) then 8
    else if doy < MonthStart(10, leap) then 9
    else if doy < MonthStart(11, leap) then 10
    else 11
  }

  lemma MonthStartOrder(a: int, b: int, leap: bool)
    requires 0 <= a < b <= 12
    ensures MonthStart(a, leap) < MonthStart(b, leap)
  {
  }

  lemma MonthInYearUnique(m0: int, doy: int, leap: bool)
    requires 0 <= m0 < 12
    requires MonthStart(m0, leap) <= doy < MonthStart(m0 + 1, leap)
    ensures MonthInYear(doy, leap) == m0
  {
    assert MonthStart(m0 + 1, leap) <= MonthStart(12, leap) by {
      if m0 + 1 < 12 { MonthStartOrder(m0 + 1, 12, leap); }
    }
    var m' := MonthInYear(doy, leap);
    if m' < m0 {
      if m' + 1 < m0 { MonthStartOrder(m' + 1, m0, leap); }
    } else if m0 < m' {
      if m0 + 1 < m' { MonthStartOrder(m0 + 1, m', leap); }
    }
  }

  /** A day of year `y` is one of its 365 or 366 days. */
  lemma DaysOfYear(y: int, dn: int)
    requires DayFromYear(y) <= dn < DayFromYear(y + 1)
    ensures 0 <= dn - DayFromYear(y) < MonthStart(12, IsLeapYear(y))
  {
    DayFromYearStep(y);
  }

  function MonthFromDay(dn: int): (m0: int)
    ensures 0 <= m0 < 12
    ensures var y := YearFromDay(dn);
            MonthStart(m0, IsLeapYear(y)) <= dn - DayFromYear(y) < MonthStart(m0 + 1, IsLeapYear(y))
  {
    var y := YearFromDay(dn);
    DaysOfYear(y, dn);
    MonthInYear(dn - DayFromYear(y), IsLeapYear(y))
  }

  function DateFromDay(dn: int): int {
    var y := YearFromDay(dn);
    dn - DayFromYear(y) - MonthStart(MonthFromDay(dn), IsLeapYear(y)) + 1
  }

  // ---------------------------------------------------------------------
  // Instants (sections 15.9.1.2, 15.9.1.6, 15.9.1.10).  Dafny's `/` and `%`
  // on a positive divisor are the floor and modulo the standard uses.

  function DayNumber(t: int): int { t / 86400000 }
  function TimeWithinDay(t: int): int { t % 86400000 }

  function YearFromTime(t: int): int { YearFromDay(DayNumber(t)) }
  function MonthFromTime(t: int): int { MonthFromDay(DayNumber(t)) }
  function DateFromTime(t: int): int { DateFromDay(DayNumber(t)) }
  /** Day of the week, 0 = Sunday; day number 0 (1970-01-01) was a Thursday. */
  function WeekDay(t: int): int { (DayNumber(t) + 4) % 7 }
  function HourFromTime(t: int): int { (t / 3600000) % 24 }
  function MinFromTime(t: int): int { (t / 60000) % 60 }
  function SecFromTime(t: int): int { (t / 1000) % 60 }
  function MsFromTime(t: int): int { t % 1000 }

  function MakeTime(hour: int, min: int, sec: int, ms: int): int {
    hour * 3600000 + min * 60000 + sec * 1000 + ms
  }

  /** Month overflow carries into the year: month 12 is January of `year + 1`. */
  function MakeDay(year: int, month: int, date: int): int {
    var ym := year + month / 12;
    var mn := month % 12;
    DayFromYear(ym) + MonthStart(mn, IsLeapYear(ym)) + date - 1
  }

  function MakeDate(day: int, time: int): int { day * 86400000 + time }

  // The setters of section 15.9.5, with local time equal to UTC.

  function SetFullYear(t: int, year: int): int {
    MakeDate(MakeDay(year, MonthFromTime(t), DateFromTime(t)), TimeWithinDay(t))
  }
  function SetMonth(t: int, month: int): int {
    MakeDate(MakeDay(YearFromTime(t), month, DateFromTime(t)), TimeWithinDay(t))
  }
  function SetDate(t: int, date: int): int {
    MakeDate(MakeDay(YearFromTime(t), MonthFromTime(t), date), TimeWithinDay(t))
  }
  function SetHours(t: int, hour: int): int {
    MakeDate(DayNumber(t), MakeTime(hour, MinFromTime(t), SecFromTime(t), MsFromTime(t)))
  }
  function SetMinutes(t: int, min: int): int {
    MakeDate(DayNumber(t), MakeTime(HourFromTime(t), min, SecFromTime(t), MsFromTime(t)))
  }
  function SetSeconds(t: int, sec: int): int {
    MakeDate(DayNumber(t), MakeTime(HourFromTime(t), MinFromTime(t), sec, MsFromTime(t)))
  }
  function SetMilliseconds(t: int, ms: int): int {
    MakeDate(DayNumber(t), MakeTime(HourFromTime(t), MinFromTime(t), SecFromTime(t), ms))
  }

  // ---------------------------------------------------------------------
  // Decomposition into fields and back.

  function Decompose(t: int): Fields {
    Fields(YearFromTime(t), MonthFromTime(t) + 1, DateFromTime(t),
           HourFromTime(t), MinFromTime(t), SecFromTime(t), MsFromTime(t))
  }

  function Compose(f: Fields): int {
    MakeDate(MakeDay(f.year, f.month - 1, f.day),
             MakeTime(f.hours, f.minutes, f.seconds, f.milliseconds))
  }

  /** Fields that name an existing instant without any carry. */
  predicate ValidFields(f: Fields) {
    && 1 <= f.month <= 12
    && 1 <= f.day <= DaysInMonth(f.year, f.month)
    && 0 <= f.hours < 24
    && 0 <= f.minutes < 60
    && 0 <= f.seconds < 60
    && 0 <= f.milliseconds < 1000
  }

  /** A day number is rebuilt from its year, month and date. */
  lemma DayDecompose(dn: int)
    ensures 1 <= DateFromDay(dn) <= DaysInMonth(YearFromDay(dn), MonthFromDay(dn) + 1)
    ensures MakeDay(YearFromDay(dn), MonthFromDay(dn), DateFromDay(dn)) == dn
  {
    var y := YearFromDay(dn);
    DayInMonth(y, dn, MonthFromDay(dn), DateFromDay(dn));
  }

  /** The day of month of a day that lies in month `m0` of year `y`. */
  lemma DayInMonth(y: int, dn: int, m0: int, d: int)
    requires 0 <= m0 < 12
    requires MonthStart(m0, IsLeapYear(y)) <= dn - DayFromYear(y) < MonthStart(m0 + 1, IsLeapYear(y))
    requires d == dn - DayFromYear(y) - MonthStart(m0, IsLeapYear(y)) + 1
    ensures 1 <= d <= DaysInMonth(y, m0 + 1)
    ensures MakeDay(y, m0, d) == dn
  {
    MakeDayInYear(y, m0, d);
  }

  /** A time within the day is rebuilt from its hours, minutes, seconds and milliseconds. */
  lemma TimeDecompose(t: int)
    ensures 0 <= HourFromTime(t) < 24 && 0 <= MinFromTime(t) < 60
    ensures 0 <= SecFromTime(t) < 60 && 0 <= MsFromTime(t) < 1000
    ensures MakeTime(HourFromTime(t), MinFromTime(t), SecFromTime(t), MsFromTime(t)) == TimeWithinDay(t)
  {
    var q := t / 1000;
    var ms := t % 1000;
    assert t == 1000 * q + ms;
    var qm := q / 60;
    var s := q % 60;
    assert t / 60000 == qm;
    var qh := qm / 60;
    var mi := qm % 60;
    assert t / 3600000 == qh;
    var dd := qh / 24;
    var h := qh % 24;
    assert t / 86400000 == dd;
    assert t == dd * 86400000 + h * 3600000 + mi * 60000 + s * 1000 + ms;
  }

  /** Every instant has valid fields and is rebuilt from them. */
  lemma {:induction false} ComposeDecompose(t: int)
    ensures ValidFields(Decompose(t))
    ensures Compose(Decompose(t)) == t
    ensures MakeDay(YearFromTime(t), MonthFromTime(t), DateFromTime(t)) == DayNumber(t)
  {
    var dn := DayNumber(t);
    DayDecompose(dn);
    TimeDecompose(t);
    ComposeParts(Decompose(t), dn, TimeWithinDay(t));
    assert t == MakeDate(dn, TimeWithinDay(t));
  }

  lemma ComposeParts(f: Fields, dn: int, tod: int)
    requires MakeDay(f.year, f.month - 1, f.day) == dn
    requires MakeTime(f.hours, f.minutes, f.seconds, f.milliseconds) == tod
    ensures Compose(f) == MakeDate(dn, tod)
  {
  }

  /** A valid calendar date is read back from the day number it makes. */
  lemma {:induction false} DayCompose(y: int, m0: int, d: int)
    requires 0 <= m0 < 12 && 1 <= d <= DaysInMonth(y, m0 + 1)
    ensures YearFromDay(MakeDay(y, m0, d)) == y
    ensures MonthFromDay(MakeDay(y, m0, d)) == m0
    ensures DateFromDay(MakeDay(y, m0, d)) == d
  {
    var leap := IsLeapYear(y);
    var dn := MakeDay(y, m0, d);
    assert dn == DayFromYear(y) + MonthStart(m0, leap) + d - 1;
    assert MonthStart(m0 + 1, leap) <= MonthStart(12, leap) by {
      if m0 + 1 < 12 { MonthStartOrder(m0 + 1, 12, leap); }
    }
    DayFromYearStep(y);
    YearFromDayUnique(y, dn);
    MonthInYearUnique(m0, dn - DayFromYear(y), leap);
  }

  /** A valid time of day on day `dn` is read back from the instant it makes. */
  lemma {:induction false} TimeCompose(dn: int, h: int, mi: int, s: int, ms: int)
    requires 0 <= h < 24 && 0 <= mi < 60 && 0 <= s < 60 && 0 <= ms < 1000
    ensures DayNumber(MakeDate(dn, MakeTime(h, mi, s, ms))) == dn
    ensures TimeWithinDay(MakeDate(dn, MakeTime(h, mi, s, ms))) == MakeTime(h, mi, s, ms)
    ensures HourFromTime(MakeDate(dn, MakeTime(h, mi, s, ms))) == h
    ensures MinFromTime(MakeDate(dn, MakeTime(h, mi, s, ms))) == mi
    ensures SecFromTime(MakeDate(dn, MakeTime(h, mi, s, ms))) == s
    ensures MsFromTime(MakeDate(dn, MakeTime(h, mi, s, ms))) == ms
  {
    var tod := MakeTime(h, mi, s, ms);
    var t := MakeDate(dn, tod);
    assert 0 <= tod < 86400000;
    assert DayNumber(t) == dn;
    assert TimeWithinDay(t) == tod;
    TimeDecompose(t);
    TimeFieldsUnique(h, mi, s, ms, HourFromTime(t), MinFromTime(t), SecFromTime(t), MsFromTime(t));
  }

  /** Valid fields are read back unchanged from the instant they compose. */
  lemma {:induction false} DecomposeCompose(f: Fields)
    requires ValidFields(f)
    ensures Decompose(Compose(f)) == f
  {
    var dn := MakeDay(f.year, f.month - 1, f.day);
    DayCompose(f.year, f.month - 1, f.day);
    TimeCompose(dn, f.hours, f.minutes, f.seconds, f.milliseconds);
  }

  lemma TimeFieldsUnique(h: int, mi: int, s: int, ms: int, h': int, mi': int, s': int, ms': int)
    requires 0 <= h < 24 && 0 <= mi < 60 && 0 <= s < 60 && 0 <= ms < 1000
    requires 0 <= h' < 24 && 0 <= mi' < 60 && 0 <= s' < 60 && 0 <= ms' < 1000
    requires MakeTime(h, mi, s, ms) == MakeTime(h', mi', s', ms')
    ensures h == h' && mi == mi' && s == s' && ms == ms'
  {
  }

  /** Within a year, a day number is the year's start plus the month's start plus the date. */
  lemma MakeDayInYear(y: int, m0: int, d: int)
    requires 0 <= m0 < 12
    ensures MakeDay(y, m0, d) == DayFromYear(y) + MonthStart(m0, IsLeapYear(y)) + d - 1
  {
    assert m0 / 12 == 0 && m0 % 12 == m0;
  }

  /** A valid date lies within its year. */
  lemma {:induction false} DateWithinYear(y: int, m0: int, d: int)
    requires 0 <= m0 < 12 && 1 <= d <= DaysInMonth(y, m0 + 1)
    ensures DayFromYear(y) <= MakeDay(y, m0, d) < DayFromYear(y + 1)
  {
    var leap := IsLeapYear(y);
    MakeDayInYear(y, m0, d);
    assert MonthStart(m0 + 1, leap) <= MonthStart(12, leap) by {
      if m0 + 1 < 12 { MonthStartOrder(m0 + 1, 12, leap); }
    }
    DayFromYearStep(y);
  }

  /** Valid dates are ordered as their day numbers: year first, then month, then day. */
  lemma {:induction false} DateOrder(y: int, m0: int, d: int, y': int, m0': int, d': int)
    requires 0 <= m0 < 12 && 1 <= d <= DaysInMonth(y, m0 + 1)
    requires 0 <= m0' < 12 && 1 <= d' <= DaysInMonth(y', m0' + 1)
    requires y < y' || (y == y' && (m0 < m0' || (m0 == m0' && d < d')))
    ensures MakeDay(y, m0, d) < MakeDay(y', m0', d')
  {
    if y < y' {
      DateWithinYear(y, m0, d);
      DateWithinYear(y', m0', d');
      DayFromYearOrder(y, y');
    } else {
      MakeDayInYear(y, m0, d);
      MakeDayInYear(y', m0', d');
      if m0 + 1 < m0' { MonthStartOrder(m0 + 1, m0', IsLeapYear(y)); }
    }
  }

  /** Valid times of day are ordered as the milliseconds they make. */
  lemma TimeOrder(h: int, mi: int, s: int, ms: int, h': int, mi': int, s': int, ms': int)
    requires 0 <= h < 24 && 0 <= mi < 60 && 0 <= s < 60 && 0 <= ms < 1000
    requires 0 <= h' < 24 && 0 <= mi' < 60 && 0 <= s' < 60 && 0 <= ms' < 1000
    requires h < h' || (h == h' && (mi < mi' || (mi == mi' && (s < s' || (s == s' && ms < ms')))))
    ensures MakeTime(h, mi, s, ms) < MakeTime(h', mi', s', ms')
  {
  }

  // ---------------------------------------------------------------------
  // Writing one field, and the fixed sequence of writes of `_rawChange`.

  /**
    The generic getter: the field `k` of instant `t`, with January as
    month 1 and Sunday as day of the week 0.
  */
  function ReadField(t: int, k: Field): (v: int)
    ensures k == Month ==> 1 <= v <= 12
    ensures k == Day ==> 1 <= v <= 31
    ensures k == DayOfWeek ==> 0 <= v < 7
    ensures k == Hours ==> 0 <= v < 24
    ensures (k == Minutes || k == Seconds) ==> 0 <= v < 60
    ensures k == Milliseconds ==> 0 <= v < 1000
  {
    TimeDecompose(t);
    DayDecompose(DayNumber(t));
    match k
    case Year => YearFromTime(t)
    case Month => MonthFromTime(t) + 1
    case Day => DateFromTime(t)
    case DayOfWeek => WeekDay(t)
    case Hours => HourFromTime(t)
    case Minutes => MinFromTime(t)
    case Seconds => SecFromTime(t)
    case Milliseconds => MsFromTime(t)
  }

  /** The host setter that writes field `k` (the month is given 1-based). */
  function WriteField(t: int, k: Field, v: int): int {
    match k
    case Year => SetFullYear(t, v)
    case Month => SetMonth(t, v - 1)
    case Day => SetDate(t, v)
    case Hours => SetHours(t, v)
    case Minutes => SetMinutes(t, v)
    case Seconds => SetSeconds(t, v)
    case Milliseconds => SetMilliseconds(t, v)
    case DayOfWeek => t
  }

  function ReplaceField(f: Fields, k: Field, v: int): Fields {
    match k
    case Year => f.(year := v)
    case Month => f.(month := v)
    case Day => f.(day := v)
    case Hours => f.(hours := v)
    case Minutes => f.(minutes := v)
    case Seconds => f.(seconds := v)
    case Milliseconds => f.(milliseconds := v)
    case DayOfWeek => f
  }

  /**
    Every setter recomposes the instant from its fields with one of them
    replaced: the replaced value is not range-checked, so it carries into the
    coarser fields.
  */
  lemma {:induction false} WriteFieldCompose(t: int, k: Field, v: int)
    ensures WriteField(t, k, v) == Compose(ReplaceField(Decompose(t), k, v))
  {
    var f := Decompose(t);
    match k
    case Year => SetFullYearCompose(t, v);
    case Month => SetMonthCompose(t, v - 1);
    case Day => SetDateCompose(t, v);
    case Hours => SetHoursCompose(t, v);
    case Minutes => SetMinutesCompose(t, v);
    case Seconds => SetSecondsCompose(t, v);
    case Milliseconds => SetMillisecondsCompose(t, v);
    case DayOfWeek => ComposeDecompose(t);
  }

  // Each date setter keeps the time of day and recomposes the date; each
  // time setter keeps the day number and recomposes the time of day.

  lemma SetFullYearCompose(t: int, v: int)
    ensures SetFullYear(t, v) == Compose(Decompose(t).(year := v))
  {
    TimeDecompose(t);
  }

  lemma SetMonthCompose(t: int, m0: int)
    ensures SetMonth(t, m0) == Compose(Decompose(t).(month := m0 + 1))
  {
    TimeDecompose(t);
  }

  lemma SetDateCompose(t: int, v: int)
    ensures SetDate(t, v) == Compose(Decompose(t).(day := v))
  {
    TimeDecompose(t);
  }

  lemma SetHoursCompose(t: int, v: int)
    ensures SetHours(t, v) == Compose(Decompose(t).(hours := v))
  {
    DayDecompose(DayNumber(t));
  }

  lemma SetMinutesCompose(t: int, v: int)
    ensures SetMinutes(t, v) == Compose(Decompose(t).(minutes := v))
  {
    DayDecompose(DayNumber(t));
  }

  lemma SetSecondsCompose(t: int, v: int)
    ensures SetSeconds(t, v) == Compose(Decompose(t).(seconds := v))
  {
    DayDecompose(DayNumber(t));
  }

  lemma SetMillisecondsCompose(t: int, v: int)
    ensures SetMilliseconds(t, v) == Compose(Decompose(t).(milliseconds := v))
  {
    DayDecompose(DayNumber(t));
  }

  /** A write whose value leaves the fields valid is read back as written. */
  lemma {:induction false} WriteFieldReadBack(t: int, k: Field, v: int)
    requires ValidFields(ReplaceField(Decompose(t), k, v))
    ensures Decompose(WriteField(t, k, v)) == ReplaceField(Decompose(t), k, v)
  {
    WriteFieldCompose(t, k, v);
    DecomposeCompose(ReplaceField(Decompose(t), k, v));
  }

  /** Setting a field to the value the getter reads leaves the instant as it was. */
  lemma ReadWriteBack(t: int, k: Field)
    ensures WriteField(t, k, ReadField(t, k)) == t
  {
    WriteFieldCompose(t, k, ReadField(t, k));
    assert ReplaceField(Decompose(t), k, ReadField(t, k)) == Decompose(t);
    ComposeDecompose(t);
  }

  /** The value for `k` in an option bag, or `d` when the bag has none. */
  function Pick(c: map<Field, int>, k: Field, d: int): int {
    if k in c then c[k] else d
  }

  /** One step of `_rawChange`: write `k` only when the bag supplies it. */
  function Write(t: int, c: map<Field, int>, k: Field): int {
    if k in c then WriteField(t, k, c[k]) else t
  }

  /**
    The writes of `_rawChange` (and of the older `_change`), in their fixed
    order: year, month, day, hours, minutes, seconds, milliseconds.  Each
    write carries before the next one is made.
  */
  function ApplyWrites(t: int, c: map<Field, int>): int {
    var t1 := Write(t, c, Year);
    var t2 := Write(t1, c, Month);
    var t3 := Write(t2, c, Day);
    var t4 := Write(t3, c, Hours);
    var t5 := Write(t4, c, Minutes);
    var t6 := Write(t5, c, Seconds);
    Write(t6, c, Milliseconds)
  }

  /** A bag whose every value is the current value of its field leaves the instant as it was. */
  lemma ApplyWritesUnchanged(t: int, c: map<Field, int>)
    requires forall k :: k in c ==> c[k] == ReadField(t, k)
    ensures ApplyWrites(t, c) == t
  {
    ReadWriteBack(t, Year);
    ReadWriteBack(t, Month);
    ReadWriteBack(t, Day);
    ReadWriteBack(t, Hours);
    ReadWriteBack(t, Minutes);
    ReadWriteBack(t, Seconds);
    ReadWriteBack(t, Milliseconds);
  }

  /** A bag that supplies one field makes exactly that field's write. */
  lemma ApplyWritesSingle(t: int, k: Field, v: int)
    ensures ApplyWrites(t, map[k := v]) == WriteField(t, k, v)
  {
    var c := map[k := v];
    assert forall j :: j in c <==> j == k;
    match k
    case Year =>
    case Month =>
    case Day =>
    case Hours =>
    case Minutes =>
    case Seconds =>
    case Milliseconds =>
    case DayOfWeek =>
  }

  /** The fields `f` with every value the bag supplies put in place. */
  function Override(f: Fields, c: map<Field, int>): Fields {
    Fields(Pick(c, Year, f.year), Pick(c, Month, f.month), Pick(c, Day, f.day),
           Pick(c, Hours, f.hours), Pick(c, Minutes, f.minutes),
           Pick(c, Seconds, f.seconds), Pick(c, Milliseconds, f.milliseconds))
  }

  /**
    The supplied values are in range, and the day of month held before the
    day is written fits both the month after the year write and the month
    after the month write, so no write carries.
  */
  predicate WritesFit(f: Fields, c: map<Field, int>) {
    var y := Pick(c, Year, f.year);
    var m := Pick(c, Month, f.month);
    && ValidFields(f)
    && 1 <= m <= 12
    && f.day <= DaysInMonth(y, f.month)
    && f.day <= DaysInMonth(y, m)
    && ValidFields(Override(f, c))
  }

  /** One optional write, on fields: the value is put in place when supplied. */
  function Override1(f: Fields, c: map<Field, int>, k: Field): Fields {
    if k in c then ReplaceField(f, k, c[k]) else f
  }

  lemma {:induction false} WriteReadBack(t: int, c: map<Field, int>, k: Field, f: Fields)
    requires Decompose(t) == f
    requires ValidFields(Override1(f, c, k))
    ensures Decompose(Write(t, c, k)) == Override1(f, c, k)
  {
    if k in c {
      WriteFieldReadBack(t, k, c[k]);
    }
  }

  /** When the writes fit, every intermediate set of fields is valid. */
  lemma {:induction false} WritesFitSteps(f0: Fields, c: map<Field, int>)
    requires WritesFit(f0, c)
    ensures var f1 := Override1(f0, c, Year);
            var f2 := Override1(f1, c, Month);
            var f3 := Override1(f2, c, Day);
            var f4 := Override1(f3, c, Hours);
            var f5 := Override1(f4, c, Minutes);
            var f6 := Override1(f5, c, Seconds);
            var f7 := Override1(f6, c, Milliseconds);
            ValidFields(f1) && ValidFields(f2) && ValidFields(f3) && ValidFields(f4)
            && ValidFields(f5) && ValidFields(f6) && f7 == Override(f0, c)
  {
  }

  /**
    When the writes fit, the instant that `_rawChange` leaves reads back
    exactly the supplied values, and every field not supplied is unchanged.
  */
  lemma {:induction false} ApplyWritesReadBack(t: int, c: map<Field, int>)
    requires WritesFit(Decompose(t), c)
    ensures Decompose(ApplyWrites(t, c)) == Override(Decompose(t), c)
  {
    var f0 := Decompose(t);
    WritesFitSteps(f0, c);
    var f1 := Override1(f0, c, Year);
    var f2 := Override1(f1, c, Month);
    var f3 := Override1(f2, c, Day);
    var f4 := Override1(f3, c, Hours);
    var f5 := Override1(f4, c, Minutes);
    var f6 := Override1(f5, c, Seconds);
    var t1 := Write(t, c, Year);
    WriteReadBack(t, c, Year, f0);
    var t2 := Write(t1, c, Month);
    WriteReadBack(t1, c, Month, f1);
    var t3 := Write(t2, c, Day);
    WriteReadBack(t2, c, Day, f2);
    var t4 := Write(t3, c, Hours);
    WriteReadBack(t3, c, Hours, f3);
    var t5 := Write(t4, c, Minutes);
    WriteReadBack(t4, c, Minutes, f4);
    var t6 := Write(t5, c, Seconds);
    WriteReadBack(t5, c, Seconds, f5);
    WriteReadBack(t6, c, Milliseconds, f6);
  }

  // ---------------------------------------------------------------------
  // Carries.

  /** `setDate(date + n)` moves the instant by exactly `n` days, for any `n`. */
  lemma {:induction false} SetDateBy(t: int, n: int)
    ensures SetDate(t, DateFromTime(t) + n) == t + n * 86400000
  {
    var dn := DayNumber(t);
    DayDecompose(dn);
    SetDateShift(YearFromTime(t), MonthFromTime(t), DateFromTime(t), n, dn, TimeWithinDay(t));
    assert t == MakeDate(dn, TimeWithinDay(t));
  }

  /** Adding `n` to the date of a day `dn` lands `n` whole days later. */
  lemma SetDateShift(y: int, m0: int, d: int, n: int, dn: int, tod: int)
    requires MakeDay(y, m0, d) == dn
    ensures MakeDate(MakeDay(y, m0, d + n), tod) == MakeDate(dn, tod) + n * 86400000
  {
    assert MakeDay(y, m0, d + n) == dn + n;
    assert (dn + n) * 86400000 == dn * 86400000 + n * 86400000;
  }

  /** A bag holding only a day writes that day, whatever carry it makes. */
  lemma {:induction false} WriteDayShift(t: int, n: int, v: int)
    requires v == DateFromTime(t) + n
    ensures ApplyWrites(t, map[Day := v]) == t + n * 86400000
  {
    ApplyWritesDate(t, v);
    SetDateBy(t, n);
  }

  /** A bag holding only a day is the host's `setDate`. */
  lemma ApplyWritesDate(t: int, v: int)
    ensures ApplyWrites(t, map[Day := v]) == SetDate(t, v)
  {
    ApplyWritesSingle(t, Day, v);
  }

  /** A bag holding only milliseconds is the host's `setMilliseconds`. */
  lemma ApplyWritesMilliseconds(t: int, v: int)
    ensures ApplyWrites(t, map[Milliseconds := v]) == SetMilliseconds(t, v)
  {
    ApplyWritesSingle(t, Milliseconds, v);
  }

  /** `setHours(h)` moves the instant by exactly `h - hours` hours, for any `h`. */
  lemma {:induction false} SetHoursShift(t: int, h: int)
    ensures SetHours(t, h) == t + (h - HourFromTime(t)) * 3600000
  {
    TimeDecompose(t);
    assert t == DayNumber(t) * 86400000 + TimeWithinDay(t);
  }

  /** `setMilliseconds(ms)` moves the instant by exactly `ms - milliseconds`. */
  lemma {:induction false} SetMillisecondsShift(t: int, ms: int)
    ensures SetMilliseconds(t, ms) == t + (ms - MsFromTime(t))
  {
    TimeDecompose(t);
    assert t == DayNumber(t) * 86400000 + TimeWithinDay(t);
  }

  lemma ComposeMonthCarry(f: Fields)
    ensures Compose(f.(month := 13)) == Compose(f.(year := f.year + 1, month := 1))
  {
  }

  /** Month 13 is January of the following year, same day and time. */
  lemma {:induction false} MonthThirteenIsNextJanuary(t: int)
    ensures Decompose(WriteField(t, Month, 13)) ==
            Decompose(t).(year := Decompose(t).year + 1, month := 1)
  {
    var f := Decompose(t);
    ComposeDecompose(t);
    WriteFieldCompose(t, Month, 13);
    ComposeMonthCarry(f);
    var g := f.(year := f.year + 1, month := 1);
    assert ValidFields(g);
    DecomposeCompose(g);
  }

  lemma ComposeDayZero(f: Fields, py: int, pm: int)
    requires 1 <= f.month <= 12
    requires py == (if f.month == 1 then f.year - 1 else f.year)
    requires pm == (if f.month == 1 then 12 else f.month - 1)
    ensures Compose(f.(day := 0)) == Compose(f.(year := py, month := pm, day := DaysInMonth(py, pm)))
  {
    if f.month == 1 {
      DayZeroOfJanuary(f.year);
    } else {
      DayZeroWithinYear(f.year, f.month);
    }
  }

  /** Day 0 of January is December 31st of the previous year. */
  lemma DayZeroOfJanuary(y: int)
    ensures MakeDay(y, 0, 0) == MakeDay(y - 1, 11, 31)
  {
    MakeDayInYear(y, 0, 0);
    MakeDayInYear(y - 1, 11, 31);
    DayFromYearStep(y - 1);
  }

  /** Day 0 of a later month is the last day of the month before it. */
  lemma DayZeroWithinYear(y: int, m: int)
    requires 2 <= m <= 12
    ensures MakeDay(y, m - 1, 0) == MakeDay(y, m - 2, DaysInMonth(y, m - 1))
  {
    MakeDayInYear(y, m - 1, 0);
    MakeDayInYear(y, m - 2, DaysInMonth(y, m - 1));
  }

  /** Day 0 is the last day of the previous month, same time of day. */
  lemma {:induction false} DayZeroIsLastOfPreviousMonth(t: int)
    ensures var f := Decompose(t);
            var py := if f.month == 1 then f.year - 1 else f.year;
            var pm := if f.month == 1 then 12 else f.month - 1;
            Decompose(WriteField(t, Day, 0)) == f.(year := py, month := pm, day := DaysInMonth(py, pm))
  {
    var f := Decompose(t);
    var py := if f.month == 1 then f.year - 1 else f.year;
    var pm := if f.month == 1 then 12 else f.month - 1;
    var g := f.(year := py, month := pm, day := DaysInMonth(py, pm));
    ComposeDecompose(t);
    WriteFieldCompose(t, Day, 0);
    ComposeDayZero(f, py, pm);
    DecomposeCompose(g);
  }

  /**
    Writing month `m` on the day after the last day `m` has carries into
    the first of the following month.
  */
  lemma {:induction false} MonthWriteOverflow(t: int, m: int)
    requires 1 <= m < 12
    requires Decompose(t).day == DaysInMonth(Decompose(t).year, m) + 1
    ensures Decompose(WriteField(t, Month, m)) == Decompose(t).(month := m + 1, day := 1)
  {
    var f := Decompose(t);
    var g := f.(month := m + 1, day := 1);
    ComposeDecompose(t);
    WriteFieldCompose(t, Month, m);
    ComposeMonthOverflow(f, m);
    DecomposeCompose(g);
  }

  lemma {:induction false} ComposeMonthOverflow(f: Fields, m: int)
    requires 1 <= m < 12
    requires f.day == DaysInMonth(f.year, m) + 1
    ensures Compose(f.(month := m)) == Compose(f.(month := m + 1, day := 1))
  {
    MakeDayInYear(f.year, m - 1, f.day);
    MakeDayInYear(f.year, m, 1);
  }

  /**
    A day of month past the end of month `m` (January to November), but
    not past the end of the month after it, names that many days into the
    following month.
  */
  lemma {:induction false} ComposeDayCarry(f: Fields)
    requires 1 <= f.month < 12
    requires DaysInMonth(f.year, f.month) < f.day <= DaysInMonth(f.year, f.month) + DaysInMonth(f.year, f.month + 1)
    ensures Compose(f) == Compose(f.(month := f.month + 1, day := f.day - DaysInMonth(f.year, f.month)))
  {
    MakeDayInYear(f.year, f.month - 1, f.day);
    MakeDayInYear(f.year, f.month, f.day - DaysInMonth(f.year, f.month));
  }

  /**
    A write of the year, the month or the day that leaves the day of month
    past the end of its month carries the excess into the next month; the
    time of day is kept.
  */
  lemma {:induction false} WriteCarry(t: int, k: Field, v: int)
    requires k == Year || k == Month || k == Day
    requires var g := ReplaceField(Decompose(t), k, v);
             1 <= g.month < 12 && DaysInMonth(g.year, g.month) < g.day <= DaysInMonth(g.year, g.month) + DaysInMonth(g.year, g.month + 1)
    ensures var g := ReplaceField(Decompose(t), k, v);
            Decompose(WriteField(t, k, v)) == g.(month := g.month + 1, day := g.day - DaysInMonth(g.year, g.month))
  {
    var g := ReplaceField(Decompose(t), k, v);
    var h := g.(month := g.month + 1, day := g.day - DaysInMonth(g.year, g.month));
    ComposeDecompose(t);
    WriteFieldCompose(t, k, v);
    ComposeDayCarry(g);
    DecomposeCompose(h);
  }

  /**
    The fields `setFullYear(y)` leaves: the 29th of February becomes the
    1st of March when `y` is not a leap year; otherwise only the year
    changes.
  */
  function AfterYearWrite(f: Fields, y: int): Fields {
    if f.month == 2 && f.day == 29 && !IsLeapYear(y) then f.(year := y, month := 3, day := 1) else f.(year := y)
  }

  /** Writing the year keeps the month and day, unless the 29th of February does not exist in the new year. */
  lemma {:induction false} YearWrite(t: int, y: int)
    ensures Decompose(WriteField(t, Year, y)) == AfterYearWrite(Decompose(t), y)
  {
    var f := Decompose(t);
    ComposeDecompose(t);
    if f.month == 2 && f.day == 29 && !IsLeapYear(y) {
      WriteCarry(t, Year, y);
    } else {
      WriteFieldReadBack(t, Year, y);
    }
  }

  /** The day of the week of composed fields is that of their day number. */
  lemma WeekDayCompose(f: Fields)
    requires ValidFields(f)
    ensures WeekDay(Compose(f)) == (MakeDay(f.year, f.month - 1, f.day) + 4) % 7
  {
    var dn := MakeDay(f.year, f.month - 1, f.day);
    TimeCompose(dn, f.hours, f.minutes, f.seconds, f.milliseconds);
    assert Compose(f) == MakeDate(dn, MakeTime(f.hours, f.minutes, f.seconds, f.milliseconds));
    assert DayNumber(Compose(f)) == dn;
  }

  /** 1985-05-08 is day 5606 after the epoch, a Wednesday. */
  lemma May8th1985()
    ensures MakeDay(1985, 4, 8) == 5606
    ensures (5606 + 4) % 7 == 3
  {
    assert DayFromYear(1985) == 5479;
  }

  /**
    `daysInMonth` agrees with the calendar: month `m` of year `y` has as
    many days as lie between its first day and the first day of the next
    month.
  */
  lemma {:induction false} DaysInMonthSpan(y: int, m: int)
    requires 1 <= m <= 12
    ensures MakeDay(y, m, 1) - MakeDay(y, m - 1, 1) == DaysInMonth(y, m)
  {
    MakeDayInYear(y, m - 1, 1);
    if m == 12 {
      assert MakeDay(y, m, 1) == DayFromYear(y + 1);
      DayFromYearStep(y);
    } else {
      MakeDayInYear(y, m, 1);
    }
  }

  /** The leap rule agrees with the length of the year in the calendar. */
  lemma LeapYearLength(y: int)
    ensures IsLeapYear(y) <==> DayFromYear(y + 1) - DayFromYear(y) == 366
    ensures !IsLeapYear(y) <==> DayFromYear(y + 1) - DayFromYear(y) == 365
  {
    DayFromYearStep(y);
  }
}
