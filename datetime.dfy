/**
  `SC.DateTime`: a mutable, freezable wrapper around one host date.  The
  date is held as its instant; every operation reads or rewrites it through
  the host setters of module `Calendar`.
*/
module DateTimes {
  import opened Wrappers
  import opened Calendar
  import opened Format

  /** The error a frozen object throws when asked to change. */
  datatype DateTimeError = FrozenError

  // ---------------------------------------------------------------------
  // Specification functions on instants.

  /**
    The cascading reset of `_change`: a supplied hour resets the minutes,
    a supplied hour or minute resets the seconds, and a supplied hour,
    minute or second resets the milliseconds, unless the bag gives them.
  */
  function Cascade(c: map<Field, int>): (r: map<Field, int>)
    ensures forall k :: k in c ==> k in r && r[k] == c[k]
    ensures forall k :: k in r && k !in c ==> r[k] == 0
    ensures forall k :: k in r && k !in c ==> k == Minutes || k == Seconds || k == Milliseconds
    ensures Minutes in r <==> Minutes in c || Hours in c
    ensures Seconds in r <==> Seconds in c || Minutes in c || Hours in c
    ensures Milliseconds in r <==> Milliseconds in c || Seconds in c || Minutes in c || Hours in c
  {
    var r1 := if Hours in c && Minutes !in c then c[Minutes := 0] else c;
    var r2 := if (Hours in c || Minutes in c) && Seconds !in c then r1[Seconds := 0] else r1;
    if (Hours in c || Minutes in c || Seconds in c) && Milliseconds !in c then r2[Milliseconds := 0] else r2
  }

  /** The instant `_change(c)` leaves. */
  function ChangeInstant(t: int, c: map<Field, int>): int {
    ApplyWrites(t, Cascade(c))
  }

  /** The bag `_advance` builds: every delta plus the current value of its field. */
  function AdvanceTargets(t: int, deltas: map<Field, int>): (r: map<Field, int>)
    ensures r.Keys == deltas.Keys
  {
    map k | k in deltas :: deltas[k] + ReadField(t, k)
  }

  /** How many days lie between a day of the week and the Monday before it. */
  function DaysToMonday(wd: int): int {
    if wd != 0 then wd - 1 else 6
  }

  /** The writes that clear the time of day. */
  const Midnight: map<Field, int> := map[Hours := 0, Minutes := 0, Seconds := 0, Milliseconds := 0]

  /** The advance `_beginning_of_week` makes: back to the Monday before. */
  function MondayDelta(t: int): map<Field, int> {
    map[Day := -1 * DaysToMonday(WeekDay(t))]
  }

  /** The instant `_beginning_of_week` leaves. */
  function BeginningOfWeekInstant(t: int): int {
    var back := ChangeInstant(t, AdvanceTargets(t, MondayDelta(t)));
    ApplyWrites(back, Midnight)
  }

  /** The two steps of `_beginning_of_week`, each taken on the instant the previous one left. */
  lemma BeginningOfWeekSteps(t: int, back: int, cleared: int)
    requires back == ChangeInstant(t, AdvanceTargets(t, MondayDelta(t)))
    requires cleared == ApplyWrites(back, Midnight)
    ensures cleared == BeginningOfWeekInstant(t)
  {
  }

  /** The comparison of two numbers: -1, 0 or 1. */
  function Sign(a: int, b: int): (r: int)
    ensures r == -1 <==> a < b
    ensures r == 0 <==> a == b
    ensures r == 1 <==> a > b
  {
    if a < b then -1 else if a == b then 0 else 1
  }

  /**
    The comparison of two arrays of numbers: the first differing element
    decides, and otherwise the shorter array is the smaller.
  */
  function CompareSeq(a: seq<int>, b: seq<int>): (r: int)
    ensures -1 <= r <= 1
  {
    if a == [] && b == [] then 0
    else if a == [] then -1
    else if b == [] then 1
    else if a[0] != b[0] then Sign(a[0], b[0])
    else CompareSeq(a[1..], b[1..])
  }

  /** Year, month and day of an instant. */
  function DatePart(t: int): seq<int> {
    [ReadField(t, Year), ReadField(t, Month), ReadField(t, Day)]
  }

  /** Hours, minutes, seconds and milliseconds of an instant. */
  function TimePart(t: int): seq<int> {
    [ReadField(t, Hours), ReadField(t, Minutes), ReadField(t, Seconds), ReadField(t, Milliseconds)]
  }

  // ---------------------------------------------------------------------
  // The object.

  class DateTime {
    /** The instant of the wrapped host date. */
    var instant: int
    /** Set by `freeze`; a frozen object refuses every change. */
    var isFrozen: bool

    /**
      `create(opts)`: the date starts at `baseline` (the `date` option, or
      the current time) and the supplied fields are written with the
      cascading reset of `_change`.
    */
    constructor (baseline: int, opts: map<Field, int>)
      ensures instant == ChangeInstant(baseline, opts) && !isFrozen
    {
      instant := baseline;
      isFrozen := false;
      new;
      var _ := ChangeInPlace(opts);
    }

    /** `copy`: a new, unfrozen object on the same instant. */
    method Copy() returns (d: DateTime)
      ensures fresh(d) && d.instant == instant && !d.isFrozen
    {
      d := new DateTime(instant, map[]);
    }

    method Freeze()
      modifies this
      ensures isFrozen && instant == old(instant)
    {
      isFrozen := true;
    }

    /**
      `_rawChange`: throws on a frozen object before touching the date;
      otherwise writes the supplied fields in the fixed order.
    */
    method RawChange(c: map<Field, int>) returns (r: Outcome<DateTimeError>)
      modifies this
      ensures isFrozen == old(isFrozen)
      ensures old(isFrozen) ==> r == Fail(FrozenError) && instant == old(instant)
      ensures !old(isFrozen) ==> r == Pass && instant == ApplyWrites(old(instant), c)
    {
      if isFrozen {
        return Fail(FrozenError);
      }
      if Year in c { instant := WriteField(instant, Year, c[Year]); }
      if Month in c { instant := WriteField(instant, Month, c[Month]); }
      if Day in c { instant := WriteField(instant, Day, c[Day]); }
      if Hours in c { instant := WriteField(instant, Hours, c[Hours]); }
      if Minutes in c { instant := WriteField(instant, Minutes, c[Minutes]); }
      if Seconds in c { instant := WriteField(instant, Seconds, c[Seconds]); }
      if Milliseconds in c { instant := WriteField(instant, Milliseconds, c[Milliseconds]); }
      r := Pass;
    }

    /** `_change`: the cascading reset, then `_rawChange`. */
    method ChangeInPlace(c: map<Field, int>) returns (r: Outcome<DateTimeError>)
      modifies this
      ensures isFrozen == old(isFrozen)
      ensures old(isFrozen) ==> r == Fail(FrozenError) && instant == old(instant)
      ensures !old(isFrozen) ==> r == Pass && instant == ChangeInstant(old(instant), c)
    {
      var opts := c;
      if Hours in c && Minutes !in c {
        opts := opts[Minutes := 0];
      }
      if (Hours in c || Minutes in c) && Seconds !in c {
        opts := opts[Seconds := 0];
      }
      if (Hours in c || Minutes in c || Seconds in c) && Milliseconds !in c {
        opts := opts[Milliseconds := 0];
      }
      r := RawChange(opts);
    }

    /** `change`: the cascading change applied to a copy; the receiver is untouched. */
    method Change(c: map<Field, int>) returns (d: DateTime)
      ensures fresh(d) && !d.isFrozen && d.instant == ChangeInstant(instant, c)
    {
      d := Copy();
      var _ := d.ChangeInPlace(c);
    }

    /** The generic getter: the day it reads fits its month. */
    function Get(k: Field): (r: int)
      reads this
      ensures k == Day ==> 1 <= r <= Calendar.DaysInMonth(ReadField(instant, Year), ReadField(instant, Month))
    {
      ComposeDecompose(instant);
      ReadField(instant, k)
    }

    /** The generic setter: a `_rawChange` of one field, without cascade. */
    method Set(k: Field, v: int) returns (r: Outcome<DateTimeError>)
      modifies this
      ensures isFrozen == old(isFrozen)
      ensures old(isFrozen) ==> r == Fail(FrozenError) && instant == old(instant)
      ensures !old(isFrozen) ==> r == Pass && instant == WriteField(old(instant), k, v)
    {
      r := RawChange(map[k := v]);
      ApplyWritesSingle(old(instant), k, v);
    }

    /** `isLeapYear`: the current year has 366 days. */
    function IsLeapYear(): (r: bool)
      reads this
      ensures r <==> Calendar.DaysInMonth(Get(Year), 2) == 29
    {
      Calendar.IsLeapYear(Get(Year))
    }

    /** `daysInMonth`: the days from the first of the current month to the first of the next. */
    function DaysInMonth(): (r: int)
      reads this
      ensures r == MakeDay(Get(Year), Get(Month), 1) - MakeDay(Get(Year), Get(Month) - 1, 1)
    {
      var y, m := Get(Year), Get(Month);
      DaysInMonthSpan(y, m);
      Calendar.DaysInMonth(y, m)
    }

    /**
      `_advance`: every delta is replaced by itself plus the current value
      of its field, all read before any write, then `_change` writes them.
    */
    method AdvanceInPlace(deltas: map<Field, int>) returns (r: Outcome<DateTimeError>)
      modifies this
      ensures isFrozen == old(isFrozen)
      ensures old(isFrozen) ==> r == Fail(FrozenError) && instant == old(instant)
      ensures !old(isFrozen) ==> r == Pass &&
                                 instant == ChangeInstant(old(instant), AdvanceTargets(old(instant), deltas))
    {
      var o := deltas;
      var pending := deltas.Keys;
      while pending != {}
        invariant pending <= deltas.Keys && o.Keys == deltas.Keys
        invariant forall k :: k in pending ==> o[k] == deltas[k]
        invariant forall k :: k in deltas && k !in pending ==> o[k] == deltas[k] + Get(k)
        decreases pending
      {
        var k :| k in pending;
        o := o[k := o[k] + Get(k)];
        pending := pending - {k};
      }
      assert o == AdvanceTargets(instant, deltas) by {
        forall k | k in o
          ensures o[k] == AdvanceTargets(instant, deltas)[k]
        {
        }
      }
      r := ChangeInPlace(o);
    }

    /** `advance`: `_advance` applied to a copy. */
    method Advance(deltas: map<Field, int>) returns (d: DateTime)
      ensures fresh(d) && !d.isFrozen
      ensures d.instant == ChangeInstant(instant, AdvanceTargets(instant, deltas))
    {
      d := Copy();
      var _ := d.AdvanceInPlace(deltas);
    }

    /**
      `_beginning_of_week`: back to the Monday of the current week, then
      the time of day cleared.
    */
    method BeginningOfWeekInPlace() returns (r: Outcome<DateTimeError>)
      modifies this
      ensures isFrozen == old(isFrozen)
      ensures old(isFrozen) ==> r == Fail(FrozenError) && instant == old(instant)
      ensures !old(isFrozen) ==> r == Pass && instant == BeginningOfWeekInstant(old(instant))
    {
      ghost var t0 := instant;
      var daysToMonday := DaysToMonday(WeekDay(instant));
      var delta := map[Day := -1 * daysToMonday];
      assert delta == MondayDelta(t0);
      r := AdvanceInPlace(delta);
      if r.Fail? {
        return;
      }
      ghost var back := instant;
      r := RawChange(Midnight);
      BeginningOfWeekSteps(t0, back, instant);
    }

    /** `beginning_of_week`: `_beginning_of_week` applied to a copy. */
    method BeginningOfWeek() returns (d: DateTime)
      ensures fresh(d) && !d.isFrozen && d.instant == BeginningOfWeekInstant(instant)
    {
      d := Copy();
      var _ := d.BeginningOfWeekInPlace();
    }

    /**
      `toFormattedString`, with the class's name tables and the host's
      texts: a format without '%' comes back unchanged.
    */
    function ToFormattedString(fmt: string, names: NameTables, host: HostText): (r: string)
      reads this
      ensures '%' !in fmt ==> r == fmt
    {
      FormatInstant(instant, fmt, names, host)
    }

    /** `compare`: -1, 0 or 1 as the receiver's instant is before, at or after the other's. */
    function Compare(other: DateTime): (r: int)
      reads this, other
      ensures r == -1 <==> instant < other.instant
      ensures r == 0 <==> instant == other.instant
      ensures r == 1 <==> instant > other.instant
    {
      Sign(instant, other.instant)
    }

    /**
      `compareDate`: year, month and day compared in that order, which
      orders the two dates as their days.
    */
    function CompareDate(other: DateTime): (r: int)
      reads this, other
      ensures r == Sign(DayNumber(instant), DayNumber(other.instant))
    {
      CompareDateOrder(instant, other.instant);
      CompareSeq(DatePart(instant), DatePart(other.instant))
    }

    /**
      `compareTime`: hours, minutes, seconds and milliseconds compared in
      that order, which orders the two times of day, whatever the dates.
    */
    function CompareTime(other: DateTime): (r: int)
      reads this, other
      ensures r == Sign(TimeWithinDay(instant), TimeWithinDay(other.instant))
    {
      CompareTimeOrder(instant, other.instant);
      CompareSeq(TimePart(instant), TimePart(other.instant))
    }

    /** `isToday`: the receiver falls on the same day as the current time `now`. */
    function IsToday(now: int): (r: bool)
      reads this
      ensures r <==> DayNumber(instant) == DayNumber(now)
    {
      CompareDateOrder(instant, now);
      CompareSeq(DatePart(instant), DatePart(now)) == 0
    }
  }

  // ---------------------------------------------------------------------
  // Comparisons.

  /** Two arrays compare equal exactly when they are equal, and swapping them negates the result. */
  lemma {:induction false} CompareSeqSpec(a: seq<int>, b: seq<int>)
    ensures CompareSeq(a, b) == 0 <==> a == b
    ensures CompareSeq(b, a) == -CompareSeq(a, b)
  {
    if a != [] && b != [] && a[0] == b[0] {
      CompareSeqSpec(a[1..], b[1..]);
      if a[1..] == b[1..] {
        assert a == [a[0]] + a[1..] && b == [b[0]] + b[1..];
      }
    }
  }

  /** Three-element arrays compare on their first differing element. */
  lemma CompareSeq3(x: seq<int>, y: seq<int>)
    requires |x| == 3 && |y| == 3
    ensures CompareSeq(x, y) == if x[0] != y[0] then Sign(x[0], y[0])
                                else if x[1] != y[1] then Sign(x[1], y[1])
                                else Sign(x[2], y[2])
  {
    var x2, y2 := x[1..][1..], y[1..][1..];
    assert x2 == [x[2]] && y2 == [y[2]];
    assert x2[1..] == [] && y2[1..] == [];
    assert CompareSeq(x2, y2) == Sign(x[2], y[2]);
  }

  /** Four-element arrays compare on their first differing element. */
  lemma CompareSeq4(x: seq<int>, y: seq<int>)
    requires |x| == 4 && |y| == 4
    ensures CompareSeq(x, y) == if x[0] != y[0] then Sign(x[0], y[0])
                                else CompareSeq(x[1..], y[1..])
  {
  }

  /** The date part of an instant is a valid date that makes its day number. */
  lemma DatePartDay(t: int)
    ensures var p := DatePart(t);
            && |p| == 3 && 1 <= p[1] <= 12 && 1 <= p[2] <= Calendar.DaysInMonth(p[0], p[1])
            && MakeDay(p[0], p[1] - 1, p[2]) == DayNumber(t)
  {
    ComposeDecompose(t);
  }

  /** The time part of an instant is a valid time that makes its time of day. */
  lemma TimePartTime(t: int)
    ensures var p := TimePart(t);
            && |p| == 4 && 0 <= p[0] < 24 && 0 <= p[1] < 60 && 0 <= p[2] < 60 && 0 <= p[3] < 1000
            && MakeTime(p[0], p[1], p[2], p[3]) == TimeWithinDay(t)
  {
    TimeDecompose(t);
  }

  /** A date before another, field by field, compares as -1 and has the smaller day number. */
  lemma {:induction false} CompareDatesBefore(y: int, m: int, d: int, y': int, m': int, d': int)
    requires 1 <= m <= 12 && 1 <= d <= Calendar.DaysInMonth(y, m)
    requires 1 <= m' <= 12 && 1 <= d' <= Calendar.DaysInMonth(y', m')
    requires y < y' || (y == y' && (m < m' || (m == m' && d < d')))
    ensures CompareSeq([y, m, d], [y', m', d']) == -1
    ensures CompareSeq([y', m', d'], [y, m, d]) == 1
    ensures MakeDay(y, m - 1, d) < MakeDay(y', m' - 1, d')
  {
    DateOrder(y, m - 1, d, y', m' - 1, d');
    CompareSeq3([y, m, d], [y', m', d']);
    CompareSeq3([y', m', d'], [y, m, d]);
  }

  /** Valid dates compare, field by field, as the day numbers they make. */
  lemma {:induction false} CompareDates(y: int, m: int, d: int, y': int, m': int, d': int)
    requires 1 <= m <= 12 && 1 <= d <= Calendar.DaysInMonth(y, m)
    requires 1 <= m' <= 12 && 1 <= d' <= Calendar.DaysInMonth(y', m')
    ensures CompareSeq([y, m, d], [y', m', d']) == Sign(MakeDay(y, m - 1, d), MakeDay(y', m' - 1, d'))
  {
    if y < y' || (y == y' && (m < m' || (m == m' && d < d'))) {
      CompareDatesBefore(y, m, d, y', m', d');
    } else if y' < y || (y == y' && (m' < m || (m == m' && d' < d))) {
      CompareDatesBefore(y', m', d', y, m, d);
    } else {
      CompareSeqSpec([y, m, d], [y', m', d']);
    }
  }

  /** Comparing year, month and day in turn orders two instants as their day numbers. */
  lemma {:induction false} CompareDateOrder(a: int, b: int)
    ensures CompareSeq(DatePart(a), DatePart(b)) == Sign(DayNumber(a), DayNumber(b))
  {
    var pa := DatePart(a);
    var pb := DatePart(b);
    DatePartDay(a);
    DatePartDay(b);
    assert pa == [pa[0], pa[1], pa[2]] && pb == [pb[0], pb[1], pb[2]];
    CompareDates(pa[0], pa[1], pa[2], pb[0], pb[1], pb[2]);
  }

  /** Comparing hours, minutes, seconds and milliseconds in turn orders two times of day. */
  lemma {:induction false} CompareTimeOrder(a: int, b: int)
    ensures CompareSeq(TimePart(a), TimePart(b)) == Sign(TimeWithinDay(a), TimeWithinDay(b))
  {
    var pa := TimePart(a);
    var pb := TimePart(b);
    TimePartTime(a);
    TimePartTime(b);
    CompareSeq4(pa, pb);
    CompareSeq3(pa[1..], pb[1..]);
    if pa[0] < pb[0] || (pa[0] == pb[0] && (pa[1] < pb[1] || (pa[1] == pb[1] &&
        (pa[2] < pb[2] || (pa[2] == pb[2] && pa[3] < pb[3]))))) {
      TimeOrder(pa[0], pa[1], pa[2], pa[3], pb[0], pb[1], pb[2], pb[3]);
    } else if pb[0] < pa[0] || (pa[0] == pb[0] && (pb[1] < pa[1] || (pa[1] == pb[1] &&
        (pb[2] < pa[2] || (pa[2] == pb[2] && pb[3] < pa[3]))))) {
      TimeOrder(pb[0], pb[1], pb[2], pb[3], pa[0], pa[1], pa[2], pa[3]);
    }
  }

  // ---------------------------------------------------------------------
  // Changing, creating and setting.

  /** The bag supplies every settable field, with the values of `f`. */
  predicate Supplies(c: map<Field, int>, f: Fields) {
    && Year in c && c[Year] == f.year
    && Month in c && c[Month] == f.month
    && Day in c && c[Day] == f.day
    && Hours in c && c[Hours] == f.hours
    && Minutes in c && c[Minutes] == f.minutes
    && Seconds in c && c[Seconds] == f.seconds
    && Milliseconds in c && c[Milliseconds] == f.milliseconds
  }

  /** The option bag of a `create` or `change` call that names every field of `f`. */
  function FullBag(f: Fields): (c: map<Field, int>)
    ensures Supplies(c, f)
  {
    map[Year := f.year, Month := f.month, Day := f.day, Hours := f.hours,
        Minutes := f.minutes, Seconds := f.seconds, Milliseconds := f.milliseconds]
  }

  /**
    The fields `_change(c)` is meant to leave on fields `f`: every supplied
    field as supplied, the time fields finer than the coarsest supplied
    time field reset to 0, every other field kept.
  */
  function Cascaded(f: Fields, c: map<Field, int>): Fields {
    Fields(Pick(c, Year, f.year), Pick(c, Month, f.month), Pick(c, Day, f.day),
           Pick(c, Hours, f.hours),
           if Minutes in c then c[Minutes] else if Hours in c then 0 else f.minutes,
           if Seconds in c then c[Seconds] else if Hours in c || Minutes in c then 0 else f.seconds,
           if Milliseconds in c then c[Milliseconds]
           else if Hours in c || Minutes in c || Seconds in c then 0 else f.milliseconds)
  }

  /** Writing the cascaded bag puts exactly the cascaded fields in place. */
  lemma CascadeOverride(f: Fields, c: map<Field, int>)
    ensures Override(f, Cascade(c)) == Cascaded(f, c)
  {
  }

  /** When no write carries, `_change(c)` leaves the cascaded fields. */
  lemma {:induction false} ChangeReadBack(t: int, c: map<Field, int>)
    requires WritesFit(Decompose(t), Cascade(c))
    ensures Decompose(ChangeInstant(t, c)) == Cascaded(Decompose(t), c)
  {
    ApplyWritesReadBack(t, Cascade(c));
    CascadeOverride(Decompose(t), c);
  }

  /**
    `create(f)` and `change(f)` with every field supplied read back `f`,
    provided the day of month of the starting date exists both in its own
    month of year `f.year` and in month `f.month`.
  */
  lemma {:induction false} CreateReadBack(b: int, f: Fields, c: map<Field, int>)
    requires ValidFields(f) && Supplies(c, f)
    requires Decompose(b).day <= Calendar.DaysInMonth(f.year, Decompose(b).month)
    requires Decompose(b).day <= Calendar.DaysInMonth(f.year, f.month)
    ensures Decompose(ChangeInstant(b, c)) == f
  {
    ComposeDecompose(b);
    assert Override(Decompose(b), Cascade(c)) == f;
    ApplyWritesReadBack(b, Cascade(c));
  }

  /** The seven single-field `set` calls, year first, each writing one field. */
  function SetEach(t: int, f: Fields): int {
    var t1 := WriteField(t, Year, f.year);
    var t2 := WriteField(t1, Month, f.month);
    var t3 := WriteField(t2, Day, f.day);
    var t4 := WriteField(t3, Hours, f.hours);
    var t5 := WriteField(t4, Minutes, f.minutes);
    var t6 := WriteField(t5, Seconds, f.seconds);
    WriteField(t6, Milliseconds, f.milliseconds)
  }

  /**
    Setting the fields one at a time in that order makes the same writes
    as creating from all of them at once.
  */
  lemma {:induction false} SetEachIsCreate(b: int, f: Fields, c: map<Field, int>)
    requires Supplies(c, f)
    ensures SetEach(b, f) == ChangeInstant(b, c)
  {
    assert Cascade(c) == c;
  }

  /**
    Setting the fields one at a time reads back `f` under the same
    condition on the starting day as creating from all of them.
  */
  lemma {:induction false} SetEachReadBack(b: int, f: Fields)
    requires ValidFields(f)
    requires Decompose(b).day <= Calendar.DaysInMonth(f.year, Decompose(b).month)
    requires Decompose(b).day <= Calendar.DaysInMonth(f.year, f.month)
    ensures Decompose(SetEach(b, f)) == f
  {
    var c := FullBag(f);
    SetEachIsCreate(b, f, c);
    CreateReadBack(b, f, c);
  }

  /**
    The writes are not made at once: starting from the 31st of a month,
    creating a date in a 30-day month lands in the following month,
    because the month is written while the old day of month is in place.
  */
  lemma {:induction false} CreateFromTheThirtyFirst(b: int, f: Fields, c: map<Field, int>)
    requires ValidFields(f) && f.month < 12 && Supplies(c, f)
    requires Decompose(b).day == 31
    requires Calendar.DaysInMonth(f.year, f.month) == 30
    requires f.day <= Calendar.DaysInMonth(f.year, f.month + 1)
    ensures Decompose(ChangeInstant(b, c)) == f.(month := f.month + 1)
  {
    var f0 := Decompose(b);
    ComposeDecompose(b);
    assert Calendar.DaysInMonth(f.year, f0.month) == 31;
    var t1 := WriteField(b, Year, f.year);
    WriteFieldReadBack(b, Year, f.year);
    var t2 := WriteField(t1, Month, f.month);
    MonthWriteOverflow(t1, f.month);
    LaterWritesReadBack(t2, f0.(year := f.year, month := f.month + 1, day := 1), f);
    SetEachIsCreate(b, f, c);
  }

  /**
    Into a month of 31 days, creating a date from all seven fields reads
    them back from any starting date: the year write can only move the
    29th of February to the 1st of March, and no day of month is past the
    end of the month written next.
  */
  lemma {:induction false} CreateInLongMonth(b: int, f: Fields, c: map<Field, int>)
    requires ValidFields(f) && Supplies(c, f)
    requires Calendar.DaysInMonth(f.year, f.month) == 31
    ensures Decompose(ChangeInstant(b, c)) == f
  {
    ComposeDecompose(b);
    var t1 := WriteField(b, Year, f.year);
    YearWrite(b, f.year);
    var g1 := AfterYearWrite(Decompose(b), f.year);
    var t2 := WriteField(t1, Month, f.month);
    WriteFieldReadBack(t1, Month, f.month);
    LaterWritesReadBack(t2, g1.(month := f.month), f);
    SetEachIsCreate(b, f, c);
  }

  /**
    The 31st of February of a common year `y`, created over a date `b`
    without touching its time of day, is a day in March.  The day write
    carries from February into March 3rd, unless the month write has
    already carried: starting from the 29th to the 31st of a month other
    than February, February `y` is too short for that day, the date is
    already in March when the day is written, and the result is March 31st.
  */
  lemma {:induction false} ThirtyFirstOfFebruary(b: int, y: int, c: map<Field, int>)
    requires !Calendar.IsLeapYear(y)
    requires Year in c && c[Year] == y && Month in c && c[Month] == 2 && Day in c && c[Day] == 31
    requires Hours !in c && Minutes !in c && Seconds !in c && Milliseconds !in c
    ensures var n := Decompose(b);
            Decompose(ChangeInstant(b, c)) == n.(year := y, month := 3, day := if n.day <= 28 || n.month == 2 then 3 else 31)
  {
    var n := Decompose(b);
    ComposeDecompose(b);
    DateOnlyWrites(b, y, c);
    var t1 := WriteField(b, Year, y);
    YearWrite(b, y);
    var g1 := AfterYearWrite(n, y);
    if g1.day <= 28 {
      FebruaryThenThirtyFirst(t1, y, g1);
      assert g1.(month := 3, day := 3) == n.(year := y, month := 3, day := 3);
    } else {
      FebruaryTooShort(t1, y, g1);
      assert g1.(month := 3, day := 31) == n.(year := y, month := 3, day := 31);
    }
  }

  /** A bag of a year, February and the 31st makes those three writes and no others. */
  lemma {:induction false} DateOnlyWrites(b: int, y: int, c: map<Field, int>)
    requires Year in c && c[Year] == y && Month in c && c[Month] == 2 && Day in c && c[Day] == 31
    requires Hours !in c && Minutes !in c && Seconds !in c && Milliseconds !in c
    ensures ChangeInstant(b, c) == WriteField(WriteField(WriteField(b, Year, y), Month, 2), Day, 31)
  {
    assert Cascade(c) == c;
  }

  /** In a common year, from the 1st to the 28th, February is written as is and the 31st carries to March 3rd. */
  lemma {:induction false} FebruaryThenThirtyFirst(t1: int, y: int, g1: Fields)
    requires Decompose(t1) == g1 && g1.year == y && !Calendar.IsLeapYear(y) && g1.day <= 28
    ensures Decompose(WriteField(WriteField(t1, Month, 2), Day, 31)) == g1.(month := 3, day := 3)
  {
    ComposeDecompose(t1);
    WriteFieldReadBack(t1, Month, 2);
    WriteCarry(WriteField(t1, Month, 2), Day, 31);
  }

  /**
    In a common year, from the 29th to the 31st, writing February already
    carries into March, where the 31st exists.
  */
  lemma {:induction false} FebruaryTooShort(t1: int, y: int, g1: Fields)
    requires Decompose(t1) == g1 && g1.year == y && !Calendar.IsLeapYear(y) && g1.day > 28
    ensures Decompose(WriteField(WriteField(t1, Month, 2), Day, 31)) == g1.(month := 3, day := 31)
  {
    ComposeDecompose(t1);
    WriteCarry(t1, Month, 2);
    WriteFieldReadBack(WriteField(t1, Month, 2), Day, 31);
  }

  /**
    The writes of the day and the time fields, on an instant whose fields
    are `g`, read back `g` with those fields replaced by those of `f`.
  */
  lemma {:induction false} LaterWritesReadBack(t: int, g: Fields, f: Fields)
    requires Decompose(t) == g
    requires ValidFields(g.(day := f.day, hours := f.hours, minutes := f.minutes,
                            seconds := f.seconds, milliseconds := f.milliseconds))
    ensures var t3 := WriteField(t, Day, f.day);
            var t4 := WriteField(t3, Hours, f.hours);
            var t5 := WriteField(t4, Minutes, f.minutes);
            var t6 := WriteField(t5, Seconds, f.seconds);
            Decompose(WriteField(t6, Milliseconds, f.milliseconds))
              == g.(day := f.day, hours := f.hours, minutes := f.minutes,
                    seconds := f.seconds, milliseconds := f.milliseconds)
  {
    var t3 := WriteField(t, Day, f.day);
    WriteFieldReadBack(t, Day, f.day);
    var g3 := g.(day := f.day);
    var t4 := WriteField(t3, Hours, f.hours);
    WriteFieldReadBack(t3, Hours, f.hours);
    var g4 := g3.(hours := f.hours);
    var t5 := WriteField(t4, Minutes, f.minutes);
    WriteFieldReadBack(t4, Minutes, f.minutes);
    var g5 := g4.(minutes := f.minutes);
    var t6 := WriteField(t5, Seconds, f.seconds);
    WriteFieldReadBack(t5, Seconds, f.seconds);
    WriteFieldReadBack(t6, Milliseconds, f.milliseconds);
  }

  /** The test date: 1985-05-08 01:00:22.925. */
  const TestFields: Fields := Fields(1985, 5, 8, 1, 0, 22, 925)

  /**
    The change test: on the test date, changing the hours, the minutes or
    the seconds writes without carry, and resets the finer fields.
  */
  lemma ChangeExamples(f: Fields, h: map<Field, int>, m: map<Field, int>, s: map<Field, int>)
    requires f == TestFields
    requires h == map[Hours := 3] && m == map[Minutes := 1] && s == map[Seconds := 30]
    ensures WritesFit(f, Cascade(h)) && Cascaded(f, h) == Fields(1985, 5, 8, 3, 0, 0, 0)
    ensures WritesFit(f, Cascade(m)) && Cascaded(f, m) == Fields(1985, 5, 8, 1, 1, 0, 0)
    ensures WritesFit(f, Cascade(s)) && Cascaded(f, s) == Fields(1985, 5, 8, 1, 0, 30, 0)
  {
  }

  // ---------------------------------------------------------------------
  // Advancing.

  /** Field-wise sum of two sets of fields. */
  function AddFields(f: Fields, d: Fields): Fields {
    Fields(f.year + d.year, f.month + d.month, f.day + d.day, f.hours + d.hours,
           f.minutes + d.minutes, f.seconds + d.seconds, f.milliseconds + d.milliseconds)
  }

  /**
    Advancing by every field at once reads back the field-wise sum, when
    the sum is a valid date and the starting day exists in the months the
    year and month writes pass through.
  */
  lemma {:induction false} AdvanceReadBack(t: int, d: Fields, c: map<Field, int>)
    requires Supplies(c, d)
    requires ValidFields(AddFields(Decompose(t), d))
    requires Decompose(t).day <= Calendar.DaysInMonth(Decompose(t).year + d.year, Decompose(t).month)
    requires Decompose(t).day <= Calendar.DaysInMonth(Decompose(t).year + d.year, Decompose(t).month + d.month)
    ensures Decompose(ChangeInstant(t, AdvanceTargets(t, c))) == AddFields(Decompose(t), d)
  {
    var g := AddFields(Decompose(t), d);
    assert Supplies(AdvanceTargets(t, c), g);
    CreateReadBack(t, g, AdvanceTargets(t, c));
  }

  /**
    The advance test: one of every field added to the test date gives
    1986-06-09 02:01:23.926, with no carry.
  */
  lemma AdvanceExample(f: Fields, d: Fields)
    requires f == TestFields && d == Fields(1, 1, 1, 1, 1, 1, 1)
    ensures ValidFields(AddFields(f, d))
    ensures f.day <= Calendar.DaysInMonth(f.year + d.year, f.month)
    ensures f.day <= Calendar.DaysInMonth(f.year + d.year, f.month + d.month)
    ensures AddFields(f, d) == Fields(1986, 6, 9, 2, 1, 23, 926)
  {
  }

  /** The bag `_advance` builds from a single delta. */
  lemma AdvanceTargetsSingle(t: int, k: Field, n: int, d: map<Field, int>, v: int)
    requires d == map[k := n] && v == n + ReadField(t, k)
    ensures AdvanceTargets(t, d) == map[k := v]
  {
    var r := AdvanceTargets(t, d);
    assert r.Keys == {k} && r[k] == v;
  }

  /** A bag without hours, minutes or seconds is not extended by the cascade. */
  lemma CascadeNoClock(c: map<Field, int>)
    requires Hours !in c && Minutes !in c && Seconds !in c
    ensures Cascade(c) == c
  {
  }

  /** Advancing by `n` days, for any `n`, moves the instant by exactly `n` days. */
  lemma {:induction false} AdvanceDays(t: int, n: int, d: map<Field, int>)
    requires d == map[Day := n]
    ensures ChangeInstant(t, AdvanceTargets(t, d)) == t + n * 86400000
  {
    var v := n + DateFromTime(t);
    AdvanceTargetsSingle(t, Day, n, d, v);
    CascadeNoClock(map[Day := v]);
    WriteDayShift(t, n, v);
  }

  /** Advancing by `n` milliseconds, for any `n`, moves the instant by exactly `n`. */
  lemma {:induction false} AdvanceMilliseconds(t: int, n: int, d: map<Field, int>)
    requires d == map[Milliseconds := n]
    ensures ChangeInstant(t, AdvanceTargets(t, d)) == t + n
  {
    var v := n + MsFromTime(t);
    AdvanceTargetsSingle(t, Milliseconds, n, d, v);
    CascadeNoClock(map[Milliseconds := v]);
    ApplyWritesMilliseconds(t, v);
    SetMillisecondsShift(t, v);
  }

  /**
    Advancing by hours goes through the cascading reset of `_change`: the
    minutes, seconds and milliseconds are cleared, so the result is not
    the instant `n` hours later but the start of that hour.
  */
  lemma {:induction false} AdvanceHoursResetsClock(t: int, n: int, d: map<Field, int>)
    requires d == map[Hours := n]
    requires 0 <= HourFromTime(t) + n < 24
    ensures Decompose(ChangeInstant(t, AdvanceTargets(t, d)))
            == Decompose(t).(hours := HourFromTime(t) + n, minutes := 0, seconds := 0, milliseconds := 0)
  {
    var v := n + HourFromTime(t);
    AdvanceTargetsSingle(t, Hours, n, d, v);
    ComposeDecompose(t);
    HoursFit(Decompose(t), v, map[Hours := v]);
    ChangeReadBack(t, map[Hours := v]);
  }

  /** A single in-range hour written over valid fields fits, and clears the finer fields. */
  lemma HoursFit(f: Fields, v: int, c: map<Field, int>)
    requires ValidFields(f) && 0 <= v < 24 && c == map[Hours := v]
    ensures WritesFit(f, Cascade(c))
    ensures Cascaded(f, c) == f.(hours := v, minutes := 0, seconds := 0, milliseconds := 0)
  {
  }

  // ---------------------------------------------------------------------
  // Beginning of the week.

  /** Whole days move the day number and leave the time within the day. */
  lemma DayShift(t: int, n: int)
    ensures DayNumber(t + n * 86400000) == DayNumber(t) + n
    ensures TimeWithinDay(t + n * 86400000) == TimeWithinDay(t)
  {
    var q := DayNumber(t);
    var r := TimeWithinDay(t);
    assert t + n * 86400000 == (q + n) * 86400000 + r;
  }

  /** The start of day `dn`. */
  lemma DayStart(dn: int)
    ensures DayNumber(dn * 86400000) == dn && TimeWithinDay(dn * 86400000) == 0
  {
  }

  /** Clearing the time writes takes fields to midnight of the same day, with no carry. */
  lemma MidnightFits(f: Fields, m: map<Field, int>)
    requires ValidFields(f) && m == Midnight
    ensures WritesFit(f, m)
    ensures Override(f, m) == f.(hours := 0, minutes := 0, seconds := 0, milliseconds := 0)
  {
  }

  /** Clearing the four time fields keeps the date and zeroes the clock. */
  lemma {:induction false} ClearFields(t: int)
    ensures Decompose(ApplyWrites(t, Midnight))
            == Decompose(t).(hours := 0, minutes := 0, seconds := 0, milliseconds := 0)
  {
    ComposeDecompose(t);
    MidnightFits(Decompose(t), Midnight);
    ApplyWritesReadBack(t, Midnight);
  }

  /** An instant with the date of `t` and a clear clock is the start of the day of `t`. */
  lemma {:induction false} StartOfDay(r: int, t: int)
    requires Decompose(r) == Decompose(t).(hours := 0, minutes := 0, seconds := 0, milliseconds := 0)
    ensures r == DayNumber(t) * 86400000
  {
    ComposeDecompose(r);
    MidnightCompose(t, Decompose(r));
  }

  /** The date of `t` with a clear clock composes to the start of the day of `t`. */
  lemma {:induction false} MidnightCompose(t: int, f: Fields)
    requires f == Decompose(t).(hours := 0, minutes := 0, seconds := 0, milliseconds := 0)
    ensures Compose(f) == DayNumber(t) * 86400000
  {
    assert MakeDay(f.year, f.month - 1, f.day) == DayNumber(t) by {
      ComposeDecompose(t);
    }
    ComposeParts(f, DayNumber(t), 0);
  }

  /** Clearing the four time fields moves the instant to the start of its day. */
  lemma {:induction false} ClearTimeOfDay(t: int)
    ensures ApplyWrites(t, Midnight) == DayNumber(t) * 86400000
  {
    ClearFields(t);
    StartOfDay(ApplyWrites(t, Midnight), t);
  }

  /** `beginning_of_week` lands at the start of the day `DaysToMonday` days back. */
  lemma {:induction false} BeginningOfWeekDay(t: int)
    ensures BeginningOfWeekInstant(t) == (DayNumber(t) - DaysToMonday(WeekDay(t))) * 86400000
  {
    var dtm := DaysToMonday(WeekDay(t));
    var back := ChangeInstant(t, AdvanceTargets(t, MondayDelta(t)));
    AdvanceDays(t, -1 * dtm, MondayDelta(t));
    DayShift(t, -1 * dtm);
    assert DayNumber(back) == DayNumber(t) - dtm;
    ClearTimeOfDay(back);
    BeginningOfWeekSteps(t, back, ApplyWrites(back, Midnight));
  }

  /** The start of the day `DaysToMonday` days back is the Monday at 0:00 of the week. */
  lemma {:induction false} MondayOfWeek(t: int, r: int)
    requires r == (DayNumber(t) - DaysToMonday(WeekDay(t))) * 86400000
    ensures WeekDay(r) == 1 && TimeWithinDay(r) == 0 && r <= t < r + 7 * 86400000
  {
    DayStart(DayNumber(t) - DaysToMonday(WeekDay(t)));
  }

  /**
    `beginning_of_week` gives the Monday at 0:00 of the week holding the
    instant: a Monday, at the start of its day, at most seven days back.
  */
  lemma {:induction false} BeginningOfWeekSpec(t: int)
    ensures var r := BeginningOfWeekInstant(t);
            WeekDay(r) == 1 && TimeWithinDay(r) == 0 && r <= t < r + 7 * 86400000
  {
    BeginningOfWeekDay(t);
    MondayOfWeek(t, BeginningOfWeekInstant(t));
  }

  /**
    The Monday at 0:00 at most seven days back is unique, so
    `beginning_of_week` is the only instant with the properties above.
  */
  lemma {:induction false} BeginningOfWeekUnique(t: int, m: int)
    requires WeekDay(m) == 1 && TimeWithinDay(m) == 0 && m <= t < m + 7 * 86400000
    ensures m == BeginningOfWeekInstant(t)
  {
    BeginningOfWeekDay(t);
    MondayUnique(t, m);
  }

  /** Only the start of the day `DaysToMonday` days back is a Monday at 0:00 within a week before. */
  lemma {:induction false} MondayUnique(t: int, m: int)
    requires WeekDay(m) == 1 && TimeWithinDay(m) == 0 && m <= t < m + 7 * 86400000
    ensures m == (DayNumber(t) - DaysToMonday(WeekDay(t))) * 86400000
  {
    var a := DayNumber(m);
    assert m == a * 86400000;
    assert a <= DayNumber(t) < a + 7 by {
      assert a * 86400000 <= t < (a + 7) * 86400000;
    }
    var j := DayNumber(t) - a;
    assert (a + 4) % 7 == 1;
    assert WeekDay(t) == (j + 1) % 7;
    assert DaysToMonday(WeekDay(t)) == j;
  }

  /** `beginning_of_week` of a beginning of week is itself. */
  lemma BeginningOfWeekIdempotent(t: int)
    ensures BeginningOfWeekInstant(BeginningOfWeekInstant(t)) == BeginningOfWeekInstant(t)
  {
    var r := BeginningOfWeekInstant(t);
    BeginningOfWeekSpec(t);
    BeginningOfWeekUnique(r, r);
  }

  /** The test date, a Wednesday, is day 5606 of the epoch. */
  lemma {:induction false} TestDay(t: int)
    requires Decompose(t) == TestFields
    ensures DayNumber(t) == 5606 && WeekDay(t) == 3
  {
    ComposeDecompose(t);
    May8th1985();
  }

  /** The beginning-of-week test: Wednesday 1985-05-08 01:00:22.925 goes back to Monday 1985-05-06 0:00. */
  lemma {:induction false} BeginningOfWeekExample(t: int, g: Fields)
    requires Decompose(t) == TestFields && g == Fields(1985, 5, 6, 0, 0, 0, 0)
    ensures Decompose(BeginningOfWeekInstant(t)) == g
  {
    TestDay(t);
    BeginningOfWeekDay(t);
    MondayFields(g);
    DecomposeCompose(g);
  }

  /** Monday 1985-05-06 0:00 is the start of day 5604. */
  lemma MondayFields(g: Fields)
    requires g == Fields(1985, 5, 6, 0, 0, 0, 0)
    ensures ValidFields(g) && Compose(g) == 5604 * 86400000
  {
    May8th1985();
  }
}
