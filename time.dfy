/**
  `SC.Time`: the earlier variant of the date wrapper.  It shares the field
  model and the formatter of `SC.DateTime`, but `_change` writes exactly
  the supplied fields (no cascading reset), there is no freeze guard, and
  `_advance` overwrites the entries of the options object it is given.
*/
module Times {
  import opened Wrappers
  import opened Calendar
  import opened Format
  import DateTimes

  /**
    A JavaScript options object handed to `_advance` by reference: the
    caller still holds it after the call and sees what `_advance` wrote.
  */
  class Options {
    var entries: map<Field, int>

    constructor (entries: map<Field, int>)
      ensures this.entries == entries
    {
      this.entries := entries;
    }
  }

  class Time {
    /** The instant of the wrapped host date. */
    var instant: int
    /** The name tables the instance formats with. */
    var names: NameTables

    /**
      `create(opts)`: the date starts at `baseline` (the `date` option, or
      the current time) and `init` hands the object itself to `_change`,
      so the supplied fields are written as they are, without cascade.
    */
    constructor (baseline: int, opts: map<Field, int>, names: NameTables)
      ensures instant == ApplyWrites(baseline, opts) && this.names == names
    {
      instant := baseline;
      this.names := names;
      new;
      ChangeInPlace(opts);
    }

    /** `clone`: a new object on the same instant. */
    method Clone() returns (d: Time)
      ensures fresh(d) && d.instant == instant && d.names == names
    {
      d := new Time(instant, map[], names);
    }

    /** `_change`: the supplied fields written in the fixed order, nothing reset, nothing guarded. */
    method ChangeInPlace(c: map<Field, int>)
      modifies this`instant
      ensures instant == ApplyWrites(old(instant), c)
    {
      if Year in c { instant := WriteField(instant, Year, c[Year]); }
      if Month in c { instant := WriteField(instant, Month, c[Month]); }
      if Day in c { instant := WriteField(instant, Day, c[Day]); }
      if Hours in c { instant := WriteField(instant, Hours, c[Hours]); }
      if Minutes in c { instant := WriteField(instant, Minutes, c[Minutes]); }
      if Seconds in c { instant := WriteField(instant, Seconds, c[Seconds]); }
      if Milliseconds in c { instant := WriteField(instant, Milliseconds, c[Milliseconds]); }
    }

    /** `change`: `_change` applied to a clone; the receiver is untouched. */
    method Change(c: map<Field, int>) returns (d: Time)
      ensures fresh(d) && d.instant == ApplyWrites(instant, c) && d.names == names
    {
      d := Clone();
      d.ChangeInPlace(c);
    }

    /** The generic getter: the day it reads fits its month. */
    function Get(k: Field): (r: int)
      reads this
      ensures k == Day ==> 1 <= r <= Calendar.DaysInMonth(ReadField(instant, Year), ReadField(instant, Month))
    {
      ComposeDecompose(instant);
      ReadField(instant, k)
    }

    /** The generic setter: `_change` of a one-field bag. */
    method Set(k: Field, v: int)
      modifies this`instant
      ensures instant == WriteField(old(instant), k, v)
    {
      ChangeInPlace(map[k := v]);
      ApplyWritesSingle(old(instant), k, v);
    }

    /** `isLeapYear`: the current year has 366 days. */
    function IsLeapYear(): (r: bool)
      reads this
      ensures r <==> Calendar.DaysInMonth(Get(Year), 2) == 29
    {
      Calendar.IsLeapYear(Get(Year))
    }

    /** `daysInMonth`: the days from the first of the current month to the first of the next. */
    function DaysInMonth(): (r: int)
      reads this
      ensures r == MakeDay(Get(Year), Get(Month), 1) - MakeDay(Get(Year), Get(Month) - 1, 1)
    {
      var y, m := Get(Year), Get(Month);
      DaysInMonthSpan(y, m);
      Calendar.DaysInMonth(y, m)
    }

    /**
      `_advance`: every entry of the caller's options object is replaced by
      itself plus the current value of its field, then the object is
      written with `_change`.  The caller's object keeps the new entries.
    */
    method AdvanceInPlace(opts: Options)
      modifies this`instant, opts
      ensures opts.entries == DateTimes.AdvanceTargets(old(instant), old(opts.entries))
      ensures instant == ApplyWrites(old(instant), opts.entries)
    {
      ghost var deltas := opts.entries;
      var pending := opts.entries.Keys;
      while pending != {}
        invariant pending <= deltas.Keys && opts.entries.Keys == deltas.Keys
        invariant instant == old(instant)
        invariant forall k :: k in pending ==> opts.entries[k] == deltas[k]
        invariant forall k :: k in deltas && k !in pending ==> opts.entries[k] == deltas[k] + Get(k)
        decreases pending
      {
        var k :| k in pending;
        opts.entries := opts.entries[k := opts.entries[k] + Get(k)];
        pending := pending - {k};
      }
      assert opts.entries == DateTimes.AdvanceTargets(instant, deltas) by {
        forall k | k in opts.entries
          ensures opts.entries[k] == DateTimes.AdvanceTargets(instant, deltas)[k]
        {
        }
      }
      ChangeInPlace(opts.entries);
    }

    /** `advance`: `_advance` applied to a clone, with the same options object. */
    method Advance(opts: Options) returns (d: Time)
      modifies opts
      ensures opts.entries == DateTimes.AdvanceTargets(instant, old(opts.entries))
      ensures fresh(d) && d.names == names && d.instant == ApplyWrites(instant, opts.entries)
    {
      d := Clone();
      d.AdvanceInPlace(opts);
    }

    /**
      `_beginning_of_week`: back to the Monday of the current week, then
      the four time fields written as 0.  The two steps reach the same
      instant as `SC.DateTime`'s, whose properties are proved in module
      `DateTimes`.
    */
    method BeginningOfWeekInPlace()
      modifies this`instant
      ensures instant == DateTimes.BeginningOfWeekInstant(old(instant))
    {
      ghost var t0 := instant;
      var dayOfWeek := WeekDay(instant);
      var daysToMonday := DateTimes.DaysToMonday(dayOfWeek);
      var back := new Options(map[Day := -1 * daysToMonday]);
      assert back.entries == DateTimes.MondayDelta(t0);
      AdvanceInPlace(back);
      DateTimes.AdvanceTargetsSingle(t0, Day, -1 * daysToMonday, DateTimes.MondayDelta(t0), back.entries[Day]);
      DateTimes.CascadeNoClock(back.entries);
      ghost var t1 := instant;
      ChangeInPlace(DateTimes.Midnight);
      DateTimes.BeginningOfWeekSteps(t0, t1, instant);
    }

    /** `beginning_of_week`: `_beginning_of_week` applied to a clone. */
    method BeginningOfWeek() returns (d: Time)
      ensures fresh(d) && d.names == names && d.instant == DateTimes.BeginningOfWeekInstant(instant)
    {
      d := Clone();
      d.BeginningOfWeekInPlace();
    }

    /**
      `toFormattedString`, with the instance's name tables and the host's
      texts: a format without '%' comes back unchanged.
    */
    function ToFormattedString(fmt: string, host: HostText): (r: string)
      reads this
      ensures '%' !in fmt ==> r == fmt
    {
      FormatInstant(instant, fmt, names, host)
    }
  }

  /**
    `SC.Time.transform(format)` applied to a value: nothing for a missing
    value, otherwise the value formatted.
  */
  function Transform(fmt: string, value: Time?, host: HostText): (r: Option<string>)
    reads value
    ensures r.None? <==> value == null
    ensures value != null && '%' !in fmt ==> r == Some(fmt)
  {
    if value == null then None else Some(value.ToFormattedString(fmt, host))
  }

  // ---------------------------------------------------------------------
  // Properties.

  /**
    `_change` resets nothing: when the writes fit, every supplied field
    reads back as supplied and every other field is as it was.
  */
  lemma {:induction false} ChangeKeepsOthers(t: int, c: map<Field, int>, k: Field)
    requires WritesFit(Decompose(t), c)
    requires k != DayOfWeek && k !in c
    ensures ReadField(ApplyWrites(t, c), k) == ReadField(t, k)
  {
    ApplyWritesReadBack(t, c);
  }

  /**
    Unlike `SC.DateTime`'s, the older `_change` of the hours alone keeps
    the minutes: when the minutes are not 0, the two classes disagree.
  */
  lemma {:induction false} HoursChangeDiffers(t: int, v: int, c: map<Field, int>)
    requires c == map[Hours := v] && 0 <= v < 24
    requires ReadField(t, Minutes) != 0
    ensures Decompose(ApplyWrites(t, c)) == Decompose(t).(hours := v)
    ensures ApplyWrites(t, c) != DateTimes.ChangeInstant(t, c)
  {
    ComposeDecompose(t);
    ApplyWritesReadBack(t, c);
    DateTimes.HoursFit(Decompose(t), v, c);
    DateTimes.ChangeReadBack(t, c);
  }

  /**
    `create(f)`, `create().change(f)` and the seven `set` calls read back
    `f` when every field is supplied, under the same condition on the
    starting day as for `SC.DateTime`: with every field supplied there is
    nothing to cascade, so the two classes make the same writes.
  */
  lemma {:induction false} CreateReadBack(b: int, f: Fields, c: map<Field, int>)
    requires ValidFields(f) && DateTimes.Supplies(c, f)
    requires Decompose(b).day <= Calendar.DaysInMonth(f.year, Decompose(b).month)
    requires Decompose(b).day <= Calendar.DaysInMonth(f.year, f.month)
    ensures Decompose(ApplyWrites(b, c)) == f
    ensures Decompose(DateTimes.SetEach(b, f)) == f
  {
    assert DateTimes.Cascade(c) == c;
    DateTimes.CreateReadBack(b, f, c);
    DateTimes.SetEachReadBack(b, f);
  }

  /**
    The advance test: the options object {1, 1, 1, 1, 1, 1, 1} applied to
    1985-05-08 01:00:22.925 holds the targets 1986-06-09 02:01:23.926
    afterwards, and the date reads them back.
  */
  lemma {:induction false} AdvanceExample(t: int, c: map<Field, int>)
    requires Decompose(t) == DateTimes.TestFields
    requires DateTimes.Supplies(c, Fields(1, 1, 1, 1, 1, 1, 1))
    ensures DateTimes.Supplies(DateTimes.AdvanceTargets(t, c), Fields(1986, 6, 9, 2, 1, 23, 926))
    ensures Decompose(ApplyWrites(t, DateTimes.AdvanceTargets(t, c))) == Fields(1986, 6, 9, 2, 1, 23, 926)
  {
    var d := Fields(1, 1, 1, 1, 1, 1, 1);
    DateTimes.AdvanceExample(DateTimes.TestFields, d);
    var g := DateTimes.AddFields(Decompose(t), d);
    assert DateTimes.Supplies(DateTimes.AdvanceTargets(t, c), g);
    CreateReadBack(t, g, DateTimes.AdvanceTargets(t, c));
  }

  /**
    Advancing twice with the same options object does not advance twice
    by the same amount: the second call adds the current value again to
    the entries the first call left.
  */
  lemma {:induction false} ReusedOptionsGrow(t: int, n: int, d: map<Field, int>)
    requires d == map[Day := n]
    ensures DateTimes.AdvanceTargets(t, d)[Day] == n + ReadField(t, Day)
    ensures var t1 := ApplyWrites(t, DateTimes.AdvanceTargets(t, d));
            var twice := DateTimes.AdvanceTargets(t1, DateTimes.AdvanceTargets(t, d));
            twice[Day] == n + ReadField(t, Day) + ReadField(t1, Day)
  {
  }
}
