/**
  The strftime-style formatter shared by `SC.DateTime` and `SC.Time`
  (`pad`, `_toFormattedString`, `toFormattedString`).  A directive is `%`
  followed by one of `aAbBcdHIjmMpSUWwxXyYZ%`; every other character is
  copied.  Directives with no implementation yield JavaScript's `undefined`,
  which the string replacement inserts as the text "undefined".
*/
module Format {
  import opened Calendar
  import opened Digits

  /**
    The localized name tables: weekdays Sunday first, months January first,
    each in full and abbreviated form.
  */
  datatype NameTables = NameTables(dayNames: seq<string>, abbreviatedDayNames: seq<string>,
                                   monthNames: seq<string>, abbreviatedMonthNames: seq<string>)

  /** The English tables. */
  const English: NameTables := NameTables(
    ["Sunday", "Monday", "Tuesday", "Wednesday", "Thursday", "Friday", "Saturday"],
    ["Sun", "Mon", "Tue", "Wed", "Thu", "Fri", "Sat"],
    ["January", "February", "March", "April", "May", "June", "July",
     "August", "September", "October", "November", "December"],
    ["Jan", "Feb", "Mar", "Apr", "May", "Jun", "Jul", "Aug", "Sep", "Oct", "Nov", "Dec"])

  /**
    What the host `Date` renders for `%c`, `%x` and `%X` (its `toString`,
    `toDateString` and `toTimeString`), supplied by the caller.
  */
  datatype HostText = HostText(full: string, dateOnly: string, timeOnly: string)

  /** JavaScript's `undefined`, as string replacement inserts it. */
  const Undefined: string := "undefined"

  /** The characters that make a directive after '%'. */
  predicate IsDirective(c: char) {
    match c
    case 'a' | 'A' | 'b' | 'B' | 'c' | 'd' | 'H' | 'I' | 'j' | 'm' | 'M' => true
    case 'p' | 'S' | 'U' | 'W' | 'w' | 'x' | 'X' | 'y' | 'Y' | 'Z' | '%' => true
    case _ => false
  }

  /** JavaScript's `%`: the remainder takes the sign of the dividend. */
  function JsRem(a: int, b: int): (r: int)
    requires b > 0
    ensures -b < r < b
    ensures a >= 0 ==> r == a % b
    ensures a < 0 ==> r <= 0
  {
    if a >= 0 then a % b else -((-a) % b)
  }

  /** `pad`: a '0' in front of the numbers 0 to 9 only. */
  function Pad(x: int): string {
    (if x < 0 || x > 9 then "" else "0") + IntToString(x)
  }

  /** A table entry, or `undefined` when the index is outside the table. */
  function Lookup(table: seq<string>, i: int): string {
    if 0 <= i < |table| then table[i] else Undefined
  }

  /** The hour on a 12-hour clock, as `%I` computes it. */
  function Hour12(h: int): int {
    if h == 12 || h == 0 then 12 else JsRem(h + 12, 12)
  }

  /**
    `_toFormattedString`: the text of one directive, given the calendar
    fields `f` of the instant and its day of the week `wd`.
  */
  function Expand(f: Fields, wd: int, c: char, names: NameTables, host: HostText): string
    requires IsDirective(c)
  {
    match c
    case 'a' => Lookup(names.abbreviatedDayNames, wd)
    case 'A' => Lookup(names.dayNames, wd)
    case 'b' => Lookup(names.abbreviatedMonthNames, f.month - 1)
    case 'B' => Lookup(names.monthNames, f.month - 1)
    case 'c' => host.full
    case 'd' => Pad(f.day)
    case 'H' => Pad(f.hours)
    case 'I' => Pad(Hour12(f.hours))
    case 'j' => Undefined
    case 'm' => Pad(f.month)
    case 'M' => Pad(f.minutes)
    case 'p' => if f.hours > 11 then "PM" else "AM"
    case 'S' => Pad(f.seconds)
    case 'U' => Undefined
    case 'W' => Undefined
    case 'w' => IntToString(wd)
    case 'x' => host.dateOnly
    case 'X' => host.timeOnly
    case 'y' => Pad(JsRem(f.year, 100))
    case 'Y' => IntToString(f.year)
    case 'Z' => Undefined
    case '%' => "%"
  }

  /**
    The format scanned left to right, each directive replaced by its text
    and every other character copied.
  */
  function FormatFields(f: Fields, wd: int, fmt: string, names: NameTables, host: HostText): string
    decreases |fmt|
  {
    if fmt == [] then []
    else if |fmt| >= 2 && fmt[0] == '%' && IsDirective(fmt[1]) then
      Expand(f, wd, fmt[1], names, host) + FormatFields(f, wd, fmt[2..], names, host)
    else
      [fmt[0]] + FormatFields(f, wd, fmt[1..], names, host)
  }

  /** `toFormattedString` of the instant `t`: a format without '%' is its own text. */
  function FormatInstant(t: int, fmt: string, names: NameTables, host: HostText): (r: string)
    ensures '%' !in fmt ==> r == fmt
  {
    FormatPlain(Decompose(t), WeekDay(t), fmt, names, host);
    FormatFields(Decompose(t), WeekDay(t), fmt, names, host)
  }

  // ---------------------------------------------------------------------
  // Properties.

  /** `pad` puts a leading '0' exactly on the numbers 0 to 9. */
  lemma PadLeadingZero(x: int)
    ensures |Pad(x)| >= 1
    ensures Pad(x)[0] == '0' <==> 0 <= x <= 9
  {
    if x < 0 {
      NatToStringRoundTrip(-x);
    } else {
      NatToStringRoundTrip(x);
    }
  }

  /** `pad` of 0..99 is two digits whose base-10 value is the number. */
  lemma PadTwoDigits(x: int)
    requires 0 <= x <= 99
    ensures |Pad(x)| == 2 && AllDigits(Pad(x)) && DigitsValue(Pad(x)) == x
  {
    NatToStringRoundTrip(x);
    if x <= 9 {
      var p := Pad(x);
      assert p == ['0', DigitChar(x)];
      assert p[..1] == ['0'];
      assert p[..0] == [];
    } else {
      NatToStringLength(x, 2);
    }
  }

  /** `%I` is 12 for hours 0 and 12 and otherwise the hour modulo 12. */
  lemma Hour12Spec(h: int)
    requires 0 <= h < 24
    ensures 1 <= Hour12(h) <= 12
    ensures Hour12(h) % 12 == h % 12
    ensures h != 0 && h != 12 ==> Hour12(h) == h % 12
  {
  }

  /**
    For valid fields, the directives of the date and the clock print
    exactly two digits, and so does `%y` for a year that is not negative.
  */
  lemma ExpandTwoDigits(f: Fields, wd: int, c: char, names: NameTables, host: HostText)
    requires IsDirective(c)
    ensures ValidFields(f) && (c == 'd' || c == 'H' || c == 'I' || c == 'm' || c == 'M' || c == 'S') ==>
            |Expand(f, wd, c, names, host)| == 2 && AllDigits(Expand(f, wd, c, names, host))
    ensures c == 'y' && f.year >= 0 ==> |Expand(f, wd, c, names, host)| == 2 && AllDigits(Expand(f, wd, c, names, host))
  {
    if ValidFields(f) {
      if c == 'd' {
        PadTwoDigits(f.day);
      } else if c == 'H' {
        PadTwoDigits(f.hours);
      } else if c == 'I' {
        Hour12Spec(f.hours);
        PadTwoDigits(Hour12(f.hours));
      } else if c == 'm' {
        PadTwoDigits(f.month);
      } else if c == 'M' {
        PadTwoDigits(f.minutes);
      } else if c == 'S' {
        PadTwoDigits(f.seconds);
      }
    }
    if c == 'y' && f.year >= 0 {
      PadTwoDigits(JsRem(f.year, 100));
    }
  }

  /** Text without a '%' is copied verbatim, whatever follows it. */
  lemma {:induction false} FormatCopiesText(f: Fields, wd: int, text: string, rest: string, names: NameTables, host: HostText)
    requires '%' !in text
    ensures FormatFields(f, wd, text + rest, names, host) == text + FormatFields(f, wd, rest, names, host)
    decreases |text|
  {
    if text != [] {
      var tail := text[1..];
      assert text == [text[0]] + tail;
      assert '%' !in tail by { assert forall i :: 0 <= i < |tail| ==> tail[i] == text[i + 1]; }
      assert text[0] != '%';
      var out := FormatFields(f, wd, rest, names, host);
      calc {
        FormatFields(f, wd, text + rest, names, host);
        { assert text + rest == [text[0]] + (tail + rest); }
        FormatFields(f, wd, [text[0]] + (tail + rest), names, host);
        { FormatCopiesChar(f, wd, text[0], tail + rest, names, host); }
        [text[0]] + FormatFields(f, wd, tail + rest, names, host);
        { FormatCopiesText(f, wd, tail, rest, names, host); }
        [text[0]] + (tail + out);
        text + out;
      }
    } else {
      assert text + rest == rest;
    }
  }

  /** A format without '%' is its own text. */
  lemma FormatPlain(f: Fields, wd: int, fmt: string, names: NameTables, host: HostText)
    ensures '%' !in fmt ==> FormatFields(f, wd, fmt, names, host) == fmt
  {
    if '%' !in fmt {
      FormatCopiesText(f, wd, fmt, [], names, host);
      assert fmt + [] == fmt;
    }
  }

  /** A character other than '%' is copied. */
  lemma FormatCopiesChar(f: Fields, wd: int, c: char, rest: string, names: NameTables, host: HostText)
    requires c != '%'
    ensures FormatFields(f, wd, [c] + rest, names, host) == [c] + FormatFields(f, wd, rest, names, host)
  {
    assert ([c] + rest)[1..] == rest;
  }

  /**
    The text splits into whole tokens: directives and single characters
    that do not begin a directive.  Nothing at its end pairs with what follows.
  */
  predicate Tokens(text: string)
    decreases |text|
  {
    if text == [] then true
    else if |text| >= 2 && text[0] == '%' && IsDirective(text[1]) then Tokens(text[2..])
    else text[0] != '%' && Tokens(text[1..])
  }

  /** Formatting is compositional at a token boundary. */
  lemma {:induction false} FormatAppend(f: Fields, wd: int, a: string, b: string, names: NameTables, host: HostText)
    requires Tokens(a)
    ensures FormatFields(f, wd, a + b, names, host) == FormatFields(f, wd, a, names, host) + FormatFields(f, wd, b, names, host)
    decreases |a|
  {
    if a == [] {
      assert a + b == b;
    } else if |a| >= 2 && a[0] == '%' && IsDirective(a[1]) {
      assert (a + b)[..2] == a[..2] && (a + b)[2..] == a[2..] + b;
      FormatAppend(f, wd, a[2..], b, names, host);
    } else {
      assert a[0] != '%';
      assert (a + b)[0] == a[0] && (a + b)[1..] == a[1..] + b;
      FormatAppend(f, wd, a[1..], b, names, host);
    }
  }

  /** A directive at the head of the format is replaced, and the rest formatted. */
  lemma FormatDirective(f: Fields, wd: int, c: char, rest: string, names: NameTables, host: HostText)
    requires IsDirective(c)
    ensures FormatFields(f, wd, ['%', c] + rest, names, host) ==
            Expand(f, wd, c, names, host) + FormatFields(f, wd, rest, names, host)
  {
    assert (['%', c] + rest)[2..] == rest;
  }

  // The example lemmas below take their format and texts as parameters that
  // a `requires` pins to literals, so that the verifier unfolds the literals
  // only where a proof asks for them.

  /** The format example: 1985-05-08 01:00:22.925, a Wednesday, in English. */
  lemma FormatExample(host: HostText, ds: string, outs: seq<string>)
    requires ds == "aAbBdHImMpSwyY"
    requires outs == ["Wed", "Wednesday", "May", "May", "08", "01", "01", "05", "00", "AM", "22", "3", "85", "1985"]
    ensures FormatInstant(Compose(Fields(1985, 5, 8, 1, 0, 22, 925)), Spaced(ds) + "%%a", English, host)
            == Joined(outs) + "%a"
  {
    var f := Fields(1985, 5, 8, 1, 0, 22, 925);
    var t := Compose(f);
    DecomposeCompose(f);
    WeekDayCompose(f);
    May8th1985();
    ExampleNames(host);
    ExampleClock(host);
    ExampleNumbers(host);
    FormatFieldsExample(f, 3, host, ds, outs);
  }

  /** The directives `ds`, each written as '%', the directive, and a space. */
  function Spaced(ds: string): string {
    if ds == [] then [] else ['%', ds[0], ' '] + Spaced(ds[1..])
  }

  /** The texts `outs`, each followed by a space. */
  function Joined(outs: seq<string>): string {
    if outs == [] then [] else outs[0] + " " + Joined(outs[1..])
  }

  /** Space-separated directives become their texts, space-separated. */
  lemma {:induction false} FormatSpaced(f: Fields, wd: int, ds: string, outs: seq<string>, rest: string,
                                        names: NameTables, host: HostText)
    requires |ds| == |outs|
    requires forall i :: 0 <= i < |ds| ==> IsDirective(ds[i]) && Expand(f, wd, ds[i], names, host) == outs[i]
    ensures FormatFields(f, wd, Spaced(ds) + rest, names, host) == Joined(outs) + FormatFields(f, wd, rest, names, host)
    decreases |ds|
  {
    if ds == [] {
      assert Spaced(ds) + rest == rest;
    } else {
      var tail := Spaced(ds[1..]) + rest;
      assert Spaced(ds) + rest == ['%', ds[0]] + ([' '] + tail);
      FormatDirective(f, wd, ds[0], [' '] + tail, names, host);
      FormatCopiesChar(f, wd, ' ', tail, names, host);
      FormatSpaced(f, wd, ds[1..], outs[1..], rest, names, host);
    }
  }

  lemma ExampleNames(host: HostText)
    ensures Expand(Fields(1985, 5, 8, 1, 0, 22, 925), 3, 'a', English, host) == "Wed"
    ensures Expand(Fields(1985, 5, 8, 1, 0, 22, 925), 3, 'A', English, host) == "Wednesday"
    ensures Expand(Fields(1985, 5, 8, 1, 0, 22, 925), 3, 'b', English, host) == "May"
    ensures Expand(Fields(1985, 5, 8, 1, 0, 22, 925), 3, 'B', English, host) == "May"
    ensures Expand(Fields(1985, 5, 8, 1, 0, 22, 925), 3, 'p', English, host) == "AM"
  {
  }

  lemma ExampleClock(host: HostText)
    ensures Expand(Fields(1985, 5, 8, 1, 0, 22, 925), 3, 'd', English, host) == "08"
    ensures Expand(Fields(1985, 5, 8, 1, 0, 22, 925), 3, 'H', English, host) == "01"
    ensures Expand(Fields(1985, 5, 8, 1, 0, 22, 925), 3, 'I', English, host) == "01"
    ensures Expand(Fields(1985, 5, 8, 1, 0, 22, 925), 3, 'm', English, host) == "05"
    ensures Expand(Fields(1985, 5, 8, 1, 0, 22, 925), 3, 'M', English, host) == "00"
    ensures Expand(Fields(1985, 5, 8, 1, 0, 22, 925), 3, 'S', English, host) == "22"
  {
  }

  lemma ExampleNumbers(host: HostText)
    ensures Expand(Fields(1985, 5, 8, 1, 0, 22, 925), 3, 'w', English, host) == "3"
    ensures Expand(Fields(1985, 5, 8, 1, 0, 22, 925), 3, 'y', English, host) == "85"
    ensures Expand(Fields(1985, 5, 8, 1, 0, 22, 925), 3, 'Y', English, host) == "1985"
  {
    assert JsRem(1985, 100) == 85;
  }

  /**
    The format example, for any fields whose directives expand as at
    1985-05-08 01:00:22.925: `Spaced` writes out the format
    "%a %A %b %B %d %H %I %m %M %p %S %w %y %Y " and `Joined` the text
    "Wed Wednesday May May 08 01 01 05 00 AM 22 3 85 1985 ".
  */
  lemma FormatFieldsExample(f: Fields, wd: int, host: HostText, ds: string, outs: seq<string>)
    requires ds == "aAbBdHImMpSwyY"
    requires outs == ["Wed", "Wednesday", "May", "May", "08", "01", "01", "05", "00", "AM", "22", "3", "85", "1985"]
    requires Expand(f, wd, 'a', English, host) == "Wed"
    requires Expand(f, wd, 'A', English, host) == "Wednesday"
    requires Expand(f, wd, 'b', English, host) == "May"
    requires Expand(f, wd, 'B', English, host) == "May"
    requires Expand(f, wd, 'd', English, host) == "08"
    requires Expand(f, wd, 'H', English, host) == "01"
    requires Expand(f, wd, 'I', English, host) == "01"
    requires Expand(f, wd, 'm', English, host) == "05"
    requires Expand(f, wd, 'M', English, host) == "00"
    requires Expand(f, wd, 'p', English, host) == "AM"
    requires Expand(f, wd, 'S', English, host) == "22"
    requires Expand(f, wd, 'w', English, host) == "3"
    requires Expand(f, wd, 'y', English, host) == "85"
    requires Expand(f, wd, 'Y', English, host) == "1985"
    ensures FormatFields(f, wd, Spaced(ds) + "%%a", English, host) == Joined(outs) + "%a"
  {
    ExampleDirectives(f, wd, host, ds, outs);
    FormatSpaced(f, wd, ds, outs, "%%a", English, host);
    FormatPercent(f, wd, "a", English, host);
    FormatCopiesChar(f, wd, 'a', "", English, host);
  }

  /** The example's directives, one by one, expand to the example's texts. */
  lemma ExampleDirectives(f: Fields, wd: int, host: HostText, ds: string, outs: seq<string>)
    requires ds == "aAbBdHImMpSwyY"
    requires outs == ["Wed", "Wednesday", "May", "May", "08", "01", "01", "05", "00", "AM", "22", "3", "85", "1985"]
    requires Expand(f, wd, 'a', English, host) == "Wed"
    requires Expand(f, wd, 'A', English, host) == "Wednesday"
    requires Expand(f, wd, 'b', English, host) == "May"
    requires Expand(f, wd, 'B', English, host) == "May"
    requires Expand(f, wd, 'd', English, host) == "08"
    requires Expand(f, wd, 'H', English, host) == "01"
    requires Expand(f, wd, 'I', English, host) == "01"
    requires Expand(f, wd, 'm', English, host) == "05"
    requires Expand(f, wd, 'M', English, host) == "00"
    requires Expand(f, wd, 'p', English, host) == "AM"
    requires Expand(f, wd, 'S', English, host) == "22"
    requires Expand(f, wd, 'w', English, host) == "3"
    requires Expand(f, wd, 'y', English, host) == "85"
    requires Expand(f, wd, 'Y', English, host) == "1985"
    ensures |ds| == |outs|
    ensures forall i :: 0 <= i < |ds| ==> IsDirective(ds[i]) && Expand(f, wd, ds[i], English, host) == outs[i]
  {
    forall i | 0 <= i < |ds|
      ensures IsDirective(ds[i]) && Expand(f, wd, ds[i], English, host) == outs[i]
    {
      if i == 0 {
        assert ds[i] == 'a' && outs[i] == "Wed";
      } else if i == 1 {
        assert ds[i] == 'A' && outs[i] == "Wednesday";
      } else if i == 2 {
        assert ds[i] == 'b' && outs[i] == "May";
      } else if i == 3 {
        assert ds[i] == 'B' && outs[i] == "May";
      } else if i == 4 {
        assert ds[i] == 'd' && outs[i] == "08";
      } else if i == 5 {
        assert ds[i] == 'H' && outs[i] == "01";
      } else if i == 6 {
        assert ds[i] == 'I' && outs[i] == "01";
      } else if i == 7 {
        assert ds[i] == 'm' && outs[i] == "05";
      } else if i == 8 {
        assert ds[i] == 'M' && outs[i] == "00";
      } else if i == 9 {
        assert ds[i] == 'p' && outs[i] == "AM";
      } else if i == 10 {
        assert ds[i] == 'S' && outs[i] == "22";
      } else if i == 11 {
        assert ds[i] == 'w' && outs[i] == "3";
      } else if i == 12 {
        assert ds[i] == 'y' && outs[i] == "85";
      } else if i == 13 {
        assert ds[i] == 'Y' && outs[i] == "1985";
      }
    }
  }

  /**
    `%%` is a literal percent sign, whatever follows it: the character
    after the pair is formatted afresh, so `%%a` prints `%a` and not a
    percent sign followed by a weekday name.
  */
  lemma FormatPercent(f: Fields, wd: int, rest: string, names: NameTables, host: HostText)
    ensures FormatFields(f, wd, "%%" + rest, names, host) == "%" + FormatFields(f, wd, rest, names, host)
  {
    assert "%%" + rest == ['%', '%'] + rest;
    FormatDirective(f, wd, '%', rest, names, host);
  }
}
