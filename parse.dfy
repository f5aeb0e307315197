/**
  `SC.DateTime.createFromString`: the format is cut into directives and
  literal characters; each directive drives a scanner over the input and
  the values it reads are gathered into an option bag; a date is then
  created from that bag on top of the current instant.  Any scanner error,
  and a parsed weekday that differs from the created date's, gives null.

  The current instant is a parameter, and the localized name tables are a
  `NameTables` record.
*/
module Parse {
  import opened Wrappers
  import opened Digits
  import Sc = Scanner
  import opened Calendar
  import opened Format
  import opened DateTimes

  // ---------------------------------------------------------------------
  // Cutting the format into tokens.

  /** The characters a JavaScript `.` does not match. */
  predicate IsLineTerminator(c: char) {
    c == '\n' || c == '\r' || c == '\U{2028}' || c == '\U{2029}'
  }

  /** One match of the format pattern: `%` and a directive letter, or one other character. */
  datatype Token = Directive(letter: char) | Literal(ch: char)

  predicate WellFormed(tok: Token) {
    match tok
    case Directive(l) => IsDirective(l)
    case Literal(c) => !IsLineTerminator(c)
  }

  /**
    The successive matches of the format pattern.  A line terminator is
    matched by neither alternative, so the search steps over it.
  */
  function Tokenize(fmt: string): (toks: seq<Token>)
    ensures forall i :: 0 <= i < |toks| ==> WellFormed(toks[i])
    decreases |fmt|
  {
    if |fmt| == 0 then []
    else if fmt[0] == '%' && |fmt| >= 2 && IsDirective(fmt[1]) then [Directive(fmt[1])] + Tokenize(fmt[2..])
    else if IsLineTerminator(fmt[0]) then Tokenize(fmt[1..])
    else [Literal(fmt[0])] + Tokenize(fmt[1..])
  }

  /** The text a token was cut from. */
  function TokenText(tok: Token): string {
    match tok
    case Directive(l) => ['%', l]
    case Literal(c) => [c]
  }

  /** The text a sequence of tokens was cut from. */
  function Spell(toks: seq<Token>): string
    decreases |toks|
  {
    if |toks| == 0 then [] else TokenText(toks[0]) + Spell(toks[1..])
  }

  /** `s` without its line terminators. */
  function DropTerminators(s: string): (r: string)
    ensures |r| <= |s|
    ensures forall i :: 0 <= i < |r| ==> !IsLineTerminator(r[i])
    decreases |s|
  {
    if |s| == 0 then []
    else if IsLineTerminator(s[0]) then DropTerminators(s[1..])
    else [s[0]] + DropTerminators(s[1..])
  }

  /** The tokens spell the whole format except its line terminators: nothing else is skipped. */
  lemma {:induction false} TokenizeSpell(fmt: string)
    ensures Spell(Tokenize(fmt)) == DropTerminators(fmt)
    decreases |fmt|
  {
    if |fmt| == 0 {
    } else if fmt[0] == '%' && |fmt| >= 2 && IsDirective(fmt[1]) {
      TokenizeSpell(fmt[2..]);
      SpellCons(Directive(fmt[1]), Tokenize(fmt[2..]));
      DropTwo(fmt);
    } else if IsLineTerminator(fmt[0]) {
      TokenizeSpell(fmt[1..]);
    } else {
      TokenizeSpell(fmt[1..]);
      SpellCons(Literal(fmt[0]), Tokenize(fmt[1..]));
    }
  }

  lemma SpellCons(tok: Token, toks: seq<Token>)
    ensures Spell([tok] + toks) == TokenText(tok) + Spell(toks)
  {
    assert ([tok] + toks)[1..] == toks;
  }

  /** A `%` and a directive letter are both kept. */
  lemma DropTwo(fmt: string)
    requires |fmt| >= 2 && fmt[0] == '%' && IsDirective(fmt[1])
    ensures DropTerminators(fmt) == ['%', fmt[1]] + DropTerminators(fmt[2..])
  {
    assert fmt[1..][1..] == fmt[2..];
    DirectiveNotTerminator(fmt[1]);
  }

  lemma DirectiveNotTerminator(c: char)
    requires IsDirective(c)
    ensures !IsLineTerminator(c)
  {
  }

  // ---------------------------------------------------------------------
  // Reading one token.

  /** What the directives gather: the option bag, the meridian and the weekday to check. */
  datatype Gathered = Gathered(opts: map<Field, int>, meridian: Option<int>, dayOfWeek: Option<int>)

  const Nothing: Gathered := Gathered(map[], None, None)

  const Meridians: seq<string> := ["AM", "PM"]

  /** The century rule of `%y`: above 70 is in the 1900s, otherwise in the 2000s. */
  function Century(v: int): int {
    v + (if v > 70 then 1900 else 2000)
  }

  /** `scanInt(len)` into field `k` of the bag. */
  function Number(s: string, pos: nat, len: nat, k: Field, g: Gathered): Result<(Gathered, nat), Sc.ScanError>
    requires len > 0
  {
    match Sc.ScanIntAt(s, pos, len)
    case Failure(e) => Failure(e)
    case Success(v) => Success((g.(opts := g.opts[k := v]), pos + len))
  }

  /** `%y`: two digits, then the century rule. */
  function ShortYear(s: string, pos: nat, g: Gathered): Result<(Gathered, nat), Sc.ScanError> {
    match Sc.ScanIntAt(s, pos, 2)
    case Failure(e) => Failure(e)
    case Success(v) => Success((g.(opts := g.opts[Year := Century(v)]), pos + 2))
  }

  /** `scanArray(table)`: the index found and the cursor after the entry. */
  function TableAt(s: string, pos: nat, table: seq<string>): (r: Result<(nat, nat), Sc.ScanError>)
    ensures r.Success? ==> r.value.0 < |table| && r.value.1 == pos + |table[r.value.0]| <= |s|
  {
    match Sc.ScanArrayAt(s, pos, table)
    case Failure(e) => Failure(e)
    case Success(i) => Success((i, pos + |table[i]|))
  }

  /** `skipString(lit)`. */
  function Skip(s: string, pos: nat, lit: string, g: Gathered): Result<(Gathered, nat), Sc.ScanError> {
    match Sc.SkipAt(s, pos, lit)
    case Failure(e) => Failure(e)
    case Success(_) => Success((g, pos + |lit|))
  }

  /** The directives that scan a table of names: `%a %A %b %B %p`. */
  predicate IsNamed(l: char) {
    l == 'a' || l == 'A' || l == 'b' || l == 'B' || l == 'p'
  }

  /** The directives that scan a fixed number of digits: `%d %H %m %M %S %y %Y`. */
  predicate IsNumber(l: char) {
    l == 'd' || l == 'H' || l == 'm' || l == 'M' || l == 'S' || l == 'y' || l == 'Y'
  }

  /** The table a named directive scans. */
  function NameTable(l: char, names: NameTables): seq<string> {
    if l == 'a' then names.abbreviatedDayNames
    else if l == 'A' then names.dayNames
    else if l == 'b' then names.abbreviatedMonthNames
    else if l == 'B' then names.monthNames
    else Meridians
  }

  /** Where a named directive keeps the index it found: the weekday to check, the month, or the meridian. */
  function Record(g: Gathered, l: char, i: nat): Gathered {
    if l == 'a' || l == 'A' then g.(dayOfWeek := Some(i))
    else if l == 'b' || l == 'B' then g.(opts := g.opts[Month := i + 1])
    else g.(meridian := Some(i))
  }

  /** The field a number directive fills (`%y` and `%Y` both fill the year). */
  function NumberField(l: char): Field {
    if l == 'd' then Day
    else if l == 'H' then Hours
    else if l == 'm' then Month
    else if l == 'M' then Minutes
    else if l == 'S' then Seconds
    else Year
  }

  /** A named directive: `scanArray` over its table. */
  function Named(s: string, pos: nat, l: char, g: Gathered, names: NameTables): (r: Result<(Gathered, nat), Sc.ScanError>)
    ensures r.Success? ==> pos <= r.value.1 <= |s|
  {
    match TableAt(s, pos, NameTable(l, names))
    case Failure(e) => Failure(e)
    case Success(p) => Success((Record(g, l, p.0), p.1))
  }

  /** A number directive: `scanInt(4)` for `%Y`, `scanInt(2)` otherwise, and the century rule for `%y`. */
  function Numeral(s: string, pos: nat, l: char, g: Gathered): (r: Result<(Gathered, nat), Sc.ScanError>)
    ensures r.Success? ==> pos <= r.value.1 <= |s|
  {
    if l == 'y' then ShortYear(s, pos, g)
    else Number(s, pos, if l == 'Y' then 4 else 2, NumberField(l), g)
  }

  /** One token of the format read from `s` at `pos`: what is gathered, and the cursor after it. */
  function Step(s: string, pos: nat, tok: Token, g: Gathered, names: NameTables): (r: Result<(Gathered, nat), Sc.ScanError>)
    ensures r.Success? ==> pos <= r.value.1 && (pos <= |s| ==> r.value.1 <= |s|)
  {
    match tok
    case Literal(c) => Skip(s, pos, [c], g)
    case Directive(l) =>
      if IsNamed(l) then Named(s, pos, l, g, names)
      else if IsNumber(l) then Numeral(s, pos, l, g)
      else if l == '%' then Skip(s, pos, "%", g)
      else Success((g, pos))
  }

  /** The tokens read one after the other; the first scanner error ends the reading. */
  function Run(s: string, pos: nat, toks: seq<Token>, g: Gathered, names: NameTables): (r: Result<(Gathered, nat), Sc.ScanError>)
    ensures r.Success? ==> pos <= r.value.1 && (pos <= |s| ==> r.value.1 <= |s|)
    decreases |toks|
  {
    if |toks| == 0 then Success((g, pos))
    else match Step(s, pos, toks[0], g, names)
      case Failure(e) => Failure(e)
      case Success(p) => Run(s, p.1, toks[1..], p.0, names)
  }

  // ---------------------------------------------------------------------
  // Building the date.

  /**
    The meridian is folded into the hours only when hours were read: PM
    adds 12 hours modulo 24.  Without hours the meridian is dropped.
  */
  function FoldMeridian(g: Gathered): map<Field, int> {
    if g.meridian.Some? && Hours in g.opts && g.meridian.value == 1
    then g.opts[Hours := (g.opts[Hours] + 12) % 24]
    else g.opts
  }

  /**
    The date created from what was gathered, or none when the weekday read
    differs from it: a date comes back whenever no weekday was read, and
    the date that comes back has the weekday read, if any.
  */
  function Finish(g: Gathered, now: int): (r: Option<int>)
    ensures g.dayOfWeek.None? ==> r.Some?
    ensures r.Some? && g.dayOfWeek.Some? ==> WeekDay(r.value) == g.dayOfWeek.value
  {
    var t := ChangeInstant(now, FoldMeridian(g));
    if g.dayOfWeek.Some? && WeekDay(t) != g.dayOfWeek.value then None else Some(t)
  }

  /**
    `createFromString(str, fmt)` with `now` the current instant: the
    instant created, or null.  A format with nothing to read gives `now`
    back, whatever the text.
  */
  function CreateFromStringAt(str: string, fmt: string, names: NameTables, now: int): (r: Option<int>)
    ensures Tokenize(fmt) == [] ==> r == Some(now)
  {
    assert Cascade(map[]) == map[];
    match Run(str, 0, Tokenize(fmt), Nothing, names)
    case Failure(_) => None
    case Success(p) => Finish(p.0, now)
  }

  // ---------------------------------------------------------------------
  // The parser as it runs: a loop driving one scanner.

  /** One pass of the `switch`: the scanner call the token asks for, and what it gathers. */
  method ReadToken(sc: Sc.Scanner, tok: Token, g: Gathered, names: NameTables) returns (r: Result<Gathered, Sc.ScanError>)
    requires sc.Valid()
    modifies sc
    ensures sc.Valid()
    ensures var e := Step(sc.source, old(sc.scanLocation), tok, g, names);
            (r.Success? <==> e.Success?) && (r.Success? ==> r.value == e.value.0 && sc.scanLocation == e.value.1)
  {
    match tok
    case Literal(c) =>
      var k := sc.SkipString([c]);
      if k.Failure? { return Failure(k.error); }
      r := Success(g);
    case Directive(l) =>
      if IsNamed(l) {
        var i := sc.ScanArray(NameTable(l, names));
        if i.Failure? { return Failure(i.error); }
        r := Success(Record(g, l, i.value));
      } else if IsNumber(l) {
        var v := sc.ScanInt(if l == 'Y' then 4 else 2);
        if v.Failure? { return Failure(v.error); }
        var value := if l == 'y' then Century(v.value) else v.value;
        r := Success(g.(opts := g.opts[NumberField(l) := value]));
      } else if l == '%' {
        var k := sc.SkipString("%");
        if k.Failure? { return Failure(k.error); }
        r := Success(g);
      } else {
        r := Success(g);
      }
  }

  /** The loop of `createFromString`: every token read in turn with one scanner. */
  method ReadAll(sc: Sc.Scanner, toks: seq<Token>, names: NameTables) returns (r: Result<Gathered, Sc.ScanError>)
    requires sc.Valid()
    modifies sc
    ensures var e := Run(sc.source, old(sc.scanLocation), toks, Nothing, names);
            (r.Success? <==> e.Success?) && (r.Success? ==> r.value == e.value.0)
  {
    var g := Nothing;
    var j := 0;
    while j < |toks|
      invariant 0 <= j <= |toks|
      invariant sc.Valid()
      invariant Run(sc.source, sc.scanLocation, toks[j..], g, names) == Run(sc.source, old(sc.scanLocation), toks, Nothing, names)
    {
      assert toks[j..][1..] == toks[j + 1..];
      var t := ReadToken(sc, toks[j], g, names);
      if t.Failure? {
        return Failure(t.error);
      }
      g := t.value;
      j := j + 1;
    }
    assert toks[j..] == [];
    r := Success(g);
  }

  /** The end of `createFromString`: fold the meridian, create the date, check the weekday. */
  method Build(g: Gathered, now: int) returns (d: DateTime?)
    ensures d == null <==> Finish(g, now).None?
    ensures d != null ==> fresh(d) && !d.isFrozen && d.instant == Finish(g, now).value
  {
    var opts := g.opts;
    if g.meridian.Some? && Hours in opts {
      if g.meridian.value == 1 {
        opts := opts[Hours := (opts[Hours] + 12) % 24];
      }
    }
    assert opts == FoldMeridian(g);
    d := new DateTime(now, opts);
    if g.dayOfWeek.Some? && d.Get(DayOfWeek) != g.dayOfWeek.value {
      d := null;
    }
  }

  /**
    `createFromString`: reads the tokens in order with one scanner, gives
    null on the first scanner error, folds the meridian, creates the date
    and gives null when a weekday was read and differs from the date's.
  */
  method CreateFromString(str: string, fmt: string, names: NameTables, now: int) returns (d: DateTime?)
    ensures d == null <==> CreateFromStringAt(str, fmt, names, now).None?
    ensures d != null ==> fresh(d) && !d.isFrozen && d.instant == CreateFromStringAt(str, fmt, names, now).value
  {
    var scanner := new Sc.Scanner(str);
    var g := ReadAll(scanner, Tokenize(fmt), names);
    if g.Failure? {
      return null;
    }
    d := Build(g.value, now);
  }

  // ---------------------------------------------------------------------
  // Reading depends only on the text at and after the cursor.

  /** A reading result with its cursor moved on by `n`. */
  function ShiftBy(r: Result<(Gathered, nat), Sc.ScanError>, n: nat): Result<(Gathered, nat), Sc.ScanError> {
    match r
    case Failure(e) => Failure(e)
    case Success(p) => Success((p.0, p.1 + n))
  }

  /** Text in front of the input moves a token's reading by its length. */
  lemma StepShift(p: string, s: string, pos: nat, tok: Token, g: Gathered, names: NameTables)
    ensures Step(p + s, |p| + pos, tok, g, names) == ShiftBy(Step(s, pos, tok, g, names), |p|)
  {
    match tok
    case Literal(c) =>
      SkipShift(p, s, pos, [c], g);
    case Directive(l) =>
      if IsNamed(l) {
        TableAtShift(p, s, pos, NameTable(l, names));
      } else if l == 'y' {
        Sc.ScanAtShift(p, s, pos, 2);
      } else if IsNumber(l) {
        NumberShift(p, s, pos, if l == 'Y' then 4 else 2, NumberField(l), g);
      } else if l == '%' {
        SkipShift(p, s, pos, "%", g);
      }
  }

  lemma NumberShift(p: string, s: string, pos: nat, len: nat, k: Field, g: Gathered)
    requires len > 0
    ensures Number(p + s, |p| + pos, len, k, g) == ShiftBy(Number(s, pos, len, k, g), |p|)
  {
    Sc.ScanAtShift(p, s, pos, len);
  }

  lemma SkipShift(p: string, s: string, pos: nat, lit: string, g: Gathered)
    ensures Skip(p + s, |p| + pos, lit, g) == ShiftBy(Skip(s, pos, lit, g), |p|)
  {
    Sc.ScanAtShift(p, s, pos, |lit|);
  }

  lemma TableAtShift(p: string, s: string, pos: nat, table: seq<string>)
    ensures var r := TableAt(s, pos, table);
            TableAt(p + s, |p| + pos, table) == if r.Success? then Success((r.value.0, r.value.1 + |p|)) else r
  {
    Sc.ScanArrayFromShift(p, s, pos, table, 0);
  }

  /** Text after a token that reads successfully does not change its reading. */
  lemma StepExtend(s: string, e: string, pos: nat, tok: Token, g: Gathered, names: NameTables)
    requires Step(s, pos, tok, g, names).Success?
    ensures Step(s + e, pos, tok, g, names) == Step(s, pos, tok, g, names)
  {
    match tok
    case Literal(c) =>
      Sc.ScanAtExtend(s, e, pos, 1);
    case Directive(l) =>
      if IsNamed(l) {
        Sc.ScanArrayFromExtend(s, e, pos, NameTable(l, names), 0);
      } else if IsNumber(l) {
        Sc.ScanAtExtend(s, e, pos, if l == 'Y' then 4 else 2);
      } else if l == '%' {
        Sc.ScanAtExtend(s, e, pos, 1);
      }
  }

  /** Text in front of the input moves the whole reading by its length. */
  lemma {:induction false} RunShift(p: string, s: string, pos: nat, toks: seq<Token>, g: Gathered, names: NameTables)
    ensures Run(p + s, |p| + pos, toks, g, names) == ShiftBy(Run(s, pos, toks, g, names), |p|)
    decreases |toks|
  {
    if |toks| > 0 {
      StepShift(p, s, pos, toks[0], g, names);
      var r := Step(s, pos, toks[0], g, names);
      RunStep(s, pos, toks, g, names, r);
      RunStep(p + s, |p| + pos, toks, g, names, ShiftBy(r, |p|));
      if r.Success? {
        RunShift(p, s, r.value.1, toks[1..], r.value.0, names);
      }
    }
  }

  /** The first step of a reading, and what follows it. */
  lemma RunStep(s: string, pos: nat, toks: seq<Token>, g: Gathered, names: NameTables, r: Result<(Gathered, nat), Sc.ScanError>)
    requires |toks| > 0 && r == Step(s, pos, toks[0], g, names)
    ensures Run(s, pos, toks, g, names) == if r.Success? then Run(s, r.value.1, toks[1..], r.value.0, names) else Failure(r.error)
  {
  }

  /** Text after a reading that succeeds does not change it. */
  lemma {:induction false} RunExtend(s: string, e: string, pos: nat, toks: seq<Token>, g: Gathered, names: NameTables)
    requires Run(s, pos, toks, g, names).Success?
    ensures Run(s + e, pos, toks, g, names) == Run(s, pos, toks, g, names)
    decreases |toks|
  {
    if |toks| > 0 {
      StepExtend(s, e, pos, toks[0], g, names);
      var r := Step(s, pos, toks[0], g, names);
      RunExtend(s, e, r.value.1, toks[1..], r.value.0, names);
    }
  }

  /**
    The parser never checks that the input is used up: once a format has
    been read from `str`, any text appended to `str` is ignored.
  */
  lemma IgnoresTrailingText(str: string, e: string, fmt: string, names: NameTables, now: int)
    requires Run(str, 0, Tokenize(fmt), Nothing, names).Success?
    ensures CreateFromStringAt(str + e, fmt, names, now) == CreateFromStringAt(str, fmt, names, now)
  {
    RunExtend(str, e, 0, Tokenize(fmt), Nothing, names);
  }

  /** A token read from `a` and the rest read from `b` make the reading of `a + b`. */
  lemma RunCons(a: string, b: string, tok: Token, toks: seq<Token>, g: Gathered, g1: Gathered, g2: Gathered, names: NameTables)
    requires Step(a, 0, tok, g, names) == Success((g1, |a|))
    requires Run(b, 0, toks, g1, names) == Success((g2, |b|))
    ensures Run(a + b, 0, [tok] + toks, g, names) == Success((g2, |a + b|))
  {
    StepExtend(a, b, 0, tok, g, names);
    RunShift(a, b, 0, toks, g1, names);
    assert ([tok] + toks)[1..] == toks;
  }

  // ---------------------------------------------------------------------
  // Reading back what the formatter prints.

  /** The directives whose printed text the parser reads back: the fixed-width numbers and `%%`. */
  predicate Rereadable(c: char) {
    c == 'd' || c == 'H' || c == 'm' || c == 'M' || c == 'S' || c == 'Y' || c == '%'
  }

  /**
    A format of rereadable directives and plain characters, without line
    terminators: the formatter copies a line terminator but the parser's
    pattern steps over it, so the two would fall out of step.
  */
  predicate RereadableFormat(fmt: string)
    decreases |fmt|
  {
    if fmt == [] then true
    else if |fmt| >= 2 && fmt[0] == '%' && IsDirective(fmt[1]) then Rereadable(fmt[1]) && RereadableFormat(fmt[2..])
    else !IsLineTerminator(fmt[0]) && RereadableFormat(fmt[1..])
  }

  /** The field value directive `c` prints for fields `f`, when it prints a number. */
  function Shown(f: Fields, c: char): int {
    if c == 'd' then f.day
    else if c == 'H' then f.hours
    else if c == 'm' then f.month
    else if c == 'M' then f.minutes
    else if c == 'S' then f.seconds
    else f.year
  }

  /** What reading directive `c` back adds to the bag, for the text printed from fields `f`. */
  function Gain(opts: map<Field, int>, f: Fields, c: char): map<Field, int> {
    if IsNumber(c) && c != 'y' then opts[NumberField(c) := Shown(f, c)] else opts
  }

  /** The bag the directives of `fmt` gather, on top of `opts`, from the text printed for `f`. */
  function Collect(opts: map<Field, int>, f: Fields, fmt: string): map<Field, int>
    decreases |fmt|
  {
    if fmt == [] then opts
    else if |fmt| >= 2 && fmt[0] == '%' && IsDirective(fmt[1]) then Collect(Gain(opts, f, fmt[1]), f, fmt[2..])
    else Collect(opts, f, fmt[1..])
  }

  /** `pad(x)` read by `scanInt(2)` gives `x` back. */
  lemma PadReadsBack(x: int, k: Field, g: Gathered)
    requires 0 <= x <= 99
    ensures |Pad(x)| == 2
    ensures Number(Pad(x), 0, 2, k, g) == Success((g.(opts := g.opts[k := x]), 2))
  {
    PadTwoDigits(x);
    assert Pad(x)[0..2] == Pad(x);
  }

  /** A four-digit year printed by `%Y` and read by `scanInt(4)` gives the year back. */
  lemma YearReadsBack(y: int, g: Gathered)
    requires 1000 <= y <= 9999
    ensures |IntToString(y)| == 4
    ensures Number(IntToString(y), 0, 4, Year, g) == Success((g.(opts := g.opts[Year := y]), 4))
  {
    NatToStringRoundTrip(y);
    assert Pow10(3) == 1000 && Pow10(4) == 10000;
    NatToStringLength(y, 4);
    assert IntToString(y)[0..4] == IntToString(y);
  }

  /** The two-digit directives print their field with `pad`. */
  lemma ExpandPadded(f: Fields, wd: int, c: char, names: NameTables, host: HostText)
    requires c == 'd' || c == 'H' || c == 'm' || c == 'M' || c == 'S'
    ensures Expand(f, wd, c, names, host) == Pad(Shown(f, c))
  {
  }

  /**
    Fields whose numbers print at their fixed width: two digits for the
    month, the day and the clock, four for the year.  Every valid date of
    a four-digit year is printable, and so are dates that do not exist,
    such as the 31st of February.
  */
  predicate Printable(f: Fields) {
    && 1000 <= f.year <= 9999
    && 0 <= f.month <= 99 && 0 <= f.day <= 99
    && 0 <= f.hours <= 99 && 0 <= f.minutes <= 99 && 0 <= f.seconds <= 99
  }

  /** The text printed for a rereadable directive reads back what was printed. */
  lemma DirectiveReadsBack(f: Fields, wd: int, c: char, g: Gathered, names: NameTables, host: HostText, text: string)
    requires Printable(f) && Rereadable(c)
    requires text == Expand(f, wd, c, names, host)
    ensures Step(text, 0, Directive(c), g, names) == Success((g.(opts := Gain(g.opts, f, c)), |text|))
  {
    if c == '%' {
      assert text == "%" && text[0..1] == "%";
    } else if c == 'Y' {
      assert text == IntToString(f.year);
      YearReadsBack(f.year, g);
    } else {
      ExpandPadded(f, wd, c, names, host);
      PadReadsBack(Shown(f, c), NumberField(c), g);
    }
  }

  /**
    Reading the text the formatter prints for printable fields `f` with the
    same rereadable format uses up exactly that text and gathers `Collect`.
  */
  lemma {:induction false} FormatReadsBack(f: Fields, wd: int, fmt: string, g: Gathered, names: NameTables, host: HostText)
    requires Printable(f) && RereadableFormat(fmt)
    ensures var text := FormatFields(f, wd, fmt, names, host);
            Run(text, 0, Tokenize(fmt), g, names) == Success((g.(opts := Collect(g.opts, f, fmt)), |text|))
    decreases |fmt|
  {
    if fmt == [] {
    } else if |fmt| >= 2 && fmt[0] == '%' && IsDirective(fmt[1]) {
      var c := fmt[1];
      var a := Expand(f, wd, c, names, host);
      var g1 := g.(opts := Gain(g.opts, f, c));
      DirectiveReadsBack(f, wd, c, g, names, host, a);
      FormatReadsBack(f, wd, fmt[2..], g1, names, host);
      RunCons(a, FormatFields(f, wd, fmt[2..], names, host), Directive(c), Tokenize(fmt[2..]),
              g, g1, g1.(opts := Collect(g1.opts, f, fmt[2..])), names);
    } else {
      var ch := fmt[0];
      FormatReadsBack(f, wd, fmt[1..], g, names, host);
      assert [ch][0..1] == [ch];
      RunCons([ch], FormatFields(f, wd, fmt[1..], names, host), Literal(ch), Tokenize(fmt[1..]),
              g, g, g.(opts := Collect(g.opts, f, fmt[1..])), names);
    }
  }

  /** Every value the format gathers agrees with the fields it was printed from. */
  lemma {:induction false} CollectAgrees(opts: map<Field, int>, f: Fields, fmt: string)
    requires Override(f, opts) == f
    ensures Override(f, Collect(opts, f, fmt)) == f
    decreases |fmt|
  {
    if fmt == [] {
    } else if |fmt| >= 2 && fmt[0] == '%' && IsDirective(fmt[1]) {
      CollectAgrees(Gain(opts, f, fmt[1]), f, fmt[2..]);
    } else {
      CollectAgrees(opts, f, fmt[1..]);
    }
  }

  /** No directive gathers milliseconds. */
  lemma {:induction false} CollectNoMilliseconds(opts: map<Field, int>, f: Fields, fmt: string)
    requires Milliseconds !in opts
    ensures Milliseconds !in Collect(opts, f, fmt)
    decreases |fmt|
  {
    if fmt == [] {
    } else if |fmt| >= 2 && fmt[0] == '%' && IsDirective(fmt[1]) {
      CollectNoMilliseconds(Gain(opts, f, fmt[1]), f, fmt[2..]);
    } else {
      CollectNoMilliseconds(opts, f, fmt[1..]);
    }
  }

  /**
    Parsing what `toFormattedString` printed, with the same rereadable
    format, gives a date.  The bag gathered agrees with the printed date on
    every field it names, and the created date holds those fields over the
    current date's, with the finer time fields reset, as long as those
    writes do not carry.
  */
  lemma {:induction false} ParseFormatted(t: int, fmt: string, names: NameTables, host: HostText, now: int, c: map<Field, int>)
    requires RereadableFormat(fmt) && 1000 <= YearFromTime(t) <= 9999
    requires c == Collect(map[], Decompose(t), fmt)
    requires WritesFit(Decompose(now), Cascade(c))
    ensures Override(Decompose(t), c) == Decompose(t)
    ensures var r := CreateFromStringAt(FormatInstant(t, fmt, names, host), fmt, names, now);
            r.Some? && Decompose(r.value) == Cascaded(Decompose(now), c)
  {
    var f := Decompose(t);
    ComposeDecompose(t);
    FormatReadsBack(f, WeekDay(t), fmt, Nothing, names, host);
    CollectAgrees(map[], f, fmt);
    ChangeReadBack(now, c);
  }

  /**
    A format that names the year, month, day, hours, minutes and seconds
    reads back the printed date with its milliseconds cleared, when the
    current day of month exists in the printed year's months involved.
  */
  lemma {:induction false} ParseFormattedFully(t: int, fmt: string, names: NameTables, host: HostText, now: int, c: map<Field, int>)
    requires RereadableFormat(fmt) && 1000 <= YearFromTime(t) <= 9999
    requires c == Collect(map[], Decompose(t), fmt)
    requires Year in c && Month in c && Day in c && Hours in c && Minutes in c && Seconds in c
    requires Decompose(now).day <= Calendar.DaysInMonth(YearFromTime(t), Decompose(now).month)
    requires Decompose(now).day <= Calendar.DaysInMonth(YearFromTime(t), MonthFromTime(t) + 1)
    ensures var r := CreateFromStringAt(FormatInstant(t, fmt, names, host), fmt, names, now);
            r.Some? && Decompose(r.value) == Decompose(t).(milliseconds := 0)
  {
    var f := Decompose(t);
    var n := Decompose(now);
    ComposeDecompose(t);
    ComposeDecompose(now);
    CollectAgrees(map[], f, fmt);
    CollectNoMilliseconds(map[], f, fmt);
    CascadeOverride(n, c);
    assert Cascaded(n, c) == f.(milliseconds := 0);
    ParseFormatted(t, fmt, names, host, now, c);
  }

  /**
    When the printed date falls in a month of 31 days, a format that names
    the year down to the seconds reads it back, with its milliseconds
    cleared, whatever the current date: no day of month the current date
    holds is past the end of such a month.
  */
  lemma {:induction false} ParseFormattedLongMonth(t: int, fmt: string, names: NameTables, host: HostText, now: int, c: map<Field, int>)
    requires RereadableFormat(fmt) && 1000 <= YearFromTime(t) <= 9999
    requires c == Collect(map[], Decompose(t), fmt)
    requires Year in c && Month in c && Day in c && Hours in c && Minutes in c && Seconds in c
    requires Calendar.DaysInMonth(Decompose(t).year, Decompose(t).month) == 31
    ensures var r := CreateFromStringAt(FormatInstant(t, fmt, names, host), fmt, names, now);
            r.Some? && Decompose(r.value) == Decompose(t).(milliseconds := 0)
  {
    var f := Decompose(t);
    ComposeDecompose(t);
    FormatReadsBack(f, WeekDay(t), fmt, Nothing, names, host);
    assert CreateFromStringAt(FormatInstant(t, fmt, names, host), fmt, names, now) == Some(ChangeInstant(now, c));
    CollectAgrees(map[], f, fmt);
    CollectNoMilliseconds(map[], f, fmt);
    CreateFullBag(now, f, c);
  }

  /**
    A bag that agrees with `f` and names every field but the
    milliseconds, which the cascade then sets to 0, creates
    `f` with its milliseconds cleared when the month has 31 days.
  */
  lemma {:induction false} CreateFullBag(now: int, f: Fields, c: map<Field, int>)
    requires ValidFields(f) && Override(f, c) == f && Milliseconds !in c
    requires Year in c && Month in c && Day in c && Hours in c && Minutes in c && Seconds in c
    requires Calendar.DaysInMonth(f.year, f.month) == 31
    ensures Decompose(ChangeInstant(now, c)) == f.(milliseconds := 0)
  {
    var c0 := Cascade(c);
    assert Supplies(c0, f.(milliseconds := 0));
    assert Cascade(c0) == c0;
    CreateInLongMonth(now, f.(milliseconds := 0), c0);
  }

  // ---------------------------------------------------------------------
  // Patterns: directives between single-character separators.

  /** A directive and a separator other than '%' at the head of the format. */
  lemma FormatPiece(f: Fields, wd: int, c: char, sep: char, rest: string, names: NameTables, host: HostText)
    requires IsDirective(c) && sep != '%'
    ensures FormatFields(f, wd, ['%', c, sep] + rest, names, host) ==
            Expand(f, wd, c, names, host) + [sep] + FormatFields(f, wd, rest, names, host)
  {
    assert ['%', c, sep] + rest == ['%', c] + ([sep] + rest);
    FormatDirective(f, wd, c, [sep] + rest, names, host);
    FormatCopiesChar(f, wd, sep, rest, names, host);
  }

  /** Directives `ds` separated by the single characters `seps`: `%d/%m/%Y` is `Pattern("dmY", "//")`. */
  function Pattern(ds: string, seps: string): string
    requires |ds| == |seps| + 1
    decreases |seps|
  {
    if |seps| == 0 then ['%', ds[0]] else ['%', ds[0], seps[0]] + Pattern(ds[1..], seps[1..])
  }

  /** The texts `outs` separated by the single characters `seps`. */
  function Interleave(outs: seq<string>, seps: string): string
    requires |outs| == |seps| + 1
    decreases |seps|
  {
    if |seps| == 0 then outs[0] else outs[0] + [seps[0]] + Interleave(outs[1..], seps[1..])
  }

  /** Separators that neither begin a directive nor are stepped over by the parser. */
  predicate Separators(seps: string) {
    forall i :: 0 <= i < |seps| ==> seps[i] != '%' && !IsLineTerminator(seps[i])
  }

  /** A pattern prints the texts of its directives between its separators. */
  lemma {:induction false} FormatPattern(f: Fields, wd: int, ds: string, seps: string, outs: seq<string>,
                                         names: NameTables, host: HostText)
    requires |ds| == |seps| + 1 && |outs| == |ds| && Separators(seps)
    requires forall i :: 0 <= i < |ds| ==> IsDirective(ds[i]) && Expand(f, wd, ds[i], names, host) == outs[i]
    ensures FormatFields(f, wd, Pattern(ds, seps), names, host) == Interleave(outs, seps)
    decreases |seps|
  {
    assert IsDirective(ds[0]) && Expand(f, wd, ds[0], names, host) == outs[0];
    if |seps| == 0 {
      FormatDirective(f, wd, ds[0], "", names, host);
      assert ['%', ds[0]] + "" == ['%', ds[0]];
    } else {
      assert forall i :: 0 <= i < |ds| - 1 ==> ds[1..][i] == ds[i + 1] && outs[1..][i] == outs[i + 1];
      FormatPattern(f, wd, ds[1..], seps[1..], outs[1..], names, host);
      FormatPiece(f, wd, ds[0], seps[0], Pattern(ds[1..], seps[1..]), names, host);
    }
  }

  /** A pattern of rereadable directives is a rereadable format. */
  lemma {:induction false} PatternRereadable(ds: string, seps: string)
    requires |ds| == |seps| + 1 && Separators(seps)
    requires forall i :: 0 <= i < |ds| ==> IsDirective(ds[i]) && Rereadable(ds[i])
    ensures RereadableFormat(Pattern(ds, seps))
    decreases |seps|
  {
    assert IsDirective(ds[0]) && Rereadable(ds[0]);
    if |seps| == 0 {
      assert ['%', ds[0]][2..] == [];
    } else {
      assert forall i :: 0 <= i < |ds| - 1 ==> ds[1..][i] == ds[i + 1];
      PatternRereadable(ds[1..], seps[1..]);
      var rest := Pattern(ds[1..], seps[1..]);
      var p := ['%', ds[0], seps[0]] + rest;
      assert p[2..] == [seps[0]] + rest && p[2..][1..] == rest;
    }
  }

  /** Gathering never forgets a field. */
  lemma {:induction false} CollectKeeps(opts: map<Field, int>, f: Fields, fmt: string)
    ensures opts.Keys <= Collect(opts, f, fmt).Keys
    decreases |fmt|
  {
    if fmt == [] {
    } else if |fmt| >= 2 && fmt[0] == '%' && IsDirective(fmt[1]) {
      CollectKeeps(Gain(opts, f, fmt[1]), f, fmt[2..]);
    } else {
      CollectKeeps(opts, f, fmt[1..]);
    }
  }

  /** Every two- or four-digit number directive of a pattern names its field in the gathered bag. */
  lemma {:induction false} PatternCollects(opts: map<Field, int>, f: Fields, ds: string, seps: string)
    requires |ds| == |seps| + 1 && Separators(seps)
    requires forall i :: 0 <= i < |ds| ==> IsDirective(ds[i])
    ensures forall i :: 0 <= i < |ds| && IsNumber(ds[i]) && ds[i] != 'y' ==> NumberField(ds[i]) in Collect(opts, f, Pattern(ds, seps))
    decreases |seps|
  {
    var g := Gain(opts, f, ds[0]);
    assert IsDirective(ds[0]);
    if |seps| == 0 {
      assert ['%', ds[0]][2..] == [];
    } else {
      assert forall i :: 0 <= i < |ds| - 1 ==> ds[1..][i] == ds[i + 1];
      PatternCollects(g, f, ds[1..], seps[1..]);
      var rest := Pattern(ds[1..], seps[1..]);
      var p := ['%', ds[0], seps[0]] + rest;
      assert p[2..] == [seps[0]] + rest && p[2..][1..] == rest;
      assert Collect(opts, f, p) == Collect(g, f, rest);
      CollectKeeps(g, f, rest);
    }
  }

  // ---------------------------------------------------------------------
  // The parsing example: "08/05/1985 01:00:22" read with "%d/%m/%Y %H:%M:%S".
  // The lemmas below take their format and texts as parameters that a
  // `requires` pins to literals, so that the verifier unfolds the literals
  // only where a proof asks for them.

  /** The directives of the example's format print the fields of 1985-05-08 01:00:22.925. */
  lemma ExampleExpansions(f: Fields, wd: int, host: HostText, ds: string, outs: seq<string>)
    requires f == TestFields && wd == 3
    requires ds == "dmYHMS" && outs == ["08", "05", "1985", "01", "00", "22"]
    ensures forall i :: 0 <= i < |ds| ==> IsDirective(ds[i]) && Rereadable(ds[i]) && Expand(f, wd, ds[i], English, host) == outs[i]
  {
    ExampleClock(host);
    ExampleNumbers(host);
    forall i | 0 <= i < |ds|
      ensures IsDirective(ds[i]) && Rereadable(ds[i]) && Expand(f, wd, ds[i], English, host) == outs[i]
    {
      if i == 0 {
        assert ds[i] == 'd' && outs[i] == "08";
      } else if i == 1 {
        assert ds[i] == 'm' && outs[i] == "05";
      } else if i == 2 {
        assert ds[i] == 'Y' && outs[i] == "1985";
      } else if i == 3 {
        assert ds[i] == 'H' && outs[i] == "01";
      } else if i == 4 {
        assert ds[i] == 'M' && outs[i] == "00";
      } else {
        assert ds[i] == 'S' && outs[i] == "22";
      }
    }
  }

  /** 1985-05-08 01:00:22.925 is an instant. */
  lemma ExampleInstantExists()
    ensures exists t :: Decompose(t) == TestFields
  {
    DecomposeCompose(TestFields);
  }

  /** The instant of the example: a Wednesday of May, in a four-digit year. */
  lemma ExampleInstant(t: int)
    requires Decompose(t) == TestFields
    ensures WeekDay(t) == 3 && 1000 <= YearFromTime(t) <= 9999
    ensures Calendar.DaysInMonth(Decompose(t).year, Decompose(t).month) == 31
  {
    TestDay(t);
  }

  /**
    A pattern of rereadable directives, printed for instant `t`, reads back
    `t` with its milliseconds cleared when the pattern names the six fields
    down to the seconds and `t` falls in a month of 31 days.
  */
  lemma {:induction false} PatternReadsBack(t: int, now: int, ds: string, seps: string, outs: seq<string>,
                                            names: NameTables, host: HostText, c: map<Field, int>)
    requires |ds| == |seps| + 1 && |outs| == |ds| && Separators(seps)
    requires forall i :: 0 <= i < |ds| ==> IsDirective(ds[i]) && Rereadable(ds[i]) && Expand(Decompose(t), WeekDay(t), ds[i], names, host) == outs[i]
    requires 1000 <= YearFromTime(t) <= 9999
    requires c == Collect(map[], Decompose(t), Pattern(ds, seps))
    requires Year in c && Month in c && Day in c && Hours in c && Minutes in c && Seconds in c
    requires Calendar.DaysInMonth(Decompose(t).year, Decompose(t).month) == 31
    ensures var r := CreateFromStringAt(Interleave(outs, seps), Pattern(ds, seps), names, now);
            r.Some? && Decompose(r.value) == Decompose(t).(milliseconds := 0)
  {
    FormatPattern(Decompose(t), WeekDay(t), ds, seps, outs, names, host);
    PatternRereadable(ds, seps);
    ParseFormattedLongMonth(t, Pattern(ds, seps), names, host, now, c);
  }

  /** The example's format names the six fields down to the seconds. */
  lemma ExampleCollect(f: Fields, ds: string, seps: string, c: map<Field, int>)
    requires ds == "dmYHMS" && seps == "// ::" && c == Collect(map[], f, Pattern(ds, seps))
    ensures Separators(seps)
    ensures Year in c && Month in c && Day in c && Hours in c && Minutes in c && Seconds in c
  {
    PatternCollects(map[], f, ds, seps);
    assert ds[0] == 'd' && ds[1] == 'm' && ds[2] == 'Y' && ds[3] == 'H' && ds[4] == 'M' && ds[5] == 'S';
  }

  /** A pattern of six directives written out. */
  lemma {:induction false} PatternOfSix(d0: char, d1: char, d2: char, d3: char, d4: char, d5: char,
                                        s0: char, s1: char, s2: char, s3: char, s4: char)
    ensures Pattern([d0, d1, d2, d3, d4, d5], [s0, s1, s2, s3, s4]) ==
            ['%', d0, s0] + (['%', d1, s1] + (['%', d2, s2] + (['%', d3, s3] + (['%', d4, s4] + ['%', d5]))))
  {
    var p5 := ['%', d5];
    assert Pattern([d5], []) == p5;
    assert [d4, d5][1..] == [d5] && [s4][1..] == [];
    var p4 := ['%', d4, s4] + p5;
    assert Pattern([d4, d5], [s4]) == p4;
    assert [d3, d4, d5][1..] == [d4, d5] && [s3, s4][1..] == [s4];
    var p3 := ['%', d3, s3] + p4;
    assert Pattern([d3, d4, d5], [s3, s4]) == p3;
    assert [d2, d3, d4, d5][1..] == [d3, d4, d5] && [s2, s3, s4][1..] == [s3, s4];
    var p2 := ['%', d2, s2] + p3;
    assert Pattern([d2, d3, d4, d5], [s2, s3, s4]) == p2;
    assert [d1, d2, d3, d4, d5][1..] == [d2, d3, d4, d5] && [s1, s2, s3, s4][1..] == [s2, s3, s4];
    var p1 := ['%', d1, s1] + p2;
    assert Pattern([d1, d2, d3, d4, d5], [s1, s2, s3, s4]) == p1;
    assert [d0, d1, d2, d3, d4, d5][1..] == [d1, d2, d3, d4, d5] && [s0, s1, s2, s3, s4][1..] == [s1, s2, s3, s4];
  }

  /** Six texts interleaved with five separators, written out. */
  lemma {:induction false} InterleaveOfSix(o0: string, o1: string, o2: string, o3: string, o4: string, o5: string,
                                           s0: char, s1: char, s2: char, s3: char, s4: char)
    ensures Interleave([o0, o1, o2, o3, o4, o5], [s0, s1, s2, s3, s4]) ==
            o0 + [s0] + (o1 + [s1] + (o2 + [s2] + (o3 + [s3] + (o4 + [s4] + o5))))
  {
    assert Interleave([o5], []) == o5;
    assert [o4, o5][1..] == [o5] && [s4][1..] == [];
    assert Interleave([o4, o5], [s4]) == o4 + [s4] + o5;
    assert [o3, o4, o5][1..] == [o4, o5] && [s3, s4][1..] == [s4];
    assert Interleave([o3, o4, o5], [s3, s4]) == o3 + [s3] + (o4 + [s4] + o5);
    assert [o2, o3, o4, o5][1..] == [o3, o4, o5] && [s2, s3, s4][1..] == [s3, s4];
    assert Interleave([o2, o3, o4, o5], [s2, s3, s4]) == o2 + [s2] + (o3 + [s3] + (o4 + [s4] + o5));
    assert [o1, o2, o3, o4, o5][1..] == [o2, o3, o4, o5] && [s1, s2, s3, s4][1..] == [s2, s3, s4];
    assert [o0, o1, o2, o3, o4, o5][1..] == [o1, o2, o3, o4, o5] && [s0, s1, s2, s3, s4][1..] == [s1, s2, s3, s4];
  }

  /** The example's format is a pattern. */
  lemma ExampleFormat(fmt: string, ds: string, seps: string)
    requires fmt == "%d/%m/%Y %H:%M:%S" && ds == "dmYHMS" && seps == "// ::"
    ensures fmt == Pattern(ds, seps)
  {
    PatternOfSix('d', 'm', 'Y', 'H', 'M', 'S', '/', '/', ' ', ':', ':');
  }

  /** The example's text interleaves the printed fields with the same separators. */
  lemma ExampleInterleave(str: string, outs: seq<string>, seps: string)
    requires str == "08/05/1985 01:00:22" && outs == ["08", "05", "1985", "01", "00", "22"] && seps == "// ::"
    ensures str == Interleave(outs, seps)
  {
    InterleaveOfSix("08", "05", "1985", "01", "00", "22", '/', '/', ' ', ':', ':');
  }

  /**
    The parsing example: the text "08/05/1985 01:00:22"
    (`ExampleInterleave`) read with the format "%d/%m/%Y %H:%M:%S"
    (`ExampleFormat`) gives 1985-05-08 01:00:22.000, whatever the current
    date: May has 31 days, so no write carries.
  */
  lemma CreateFromStringExample(now: int, ds: string, seps: string, outs: seq<string>)
    requires ds == "dmYHMS" && seps == "// ::" && outs == ["08", "05", "1985", "01", "00", "22"]
    ensures var r := CreateFromStringAt(Interleave(outs, seps), Pattern(ds, seps), English, now);
            r.Some? && Decompose(r.value) == Fields(1985, 5, 8, 1, 0, 22, 0)
  {
    ExampleInstantExists();
    var t :| Decompose(t) == TestFields;
    ExampleReadsBack(t, now, ds, seps, outs);
  }

  /** The example's instant `t`, printed with the example's format, reads back as `t` without its milliseconds. */
  lemma ExampleReadsBack(t: int, now: int, ds: string, seps: string, outs: seq<string>)
    requires Decompose(t) == TestFields
    requires ds == "dmYHMS" && seps == "// ::" && outs == ["08", "05", "1985", "01", "00", "22"]
    ensures var r := CreateFromStringAt(Interleave(outs, seps), Pattern(ds, seps), English, now);
            r.Some? && Decompose(r.value) == TestFields.(milliseconds := 0)
  {
    var host := HostText("", "", "");
    ExampleInstant(t);
    ExampleExpansions(Decompose(t), WeekDay(t), host, ds, outs);
    var c := Collect(map[], Decompose(t), Pattern(ds, seps));
    ExampleCollect(Decompose(t), ds, seps, c);
    PatternReadsBack(t, now, ds, seps, outs, English, host, c);
  }

  // ---------------------------------------------------------------------
  // A date that does not exist: "31/02/1985" read with "%d/%m/%Y".
  // The lemmas below take their format and texts as parameters that a
  // `requires` pins to literals, so that the verifier unfolds the literals
  // only where a proof asks for them.

  /** The directives of "%d/%m/%Y" print the 31st of February 1985 as "31", "02" and "1985". */
  lemma ImpossibleExpansions(f: Fields, host: HostText, ds: string, outs: seq<string>)
    requires f == Fields(1985, 2, 31, 0, 0, 0, 0)
    requires ds == "dmY" && outs == ["31", "02", "1985"]
    ensures forall i :: 0 <= i < |ds| ==> IsDirective(ds[i]) && Rereadable(ds[i]) && Expand(f, 0, ds[i], English, host) == outs[i]
  {
    forall i | 0 <= i < |ds|
      ensures IsDirective(ds[i]) && Rereadable(ds[i]) && Expand(f, 0, ds[i], English, host) == outs[i]
    {
      if i == 0 {
        assert ds[i] == 'd' && outs[i] == "31";
      } else if i == 1 {
        assert ds[i] == 'm' && outs[i] == "02";
      } else {
        assert ds[i] == 'Y' && outs[i] == "1985";
      }
    }
  }

  /** Reading "%d/%m/%Y" back gathers the day, the month and the year, and nothing else. */
  lemma ImpossibleCollect(f: Fields, fmt: string)
    requires f == Fields(1985, 2, 31, 0, 0, 0, 0) && fmt == "%d/%m/%Y"
    ensures Collect(map[], f, fmt) == map[Day := 31, Month := 2, Year := 1985]
  {
    var m1 := map[Day := 31];
    var m2 := m1[Month := 2];
    var m3 := m2[Year := 1985];
    assert fmt[2..] == "/%m/%Y" && fmt[2..][1..] == "%m/%Y";
    assert Collect(map[], f, fmt) == Collect(m1, f, "/%m/%Y");
    assert "/%m/%Y"[1..] == "%m/%Y" && "%m/%Y"[2..] == "/%Y" && "/%Y"[1..] == "%Y" && "%Y"[2..] == "";
    assert Collect(m1, f, "/%m/%Y") == Collect(m2, f, "/%Y");
    assert Collect(m2, f, "/%Y") == Collect(m3, f, "");
  }

  /**
    The text "31/02/1985" read with "%d/%m/%Y" gives the date the 31st of
    February 1985 carries to: the year is written first, then February,
    then the day 31, each over what the current date `now` holds.  From the
    1st to the 28th of any month, or from the 29th of February, February
    1985 is reached and its 31st carries to the 3rd of March; from the 29th
    to the 31st of another month, February 1985 itself carries into March
    before the 31st is written, so the result is the 31st of March.  The
    time of day is kept from `now`.
  */
  lemma ImpossibleDateExample(now: int, ds: string, seps: string, outs: seq<string>)
    requires ds == "dmY" && seps == "//" && outs == ["31", "02", "1985"]
    ensures var r := CreateFromStringAt(Interleave(outs, seps), Pattern(ds, seps), English, now);
            var n := Decompose(now);
            r.Some? && Decompose(r.value) == n.(year := 1985, month := 3, day := if n.day <= 28 || n.month == 2 then 3 else 31)
  {
    var c := map[Day := 31, Month := 2, Year := 1985];
    ImpossibleReadsBack(now, ds, seps, outs, c);
    ThirtyFirstOf1985(now, c);
  }

  /** The day 31, the month 2 and the year 1985, written over `now`: 1985 is a common year. */
  lemma ThirtyFirstOf1985(now: int, c: map<Field, int>)
    requires c == map[Day := 31, Month := 2, Year := 1985]
    ensures var n := Decompose(now);
            Decompose(ChangeInstant(now, c)) == n.(year := 1985, month := 3, day := if n.day <= 28 || n.month == 2 then 3 else 31)
  {
    assert !Calendar.IsLeapYear(1985);
    ThirtyFirstOfFebruary(now, 1985, c);
  }

  /** "31/02/1985" read with "%d/%m/%Y" writes the day 31, the month 2 and the year 1985 over `now`. */
  lemma ImpossibleReadsBack(now: int, ds: string, seps: string, outs: seq<string>, c: map<Field, int>)
    requires ds == "dmY" && seps == "//" && outs == ["31", "02", "1985"]
    requires c == map[Day := 31, Month := 2, Year := 1985]
    ensures CreateFromStringAt(Interleave(outs, seps), Pattern(ds, seps), English, now) == Some(ChangeInstant(now, c))
  {
    var f := Fields(1985, 2, 31, 0, 0, 0, 0);
    var host := HostText("", "", "");
    var fmt := Pattern(ds, seps);
    ImpossibleFormat(fmt, ds, seps);
    ImpossibleExpansions(f, host, ds, outs);
    FormatPattern(f, 0, ds, seps, outs, English, host);
    PatternRereadable(ds, seps);
    FormatReadsBack(f, 0, fmt, Nothing, English, host);
    ImpossibleCollect(f, fmt);
  }

  /** "%d/%m/%Y" is the pattern of the directives "dmY" between the separators "//". */
  lemma ImpossibleFormat(fmt: string, ds: string, seps: string)
    requires ds == "dmY" && seps == "//" && fmt == Pattern(ds, seps)
    ensures Separators(seps) && fmt == "%d/%m/%Y"
  {
    assert ds[1..] == "mY" && seps[1..] == "/" && ds[1..][1..] == "Y" && seps[1..][1..] == "";
    assert Pattern("Y", "") == "%Y";
    assert Pattern("mY", "/") == "%m/" + "%Y";
  }

  // ---------------------------------------------------------------------
  // The century rule, the meridian and the weekday check.
  // The lemmas below take their format and texts as parameters that a
  // `requires` pins to literals, so that the verifier unfolds the literals
  // only where a proof asks for them.

  /**
    `%y` prints the year modulo 100 and reads it back with the century
    rule: the year read is the printed one exactly for the years 1971 to
    2070.
  */
  lemma ShortYearReadsBack(f: Fields, wd: int, g: Gathered, names: NameTables, host: HostText)
    requires f.year >= 0
    ensures var text := Expand(f, wd, 'y', names, host);
            Step(text, 0, Directive('y'), g, names) == Success((g.(opts := g.opts[Year := Century(f.year % 100)]), |text|))
    ensures Century(f.year % 100) == f.year <==> 1971 <= f.year <= 2070
  {
    var v := f.year % 100;
    assert JsRem(f.year, 100) == v;
    TwoDigitsScan(v);
  }

  /** `pad(v)` read by `scanInt(2)` is `v`. */
  lemma TwoDigitsScan(v: int)
    requires 0 <= v <= 99
    ensures |Pad(v)| == 2 && Sc.ScanIntAt(Pad(v), 0, 2) == Success(v)
  {
    PadReadsBack(v, Year, Nothing);
    var r := Sc.ScanIntAt(Pad(v), 0, 2);
    assert r.Success? && Number(Pad(v), 0, 2, Year, Nothing) == Success((Nothing.(opts := map[Year := r.value]), 2));
    assert map[Year := r.value][Year] == r.value;
  }

  /** "%H%p" is the hours directive followed by the meridian directive. */
  lemma HourMeridianTokens(fmt: string)
    requires fmt == "%H%p"
    ensures Tokenize(fmt) == [Directive('H')] + [Directive('p')]
  {
    assert fmt[2..] == "%p" && fmt[2..][2..] == [];
    assert IsDirective('H') && IsDirective('p');
    assert Tokenize(fmt[2..]) == [Directive('p')] + Tokenize([]);
  }

  /** "AM" and "PM" read by `%p` give the meridian 0 and 1. */
  lemma MeridianStep(m: string, g: Gathered, names: NameTables)
    requires m == "AM" || m == "PM"
    ensures Run(m, 0, [Directive('p')], g, names) == Success((g.(meridian := Some(if m == "PM" then 1 else 0)), 2))
  {
    assert m[0..2] == m && |m| == 2;
    assert Sc.ScanArrayAt(m, 0, Meridians) == Success(if m == "PM" then 1 else 0);
  }

  /**
    "%H%p" reads two digits of hours and a meridian.  PM adds 12 hours
    modulo 24 to whatever hour was read, so an afternoon hour on the
    24-hour clock followed by "PM" comes back 12 hours early.  The date is
    created over `now`, and the cascade clears its minutes, seconds and
    milliseconds.
  */
  lemma {:induction false} HourWithMeridian(h: int, m: string, fmt: string, names: NameTables, now: int)
    requires 0 <= h < 24 && (m == "AM" || m == "PM") && fmt == "%H%p"
    ensures var r := CreateFromStringAt(Pad(h) + m, fmt, names, now);
            r.Some? && Decompose(r.value) == Decompose(now).(hours := if m == "PM" then (h + 12) % 24 else h,
                                                             minutes := 0, seconds := 0, milliseconds := 0)
  {
    var g := Gathered(map[Hours := h], Some(if m == "PM" then 1 else 0), None);
    HourMeridianRun(h, m, fmt, names, g);
    FinishHours(g, if m == "PM" then (h + 12) % 24 else h, now);
  }

  /** Reading "%H%p" gathers the hours and the meridian, and nothing else. */
  lemma HourMeridianRun(h: int, m: string, fmt: string, names: NameTables, g: Gathered)
    requires 0 <= h < 24 && (m == "AM" || m == "PM") && fmt == "%H%p"
    requires g == Gathered(map[Hours := h], Some(if m == "PM" then 1 else 0), None)
    ensures Run(Pad(h) + m, 0, Tokenize(fmt), Nothing, names) == Success((g, |Pad(h) + m|))
    ensures FoldMeridian(g) == map[Hours := if m == "PM" then (h + 12) % 24 else h]
  {
    HourMeridianTokens(fmt);
    var g1 := Nothing.(opts := Nothing.opts[Hours := h]);
    PadReadsBack(h, Hours, Nothing);
    MeridianStep(m, g1, names);
    RunCons(Pad(h), m, Directive('H'), [Directive('p')], Nothing, g1, g, names);
  }

  /** A bag of hours alone, with no weekday read, creates `now` at that hour, the finer fields cleared. */
  lemma {:induction false} FinishHours(g: Gathered, v: int, now: int)
    requires 0 <= v < 24 && FoldMeridian(g) == map[Hours := v] && g.dayOfWeek.None?
    ensures var r := Finish(g, now);
            r.Some? && Decompose(r.value) == Decompose(now).(hours := v, minutes := 0, seconds := 0, milliseconds := 0)
  {
    ComposeDecompose(now);
    HoursFit(Decompose(now), v, map[Hours := v]);
    ChangeReadBack(now, map[Hours := v]);
  }

  /** A format of one directive is read as one step. */
  lemma RunOne(s: string, l: char, g: Gathered, names: NameTables)
    ensures Run(s, 0, [Directive(l)], g, names) == Step(s, 0, Directive(l), g, names)
  {
  }

  /**
    A weekday name read alone with "%A" creates the current date, so it is
    accepted only on that weekday: "Sunday" is accepted exactly when the
    current date is a Sunday.  A name is only reached after every earlier
    name has been tried, and "Tuesday" is longer than the text "Friday":
    the scan runs out of bounds before it reaches "Friday", and that text
    is refused on every date.
  */
  lemma {:induction false} LoneWeekday(fmt: string, sunday: string, friday: string, now: int)
    requires fmt == "%A" && sunday == "Sunday" && friday == "Friday"
    ensures CreateFromStringAt(sunday, fmt, English, now).Some? <==> WeekDay(now) == 0
    ensures CreateFromStringAt(friday, fmt, English, now) == None
  {
    assert fmt[2..] == [];
    assert Tokenize(fmt) == [Directive('A')];
    var days := English.dayNames;
    assert days[0] == sunday && sunday[0..6] == sunday;
    assert Sc.ScanArrayFrom(sunday, 0, days, 0) == Success(0);
    RunOne(sunday, 'A', Nothing, English);
    assert ChangeInstant(now, map[]) == now;
    assert friday[0..6] == friday && friday != days[0] && friday != days[1] && |days[2]| == 7;
    assert Sc.ScanArrayFrom(friday, 0, days, 2) == Failure(Sc.OutOfBounds);
    assert Sc.ScanArrayFrom(friday, 0, days, 0) == Failure(Sc.OutOfBounds);
    RunOne(friday, 'A', Nothing, English);
  }
}
