/**
  `SC.Scanner`: a cursor over an immutable string that reads fixed-width
  substrings, fixed-width decimal integers, literal strings and the first
  matching entry of an ordered candidate list.  Each operation either
  returns a value or throws one of four errors; here it returns a `Result`.

  The bounds test of `scan` is modelled as its documentation states it:
  reading past the end fails with `OutOfBounds` and leaves the cursor where
  it was.  `ScanAsWritten` below models the test as the code states it.
*/
module Scanner {
  import opened Wrappers
  import opened Digits

  /** The four errors a scanner throws. */
  datatype ScanError = OutOfBounds | NotAnInt | SkipMismatch | NoArrayMatch

  // ---------------------------------------------------------------------
  // Specification on (string, cursor) pairs.

  /** `w` fits in `s` at `pos`. */
  predicate Fits(s: string, pos: nat, w: string) {
    pos + |w| <= |s|
  }

  /** `w` occurs in `s` at `pos`. */
  predicate MatchesAt(s: string, pos: nat, w: string) {
    Fits(s, pos, w) && s[pos..pos + |w|] == w
  }

  /** `scan(len)`: the next `len` characters, if there are that many. */
  function ScanAt(s: string, pos: nat, len: nat): (r: Result<string, ScanError>)
    ensures r.Success? <==> pos + len <= |s|
    ensures r.Success? ==> |r.value| == len
    ensures r.Failure? ==> r.error == OutOfBounds
  {
    if pos + len > |s| then Failure(OutOfBounds) else Success(s[pos..pos + len])
  }

  /** What `scan(len)` returns, followed by the rest of the string, is the text from the cursor on. */
  lemma ScanAtSplit(s: string, pos: nat, len: nat)
    requires pos + len <= |s|
    ensures ScanAt(s, pos, len).value + s[pos + len..] == s[pos..]
  {
  }

  /** `scanInt(len)`: the next `len` characters, all decimal digits, read in base 10. */
  function ScanIntAt(s: string, pos: nat, len: nat): (r: Result<int, ScanError>)
    requires len > 0
    ensures r.Success? <==> pos + len <= |s| && AllDigits(s[pos..pos + len])
    ensures r.Success? ==> 0 <= r.value < Pow10(len)
  {
    match ScanAt(s, pos, len)
    case Failure(e) => Failure(e)
    case Success(str) => if AllDigits(str) then Success(DigitsValue(str)) else Failure(NotAnInt)
  }

  /** `skipString(lit)`: the next `|lit|` characters must be `lit`. */
  function SkipAt(s: string, pos: nat, lit: string): (r: Result<bool, ScanError>)
    ensures r.Success? <==> MatchesAt(s, pos, lit)
  {
    match ScanAt(s, pos, |lit|)
    case Failure(e) => Failure(e)
    case Success(str) => if str == lit then Success(true) else Failure(SkipMismatch)
  }

  /** `scanArray(cands)` from candidate `i` on. */
  function ScanArrayFrom(s: string, pos: nat, cands: seq<string>, i: nat): (r: Result<nat, ScanError>)
    requires i <= |cands|
    ensures r.Success? ==> i <= r.value < |cands| && pos + |cands[r.value]| <= |s|
    decreases |cands| - i
  {
    if i == |cands| then Failure(NoArrayMatch)
    else match ScanAt(s, pos, |cands[i]|)
      case Failure(e) => Failure(e)
      case Success(str) =>
        if str == cands[i] then Success(i) else ScanArrayFrom(s, pos, cands, i + 1)
  }

  function ScanArrayAt(s: string, pos: nat, cands: seq<string>): Result<nat, ScanError> {
    ScanArrayFrom(s, pos, cands, 0)
  }

  /** Candidate `w` was tried and did not match: it fitted, and differed. */
  predicate Misses(s: string, pos: nat, w: string) {
    Fits(s, pos, w) && !MatchesAt(s, pos, w)
  }

  /** Every candidate with index in [i, j) was tried and missed. */
  predicate AllMiss(s: string, pos: nat, cands: seq<string>, i: nat, j: nat)
    requires i <= j <= |cands|
  {
    forall k :: i <= k < j ==> Misses(s, pos, cands[k])
  }

  /**
    `scanArray` from candidate `i` returns the first index whose candidate
    occurs at the cursor; it fails with `OutOfBounds` as soon as a candidate
    longer than the rest of the input comes up (later, shorter candidates are
    not tried), and with `NoArrayMatch` when every candidate fitted and missed.
  */
  lemma {:induction false} ScanArrayFromSpec(s: string, pos: nat, cands: seq<string>, i: nat)
    requires i <= |cands|
    ensures var r := ScanArrayFrom(s, pos, cands, i);
      && (r.Success? ==> i <= r.value < |cands| && MatchesAt(s, pos, cands[r.value])
                         && AllMiss(s, pos, cands, i, r.value))
      && (forall k :: i <= k < |cands| && MatchesAt(s, pos, cands[k]) && AllMiss(s, pos, cands, i, k)
                      ==> r == Success(k))
      && (r == Failure(NoArrayMatch) <==> AllMiss(s, pos, cands, i, |cands|))
      && (r == Failure(OutOfBounds) <==>
            exists k :: i <= k < |cands| && !Fits(s, pos, cands[k]) && AllMiss(s, pos, cands, i, k))
      && (r.Failure? ==> r.error == NoArrayMatch || r.error == OutOfBounds)
    decreases |cands| - i
  {
    var r := ScanArrayFrom(s, pos, cands, i);
    if i < |cands| {
      ScanArrayFromSpec(s, pos, cands, i + 1);
      var r' := ScanArrayFrom(s, pos, cands, i + 1);
      if !Fits(s, pos, cands[i]) {
        assert r == Failure(OutOfBounds);
        assert forall k :: i < k <= |cands| && AllMiss(s, pos, cands, i, k) ==> Misses(s, pos, cands[i]);
      } else if MatchesAt(s, pos, cands[i]) {
        assert r == Success(i);
        assert !AllMiss(s, pos, cands, i, |cands|) by { assert !Misses(s, pos, cands[i]); }
        assert forall k :: i < k <= |cands| && AllMiss(s, pos, cands, i, k) ==> Misses(s, pos, cands[i]);
      } else {
        assert Misses(s, pos, cands[i]);
        assert r == r';
        assert AllMiss(s, pos, cands, i, |cands|) <==> AllMiss(s, pos, cands, i + 1, |cands|);
        forall k | i <= k <= |cands|
          ensures AllMiss(s, pos, cands, i, k) <==> (k == i || AllMiss(s, pos, cands, i + 1, k))
        {
        }
        if r'.Success? {
          assert AllMiss(s, pos, cands, i, r'.value);
        }
      }
    }
  }

  // ---------------------------------------------------------------------
  // Reading depends only on the text at and after the cursor.

  /** Text in front of the input moves every read by its length and changes nothing else. */
  lemma ScanAtShift(p: string, s: string, pos: nat, len: nat)
    ensures ScanAt(p + s, |p| + pos, len) == ScanAt(s, pos, len)
  {
    if pos + len <= |s| {
      assert (p + s)[|p| + pos..|p| + pos + len] == s[pos..pos + len];
    }
  }

  /** Text after a read that fits does not change it. */
  lemma ScanAtExtend(s: string, e: string, pos: nat, len: nat)
    requires pos + len <= |s|
    ensures ScanAt(s + e, pos, len) == ScanAt(s, pos, len)
  {
    assert (s + e)[pos..pos + len] == s[pos..pos + len];
  }

  lemma {:induction false} ScanArrayFromShift(p: string, s: string, pos: nat, cands: seq<string>, i: nat)
    requires i <= |cands|
    ensures ScanArrayFrom(p + s, |p| + pos, cands, i) == ScanArrayFrom(s, pos, cands, i)
    decreases |cands| - i
  {
    if i < |cands| {
      ScanAtShift(p, s, pos, |cands[i]|);
      ScanArrayFromShift(p, s, pos, cands, i + 1);
    }
  }

  lemma {:induction false} ScanArrayFromExtend(s: string, e: string, pos: nat, cands: seq<string>, i: nat)
    requires i <= |cands| && ScanArrayFrom(s, pos, cands, i).Success?
    ensures ScanArrayFrom(s + e, pos, cands, i) == ScanArrayFrom(s, pos, cands, i)
    decreases |cands| - i
  {
    assert i < |cands| && ScanAt(s, pos, |cands[i]|).Success?;
    ScanAtExtend(s, e, pos, |cands[i]|);
    if ScanAt(s, pos, |cands[i]|).value != cands[i] {
      ScanArrayFromExtend(s, e, pos, cands, i + 1);
    }
  }

  // ---------------------------------------------------------------------
  // The scanner object.

  class Scanner {
    /** The string to scan. */
    const source: string
    /** The current scan location. */
    var scanLocation: nat

    ghost predicate Valid()
      reads this
    {
      scanLocation <= |source|
    }

    constructor (s: string)
      ensures source == s && scanLocation == 0 && Valid()
    {
      source := s;
      scanLocation := 0;
    }

    /**
      Reads `len` characters: fails without moving when fewer remain,
      otherwise returns exactly the next `len` characters and advances by `len`.
    */
    method Scan(len: nat) returns (r: Result<string, ScanError>)
      requires Valid()
      modifies this
      ensures Valid()
      ensures r == ScanAt(source, old(scanLocation), len)
      ensures scanLocation == if r.Success? then old(scanLocation) + len else old(scanLocation)
    {
      if scanLocation + len > |source| {
        return Failure(OutOfBounds);
      }
      r := Success(source[scanLocation..scanLocation + len]);
      scanLocation := scanLocation + len;
    }

    /**
      Reads `len` decimal digits as a base-10 integer.  The characters are
      consumed before they are checked, so a `NotAnInt` failure leaves the
      cursor moved by `len`.
    */
    method ScanInt(len: nat) returns (r: Result<int, ScanError>)
      requires Valid() && len > 0
      modifies this
      ensures Valid()
      ensures r == ScanIntAt(source, old(scanLocation), len)
      ensures scanLocation == if r == Failure(OutOfBounds) then old(scanLocation) else old(scanLocation) + len
    {
      var str := Scan(len);
      if str.Failure? {
        return Failure(str.error);
      }
      if !AllDigits(str.value) {
        return Failure(NotAnInt);
      }
      r := Success(DigitsValue(str.value));
    }

    /**
      Consumes `lit`.  As with `ScanInt`, a `SkipMismatch` failure leaves the
      cursor moved by `|lit|`.
    */
    method SkipString(lit: string) returns (r: Result<bool, ScanError>)
      requires Valid()
      modifies this
      ensures Valid()
      ensures r == SkipAt(source, old(scanLocation), lit)
      ensures scanLocation == if r == Failure(OutOfBounds) then old(scanLocation) else old(scanLocation) + |lit|
    {
      var str := Scan(|lit|);
      if str.Failure? {
        return Failure(str.error);
      }
      if str.value != lit {
        return Failure(SkipMismatch);
      }
      r := Success(true);
    }

    /**
      Tries the candidates in order, rewinding the cursor after each miss:
      returns the first index whose candidate is at the cursor and advances
      past it; on failure the cursor is back where it started.
    */
    method ScanArray(cands: seq<string>) returns (r: Result<nat, ScanError>)
      requires Valid()
      modifies this
      ensures Valid()
      ensures r == ScanArrayAt(source, old(scanLocation), cands)
      ensures r.Success? ==> r.value < |cands| && scanLocation == old(scanLocation) + |cands[r.value]|
      ensures r.Failure? ==> scanLocation == old(scanLocation)
    {
      var i := 0;
      while i < |cands|
        invariant 0 <= i <= |cands|
        invariant scanLocation == old(scanLocation)
        invariant ScanArrayFrom(source, scanLocation, cands, i) == ScanArrayAt(source, scanLocation, cands)
      {
        var str := Scan(|cands[i]|);
        if str.Failure? {
          return Failure(str.error);
        }
        if str.value == cands[i] {
          return Success(i);
        }
        scanLocation := scanLocation - |cands[i]|;
        i := i + 1;
      }
      r := Failure(NoArrayMatch);
    }
  }

  // ---------------------------------------------------------------------
  // The bounds test as written: it compares against `this.length`, which a
  // scanner never defines, so it never fires.  `substr` then returns what is
  // left of the string and the cursor still moves by `len`.

  /** `scan(len)` as written: the substring `substr` yields, and the new cursor. */
  function ScanAsWritten(s: string, pos: nat, len: nat): (string, nat) {
    var from := if pos < |s| then pos else |s|;
    var to := if pos + len < |s| then pos + len else |s|;
    (s[from..to], pos + len)
  }

  /**
    On "ab", reading 3 characters from the start neither fails nor returns 3
    characters, and the cursor ends past the end of the string.
  */
  lemma ScanAsWrittenOverruns()
    ensures ScanAsWritten("ab", 0, 3) == ("ab", 3)
    ensures ScanAsWritten("ab", 0, 3).1 > |"ab"|
    ensures ScanAt("ab", 0, 3) == Failure(OutOfBounds)
  {
    assert "ab"[0..2] == "ab";
  }
}
