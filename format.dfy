/** The countdown formatter `format` of index.js: it renders a millisecond
    count as `H:MM:SS.mmm` by slicing its decimal text, the last three
    characters being the milliseconds and the rest the whole seconds. */
module Formatter {
  import opened Decimal

  /** `s.slice(-k)`: the last `k` characters, or all of `s` if shorter. */
  function TakeLast(s: string, k: nat): string {
    if |s| <= k then s else s[|s| - k..]
  }

  /** `s.slice(0, -k)`: all but the last `k` characters, or "" if shorter. */
  function DropLast(s: string, k: nat): string {
    if |s| <= k then [] else s[..|s| - k]
  }

  /** `format(timeInMs)` as index.js computes it. `Number` of the seconds
      prefix is its `Value`, which reads "" as 0; `Math.floor` of a
      non-negative quotient is integer division. */
  function Format(timeInMs: nat): string {
    ShowValue(timeInMs);
    var str := Show(timeInMs);
    var ms := PadStart(TakeLast(str, 3), 3, '0');
    var totalSecs := Value(DropLast(str, 3));
    var totalMins := totalSecs / 60;
    var totalHrs := totalMins / 60;
    var secs := PadStart(Show(totalSecs - totalMins * 60), 2, '0');
    var mins := PadStart(Show(totalMins - totalHrs * 60), 2, '0');
    Show(totalHrs) + ":" + mins + ":" + secs + "." + ms
  }

  // ---------------------------------------------------------------------
  // The reference: the fields of a countdown by division and remainder

  /** The four displayed fields. */
  datatype Clock = Clock(hours: nat, minutes: nat, seconds: nat, millis: nat)

  predicate InRange(c: Clock) {
    c.minutes < 60 && c.seconds < 60 && c.millis < 1000
  }

  /** The number of milliseconds the fields stand for. */
  function Millis(c: Clock): nat {
    c.hours * 3600000 + c.minutes * 60000 + c.seconds * 1000 + c.millis
  }

  /** Hours unbounded, then minutes, seconds and milliseconds of the rest. */
  function Fields(n: nat): (c: Clock)
    ensures InRange(c) && Millis(c) == n
  {
    ChainedDivision(n);
    Clock(n / 3600000, n / 60000 % 60, n / 1000 % 60, n % 1000)
  }

  /** Dividing by 1000 and then twice by 60 is dividing by 60000 and by
      3600000, and the remainders recompose the count. */
  lemma ChainedDivision(n: nat)
    ensures n / 1000 / 60 == n / 60000 && n / 1000 / 60 / 60 == n / 3600000
    ensures n == n / 3600000 * 3600000 + n / 60000 % 60 * 60000 + n / 1000 % 60 * 1000 + n % 1000
  {
    var secs, ms := n / 1000, n % 1000;
    var mins, ss := secs / 60, secs % 60;
    var hrs, mm := mins / 60, mins % 60;
    assert n == secs * 1000 + ms;
    assert secs == mins * 60 + ss;
    assert mins == hrs * 60 + mm;
    assert n == mins * 60000 + (ss * 1000 + ms);
    DivModUnique(n, 60000, mins, ss * 1000 + ms);
    assert n == hrs * 3600000 + (mm * 60000 + ss * 1000 + ms);
    DivModUnique(n, 3600000, hrs, mm * 60000 + ss * 1000 + ms);
  }

  /** Fields in range are the fields of the count they stand for, so
      `Fields` and `Millis` are inverse to each other. */
  lemma FieldsOfMillis(c: Clock)
    requires InRange(c)
    ensures Fields(Millis(c)) == c
  {
    var n := Millis(c);
    var t := c.minutes * 60000 + c.seconds * 1000 + c.millis;
    assert t < 3600000;
    DivModUnique(n, 3600000, c.hours, t);
    var u := c.seconds * 1000 + c.millis;
    DivModUnique(n, 60000, c.hours * 60 + c.minutes, u);
    DivModUnique(c.hours * 60 + c.minutes, 60, c.hours, c.minutes);
    DivModUnique(n, 1000, c.hours * 3600 + c.minutes * 60 + c.seconds, c.millis);
    DivModUnique(c.hours * 3600 + c.minutes * 60 + c.seconds, 60, c.hours * 60 + c.minutes, c.seconds);
  }

  /** The reference rendering `H:MM:SS.mmm`: hours without padding, the
      other fields zero-padded to two, two and three digits. */
  function Display(c: Clock): string {
    Show(c.hours) + ":" + Pad(c.minutes, 2) + ":" + Pad(c.seconds, 2) + "." + Pad(c.millis, 3)
  }

  /** Reads the fields back from a rendering. */
  function ReadClock(t: string): Option<Clock> {
    var k := |t|;
    if k >= 11 && t[k - 10] == ':' && t[k - 7] == ':' && t[k - 4] == '.'
       && IsDigits(t[..k - 10]) && IsDigits(t[k - 9..k - 7])
       && IsDigits(t[k - 6..k - 4]) && IsDigits(t[k - 3..])
    then Some(Clock(Value(t[..k - 10]), Value(t[k - 9..k - 7]), Value(t[k - 6..k - 4]), Value(t[k - 3..])))
    else None
  }

  lemma ReadDisplay(c: Clock)
    requires InRange(c)
    ensures ReadClock(Display(c)) == Some(c)
  {
    var h, mm, ss, ms := Show(c.hours), Pad(c.minutes, 2), Pad(c.seconds, 2), Pad(c.millis, 3);
    ShowValue(c.hours);
    assert Pow10(2) == 100 && Pow10(3) == 1000;
    PadFits(c.minutes, 2);
    PadFits(c.seconds, 2);
    PadFits(c.millis, 3);
    DisplaySlices(h, mm, ss, ms);
  }

  /** Where the fields sit in a rendering: counted from the end, since only
      the hours have no fixed width. */
  lemma DisplaySlices(h: string, mm: string, ss: string, ms: string)
    requires |mm| == 2 && |ss| == 2 && |ms| == 3
    ensures var t := h + ":" + mm + ":" + ss + "." + ms;
      var k := |t|;
      k == |h| + 10 && t[k - 10] == ':' && t[k - 7] == ':' && t[k - 4] == '.' &&
      t[..k - 10] == h && t[k - 9..k - 7] == mm && t[k - 6..k - 4] == ss && t[k - 3..] == ms
  {
  }

  // ---------------------------------------------------------------------
  // The slicing agrees with the arithmetic

  /** `String(v)` of a value below 100 has at most two characters. */
  lemma ShowShort(v: nat)
    requires v < 100
    ensures |Show(v)| <= 2
  {
  }

  /** `String(v).padStart(2, '0')` for `v < 60` is `v` in exactly two digits. */
  lemma TwoDigits(v: nat)
    requires v < 60
    ensures PadStart(Show(v), 2, '0') == Pad(v, 2)
  {
    ShowValue(v);
    ShowShort(v);
    PadStartZeros(Show(v), 2);
  }

  /** The two slices of the decimal text are the whole seconds and the
      milliseconds in three digits. */
  lemma SplitDecimal(n: nat)
    ensures IsDigits(DropLast(Show(n), 3))
    ensures Value(DropLast(Show(n), 3)) == n / 1000
    ensures PadStart(TakeLast(Show(n), 3), 3, '0') == Pad(n % 1000, 3)
  {
    ShowValue(n);
    if |Show(n)| <= 3 {
      SplitShort(Show(n));
    } else {
      SplitLong(Show(n));
    }
  }

  /** A decimal text of up to three digits is all milliseconds. */
  lemma SplitShort(str: string)
    requires IsDigits(str) && |str| <= 3
    ensures DropLast(str, 3) == [] && Value(str) / 1000 == 0
    ensures PadStart(TakeLast(str, 3), 3, '0') == Pad(Value(str) % 1000, 3)
  {
    ValueBound(str);
    assert Pow10(|str|) <= 1000 by {
      assert Pow10(0) == 1 && Pow10(1) == 10 && Pow10(2) == 100 && Pow10(3) == 1000;
    }
    DivModUnique(Value(str), 1000, 0, Value(str));
    PadStartZeros(str, 3);
  }

  /** A longer one splits into whole seconds and three digits of milliseconds. */
  lemma SplitLong(str: string)
    requires IsDigits(str) && |str| > 3
    ensures IsDigits(DropLast(str, 3)) && Value(DropLast(str, 3)) == Value(str) / 1000
    ensures PadStart(TakeLast(str, 3), 3, '0') == Pad(Value(str) % 1000, 3)
  {
    var a, b := str[..|str| - 3], str[|str| - 3..];
    assert str == a + b;
    ValueConcat(a, b);
    ValueBound(b);
    assert Pow10(3) == 1000;
    DivModUnique(Value(str), 1000, Value(a), Value(b));
    PadOfValue(b);
  }

  /** `format(n)` is the reference rendering of the fields of `n`: the
      milliseconds are `n mod 1000` in three digits, the seconds and minutes
      `(n div 1000) mod 60` and `(n div 60000) mod 60` in two, and the
      hours `n div 3600000` unpadded. */
  lemma FormatIsDisplay(n: nat)
    ensures Format(n) == Display(Fields(n))
  {
    SplitDecimal(n);
    ChainedDivision(n);
    var secs := n / 1000;
    Remainder60(secs);
    Remainder60(secs / 60);
    TwoDigits(secs % 60);
    TwoDigits(secs / 60 % 60);
    FormatFromParts(n, secs);
  }

  /** Taking away the whole minutes leaves the remainder. */
  lemma Remainder60(x: nat)
    ensures x - x / 60 * 60 == x % 60
  {
  }

  /** `format` assembled from its parts once the slices are known. */
  lemma FormatFromParts(n: nat, secs: nat)
    requires IsDigits(DropLast(Show(n), 3)) && Value(DropLast(Show(n), 3)) == secs
    requires secs - secs / 60 * 60 == secs % 60 && secs / 60 - secs / 60 / 60 * 60 == secs / 60 % 60
    ensures Format(n) == Show(secs / 60 / 60) + ":" + PadStart(Show(secs / 60 % 60), 2, '0') + ":"
                         + PadStart(Show(secs % 60), 2, '0') + "." + PadStart(TakeLast(Show(n), 3), 3, '0')
  {
  }

  /** Different counts never share a rendering: the fields read back from
      `format(n)` recompose to `n`. */
  lemma FormatReadsBack(n: nat)
    ensures ReadClock(Format(n)) == Some(Fields(n))
    ensures Millis(ReadClock(Format(n)).value) == n
  {
    FormatIsDisplay(n);
    ReadDisplay(Fields(n));
  }

  lemma FormatInjective(a: nat, b: nat)
    requires Format(a) == Format(b)
    ensures a == b
  {
    FormatReadsBack(a);
    FormatReadsBack(b);
  }

  /** A worked example: fields in range that render as `text` are what
      `format` writes for the count they stand for. */
  lemma FormatExample(n: nat, c: Clock, text: string)
    requires InRange(c) && Millis(c) == n && Display(c) == text
    ensures Format(n) == text
  {
    FormatIsDisplay(n);
    FieldsOfMillis(c);
  }

  lemma FormatFiveMinutes(n: nat)
    requires n == 300000
    ensures Format(n) == "0:05:00.000"
  {
    DisplayFiveMinutes();
    FormatExample(n, Clock(0, 5, 0, 0), "0:05:00.000");
  }

  lemma DisplayFiveMinutes()
    ensures Display(Clock(0, 5, 0, 0)) == "0:05:00.000"
  {
  }

  lemma FormatAllParts(n: nat)
    requires n == 355237973
    ensures Format(n) == "98:40:37.973"
  {
    DisplayAllParts();
    FormatExample(n, Clock(98, 40, 37, 973), "98:40:37.973");
  }

  lemma DisplayAllParts()
    ensures Display(Clock(98, 40, 37, 973)) == "98:40:37.973"
  {
  }

  lemma FormatJustUnderAMinute(n: nat)
    requires n == 59999
    ensures Format(n) == "0:00:59.999"
  {
    DisplayJustUnderAMinute();
    FormatExample(n, Clock(0, 0, 59, 999), "0:00:59.999");
  }

  lemma DisplayJustUnderAMinute()
    ensures Display(Clock(0, 0, 59, 999)) == "0:00:59.999"
  {
  }

  /** Nothing left. */
  lemma FormatZero(n: nat)
    requires n == 0
    ensures Format(n) == "0:00:00.000"
  {
    DisplayZero();
    FormatExample(n, Clock(0, 0, 0, 0), "0:00:00.000");
  }

  lemma DisplayZero()
    ensures Display(Clock(0, 0, 0, 0)) == "0:00:00.000"
  {
  }
}
