/** The duration parser `parseTime` of index.js: a digits-only string is a
    number of seconds; otherwise the whole string must match
    `^((\d+)h)?((\d+)m)?((\d+)s)?((\d+)ms)?$`, and anything else is 0. */
module Parser {
  import opened Decimal

  /** The four captured digit groups of the compound pattern (groups 2, 4, 6
      and 8 of the regular expression); `None` is a group that took no part
      in the match. */
  datatype Hms = Hms(hr: Option<string>, min: Option<string>, sec: Option<string>, ms: Option<string>)

  /** A capture of `\d+`: one digit or more. */
  predicate IsNumeral(d: Option<string>) {
    d.Some? ==> |d.value| > 0 && IsDigits(d.value)
  }

  predicate WellFormed(p: Hms) {
    IsNumeral(p.hr) && IsNumeral(p.min) && IsNumeral(p.sec) && IsNumeral(p.ms)
  }

  /** The text one optional group `((\d+)suffix)?` spells. */
  function Part(d: Option<string>, suffix: string): string {
    match d
    case None => ""
    case Some(ds) => ds + suffix
  }

  /** The string that the pattern matches with the given captures: this is
      the declarative meaning of the regular expression. A string matches
      exactly when it is `Text(p)` for some well-formed `p`. */
  function Text(p: Hms): string {
    Part(p.hr, "h") + (Part(p.min, "m") + (Part(p.sec, "s") + Part(p.ms, "ms")))
  }

  ghost predicate Matches(s: string) {
    exists p :: WellFormed(p) && Text(p) == s
  }

  /** Length of the longest prefix of `s` made of digits (greedy `\d+`). */
  function DigitRun(s: string): (k: nat)
    ensures k <= |s| && IsDigits(s[..k])
    ensures k < |s| ==> !IsDigit(s[k])
  {
    if s == [] || !IsDigit(s[0]) then 0
    else
      var k := 1 + DigitRun(s[1..]);
      assert s[..k] == [s[0]] + s[1..][..k - 1];
      k
  }

  /** One optional group `((\d+)suffix)?` tried at the front of `s`: the
      captured digits and what is left, or no capture and `s` untouched.
      Backing off to fewer digits never helps, since the character after a
      shorter run is a digit and no suffix starts with one. */
  function Group(s: string, suffix: string): (g: (Option<string>, string))
    ensures IsNumeral(g.0)
    ensures s == Part(g.0, suffix) + g.1
  {
    var k := DigitRun(s);
    if 0 < k && |suffix| <= |s| - k && s[k..k + |suffix|] == suffix then
      assert s == s[..k] + suffix + s[k + |suffix|..];
      (Some(s[..k]), s[k + |suffix|..])
    else
      assert s == [] + s;
      (None, s)
  }

  /** The minutes group, with the one backtracking step the pattern can need:
      when the `m` it took is followed by `s`, the rest can only match if that
      `m` starts the `ms` suffix, so the regular expression backs out of the
      minutes group and the digits are read again by later groups. */
  function MinutesGroup(s: string): (g: (Option<string>, string))
    ensures IsNumeral(g.0)
    ensures s == Part(g.0, "m") + g.1
    ensures g.0.Some? ==> g.1 == [] || g.1[0] != 's'
  {
    var g := Group(s, "m");
    if g.0.Some? && g.1 != [] && g.1[0] == 's' then
      assert s == [] + s;
      (None, s)
    else g
  }

  /** The anchored match of the compound pattern: the captures, or `None`
      when the string does not match. */
  function MatchHms(s: string): Option<Hms>
  {
    var hr := Group(s, "h");
    var min := MinutesGroup(hr.1);
    var sec := Group(min.1, "s");
    var ms := Group(sec.1, "ms");
    if ms.1 == [] then Some(Hms(hr.0, min.0, sec.0, ms.0)) else None
  }

  /** `parseInt` of a capture, with the destructuring default `= 0` for a
      group that did not take part. */
  function Amount(d: Option<string>): nat
    requires IsNumeral(d)
  {
    match d
    case None => 0
    case Some(ds) => Value(ds)
  }

  function Total(p: Hms): nat
    requires WellFormed(p)
  {
    Amount(p.hr) * 3600000 + Amount(p.min) * 60000 + Amount(p.sec) * 1000 + Amount(p.ms)
  }

  /** `/^\d+$/.test(time)` */
  predicate IsSeconds(time: string) {
    |time| > 0 && IsDigits(time)
  }

  /** `parseTime(time)`, in milliseconds. */
  function ParseTime(time: string): nat
  {
    if IsSeconds(time) then Value(time) * 1000
    else match MatchHms(time)
      case Some(p) => MatchSound(time); Total(p)
      case None => 0
  }

  // ---------------------------------------------------------------------
  // The recogniser against the meaning of the pattern

  /** Every match the recogniser reports is a way of spelling the string. */
  lemma MatchSound(s: string)
    ensures MatchHms(s).Some? ==> WellFormed(MatchHms(s).value) && Text(MatchHms(s).value) == s
  {
    var hr := Group(s, "h");
    var min := MinutesGroup(hr.1);
    var sec := Group(min.1, "s");
    var ms := Group(sec.1, "ms");
    if ms.1 == [] {
      var a, b, c, d := Part(hr.0, "h"), Part(min.0, "m"), Part(sec.0, "s"), Part(ms.0, "ms");
      assert sec.1 == d + [] == d;
      assert min.1 == c + d;
      assert hr.1 == b + (c + d);
      assert s == a + (b + (c + d));
    }
  }

  /** A group whose digits are followed by its own suffix captures exactly
      those digits. */
  lemma GroupTakes(d: string, suffix: string, rest: string)
    requires |d| > 0 && IsDigits(d) && |suffix| > 0 && !IsDigit(suffix[0])
    ensures Group(d + suffix + rest, suffix) == (Some(d), rest)
  {
    var s := d + suffix + rest;
    DigitRunOf(d, suffix + rest);
    assert s == d + (suffix + rest);
    assert s[|d|..|d| + |suffix|] == suffix;
    assert s[..|d|] == d;
    assert s[|d| + |suffix|..] == rest;
  }

  /** A group finds nothing in front of the empty string or of digits followed
      by a different letter. */
  lemma GroupSkips(s: string, suffix: string)
    requires |suffix| > 0
    requires s == [] || exists k :: 0 < k < |s| && IsDigits(s[..k]) && s[k] != suffix[0] && !IsDigit(s[k])
    ensures Group(s, suffix) == (None, s)
  {
    if s != [] {
      var k :| 0 < k < |s| && IsDigits(s[..k]) && s[k] != suffix[0] && !IsDigit(s[k]);
      DigitRunOf(s[..k], s[k..]);
      assert s == s[..k] + s[k..];
    }
  }

  lemma {:induction false} DigitRunOf(d: string, rest: string)
    requires IsDigits(d) && (rest == [] || !IsDigit(rest[0]))
    ensures DigitRun(d + rest) == |d|
  {
    if d != [] {
      assert (d + rest)[1..] == d[1..] + rest;
      DigitRunOf(d[1..], rest);
    } else {
      assert d + rest == rest;
    }
  }

  /** The text of the remaining groups, `tail`, starts (if non-empty) with
      digits followed by the given letter. */
  lemma SkipBefore(ds: string, letter: char, more: string, suffix: string)
    requires |ds| > 0 && IsDigits(ds) && !IsDigit(letter) && |suffix| > 0 && letter != suffix[0]
    ensures Group(ds + [letter] + more, suffix) == (None, ds + [letter] + more)
  {
    var s := ds + [letter] + more;
    assert s[..|ds|] == ds && s[|ds|] == letter;
    GroupSkips(s, suffix);
  }

  /** The recogniser finds every spelling: on `Text(p)` it captures `p`. */
  lemma MatchComplete(p: Hms)
    requires WellFormed(p)
    ensures MatchHms(Text(p)) == Some(p)
  {
    HoursStage(p);
    MinutesStage(p);
    SecondsStage(p);
    MillisStage(p);
  }

  /** What follows the hours group, the minutes group and the seconds group
      in `Text(p)`. */
  function AfterHours(p: Hms): string {
    Part(p.min, "m") + AfterMinutes(p)
  }

  function AfterMinutes(p: Hms): string {
    Part(p.sec, "s") + AfterSeconds(p)
  }

  function AfterSeconds(p: Hms): string {
    Part(p.ms, "ms")
  }

  lemma HoursStage(p: Hms)
    requires WellFormed(p)
    ensures Group(Text(p), "h") == (p.hr, AfterHours(p))
  {
    if p.hr.Some? {
      GroupTakes(p.hr.value, "h", AfterHours(p));
    } else {
      FrontSkips(p.min, p.sec, p.ms, "h");
      assert Text(p) == AfterHours(p);
    }
  }

  lemma MinutesStage(p: Hms)
    requires WellFormed(p)
    ensures MinutesGroup(AfterHours(p)) == (p.min, AfterMinutes(p))
  {
    var tSec, tMs := AfterMinutes(p), AfterSeconds(p);
    if p.min.Some? {
      GroupTakes(p.min.value, "m", tSec);
      if tSec != [] {
        if p.sec.Some? {
          assert tSec == p.sec.value + ("s" + tMs);
        } else {
          assert tSec == p.ms.value + "ms";
        }
        assert IsDigit(tSec[0]);
      }
    } else if p.sec.Some? {
      SkipBefore(p.sec.value, 's', tMs, "m");
      assert AfterHours(p) == p.sec.value + ['s'] + tMs;
    } else if p.ms.Some? {
      GroupTakes(p.ms.value, "m", "s");
      assert AfterHours(p) == p.ms.value + "m" + "s";
      assert Group(AfterHours(p), "m") == (p.ms, "s");
      assert AfterHours(p) == AfterMinutes(p);
    } else {
      assert AfterHours(p) == [];
    }
  }

  lemma SecondsStage(p: Hms)
    requires WellFormed(p)
    ensures Group(AfterMinutes(p), "s") == (p.sec, AfterSeconds(p))
  {
    if p.sec.Some? {
      GroupTakes(p.sec.value, "s", AfterSeconds(p));
    } else if p.ms.Some? {
      SkipBefore(p.ms.value, 'm', "s", "s");
      assert AfterMinutes(p) == AfterSeconds(p) == p.ms.value + "ms";
      assert p.ms.value + "ms" == p.ms.value + ['m'] + "s";
    } else {
      assert AfterMinutes(p) == [];
    }
  }

  lemma MillisStage(p: Hms)
    requires WellFormed(p)
    ensures Group(AfterSeconds(p), "ms") == (p.ms, [])
  {
    if p.ms.Some? {
      GroupTakes(p.ms.value, "ms", []);
      assert AfterSeconds(p) == p.ms.value + "ms" + [];
    }
  }

  /** The hours group finds nothing when the hours part is absent. */
  lemma FrontSkips(min: Option<string>, sec: Option<string>, ms: Option<string>, suffix: string)
    requires IsNumeral(min) && IsNumeral(sec) && IsNumeral(ms)
    requires suffix == "h"
    ensures var t := Part(min, "m") + (Part(sec, "s") + Part(ms, "ms"));
            Group(t, suffix) == (None, t)
  {
    var tSec := Part(sec, "s") + Part(ms, "ms");
    var t := Part(min, "m") + tSec;
    if min.Some? {
      SkipBefore(min.value, 'm', tSec, suffix);
    } else if sec.Some? {
      SkipBefore(sec.value, 's', Part(ms, "ms"), suffix);
      assert t == sec.value + ['s'] + Part(ms, "ms");
    } else if ms.Some? {
      SkipBefore(ms.value, 'm', "s", suffix);
      assert t == ms.value + ['m'] + "s";
    } else {
      assert t == [];
    }
  }

  /** The recogniser accepts exactly the strings the pattern matches, and its
      captures are the only way to spell the string. */
  lemma MatchExact(s: string)
    ensures MatchHms(s).Some? <==> Matches(s)
    ensures forall p :: WellFormed(p) && Text(p) == s ==> MatchHms(s) == Some(p)
  {
    MatchSound(s);
    forall p | WellFormed(p) && Text(p) == s
      ensures MatchHms(s) == Some(p)
    {
      MatchComplete(p);
    }
  }

  // ---------------------------------------------------------------------
  // What parseTime returns

  /** A digits-only string is read as whole seconds. */
  lemma {:induction false} ParseWholeSeconds(n: nat)
    ensures ParseTime(Show(n)) == n * 1000
  {
    ShowValue(n);
  }

  /** A spelling of the compound pattern is never digits only: it is either
      empty or ends in one of the unit letters. */
  lemma TextNotSeconds(p: Hms)
    requires WellFormed(p)
    ensures !IsSeconds(Text(p))
  {
    var t := Text(p);
    if t != [] {
      var last := t[|t| - 1];
      if p.ms.Some? {
        assert last == 's';
      } else if p.sec.Some? {
        assert last == 's';
      } else if p.min.Some? {
        assert last == 'm';
      } else {
        assert last == 'h';
      }
    }
  }

  /** A compound string `[Xh][Ym][Zs][Wms]` is worth X hours, Y minutes,
      Z seconds and W milliseconds, an omitted part counting as 0. */
  lemma ParseCompound(p: Hms)
    requires WellFormed(p)
    ensures ParseTime(Text(p)) == Total(p)
  {
    TextNotSeconds(p);
    MatchComplete(p);
  }

  /** The decimal spelling of an optional amount. */
  function Spelled(n: Option<nat>): (d: Option<string>)
    ensures IsNumeral(d)
  {
    match n
    case None => None
    case Some(v) => ShowValue(v); Some(Show(v))
  }

  function OrZero(n: Option<nat>): nat {
    match n
    case None => 0
    case Some(v) => v
  }

  /** The compound form written with numbers: `Xh`, `Ym`, `Zs` and `Wms`
      in that order, each optional. */
  lemma ParseCompoundAmounts(h: Option<nat>, m: Option<nat>, s: Option<nat>, ms: Option<nat>)
    ensures ParseTime(Text(Hms(Spelled(h), Spelled(m), Spelled(s), Spelled(ms))))
         == OrZero(h) * 3600000 + OrZero(m) * 60000 + OrZero(s) * 1000 + OrZero(ms)
  {
    var p := Hms(Spelled(h), Spelled(m), Spelled(s), Spelled(ms));
    ParseCompound(p);
    forall n: Option<nat> ensures Amount(Spelled(n)) == OrZero(n) {
      if n.Some? {
        ShowValue(n.value);
      }
    }
  }

  /** A string of neither form is silently worth 0. */
  lemma ParseFallback(time: string)
    requires !IsSeconds(time)
    requires forall p :: WellFormed(p) ==> Text(p) != time
    ensures ParseTime(time) == 0
  {
    MatchSound(time);
  }

  /** The three cases together: parseTime is total, and any string that is
      neither digits only nor a spelling of the compound pattern gives 0. */
  lemma ParseCases(time: string)
    ensures IsSeconds(time) ==> ParseTime(time) == Value(time) * 1000
    ensures !IsSeconds(time) && Matches(time) ==>
              exists p :: WellFormed(p) && Text(p) == time && ParseTime(time) == Total(p)
    ensures !IsSeconds(time) && !Matches(time) ==> ParseTime(time) == 0
  {
    MatchExact(time);
    if !IsSeconds(time) && Matches(time) {
      var p :| WellFormed(p) && Text(p) == time;
      ParseCompound(p);
    }
  }

  /** A worked example: the captures of `s` are `p` and they total `ms`. */
  lemma Example(s: string, p: Hms, ms: nat)
    requires WellFormed(p) && Text(p) == s && Total(p) == ms
    ensures ParseTime(s) == ms
  {
    ParseCompound(p);
  }

  // The examples of the usage text, and `ms` read as its own suffix, never
  // as a minute followed by a stray `s`.

  lemma ExampleMinutes()
    ensures ParseTime("5m") == 300000
  {
    var p := Hms(None, Some("5"), None, None);
    assert Text(p) == "5m";
    Example("5m", p, 300000);
  }

  lemma ExampleHoursMinutes()
    ensures ParseTime("7h3m") == 25380000
  {
    var p := Hms(Some("7"), Some("3"), None, None);
    assert Text(p) == "7h3m";
    Example("7h3m", p, 25380000);
  }

  lemma ExampleMinutesMillis()
    ensures ParseTime("1m350ms") == 60350
  {
    var p := Hms(None, Some("1"), None, Some("350"));
    assert Text(p) == "1m350ms";
    assert Value("350") == 350 by {
      assert "350"[..2] == "35" && "35"[..1] == "3" && "3"[..0] == "";
    }
    Example("1m350ms", p, 60350);
  }

  lemma ExampleAllParts()
    ensures ParseTime("98h40m37s973ms") == 355237973
  {
    var p := Hms(Some("98"), Some("40"), Some("37"), Some("973"));
    assert Text(p) == "98h40m37s973ms";
    assert Value("98") == 98 && Value("40") == 40 && Value("37") == 37 by {
      assert "98"[..1] == "9" && "40"[..1] == "4" && "37"[..1] == "3" && "9"[..0] == "";
    }
    assert Value("973") == 973 by {
      assert "973"[..2] == "97" && "97"[..1] == "9" && "9"[..0] == "";
    }
    assert WellFormed(p);
    assert Total(p) == 98 * 3600000 + 40 * 60000 + 37 * 1000 + 973;
    Example("98h40m37s973ms", p, 355237973);
  }

  lemma ExampleDigitsOnly()
    ensures ParseTime("86400") == 86400000
  {
    var s := "86400";
    assert IsSeconds(s);
    assert Value(s) == 86400 by {
      assert s[..4] == "8640" && "8640"[..3] == "864" && "864"[..2] == "86";
      assert "86"[..1] == "8" && "8"[..0] == "";
    }
  }

  lemma ExampleZeroSeconds()
    ensures ParseTime("0s") == 0
  {
    var p := Hms(None, None, Some("0"), None);
    assert Text(p) == "0s";
    Example("0s", p, 0);
  }

  lemma ExampleSecondsSuffix()
    ensures ParseTime("86400s") == 86400000
  {
    var p := Hms(None, None, Some("86400"), None);
    assert Text(p) == "86400s";
    assert Value("86400") == 86400 by {
      assert "86400"[..4] == "8640" && "8640"[..3] == "864" && "864"[..2] == "86";
      assert "86"[..1] == "8" && "8"[..0] == "";
    }
    Example("86400s", p, 86400000);
  }

  lemma ExampleMillis()
    ensures ParseTime("5ms") == 5
  {
    var p := Hms(None, None, None, Some("5"));
    assert Text(p) == "5ms";
    Example("5ms", p, 5);
  }

  lemma ExampleEmpty()
    ensures ParseTime("") == 0
  {
    var p := Hms(None, None, None, None);
    assert Text(p) == "";
    Example("", p, 0);
  }

  // Strings that fit neither form are worth 0: parts out of order, a
  // repeated part, and words.

  /** Seconds before minutes, `As Bm`, is out of order. */
  lemma OutOfOrder(a: string, b: string)
    requires |a| > 0 && IsDigits(a) && |b| > 0 && IsDigits(b)
    ensures ParseTime(a + "s" + b + "m") == 0
  {
    var s := a + "s" + b + "m";
    assert s == a + ['s'] + (b + "m") && s == a + "s" + (b + "m");
    assert s[|a|] == 's';
    SkipBefore(a, 's', b + "m", "h");
    SkipBefore(a, 's', b + "m", "m");
    assert MinutesGroup(s) == (None, s);
    GroupTakes(a, "s", b + "m");
    GroupTooShort(b, 'm', "ms");
  }

  /** A part given twice, `Am Bm`, is refused. */
  lemma RepeatedPart(a: string, b: string)
    requires |a| > 0 && IsDigits(a) && |b| > 0 && IsDigits(b)
    ensures ParseTime(a + "m" + b + "m") == 0
  {
    var s := a + "m" + b + "m";
    assert s == a + ['m'] + (b + "m") && s == a + "m" + (b + "m");
    assert s[|a|] == 'm';
    SkipBefore(a, 'm', b + "m", "h");
    GroupTakes(a, "m", b + "m");
    assert (b + "m")[0] == b[0];
    assert MinutesGroup(s) == (Some(a), b + "m");
    assert b + "m" == b + ['m'] + [];
    SkipBefore(b, 'm', [], "s");
    GroupTooShort(b, 'm', "ms");
  }

  lemma FallbackOutOfOrder(s: string)
    requires s == "5s5m"
    ensures ParseTime(s) == 0
  {
    var a := s[..1];
    assert s == a + "s" + a + "m";
    OutOfOrder(a, a);
  }

  lemma FallbackRepeated(s: string)
    requires s == "1m1m"
    ensures ParseTime(s) == 0
  {
    var a := s[..1];
    assert s == a + "m" + a + "m";
    RepeatedPart(a, a);
  }

  /** A group whose suffix is longer than what follows the digits finds
      nothing. */
  lemma GroupTooShort(d: string, letter: char, suffix: string)
    requires |d| > 0 && IsDigits(d) && !IsDigit(letter) && |suffix| > 1
    ensures Group(d + [letter], suffix) == (None, d + [letter])
  {
    DigitRunOf(d, [letter]);
  }

  lemma FallbackWord()
    ensures ParseTime("garbage") == 0
  {
    var s := "garbage";
    assert !IsDigit(s[0]);
    assert DigitRun(s) == 0;
  }
}
