/** Decimal digit strings: the conversions between strings and non-negative
    integers that the timer relies on (JavaScript's `String(n)`, `parseInt`
    and `Number` on digit strings, and `padStart` with '0'). */
module Decimal {

  datatype Option<T> = None | Some(value: T)

  /** The class `\d` of a JavaScript regular expression: ASCII digits only. */
  predicate IsDigit(c: char) {
    '0' <= c <= '9'
  }

  predicate IsDigits(s: string) {
    forall i :: 0 <= i < |s| ==> IsDigit(s[i])
  }

  function DigitValue(c: char): (d: nat)
    requires IsDigit(c)
    ensures d < 10
  {
    c as int - '0' as int
  }

  function DigitChar(d: nat): (c: char)
    requires d < 10
    ensures IsDigit(c) && DigitValue(c) == d
  {
    ('0' as int + d) as char
  }

  function Pow10(k: nat): (p: nat)
    ensures p >= 1
  {
    if k == 0 then 1 else 10 * Pow10(k - 1)
  }

  /** The value of a digit string read in base ten, most significant digit
      first; leading zeros are allowed and the empty string reads as 0
      (which is what `Number("")` gives). */
  function Value(s: string): nat
    requires IsDigits(s)
  {
    if s == [] then 0 else Value(s[..|s| - 1]) * 10 + DigitValue(s[|s| - 1])
  }

  /** `String(n)` for a non-negative integer: shortest decimal form. */
  function Show(n: nat): string
  {
    if n < 10 then [DigitChar(n)] else Show(n / 10) + [DigitChar(n % 10)]
  }

  /** The lowest `w` decimal digits of `v`, with leading zeros: the reference
      meaning of "zero-padded to exactly w digits". */
  function Pad(v: nat, w: nat): string
  {
    if w == 0 then [] else Pad(v / 10, w - 1) + [DigitChar(v % 10)]
  }

  /** `s.padStart(w, c)`: prefix copies of `c` until the length is `w`;
      a string already that long is returned unchanged. */
  function PadStart(s: string, w: nat, c: char): (r: string)
    ensures |r| == if |s| >= w then |s| else w
    ensures r[|r| - |s|..] == s
    ensures forall i :: 0 <= i < |r| - |s| ==> r[i] == c
  {
    if |s| >= w then s else seq(w - |s|, _ => c) + s
  }

  lemma {:induction false} ValueConcat(a: string, b: string)
    requires IsDigits(a) && IsDigits(b)
    ensures IsDigits(a + b)
    ensures Value(a + b) == Value(a) * Pow10(|b|) + Value(b)
  {
    if b == [] {
      assert a + b == a;
    } else {
      var b' := b[..|b| - 1];
      var d := DigitValue(b[|b| - 1]);
      assert IsDigits(b');
      assert (a + b)[..|a + b| - 1] == a + b';
      ValueConcat(a, b');
      var va, vb, p := Value(a), Value(b'), Pow10(|b'|);
      assert Value(a + b) == Value(a + b') * 10 + d;
      assert Value(a + b') == va * p + vb;
      assert Value(b) == vb * 10 + d;
      assert Pow10(|b|) == 10 * p;
      ShiftDigit(va, vb, p, d);
    }
  }

  lemma ShiftDigit(va: int, vb: int, p: int, d: int)
    ensures (va * p + vb) * 10 + d == va * (10 * p) + (vb * 10 + d)
  {
  }

  lemma {:induction false} ValueBound(s: string)
    requires IsDigits(s)
    ensures Value(s) < Pow10(|s|)
  {
    if s != [] {
      ValueBound(s[..|s| - 1]);
    }
  }

  lemma {:induction false} ValueZeros(k: nat)
    ensures IsDigits(seq(k, _ => '0'))
    ensures Value(seq(k, _ => '0')) == 0
  {
    if k > 0 {
      assert seq(k, _ => '0')[..k - 1] == seq(k - 1, _ => '0');
      ValueZeros(k - 1);
    }
  }

  /** `String(n)` is a digit string of length at least one, without a
      leading zero unless it is "0", and it reads back as `n`. */
  lemma {:induction false} ShowValue(n: nat)
    ensures IsDigits(Show(n)) && |Show(n)| >= 1
    ensures Value(Show(n)) == n
    ensures |Show(n)| > 1 ==> Show(n)[0] != '0'
  {
    if n >= 10 {
      ShowValue(n / 10);
      var s := Show(n / 10) + [DigitChar(n % 10)];
      assert s[..|s| - 1] == Show(n / 10);
    }
  }

  lemma ShowInjective(a: nat, b: nat)
    requires Show(a) == Show(b)
    ensures a == b
  {
    ShowValue(a);
    ShowValue(b);
  }

  /** `Pad(v, w)` is exactly `w` digits, and it reads back as `v` when `v`
      fits in `w` digits. */
  lemma {:induction false} PadValue(v: nat, w: nat)
    ensures IsDigits(Pad(v, w)) && |Pad(v, w)| == w
    ensures Value(Pad(v, w)) == v % Pow10(w)
  {
    if w > 0 {
      PadValue(v / 10, w - 1);
      var s := Pad(v / 10, w - 1) + [DigitChar(v % 10)];
      assert s[..|s| - 1] == Pad(v / 10, w - 1);
      ModPow10Step(v, w);
    }
  }

  /** A value that fits in `w` digits reads back from its padded form. */
  lemma PadFits(v: nat, w: nat)
    requires v < Pow10(w)
    ensures IsDigits(Pad(v, w)) && |Pad(v, w)| == w
    ensures Value(Pad(v, w)) == v
  {
    PadValue(v, w);
    DivModUnique(v, Pow10(w), 0, v);
  }

  lemma ModPow10Step(v: nat, w: nat)
    requires w > 0
    ensures (v / 10) % Pow10(w - 1) * 10 + v % 10 == v % Pow10(w)
  {
    assert Pow10(w) == 10 * Pow10(w - 1);
    ModTenStep(v, Pow10(w - 1));
  }

  /** Dropping the last digit, reducing modulo `p` and putting the digit back
      is reducing modulo `10 p`. */
  lemma ModTenStep(v: nat, p: nat)
    requires p > 0
    ensures (v / 10) % p * 10 + v % 10 == v % (10 * p)
  {
    var q, r, d := (v / 10) / p, (v / 10) % p, v % 10;
    assert v / 10 == q * p + r;
    assert v == (v / 10) * 10 + d;
    ShiftDigit(q, r, p, d);
    DivModUnique(v, 10 * p, q, r * 10 + d);
  }

  lemma DivModUnique(v: nat, d: nat, q: nat, r: nat)
    requires d > 0 && r < d && v == q * d + r
    ensures v / d == q && v % d == r
  {
    var q', r' := v / d, v % d;
    assert (q' - q) * d == r - r';
    ProductSmall(q' - q, d);
  }

  lemma ProductSmall(k: int, d: int)
    requires d > 0 && -d < k * d < d
    ensures k == 0
  {
    if k >= 1 {
      MulAtLeast(k, d);
      assert false;
    } else if k <= -1 {
      MulAtLeast(-k, d);
      assert false;
    }
  }

  lemma MulAtLeast(k: int, d: int)
    requires k >= 1 && d >= 0
    ensures k * d >= d
  {
    assert k * d == (k - 1) * d + d;
  }

  /** A digit string is determined by its length and its value: it is the
      zero-padded rendering of its own value. */
  lemma {:induction false} PadOfValue(t: string)
    requires IsDigits(t)
    ensures Pad(Value(t), |t|) == t
  {
    if t != [] {
      var t' := t[..|t| - 1];
      var v := Value(t);
      PadOfValue(t');
      assert v / 10 == Value(t') && v % 10 == DigitValue(t[|t| - 1]);
      assert DigitChar(DigitValue(t[|t| - 1])) == t[|t| - 1];
      assert Pad(v, |t|) == Pad(Value(t'), |t'|) + [t[|t| - 1]];
    }
  }

  /** Padding a digit string with '0' on the left keeps its value, so the
      result is the reference rendering `Pad` of that value. */
  lemma PadStartZeros(t: string, w: nat)
    requires IsDigits(t) && |t| <= w
    ensures PadStart(t, w, '0') == Pad(Value(t), w)
  {
    var z := seq(w - |t|, _ => '0');
    ValueZeros(w - |t|);
    ValueConcat(z, t);
    assert PadStart(t, w, '0') == z + t;
    assert Value(z + t) == Value(t);
    PadOfValue(z + t);
  }
}
