/**
 * Fixed-point decimal text of an integer number of minor units: what
 * `fmt.Sprintf("%.*f", exp, minor / 10^exp)` prints when the quotient is exact.
 * The formatted string is an optional '-', the integer part without leading
 * zeros, and, when exp > 0, a '.' followed by exactly exp fraction digits.
 * `ParseFixed` reads such a string back; it is the partner every property of
 * `FixedPoint` is stated against.
 */
module Decimal {
  import opened Wrappers

  function Pow10(e: nat): (r: nat)
    ensures r >= 1
  {
    if e == 0 then 1 else 10 * Pow10(e - 1)
  }

  predicate IsDigit(c: char) {
    '0' <= c <= '9'
  }

  predicate AllDigits(s: string) {
    forall i :: 0 <= i < |s| ==> IsDigit(s[i])
  }

  function DigitChar(d: nat): (c: char)
    requires d < 10
    ensures IsDigit(c)
  {
    (('0' as int) + d) as char
  }

  /** The digit a character stands for (0 for a non-digit, which callers rule out). */
  function DigitValue(c: char): (d: nat)
    ensures d < 10
  {
    if IsDigit(c) then (c as int) - ('0' as int) else 0
  }

  /** Decimal digits of n, most significant first, without leading zeros ("0" for zero). */
  function Digits(n: nat): (s: string)
    ensures |s| >= 1 && AllDigits(s)
    ensures |s| > 1 ==> s[0] != '0'
    decreases n
  {
    if n < 10 then [DigitChar(n)] else Digits(n / 10) + [DigitChar(n % 10)]
  }

  /** The number a string of decimal digits denotes (0 for the empty string). */
  function ValueOf(s: string): nat {
    if |s| == 0 then 0 else 10 * ValueOf(s[..|s| - 1]) + DigitValue(s[|s| - 1])
  }

  function Zeros(k: nat): (s: string)
    ensures |s| == k && AllDigits(s)
    ensures forall i :: 0 <= i < k ==> s[i] == '0'
  {
    if k == 0 then [] else Zeros(k - 1) + ['0']
  }

  /** Left-pads s with '0' up to width w; longer strings are left alone. */
  function ZeroPad(s: string, w: nat): (r: string)
    requires AllDigits(s)
    ensures AllDigits(r)
    ensures |r| == if |s| < w then w else |s|
  {
    if |s| < w then Zeros(w - |s|) + s else s
  }

  function Abs(x: int): nat {
    if x < 0 then -x else x
  }

  /** The amount minor / 10^exp, as the number of minor units and the exponent. */
  datatype Fixed = Fixed(minor: int, exp: nat) {
    function Value(): real {
      (minor as real) / (Pow10(exp) as real)
    }
  }

  /**
   * The text of a non-negative amount m / 10^exp: the digits of m, left-padded
   * with zeros to at least exp + 1 digits, with a '.' before the last exp of them.
   */
  function UnsignedText(m: nat, exp: nat): string {
    if exp == 0 then Digits(m)
    else
      var padded := ZeroPad(Digits(m), exp + 1);
      var cut := |padded| - exp;
      padded[..cut] + "." + padded[cut..]
  }

  /** The text of m starts with a digit, has no redundant leading zero, and parses back to m / 10^exp. */
  lemma UnsignedTextParses(m: nat, exp: nat)
    ensures var s := UnsignedText(m, exp);
      && |s| > 0 && IsDigit(s[0])
      && (s[0] == '0' ==> |s| == 1 || s[1] == '.')
      && ParseUnsigned(s) == Some(Fixed(m, exp))
  {
    if exp == 0 {
      DigitsParse(m);
    } else {
      var padded := ZeroPad(Digits(m), exp + 1);
      var cut := |padded| - exp;
      PointTextParses(m, exp, padded, padded[..cut], padded[cut..]);
    }
  }

  lemma DigitsParse(m: nat)
    ensures ParseUnsigned(Digits(m)) == Some(Fixed(m, 0))
  {
    NoPointInDigits(Digits(m));
    ValueOfDigits(m);
    assert IsWhole(Digits(m));
  }

  lemma PointTextParses(m: nat, exp: nat, padded: string, whole: string, frac: string)
    requires exp > 0
    requires padded == ZeroPad(Digits(m), exp + 1)
    requires whole == padded[..|padded| - exp] && frac == padded[|padded| - exp..]
    ensures |whole| > 0 && IsDigit(whole[0]) && (whole[0] == '0' ==> |whole| == 1)
    ensures ParseUnsigned(whole + "." + frac) == Some(Fixed(m, exp))
  {
    PointInserted(m, exp, padded, whole, frac);
    assert IsWhole(whole);
    ParseWholeDotFraction(whole + "." + frac, whole, frac);
  }

  /** Splitting the padded digits of m before the last exp of them loses nothing. */
  lemma PointInserted(m: nat, exp: nat, padded: string, whole: string, frac: string)
    requires exp > 0
    requires padded == ZeroPad(Digits(m), exp + 1)
    requires |padded| > exp
    requires whole == padded[..|padded| - exp] && frac == padded[|padded| - exp..]
    ensures |whole| > 0 && |frac| == exp && AllDigits(whole) && AllDigits(frac)
    ensures whole[0] == '0' ==> |whole| == 1
    ensures ValueOf(whole + frac) == m
  {
    assert whole + frac == padded;
    ZeroPadValue(Digits(m), exp + 1);
    ValueOfDigits(m);
    SliceDigits(padded, |padded| - exp);
    LeadingZeroAlone(m, exp, padded);
  }

  lemma SliceDigits(s: string, k: nat)
    requires AllDigits(s) && k <= |s|
    ensures AllDigits(s[..k]) && AllDigits(s[k..])
  {
    assert forall i :: 0 <= i < k ==> s[..k][i] == s[i];
    assert forall i :: 0 <= i < |s| - k ==> s[k..][i] == s[k + i];
  }

  lemma LeadingZeroAlone(m: nat, exp: nat, padded: string)
    requires padded == ZeroPad(Digits(m), exp + 1)
    ensures padded[0] == '0' ==> |padded| - exp == 1
  {
    var d := Digits(m);
    if |d| < exp + 1 {
      assert |padded| == exp + 1;
    } else {
      assert padded == d;
    }
  }

  /** `%.*f` with precision exp of the exact quotient minor / 10^exp. */
  function FixedPoint(minor: int, exp: nat): (s: string)
    ensures |s| > 0 && ((minor < 0) <==> s[0] == '-')
    ensures ParseFixed(s) == Some(Fixed(minor, exp))
  {
    var body := UnsignedText(Abs(minor), exp);
    UnsignedTextParses(Abs(minor), exp);
    if minor < 0 then
      SignedParse(body, Fixed(Abs(minor), exp));
      assert -(Abs(minor) as int) == minor;
      "-" + body
    else
      UnsignedParse(body);
      body
  }

  /** The text has a decimal point exactly when exp > 0, and then exactly exp digits follow it. */
  predicate PointAt(s: string, exp: nat) {
    && ('.' in s <==> exp > 0)
    && (exp > 0 ==> |s| > exp && s[|s| - exp - 1] == '.' && AllDigits(s[|s| - exp..]))
  }

  /** The formatted amount has its point before exactly the last exp digits, and none when exp is 0. */
  lemma FixedPointShape(minor: int, exp: nat)
    ensures PointAt(FixedPoint(minor, exp), exp)
  {
    ParsedShape(FixedPoint(minor, exp), Fixed(minor, exp));
  }

  /** What a successful parse says about the text: a point exactly when the exponent is positive, exp digits after it. */
  lemma ParsedShape(s: string, f: Fixed)
    requires ParseFixed(s) == Some(f)
    ensures PointAt(s, f.exp)
  {
    if |s| > 0 && s[0] == '-' {
      var t := s[1..];
      var g := ParseUnsigned(t).value;
      UnsignedShape(t, g);
      assert s == "-" + t;
      assert '.' in s <==> '.' in t;
      if f.exp > 0 {
        assert s[|s| - f.exp..] == t[|t| - f.exp..];
      }
    } else {
      UnsignedShape(s, f);
    }
  }

  lemma UnsignedShape(s: string, f: Fixed)
    requires ParseUnsigned(s) == Some(f)
    ensures PointAt(s, f.exp)
  {
    match IndexOf(s, '.')
    case None =>
    case Some(k) =>
      assert s[|s| - f.exp..] == s[k + 1..];
  }

  /** First index of c in s. */
  function IndexOf(s: string, c: char): (r: Option<nat>)
    ensures r.Some? ==> r.value < |s| && s[r.value] == c
    ensures r.None? ==> c !in s
  {
    if |s| == 0 then None
    else if s[0] == c then Some(0)
    else match IndexOf(s[1..], c)
      case None => None
      case Some(k) => Some(k + 1)
  }

  /** A non-empty run of digits with no redundant leading zero: "0", "7", "105", but not "05". */
  predicate IsWhole(s: string) {
    |s| > 0 && AllDigits(s) && (s[0] == '0' ==> |s| == 1)
  }

  /**
   * Reads `whole` or `whole.digits`, where the whole part has no redundant
   * leading zero and the fraction is non-empty. The exponent is the length of
   * the fraction; the minor units are the digits with the point removed.
   */
  function ParseUnsigned(s: string): Option<Fixed> {
    match IndexOf(s, '.')
    case None => if IsWhole(s) then Some(Fixed(ValueOf(s), 0)) else None
    case Some(k) => ParseParts(s[..k], s[k + 1..])
  }

  /** The two sides of the point: a whole part and a non-empty string of digits. */
  function ParseParts(whole: string, frac: string): (r: Option<Fixed>)
    ensures r.Some? <==> IsWhole(whole) && |frac| > 0 && AllDigits(frac)
  {
    if IsWhole(whole) && |frac| > 0 && AllDigits(frac)
    then Some(Fixed(ValueOf(whole + frac), |frac|))
    else None
  }

  /** Reads an optional '-' followed by an unsigned fixed-point number; "-" before zero is refused. */
  function ParseFixed(s: string): Option<Fixed> {
    if |s| > 0 && s[0] == '-' then
      match ParseUnsigned(s[1..])
      case None => None
      case Some(f) => if f.minor == 0 then None else Some(Fixed(-f.minor, f.exp))
    else ParseUnsigned(s)
  }

  lemma {:induction false} ValueOfAppend(a: string, b: string)
    ensures ValueOf(a + b) == ValueOf(a) * Pow10(|b|) + ValueOf(b)
    decreases |b|
  {
    if |b| > 0 {
      var b' := b[..|b| - 1];
      ValueOfAppend(a, b');
      LastDigit(a + b, a + b');
      LastDigit(b, b');
      assert (a + b)[|a + b| - 1] == b[|b| - 1];
      ShiftDigit(ValueOf(a + b), ValueOf(a + b'), ValueOf(b), ValueOf(b'),
                 ValueOf(a), Pow10(|b'|), DigitValue(b[|b| - 1]));
    } else {
      assert a + b == a;
    }
  }

  lemma LastDigit(s: string, init: string)
    requires |s| > 0 && init == s[..|s| - 1]
    ensures ValueOf(s) == 10 * ValueOf(init) + DigitValue(s[|s| - 1])
  {
  }

  /** The arithmetic step of `ValueOfAppend`, kept apart from the string facts. */
  lemma ShiftDigit(ab: int, ab': int, vb: int, vb': int, va: int, p': int, d: int)
    requires ab' == va * p' + vb'
    requires ab == 10 * ab' + d
    requires vb == 10 * vb' + d
    ensures ab == va * (10 * p') + vb
  {
  }

  lemma {:induction false} ValueOfZeros(k: nat)
    ensures ValueOf(Zeros(k)) == 0
  {
    if k > 0 {
      assert Zeros(k)[..k - 1] == Zeros(k - 1);
      ValueOfZeros(k - 1);
    }
  }

  lemma {:induction false} ValueOfDigits(n: nat)
    ensures ValueOf(Digits(n)) == n
    decreases n
  {
    if n >= 10 {
      var s := Digits(n);
      assert s[..|s| - 1] == Digits(n / 10);
      ValueOfDigits(n / 10);
    }
  }

  lemma NoPointInDigits(s: string)
    requires AllDigits(s)
    ensures '.' !in s
  {
    forall i | 0 <= i < |s| ensures s[i] != '.' {
      assert IsDigit(s[i]);
    }
  }

  lemma {:induction false} DigitsFit(n: nat, e: nat)
    requires e > 0 && n < Pow10(e)
    ensures |Digits(n)| <= e
    decreases n
  {
    if n >= 10 {
      DigitsFit(n / 10, e - 1);
    }
  }

  lemma ZeroPadValue(s: string, w: nat)
    requires AllDigits(s)
    ensures ValueOf(ZeroPad(s, w)) == ValueOf(s)
  {
    if |s| < w {
      var z := Zeros(w - |s|);
      assert ZeroPad(s, w) == z + s;
      ValueOfAppend(z, s);
      ValueOfZeros(w - |s|);
      assert 0 * Pow10(|s|) + ValueOf(s) == ValueOf(s);
    }
  }

  lemma {:induction false} IndexOfAfter(a: string, b: string, c: char)
    requires c !in a && |b| > 0 && b[0] == c
    ensures IndexOf(a + b, c) == Some(|a|)
    decreases |a|
  {
    if |a| > 0 {
      assert (a + b)[1..] == a[1..] + b;
      IndexOfAfter(a[1..], b, c);
    }
  }

  lemma PointAfterWhole(s: string, whole: string, frac: string)
    requires AllDigits(whole)
    requires s == whole + "." + frac
    ensures IndexOf(s, '.') == Some(|whole|)
  {
    NoPointInDigits(whole);
    assert s == whole + ("." + frac);
    IndexOfAfter(whole, "." + frac, '.');
  }

  lemma ParseWholeDotFraction(s: string, whole: string, frac: string)
    requires IsWhole(whole) && |frac| > 0 && AllDigits(frac)
    requires s == whole + "." + frac
    ensures |s| > |frac| && s[|s| - |frac| - 1] == '.' && s[|s| - |frac|..] == frac
    ensures ParseUnsigned(s) == Some(Fixed(ValueOf(whole + frac), |frac|))
  {
    PointAfterWhole(s, whole, frac);
    var k := |whole|;
    assert s[..k] == whole;
    assert s[k + 1..] == frac;
  }

  lemma SignedParse(body: string, f: Fixed)
    requires ParseUnsigned(body) == Some(f) && f.minor != 0
    ensures ParseFixed("-" + body) == Some(Fixed(-f.minor, f.exp))
  {
    assert ("-" + body)[1..] == body;
  }

  lemma UnsignedParse(body: string)
    requires |body| > 0 && IsDigit(body[0])
    ensures ParseFixed(body) == ParseUnsigned(body)
  {
  }

  /** Any run of digits is the digits of its value, left-padded with zeros to its own width. */
  lemma {:induction false} PadOwnWidth(w: string)
    requires |w| > 0 && AllDigits(w)
    ensures |Digits(ValueOf(w))| <= |w|
    ensures w == ZeroPad(Digits(ValueOf(w)), |w|)
    decreases |w|
  {
    var t, c := w[..|w| - 1], w[|w| - 1];
    assert w == t + [c];
    LastDigit(w, t);
    if |t| == 0 {
      OneDigit(c);
    } else {
      PadOwnWidth(t);
      if ValueOf(t) == 0 {
        PadAfterZeros(t, c);
      } else {
        DivTen(ValueOf(w), ValueOf(t), DigitValue(c));
        PadAfterDigits(t, c, Digits(ValueOf(t)));
      }
    }
  }

  lemma OneDigit(c: char)
    requires IsDigit(c)
    ensures Digits(DigitValue(c)) == [c]
  {
  }

  lemma DivTen(v: int, vt: int, d: int)
    requires 0 <= d < 10 && vt >= 1 && v == 10 * vt + d
    ensures v >= 10 && v / 10 == vt && v % 10 == d
  {
  }

  /** Zeros then one digit: the digit alone, padded. */
  lemma PadAfterZeros(t: string, c: char)
    requires |t| > 0 && IsDigit(c) && ValueOf(t) == 0
    requires t == ZeroPad(Digits(0), |t|)
    ensures ValueOf(t + [c]) == DigitValue(c)
    ensures t + [c] == ZeroPad(Digits(ValueOf(t + [c])), |t| + 1)
  {
    LastDigit(t + [c], t);
    OneDigit(c);
    assert t == Zeros(|t|) by {
      forall i | 0 <= i < |t| ensures t[i] == Zeros(|t|)[i] {
        assert ZeroPad("0", |t|)[i] == '0';
      }
    }
  }

  /** Appending a digit to a padded run with a non-zero value appends it to the digits. */
  lemma PadAfterDigits(t: string, c: char, dt: string)
    requires |t| > 0 && IsDigit(c) && ValueOf(t) >= 1
    requires dt == Digits(ValueOf(t)) && |dt| <= |t| && t == ZeroPad(dt, |t|)
    requires Digits(ValueOf(t + [c])) == dt + [DigitChar(DigitValue(c))]
    ensures |Digits(ValueOf(t + [c]))| <= |t| + 1
    ensures t + [c] == ZeroPad(Digits(ValueOf(t + [c])), |t| + 1)
  {
    assert DigitChar(DigitValue(c)) == c;
    if |dt| < |t| {
      assert ZeroPad(dt + [c], |t| + 1) == Zeros(|t| - |dt|) + dt + [c];
    }
  }

  /** Left-padding puts a '0' in front exactly when it adds characters. */
  lemma ZeroPadHead(d: string, w: nat)
    requires AllDigits(d) && |d| > 0
    ensures |d| < w ==> ZeroPad(d, w)[0] == '0'
    ensures |d| >= w ==> ZeroPad(d, w) == d
  {
  }

  /** A whole part (no redundant leading zero) is exactly the digits of its value. */
  lemma WholeIsDigits(w: string)
    requires IsWhole(w)
    ensures w == Digits(ValueOf(w))
  {
    PadOwnWidth(w);
    ZeroPadHead(Digits(ValueOf(w)), |w|);
  }

  /** A whole part followed by a fraction is the padded digits `UnsignedText` cuts at the point. */
  lemma PaddedWholeFraction(whole: string, frac: string)
    requires IsWhole(whole) && |frac| > 0 && AllDigits(frac)
    ensures whole + frac == ZeroPad(Digits(ValueOf(whole + frac)), |frac| + 1)
  {
    var w := whole + frac;
    assert AllDigits(w) by {
      forall i | 0 <= i < |w| ensures IsDigit(w[i]) {
        if i < |whole| { assert w[i] == whole[i]; } else { assert w[i] == frac[i - |whole|]; }
      }
    }
    if |whole| == 1 {
      PadOwnWidth(w);
    } else {
      assert w[0] == whole[0];
      WholeIsDigits(w);
    }
  }

  /** The unsigned parser accepts exactly the text `UnsignedText` prints for what it reads. */
  lemma UnsignedExact(t: string, g: Fixed)
    requires ParseUnsigned(t) == Some(g)
    ensures g.minor >= 0 && t == UnsignedText(g.minor, g.exp)
  {
    match IndexOf(t, '.')
    case None =>
      WholeIsDigits(t);
    case Some(k) =>
      var whole, frac := t[..k], t[k + 1..];
      assert t == whole + "." + frac;
      PaddedWholeFraction(whole, frac);
      var padded := whole + frac;
      assert padded[..|whole|] == whole && padded[|whole|..] == frac;
  }

  /**
   * The parser accepts exactly one text per amount and exponent, the one
   * `FixedPoint` prints: any contract "parses back to (minor, exp)" fixes the
   * text completely.
   */
  lemma ParseFixedExact(s: string, f: Fixed)
    requires ParseFixed(s) == Some(f)
    ensures s == FixedPoint(f.minor, f.exp)
  {
    if |s| > 0 && s[0] == '-' {
      var g := ParseUnsigned(s[1..]).value;
      UnsignedExact(s[1..], g);
      assert s == "-" + s[1..];
      assert Abs(f.minor) == g.minor;
    } else {
      UnsignedExact(s, f);
    }
  }

  /** Every formatted amount denotes exactly minor / 10^exp. */
  lemma FixedPointValue(minor: int, exp: nat)
    ensures ParseFixed(FixedPoint(minor, exp)).Some?
    ensures ParseFixed(FixedPoint(minor, exp)).value.Value() == (minor as real) / (Pow10(exp) as real)
  {
  }

  /** Two amounts with the same exponent print the same only when they are equal. */
  lemma FixedPointInjective(a: int, b: int, exp: nat)
    requires FixedPoint(a, exp) == FixedPoint(b, exp)
    ensures a == b
  {
    assert ParseFixed(FixedPoint(a, exp)) == Some(Fixed(a, exp));
  }
}
