/**
 * The ISO 4217 exponent table and the balance conversion built on it
 * (`currencyExponents` and `convertBalance` in main.go).
 */
module Currency {
  import opened Wrappers
  import opened Decimal

  /**
   * strings.ToUpper on one character, for the characters whose upper case is
   * ASCII: 'a'..'z', U+0131 (dotless i, upper case 'I') and U+017F (long s,
   * upper case 'S'). Every other character is returned as it is; Go maps some of
   * them to other non-ASCII characters, which can never match a table key.
   */
  function UpperChar(c: char): (u: char)
    ensures 'a' <= c <= 'z' ==> u as int == c as int - 32
    ensures c == 'ı' ==> u == 'I'
    ensures c == 'ſ' ==> u == 'S'
    ensures !('a' <= c <= 'z' || c == 'ı' || c == 'ſ') ==> u == c
    ensures 'A' <= u <= 'Z' <==> ('A' <= c <= 'Z' || 'a' <= c <= 'z' || c == 'ı' || c == 'ſ')
  {
    if 'a' <= c <= 'z' then (c as int - 32) as char
    else if c == 'ı' then 'I'
    else if c == 'ſ' then 'S'
    else c
  }

  function Upper(s: string): (u: string)
    ensures |u| == |s|
    ensures forall i :: 0 <= i < |s| ==> u[i] == UpperChar(s[i])
  {
    if |s| == 0 then [] else [UpperChar(s[0])] + Upper(s[1..])
  }

  /** Decimal digits per currency, as the minor-unit column of ISO 4217 lists them. */
  const Exponents: map<string, nat> := map[
    "USD" := 2, "EUR" := 2, "GBP" := 2, "JPY" := 0, "CNY" := 2, "INR" := 2, "CAD" := 2, "AUD" := 2,
    "HUF" := 2, "JOD" := 3, "KWD" := 3, "OMR" := 3
  ]

  const DefaultExponent: nat := 2

  /** The exponent of a currency code: looked up upper-cased, 2 when the table has no entry. */
  function ExponentOf(currency: string): (e: nat)
    ensures e == 0 || e == 2 || e == 3
    ensures Upper(currency) in Exponents ==> e == Exponents[Upper(currency)]
    ensures Upper(currency) !in Exponents ==> e == DefaultExponent
  {
    var code := Upper(currency);
    if code in Exponents then Exponents[code] else DefaultExponent
  }

  /**
   * `convertBalance`: the balance in minor units as a decimal string in major
   * units, with a point exactly when the currency has minor units and then
   * exactly as many fraction digits as its exponent.
   */
  function ConvertBalance(balance: int, currency: string): (s: string)
    ensures ParseFixed(s) == Some(Fixed(balance, ExponentOf(currency)))
    ensures PointAt(s, ExponentOf(currency))
  {
    var e := ExponentOf(currency);
    var s := FixedPoint(balance, e);
    ParsedShape(s, Fixed(balance, e));
    s
  }

  /** No other text meets `ConvertBalance`'s contract: the printed balance is unique. */
  lemma ConvertBalanceUnique(balance: int, currency: string, s: string)
    requires ParseFixed(s) == Some(Fixed(balance, ExponentOf(currency)))
    ensures s == ConvertBalance(balance, currency)
  {
    ParseFixedExact(s, Fixed(balance, ExponentOf(currency)));
  }

  lemma UpperCharIdempotent(c: char)
    ensures UpperChar(UpperChar(c)) == UpperChar(c)
  {
  }

  lemma {:induction false} UpperIdempotent(s: string)
    ensures Upper(Upper(s)) == Upper(s)
  {
    var u := Upper(s);
    forall i | 0 <= i < |s| ensures Upper(u)[i] == u[i] {
      UpperCharIdempotent(s[i]);
    }
  }

  /** The lookup ignores case: a code and its upper-cased form have the same exponent. */
  lemma ExponentCaseInsensitive(currency: string)
    ensures ExponentOf(Upper(currency)) == ExponentOf(currency)
  {
    UpperIdempotent(currency);
  }

  /** Codes that differ only in letter case share an exponent. */
  lemma SameCodeSameExponent(a: string, b: string)
    requires Upper(a) == Upper(b)
    ensures ExponentOf(a) == ExponentOf(b)
  {
  }

  /** Exponent 0 belongs to JPY alone and exponent 3 to JOD, KWD and OMR; everything else gets 2. */
  lemma ExponentClasses(currency: string)
    ensures ExponentOf(currency) == 0 <==> Upper(currency) == "JPY"
    ensures ExponentOf(currency) == 3 <==> Upper(currency) in {"JOD", "KWD", "OMR"}
    ensures ExponentOf(currency) == 2 <==> Upper(currency) !in {"JPY", "JOD", "KWD", "OMR"}
  {
  }

  /** Concrete conversions: JPY has no fraction, KWD three digits, USD two, an unknown code two. */
  lemma ConvertJpy()
    ensures ConvertBalance(500, "JPY") == "500"
  {
    assert ExponentOf("JPY") == 0 by { assert Upper("JPY") == "JPY"; }
    assert FixedPoint(500, 0) == "500" by {
      assert Digits(500) == "500" by {
        assert Digits(5) == "5";
        assert Digits(50) == "50";
      }
      assert UnsignedText(500, 0) == "500";
    }
  }

  lemma ConvertKwd()
    ensures ConvertBalance(12345, "KWD") == "12.345"
  {
    assert ExponentOf("KWD") == 3 by { assert Upper("KWD") == "KWD"; }
    Text12345();
  }

  lemma Text12345()
    ensures FixedPoint(12345, 3) == "12.345"
  {
    Digits12345();
    assert ZeroPad("12345", 4) == "12345";
    assert "12345"[..2] == "12" && "12345"[2..] == "345";
    assert UnsignedText(12345, 3) == "12.345";
  }

  lemma Digits12345()
    ensures Digits(12345) == "12345"
  {
    assert Digits(1) == "1";
    assert Digits(12) == "12";
    assert Digits(123) == "123";
    assert Digits(1234) == "1234";
  }

  lemma ConvertUsd()
    ensures ConvertBalance(999, "USD") == "9.99"
  {
    assert ExponentOf("USD") == 2 by { assert Upper("USD") == "USD"; }
    Text999();
  }

  lemma Text999()
    ensures FixedPoint(999, 2) == "9.99"
  {
    assert Digits(999) == "999" by {
      assert Digits(9) == "9";
      assert Digits(99) == "99";
    }
    assert ZeroPad("999", 3) == "999";
    assert "999"[..1] == "9" && "999"[1..] == "99";
    assert UnsignedText(999, 2) == "9.99";
  }

  lemma ConvertUsdCents()
    ensures ConvertBalance(1050, "USD") == "10.50"
  {
    assert ExponentOf("USD") == 2 by { assert Upper("USD") == "USD"; }
    Text1050();
  }

  lemma ConvertUnknown()
    ensures ConvertBalance(1050, "XYZ") == "10.50"
  {
    assert ExponentOf("XYZ") == 2 by { assert Upper("XYZ") == "XYZ"; }
    Text1050();
  }

  lemma Text1050()
    ensures FixedPoint(1050, 2) == "10.50"
  {
    assert Digits(1050) == "1050" by {
      assert Digits(1) == "1";
      assert Digits(10) == "10";
      assert Digits(105) == "105";
    }
    assert ZeroPad("1050", 3) == "1050";
    assert "1050"[..2] == "10" && "1050"[2..] == "50";
    assert UnsignedText(1050, 2) == "10.50";
  }

  lemma ConvertNegativeLowerCase()
    ensures ConvertBalance(-5, "usd") == "-0.05"
  {
    assert ExponentOf("usd") == 2 by { assert Upper("usd") == "USD"; }
    TextMinus5();
  }

  lemma TextMinus5()
    ensures FixedPoint(-5, 2) == "-0.05"
  {
    assert UnsignedText(5, 2) == "0.05" by {
      assert Digits(5) == "5";
      assert Zeros(2) == "00" by { assert Zeros(1) == "0"; }
      assert ZeroPad("5", 3) == "005";
      assert "005"[..1] == "0" && "005"[1..] == "05";
    }
  }
}
