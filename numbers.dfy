/**
 * The two number conversions GoogleSheetsDB relies on for the break-time
 * column: `parseInt(cell) || 0` when reading and `breakTime.toString()`
 * when writing, over integers and ASCII decimal text.
 */
module Numbers {

  predicate IsDigit(c: char) {
    '0' <= c <= '9'
  }

  predicate AllDigits(s: string) {
    forall i :: 0 <= i < |s| ==> IsDigit(s[i])
  }

  function DigitValue(c: char): nat
    requires IsDigit(c)
  {
    c as int - '0' as int
  }

  function DigitChar(d: nat): (c: char)
    requires d < 10
    ensures IsDigit(c) && DigitValue(c) == d
  {
    ('0' as int + d) as char
  }

  /** The longest prefix of `s` made of decimal digits. */
  function DigitPrefix(s: string): (ds: string)
    ensures |ds| <= |s| && ds == s[..|ds|]
    ensures AllDigits(ds)
    ensures |ds| < |s| ==> !IsDigit(s[|ds|])
  {
    if s == [] || !IsDigit(s[0]) then [] else [s[0]] + DigitPrefix(s[1..])
  }

  /** The value of a string of decimal digits, most significant first. */
  function DigitsValue(ds: string): nat
    requires AllDigits(ds)
  {
    if ds == [] then 0 else DigitsValue(ds[..|ds| - 1]) * 10 + DigitValue(ds[|ds| - 1])
  }

  /**
   * `parseInt(s) || 0`: an optional `+` or `-` followed by the leading
   * decimal digits; when there are no digits `parseInt` gives NaN, which
   * `|| 0` turns into 0 (and so is `-0`).
   */
  function ParseInt(s: string): (n: int)
    ensures n < 0 ==> |s| > 1 && s[0] == '-' && IsDigit(s[1])
    ensures n > 0 ==> |s| > 0 && (IsDigit(s[0]) || (s[0] == '+' && |s| > 1 && IsDigit(s[1])))
    ensures |s| == 0 || !(IsDigit(s[0]) || s[0] == '-' || s[0] == '+') ==> n == 0
  {
    var negative := |s| > 0 && s[0] == '-';
    var unsigned := if |s| > 0 && (s[0] == '-' || s[0] == '+') then s[1..] else s;
    var ds := DigitPrefix(unsigned);
    if ds == [] then 0
    else if negative then -(DigitsValue(ds) as int)
    else DigitsValue(ds)
  }

  function NatToString(n: nat): (r: string)
    ensures r != [] && AllDigits(r)
    ensures n > 0 ==> r[0] != '0'
    ensures n == 0 ==> r == "0"
  {
    if n < 10 then [DigitChar(n)] else NatToString(n / 10) + [DigitChar(n % 10)]
  }

  /** `Number.prototype.toString()` of an integer: decimal, `-` for negatives. */
  function IntToString(n: int): (r: string)
    ensures r != []
    ensures r[0] == '-' <==> n < 0
    ensures n >= 0 ==> AllDigits(r)
    ensures n >= 0 && |r| > 1 ==> r[0] != '0'
    ensures n < 0 ==> |r| > 1 && r[1] != '0'
  {
    if n < 0 then "-" + NatToString(-n) else NatToString(n)
  }

  lemma {:induction false} NatToStringValue(n: nat)
    ensures DigitsValue(NatToString(n)) == n
  {
    if n >= 10 {
      NatToStringValue(n / 10);
      var r := NatToString(n);
      assert r[..|r| - 1] == NatToString(n / 10);
    }
  }

  /** The digit prefix stops exactly where the digits stop. */
  lemma {:induction false} DigitPrefixOfDigits(ds: string, rest: string)
    requires AllDigits(ds)
    requires rest == [] || !IsDigit(rest[0])
    ensures DigitPrefix(ds + rest) == ds
  {
    if ds == [] {
      assert ds + rest == rest;
    } else {
      assert (ds + rest)[1..] == ds[1..] + rest;
      DigitPrefixOfDigits(ds[1..], rest);
      assert ds == [ds[0]] + ds[1..];
    }
  }

  /** A sign `parseInt` accepts: none, `-` or `+`. */
  predicate IsSign(sign: string) {
    sign == "" || sign == "-" || sign == "+"
  }

  /** An optional sign, then digits, then text that is not a digit: `parseInt` reads the signed digits. */
  lemma {:induction false} ParseSigned(s: string, sign: string, ds: string, rest: string)
    requires IsSign(sign)
    requires AllDigits(ds) && ds != []
    requires rest == [] || !IsDigit(rest[0])
    requires s == sign + ds + rest
    ensures ParseInt(s) == if sign == "-" then -(DigitsValue(ds) as int) else DigitsValue(ds)
  {
    DigitPrefixOfDigits(ds, rest);
    if sign == "" {
      assert s == ds + rest && IsDigit(s[0]);
    } else {
      assert s[0] == sign[0] && s[1..] == ds + rest;
    }
  }

  /**
   * Reading back what `toString` wrote gives the same integer, also when
   * non-digit text follows it: `parseInt` takes the leading integer.
   */
  lemma {:induction false} ParseIntRoundTrip(n: int, rest: string)
    requires rest == [] || !IsDigit(rest[0])
    ensures ParseInt(IntToString(n) + rest) == n
  {
    var m: nat := if n < 0 then -n else n;
    var sign := if n < 0 then "-" else "";
    NatToStringValue(m);
    SignedText(n, rest);
    ParseSigned(IntToString(n) + rest, sign, NatToString(m), rest);
  }

  /** The text `toString` writes, followed by `rest`: a sign, the digits, then `rest`. */
  lemma {:induction false} SignedText(n: int, rest: string)
    ensures IntToString(n) + rest
      == (if n < 0 then "-" else "") + NatToString(if n < 0 then -n else n) + rest
  {
    if n >= 0 {
      assert "" + NatToString(n) == NatToString(n);
    }
  }

  /** The `'0'` a new row gets in its break-time column reads back as 0. */
  lemma ParseZero()
    ensures ParseInt("0") == 0
  {
    assert DigitChar(0) == '0';
    assert IntToString(0) == "0";
    ParseIntRoundTrip(0, []);
    assert "0" + [] == "0";
  }
}
