/**
 * Decimal text of 32-bit integers: what `Int32.ToString()` produces when an
 * `int` is concatenated to a string, and what `int.Parse` accepts under the
 * default integer number style (leading and trailing white space, an
 * optional sign, decimal digits, overflow rejected).
 */
module Decimal {
  import opened Wrappers

  const Int32Min: int := -0x8000_0000
  const Int32Max: int := 0x7FFF_FFFF

  predicate IsDigit(c: char) {
    '0' <= c <= '9'
  }

  predicate AllDigits(s: string) {
    forall i :: 0 <= i < |s| ==> IsDigit(s[i])
  }

  function DigitChar(d: nat): (c: char)
    requires d < 10
    ensures IsDigit(c)
  {
    (d + '0' as int) as char
  }

  /** The digits of `n`, most significant first, without leading zeros. */
  function NatDigits(n: nat): (s: string)
    ensures |s| > 0 && AllDigits(s)
    ensures n > 0 ==> s[0] != '0'
  {
    if n < 10 then [DigitChar(n)] else NatDigits(n / 10) + [DigitChar(n % 10)]
  }

  /** `n.ToString()`, with `-` as the minus sign; for a non-negative value every culture writes these digits. */
  function FormatInt(n: int): (s: string)
    ensures |s| > 0 && (s[0] == '-' || IsDigit(s[0])) && IsDigit(s[|s| - 1])
    ensures s[0] == '-' <==> n < 0
    ensures '/' !in s
  {
    var s := if n < 0 then "-" + NatDigits(-n) else NatDigits(n);
    assert forall i :: 0 <= i < |s| ==> s[i] == '-' || IsDigit(s[i]);
    s
  }

  /** The number a string of decimal digits denotes. */
  function DigitsValue(s: string): nat
    requires AllDigits(s)
  {
    if s == [] then 0 else DigitsValue(s[..|s| - 1]) * 10 + (s[|s| - 1] as int - '0' as int)
  }

  /** The white space `int.Parse` skips around a number. */
  predicate IsParseWhite(c: char) {
    c == ' ' || '\t' <= c <= '\r'
  }

  function TrimStart(s: string): string {
    if s != [] && IsParseWhite(s[0]) then TrimStart(s[1..]) else s
  }

  function TrimEnd(s: string): string {
    if s != [] && IsParseWhite(s[|s| - 1]) then TrimEnd(s[..|s| - 1]) else s
  }

  /** `int.Parse(s)`: `None` where the source throws a format or overflow exception. */
  function ParseInt(s: string): (r: Option<int>)
    ensures r.Some? ==> Int32Min <= r.value <= Int32Max
  {
    var t := TrimEnd(TrimStart(s));
    var negative := |t| > 0 && t[0] == '-';
    var body := if |t| > 0 && (t[0] == '-' || t[0] == '+') then t[1..] else t;
    if body == [] || !AllDigits(body) then None
    else
      var v: int := if negative then 0 - DigitsValue(body) as int else DigitsValue(body);
      if Int32Min <= v <= Int32Max then Some(v) else None
  }

  lemma {:induction false} DigitsValueOfNatDigits(n: nat)
    ensures DigitsValue(NatDigits(n)) == n
  {
    var s := NatDigits(n);
    if n >= 10 {
      DigitsValueOfNatDigits(n / 10);
      assert s[..|s| - 1] == NatDigits(n / 10);
    }
  }

  /** Parsing the text of a 32-bit integer gives the integer back. */
  lemma ParseFormatRoundTrip(n: int)
    requires Int32Min <= n <= Int32Max
    ensures ParseInt(FormatInt(n)) == Some(n)
  {
    var s := FormatInt(n);
    assert TrimStart(s) == s;
    assert TrimEnd(s) == s;
    if n < 0 {
      assert s[1..] == NatDigits(-n);
      DigitsValueOfNatDigits(-n);
    } else {
      DigitsValueOfNatDigits(n);
    }
  }
}
