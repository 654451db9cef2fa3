/** The text keys of the colour map: a date written as "Y-MM-DD", with the
    year in plain decimal (a leading '-' when negative) and the month and day
    zero-filled to two digits. A parser is given as the inverse of the
    formatter, and injectivity of the keys follows from the round trip. */
module DateKeys {
  import opened Gregorian

  datatype Option<T> = None | Some(value: T)

  predicate IsDigit(c: char) {
    '0' <= c <= '9'
  }

  predicate AllDigits(s: string) {
    forall i :: 0 <= i < |s| ==> IsDigit(s[i])
  }

  function DigitChar(n: nat): (c: char)
    requires n < 10
    ensures IsDigit(c)
  {
    ('0' as int + n) as char
  }

  function DigitValue(c: char): (n: nat)
    requires IsDigit(c)
    ensures n < 10 && DigitChar(n) == c
  {
    c as int - '0' as int
  }

  /** `str(n)`: decimal digits of `n`, most significant first, without leading zeros. */
  function NatToString(n: nat): (s: string)
    ensures 1 <= |s| && AllDigits(s)
    ensures n < 10 <==> |s| == 1
    ensures s[0] == '0' ==> n == 0
  {
    if n < 10 then [DigitChar(n)] else NatToString(n / 10) + [DigitChar(n % 10)]
  }

  /** The number a string of decimal digits denotes. */
  function DigitsValue(s: string): nat
    requires AllDigits(s)
  {
    if s == [] then 0 else DigitsValue(s[..|s| - 1]) * 10 + DigitValue(s[|s| - 1])
  }

  lemma {:induction false} NatToStringRoundTrip(n: nat)
    ensures DigitsValue(NatToString(n)) == n
  {
    if n >= 10 {
      var s := NatToString(n);
      assert s[..|s| - 1] == NatToString(n / 10);
      NatToStringRoundTrip(n / 10);
    }
  }

  /** The `{n:02d}` field: the digits of `n` zero-filled to at least two characters. */
  function Pad2(n: nat): (s: string)
    ensures 2 <= |s| && AllDigits(s)
    ensures n < 100 ==> |s| == 2
  {
    if n < 10 then "0" + NatToString(n) else NatToString(n)
  }

  lemma Pad2RoundTrip(n: nat)
    ensures DigitsValue(Pad2(n)) == n
  {
    NatToStringRoundTrip(n);
    if n < 10 {
      var s := Pad2(n);
      assert s[..1] == "0";
      assert DigitsValue(s[..1]) == 0;
    }
  }

  /** The `{y}` field: plain decimal, with a '-' before a negative year. */
  function IntToString(y: int): (s: string)
    ensures 1 <= |s|
    ensures 0 <= y ==> AllDigits(s)
    ensures y < 0 ==> 2 <= |s| && s[0] == '-' && AllDigits(s[1..])
    ensures 0 < y ==> s[0] != '0'
    ensures y < 0 ==> s[1] != '0'
    ensures y == 0 ==> s == "0"
  {
    if y < 0 then "-" + NatToString(-y) else NatToString(y)
  }

  /** Reads an optional '-' followed by at least one decimal digit. */
  function ParseInt(s: string): Option<int> {
    if 2 <= |s| && s[0] == '-' && AllDigits(s[1..]) then Some(-(DigitsValue(s[1..]) as int))
    else if 1 <= |s| && AllDigits(s) then Some(DigitsValue(s))
    else None
  }

  lemma IntToStringRoundTrip(y: int)
    ensures ParseInt(IntToString(y)) == Some(y)
  {
    var s := IntToString(y);
    if y < 0 {
      assert s[1..] == NatToString(-y);
      NatToStringRoundTrip(-y);
    } else {
      assert !IsDigit('-');
      NatToStringRoundTrip(y);
    }
  }

  /** The key `f"{y}-{m:02d}-{d:02d}"` under which the colour of a date is stored. */
  function DateKey(y: int, m: nat, d: nat): (s: string)
    ensures m < 100 && d < 100 ==> |s| == |IntToString(y)| + 6
  {
    IntToString(y) + "-" + Pad2(m) + "-" + Pad2(d)
  }

  /** The layout of a key: the year text, then '-', two month digits, '-', two day digits. */
  lemma DateKeyFields(y: int, m: nat, d: nat)
    requires m < 100 && d < 100
    ensures var s, n := DateKey(y, m, d), |DateKey(y, m, d)|;
      && s[..n - 6] == IntToString(y)
      && s[n - 6] == '-' && s[n - 3] == '-'
      && s[n - 5..n - 3] == Pad2(m) && s[n - 2..] == Pad2(d)
      && AllDigits(s[n - 5..n - 3]) && AllDigits(s[n - 2..])
  {
  }

  /** Splits a key into its year, month and day fields. */
  function ParseDateKey(s: string): Option<Date> {
    if |s| < 7 then None
    else
      var n := |s|;
      if s[n - 6] != '-' || s[n - 3] != '-' || !AllDigits(s[n - 5..n - 3]) || !AllDigits(s[n - 2..]) then None
      else
        match ParseInt(s[..n - 6])
        case None => None
        case Some(y) => Some(Date(y, DigitsValue(s[n - 5..n - 3]), DigitsValue(s[n - 2..])))
  }

  lemma DateKeyRoundTrip(y: int, m: nat, d: nat)
    requires m < 100 && d < 100
    ensures ParseDateKey(DateKey(y, m, d)) == Some(Date(y, m, d))
  {
    DateKeyFields(y, m, d);
    IntToStringRoundTrip(y);
    Pad2RoundTrip(m);
    Pad2RoundTrip(d);
  }

  /** Distinct dates get distinct keys, for months and days below 100
      (so for every real month 1..12 and day 1..31), and any year. */
  lemma DateKeyInjective(a: Date, b: Date)
    requires a.month < 100 && a.day < 100 && b.month < 100 && b.day < 100
    ensures DateKey(a.year, a.month, a.day) == DateKey(b.year, b.month, b.day) <==> a == b
  {
    DateKeyRoundTrip(a.year, a.month, a.day);
    DateKeyRoundTrip(b.year, b.month, b.day);
  }
}
