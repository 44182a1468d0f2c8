/** Decimal text of integers. SQLite turns the integer id bound to a delete
    into this text when it compares it with the text `Id` column, and the JWT
    library writes the `exp` claim as this number; `Convert.ToInt64(string)`
    reads such text back. */
module Decimal {
  import opened Results

  const MinInt64: int := -0x8000_0000_0000_0000
  const MaxInt64: int := 0x7FFF_FFFF_FFFF_FFFF

  predicate IsDigit(c: char) {
    '0' <= c <= '9'
  }

  predicate AllDigits(s: string) {
    forall i :: 0 <= i < |s| ==> IsDigit(s[i])
  }

  function DigitValue(c: char): (d: nat)
    requires IsDigit(c)
    ensures d < 10
  {
    c as int - '0' as int
  }

  function DigitChar(d: nat): (c: char)
    requires d < 10
    ensures IsDigit(c) && DigitValue(c) == d
  {
    ('0' as int + d) as char
  }

  /** Digits of `n`, most significant first, without leading zeros. */
  function NatText(n: nat): (s: string)
    ensures |s| > 0 && AllDigits(s)
    decreases n
  {
    if n < 10 then [DigitChar(n)] else NatText(n / 10) + [DigitChar(n % 10)]
  }

  /** The decimal text of an integer, as SQLite compares a bound integer with
      a text column and as a JSON number is written: a minus sign for
      negatives, then the digits without leading zeros. */
  function IntText(n: int): (s: string)
    ensures |s| > 0 && IsDigit(s[|s| - 1])
    ensures s[0] == '-' <==> n < 0
    ensures n < 0 ==> AllDigits(s[1..])
    ensures n >= 0 ==> AllDigits(s)
  {
    if n < 0 then "-" + NatText(-n) else NatText(n)
  }

  /** The value of a digit string read left to right. */
  function DigitsValue(s: string): nat
    requires AllDigits(s)
  {
    if s == [] then 0 else DigitsValue(s[..|s| - 1]) * 10 + DigitValue(s[|s| - 1])
  }

  /** White space as .NET number parsing skips it: U+0009..U+000D and U+0020. */
  predicate IsWhite(c: char) {
    c == ' ' || '\t' <= c <= '\r'
  }

  function TrimStart(s: string): (r: string)
    ensures r == [] || !IsWhite(r[0])
    ensures |r| <= |s| && r == s[|s| - |r|..]
  {
    if s != [] && IsWhite(s[0]) then TrimStart(s[1..]) else s
  }

  function TrimEnd(s: string): (r: string)
    ensures r == [] || !IsWhite(r[|r| - 1])
    ensures |r| <= |s| && r == s[..|r|]
  {
    if s != [] && IsWhite(s[|s| - 1]) then TrimEnd(s[..|s| - 1]) else s
  }

  /** `Convert.ToInt64(string)`: optional white space, an optional sign, at
      least one digit, optional white space, and a value that fits in 64 bits.
      `None` stands for the FormatException or OverflowException it throws. */
  function ParseInt64(s: string): (r: Option<int>)
    ensures r.Some? ==> MinInt64 <= r.value <= MaxInt64
    ensures TrimEnd(TrimStart(s)) == [] ==> r.None?
  {
    var t := TrimEnd(TrimStart(s));
    if t == [] then None else ParseSigned(t)
  }

  /** An optional sign followed by digits, without surrounding white space. */
  function ParseSigned(t: string): (r: Option<int>)
    requires t != []
    ensures r.Some? ==> MinInt64 <= r.value <= MaxInt64
  {
    var negative := t[0] == '-';
    var digits := if t[0] == '-' || t[0] == '+' then t[1..] else t;
    if digits == [] || !AllDigits(digits) then None
    else
      var v: int := if negative then -(DigitsValue(digits) as int) else DigitsValue(digits);
      if MinInt64 <= v <= MaxInt64 then Some(v) else None
  }

  lemma {:induction false} DigitsValueOfNatText(n: nat)
    ensures DigitsValue(NatText(n)) == n
    decreases n
  {
    if n >= 10 {
      var s := NatText(n);
      var p := NatText(n / 10);
      assert s == p + [DigitChar(n % 10)];
      assert s[..|s| - 1] == p;
      DigitsValueOfNatText(n / 10);
    }
  }

  lemma TrimStartOfNonWhite(s: string)
    requires s != [] && !IsWhite(s[0])
    ensures TrimStart(s) == s
  {
  }

  lemma TrimEndOfNonWhite(s: string)
    requires s != [] && !IsWhite(s[|s| - 1])
    ensures TrimEnd(s) == s
  {
  }

  /** Text with no white space at either end is read by its sign and digits. */
  lemma ParseUntrimmed(s: string)
    requires s != [] && !IsWhite(s[0]) && !IsWhite(s[|s| - 1])
    ensures ParseInt64(s) == ParseSigned(s)
  {
    TrimStartOfNonWhite(s);
    TrimEndOfNonWhite(s);
  }

  lemma ParseSignedNegative(n: int)
    requires MinInt64 <= n < 0
    ensures ParseSigned(IntText(n)) == Some(n)
  {
    var m: nat := -n;
    var s := IntText(n);
    assert s == ['-'] + NatText(m);
    assert s[1..] == NatText(m);
    DigitsValueOfNatText(m);
    assert DigitsValue(s[1..]) == m;
  }

  lemma ParseSignedNonNegative(n: int)
    requires 0 <= n <= MaxInt64
    ensures ParseSigned(IntText(n)) == Some(n)
  {
    assert IsDigit(IntText(n)[0]);
    DigitsValueOfNatText(n);
  }

  /** The sign and digits of the text of a 64-bit integer read back as it. */
  lemma ParseSignedIntText(n: int)
    requires MinInt64 <= n <= MaxInt64
    ensures ParseSigned(IntText(n)) == Some(n)
  {
    if n < 0 {
      ParseSignedNegative(n);
    } else {
      ParseSignedNonNegative(n);
    }
  }

  /** Reading back the text of any 64-bit integer gives that integer. */
  lemma ParseIntText(n: int)
    requires MinInt64 <= n <= MaxInt64
    ensures ParseInt64(IntText(n)) == Some(n)
  {
    var s := IntText(n);
    assert !IsWhite(s[0]) && !IsWhite(s[|s| - 1]);
    ParseUntrimmed(s);
    ParseSignedIntText(n);
  }

  /** Distinct integers have distinct texts, so a text key names one integer. */
  lemma IntTextInjective(a: int, b: int)
    requires MinInt64 <= a <= MaxInt64 && MinInt64 <= b <= MaxInt64
    requires IntText(a) == IntText(b)
    ensures a == b
  {
    ParseIntText(a);
    ParseIntText(b);
  }
}
