/** Decimal text and fixed-width integers as .NET treats them:
    invariant-culture printing, `int.TryParse`, `long.Parse` and the
    unchecked wrap-around of 64-bit multiplication. Only ASCII digits
    are recognised. */
module Numbers {
  import opened Wrappers

  const Int32Min: int := -0x8000_0000
  const Int32Max: int := 0x7fff_ffff
  const Int64Min: int := -0x8000_0000_0000_0000
  const Int64Max: int := 0x7fff_ffff_ffff_ffff
  const TwoTo64: int := 0x1_0000_0000_0000_0000

  predicate IsDigit(c: char) {
    '0' <= c <= '9'
  }

  predicate AllDigits(s: string) {
    forall i :: 0 <= i < |s| ==> IsDigit(s[i])
  }

  function DigitChar(d: nat): (c: char)
    requires d < 10
    ensures IsDigit(c)
  {
    ('0' as int + d) as char
  }

  /** The value of a run of decimal digits, most significant first. */
  function DigitsValue(s: string): nat
    requires AllDigits(s)
  {
    if s == [] then 0
    else DigitsValue(s[..|s| - 1]) * 10 + (s[|s| - 1] as int - '0' as int)
  }

  /** Shortest decimal spelling of `n`. */
  function NatToDigits(n: nat): (s: string)
    ensures |s| >= 1 && AllDigits(s)
  {
    if n < 10 then [DigitChar(n)] else NatToDigits(n / 10) + [DigitChar(n % 10)]
  }

  lemma {:induction false} DigitsRoundTrip(n: nat)
    ensures DigitsValue(NatToDigits(n)) == n
  {
    if n >= 10 {
      var s := NatToDigits(n);
      DigitsRoundTrip(n / 10);
      assert s[..|s| - 1] == NatToDigits(n / 10);
    }
  }

  /** `value.ToString(CultureInfo.InvariantCulture)` for an integer. */
  function IntToString(n: int): (s: string)
    ensures |s| >= 1
  {
    if n < 0 then "-" + NatToDigits(-n) else NatToDigits(n)
  }

  /** Optional leading minus sign followed by at least one digit. */
  function ParseInteger(s: string): Option<int> {
    if |s| >= 2 && s[0] == '-' && AllDigits(s[1..]) then Some(0 - DigitsValue(s[1..]) as int)
    else if |s| >= 1 && AllDigits(s) then Some(DigitsValue(s))
    else None
  }

  /** Printing an integer and reading it back yields the same integer. */
  lemma IntToStringRoundTrip(n: int)
    ensures ParseInteger(IntToString(n)) == Some(n)
  {
    if n < 0 {
      var s := IntToString(n);
      assert s[1..] == NatToDigits(-n);
      DigitsRoundTrip(-n);
    } else {
      DigitsRoundTrip(n);
    }
  }

  /** White space accepted around a number by `NumberStyles.Integer`. */
  predicate IsNumberWhite(c: char) {
    c == ' ' || '\t' <= c <= '\r'
  }

  function TrimStart(s: string): (r: string)
    ensures |r| <= |s| && r == s[|s| - |r|..]
    ensures r == [] || !IsNumberWhite(r[0])
  {
    if s != [] && IsNumberWhite(s[0]) then TrimStart(s[1..]) else s
  }

  function TrimEnd(s: string): (r: string)
    ensures |r| <= |s| && r == s[..|r|]
    ensures r == [] || !IsNumberWhite(r[|r| - 1])
  {
    if s != [] && IsNumberWhite(s[|s| - 1]) then TrimEnd(s[..|s| - 1]) else s
  }

  /** `int.TryParse(s, out v)`: `None` stands for the `false` return (the
      out value is then 0). Leading and trailing white space and one sign
      are allowed; the value must fit in 32 bits. */
  function TryParseInt32(s: Option<string>): (r: Option<int>)
    ensures r.Some? ==> Int32Min <= r.value <= Int32Max
    ensures s.None? ==> r.None?
  {
    if s.None? then None
    else
      var t := TrimEnd(TrimStart(s.value));
      var negative := |t| >= 1 && t[0] == '-';
      var digits := if |t| >= 1 && (t[0] == '-' || t[0] == '+') then t[1..] else t;
      if |digits| == 0 || !AllDigits(digits) then None
      else
        var v := if negative then 0 - DigitsValue(digits) as int else DigitsValue(digits) as int;
        if Int32Min <= v <= Int32Max then Some(v) else None
  }

  /** Text that neither starts nor ends with white space is not trimmed. */
  lemma TrimNothing(s: string)
    requires s != [] && !IsNumberWhite(s[0]) && !IsNumberWhite(s[|s| - 1])
    ensures TrimEnd(TrimStart(s)) == s
  {
  }

  /** A digit run with no sign or white space parses to its value. */
  lemma TryParseDigits(digits: string)
    requires |digits| >= 1 && AllDigits(digits)
    requires DigitsValue(digits) <= Int32Max
    ensures TryParseInt32(Some(digits)) == Some(DigitsValue(digits) as int)
  {
    assert IsDigit(digits[0]) && IsDigit(digits[|digits| - 1]);
    TrimNothing(digits);
    assert digits[0] != '-' && digits[0] != '+';
  }

  /** A minus sign and a digit run parse to the negated value. */
  lemma TryParseNegativeDigits(s: string, digits: string)
    requires |digits| >= 1 && AllDigits(digits)
    requires s == "-" + digits
    requires Int32Min <= 0 - DigitsValue(digits)
    ensures TryParseInt32(Some(s)) == Some(0 - DigitsValue(digits))
  {
    assert s[|s| - 1] == digits[|digits| - 1];
    assert IsDigit(digits[|digits| - 1]);
    TrimNothing(s);
    assert s[1..] == digits;
  }

  /** Every 32-bit integer survives printing followed by `int.TryParse`. */
  lemma TryParseInt32RoundTrip(n: int)
    requires Int32Min <= n <= Int32Max
    ensures TryParseInt32(Some(IntToString(n))) == Some(n)
  {
    var m: nat := if n < 0 then -n else n;
    DigitsRoundTrip(m);
    if n < 0 {
      TryParseNegativeDigits(IntToString(n), NatToDigits(m));
    } else {
      assert IntToString(n) == NatToDigits(m);
      TryParseDigits(NatToDigits(m));
    }
  }

  /** `long.Parse` of a digit run: the value, or `None` for the
      `OverflowException` thrown above `long.MaxValue`. */
  function ParseInt64Digits(s: string): (r: Option<int>)
    requires |s| >= 1 && AllDigits(s)
    ensures r.Some? <==> DigitsValue(s) <= Int64Max
    ensures r.Some? ==> r.value == DigitsValue(s)
  {
    var v := DigitsValue(s);
    if v <= Int64Max then Some(v) else None
  }

  /** Unchecked two's-complement truncation to 64 bits. */
  function Wrap64(x: int): (r: int)
    ensures Int64Min <= r <= Int64Max
    ensures (r - x) % TwoTo64 == 0
    ensures Int64Min <= x <= Int64Max ==> r == x
  {
    var m := (x - Int64Min) % TwoTo64;
    assert (m + Int64Min - x) % TwoTo64 == 0;
    m + Int64Min
  }
}
