/** FileSizeRangeClauseBuilder: the search clause for a file-size range,
    "__size_numeric:[L TO U]", where each bound is typed as a number and an
    optional unit ("10 KB") and converted to bytes, "*" standing for an open
    bound. Only ASCII characters are classified as digits, white space and
    word characters. */
module FileSizeClause {
  import opened Wrappers
  import opened Text
  import opened Numbers

  datatype SizeError = Overflow   // OverflowException from long.Parse or a checked product

  /** The regular expression's `\s`, on ASCII and the two Latin-1 spaces. */
  predicate IsRegexSpace(c: char) {
    c == ' ' || c == '\t' || c == '\n' || c == '\U{B}' || c == '\U{C}' || c == '\r' || c == '\U{85}' || c == '\U{A0}'
  }

  /** The regular expression's `\w`, on ASCII. */
  predicate IsWordChar(c: char) {
    ('a' <= c <= 'z') || ('A' <= c <= 'Z') || IsDigit(c) || c == '_'
  }

  /** The end of the longest run of characters satisfying `p` from `i`. */
  function RunEnd(s: string, i: nat, p: char -> bool): (j: nat)
    requires i <= |s|
    ensures i <= j <= |s|
    ensures forall k :: i <= k < j ==> p(s[k])
    ensures j == |s| || !p(s[j])
    decreases |s| - i
  {
    if i < |s| && p(s[i]) then RunEnd(s, i + 1, p) else i
  }

  /** A run is determined by where it starts: any stretch of `p`
      characters that cannot be extended is the run. */
  lemma RunEndIs(s: string, i: nat, j: nat, p: char -> bool)
    requires i <= j <= |s|
    requires forall k :: i <= k < j ==> p(s[k])
    requires j == |s| || !p(s[j])
    ensures RunEnd(s, i, p) == j
  {
  }

  /** The match of `^(\d+)\s*(\w*)$`: the digits and the unit. The greedy
      split is the one the regular expression engine reports; `$` also
      matches before a final line feed. */
  function MatchInput(s: string): (r: Option<(string, string)>)
    ensures r.Some? ==> |r.value.0| >= 1 && AllDigits(r.value.0)
    ensures r.Some? ==> forall k :: 0 <= k < |r.value.1| ==> IsWordChar(r.value.1[k])
  {
    var d := RunEnd(s, 0, IsDigit);
    if d == 0 then None
    else
      var w := RunEnd(s, d, IsRegexSpace);
      var u := RunEnd(s, w, IsWordChar);
      if u == |s| || (u == |s| - 1 && s[u] == '\n') then Some((s[..d], s[w..u])) else None
  }

  const Kibi: int := 1024

  /** GetMultiplier: 1 for no unit; otherwise the first of 'k', 'm', 'g'
      found in the unit, ignoring case, picks 1024, 1024² or 1024³; any
      other unit counts as bytes. */
  function Multiplier(unit: string): (r: int)
    ensures r == 1 || r == Kibi || r == Kibi * Kibi || r == Kibi * Kibi * Kibi
    ensures r == 1 <==> !Contains(Fold(unit), "k") && !Contains(Fold(unit), "m") && !Contains(Fold(unit), "g")
  {
    if unit == "" then
      assert Fold(unit) == "";
      1
    else if Contains(Fold(unit), "k") then Kibi
    else if Contains(Fold(unit), "m") then Kibi * Kibi
    else if Contains(Fold(unit), "g") then Kibi * Kibi * Kibi
    else 1
  }

  /** 'k' is looked for first, then 'm', then 'g'. */
  lemma MultiplierPrecedence(unit: string)
    ensures Contains(Fold(unit), "k") ==> Multiplier(unit) == Kibi
    ensures !Contains(Fold(unit), "k") && Contains(Fold(unit), "m") ==> Multiplier(unit) == Kibi * Kibi
    ensures !Contains(Fold(unit), "k") && !Contains(Fold(unit), "m") && Contains(Fold(unit), "g") ==> Multiplier(unit) == Kibi * Kibi * Kibi
  {
    if unit == "" {
      assert Fold(unit) == "";
    }
  }

  /** ConvertInputStringToRangeValue as written: the product of number and
      multiplier is a `long` multiplication, which wraps silently. */
  function ConvertAsWritten(input: Option<string>): (r: Result<string, SizeError>)
    ensures input.None? || input.value == "" ==> r == Success(OpenBound)
    ensures input.Some? && input.value != "" && MatchInput(input.value).None? ==> r == Success(OpenBound)
    ensures input.Some? && MatchInput(input.value).Some? ==>
      var m := MatchInput(input.value).value;
      && (DigitsValue(m.0) > Int64Max ==> r == Failure(Overflow))
      && (DigitsValue(m.0) <= Int64Max ==> r == Success(IntToString(Wrap64(DigitsValue(m.0) * Multiplier(m.1)))))
  {
    if input.None? || input.value == "" then Success(OpenBound)
    else
      var m := MatchInput(input.value);
      if m.None? then Success(OpenBound)
      else
        var value := ParseInt64Digits(m.value.0);
        if value.None? then Failure(Overflow)
        else Success(IntToString(Wrap64(value.value * Multiplier(m.value.1))))
  }

  /** A product with a factor of at least one is at least the other factor. */
  lemma ProductAtLeast(a: nat, m: int)
    requires m >= 1
    ensures a * m >= a
  {
  }

  /** `long.Parse` of the digits times the multiplier, checked: an overflow
      when either the number or the product exceeds `long.MaxValue`. */
  function CheckedBytes(digits: string, unit: string): (r: Result<nat, SizeError>)
    requires |digits| >= 1 && AllDigits(digits)
    ensures r.Success? <==> DigitsValue(digits) * Multiplier(unit) <= Int64Max
    ensures r.Success? ==> r.value == DigitsValue(digits) * Multiplier(unit)
  {
    var value := ParseInt64Digits(digits);
    ProductAtLeast(DigitsValue(digits), Multiplier(unit));
    if value.None? then Failure(Overflow)
    else
      var bytes := value.value * Multiplier(unit);
      if bytes > Int64Max then Failure(Overflow) else Success(bytes)
  }

  /** ConvertInputStringToRangeValue with the product checked: a size
      beyond `long.MaxValue` bytes is an overflow, like a number beyond it. */
  function Convert(input: Option<string>): (r: Result<string, SizeError>)
    ensures input.None? || input.value == "" ==> r == Success(OpenBound)
    ensures input.Some? && input.value != "" && MatchInput(input.value).None? ==> r == Success(OpenBound)
    ensures input.Some? && MatchInput(input.value).Some? ==>
      var m := MatchInput(input.value).value;
      && (DigitsValue(m.0) * Multiplier(m.1) > Int64Max ==> r == Failure(Overflow))
      && (DigitsValue(m.0) * Multiplier(m.1) <= Int64Max ==> r == Success(IntToString(DigitsValue(m.0) * Multiplier(m.1))))
    ensures r.Success? && r.value != OpenBound ==> AllDigits(r.value)
  {
    if input.None? || input.value == "" then Success(OpenBound)
    else
      var m := MatchInput(input.value);
      if m.None? then Success(OpenBound)
      else
        var bytes :- CheckedBytes(m.value.0, m.value.1);
        Success(IntToString(bytes))
  }

  /** The two conversions agree wherever the product fits in a `long`. */
  lemma ConvertAgreesWithinRange(input: string)
    requires MatchInput(input).Some?
    requires DigitsValue(MatchInput(input).value.0) * Multiplier(MatchInput(input).value.1) <= Int64Max
    ensures ConvertAsWritten(Some(input)) == Convert(Some(input))
  {
  }

  /** The text standing for an open bound. */
  const OpenBound: string := "*"
  const SizeField: string := "__size_numeric:["

  /** The range query over the size field, from `lower` to `upper`. */
  function RangeClause(lower: string, upper: string): string {
    SizeField + lower + " TO " + upper + "]"
  }

  /** GetSearchClauseFromModel: both bounds converted, lower first. */
  function Clause(lower: Option<string>, upper: Option<string>): (r: Result<string, SizeError>)
    ensures r.Success? <==> Convert(lower).Success? && Convert(upper).Success?
    ensures r.Success? ==> r.value == RangeClause(Convert(lower).value, Convert(upper).value)
  {
    var l :- Convert(lower);
    var u :- Convert(upper);
    Success(RangeClause(l, u))
  }

  /** The input split at the end of the digits, the spaces and the unit. */
  lemma MatchSplits(digits: string, spaces: string, unit: string)
    requires |digits| >= 1 && AllDigits(digits)
    requires forall k :: 0 <= k < |spaces| ==> IsRegexSpace(spaces[k])
    requires forall k :: 0 <= k < |unit| ==> IsWordChar(unit[k])
    requires spaces != "" ==> !IsDigit(spaces[0])
    requires unit != "" ==> !IsRegexSpace(unit[0])
    requires spaces == "" && unit != "" ==> !IsDigit(unit[0])
    ensures MatchInput(digits + spaces + unit) == Some((digits, unit))
  {
    var s := digits + spaces + unit;
    var d := |digits|;
    var w := d + |spaces|;
    assert forall k :: 0 <= k < d ==> s[k] == digits[k];
    assert forall k :: d <= k < w ==> s[k] == spaces[k - d];
    assert forall k :: w <= k < |s| ==> s[k] == unit[k - w];
    RunEndIs(s, 0, d, IsDigit);
    RunEndIs(s, d, w, IsRegexSpace);
    RunEndIs(s, w, |s|, IsWordChar);
    assert s[..d] == digits;
    assert s[w..|s|] == unit;
  }

  /** A size written as "<n> <unit>" converts to n times the unit's
      multiplier, and a bare number to itself. */
  lemma ConvertRoundTrip(n: nat, unit: string)
    requires forall k :: 0 <= k < |unit| ==> IsWordChar(unit[k])
    requires n * Multiplier(unit) <= Int64Max
    ensures Convert(Some(IntToString(n) + " " + unit)) == Success(IntToString(n * Multiplier(unit)))
    ensures n <= Int64Max ==> Convert(Some(IntToString(n))) == Success(IntToString(n))
  {
    var digits := NatToDigits(n);
    DigitsRoundTrip(n);
    MatchSplits(digits, " ", unit);
    MatchSplits(digits, "", "");
    assert digits + "" + "" == digits;
  }

  /** As written, the same input converts to the product wrapped to 64 bits. */
  lemma ConvertAsWrittenRoundTrip(n: nat, unit: string)
    requires forall k :: 0 <= k < |unit| ==> IsWordChar(unit[k])
    requires n <= Int64Max
    ensures ConvertAsWritten(Some(IntToString(n) + " " + unit)) == Success(IntToString(Wrap64(n * Multiplier(unit))))
  {
    DigitsRoundTrip(n);
    MatchSplits(NatToDigits(n), " ", unit);
  }

  /** A unit whose folded spelling has no 'k', 'm' or 'g' at any position
      of the two letters. */
  lemma TwoLetterUnit(unit: string, c: char)
    requires |unit| == 2 && c != Fold(unit)[0] && c != Fold(unit)[1]
    ensures !Contains(Fold(unit), [c])
  {
    forall j ensures !OccursAt(Fold(unit), [c], j) {
      if 0 <= j < |Fold(unit)| {
        assert Fold(unit)[j..j + 1] == [Fold(unit)[j]];
      }
    }
  }

  lemma KiloBytesUnit()
    ensures Multiplier("KB") == Kibi
  {
    assert Fold("KB") == "kb";
    assert OccursAt(Fold("KB"), "k", 0);
    MultiplierPrecedence("KB");
  }

  lemma GigaBytesUnit()
    ensures Multiplier("GB") == Kibi * Kibi * Kibi
  {
    assert Fold("GB") == "gb";
    assert OccursAt(Fold("GB"), "g", 0);
    TwoLetterUnit("GB", 'k');
    TwoLetterUnit("GB", 'm');
    MultiplierPrecedence("GB");
  }

  lemma TenKibiPrints()
    ensures IntToString(10 * Kibi) == "10240"
  {
    assert NatToDigits(10240) == NatToDigits(1024) + ['0'];
    assert NatToDigits(1024) == NatToDigits(102) + ['4'];
    assert NatToDigits(102) == NatToDigits(10) + ['2'];
    assert NatToDigits(10) == NatToDigits(1) + ['0'];
  }

  /** A range written as "<lo> <unit>" to "<hi> <unit>" gives the clause
      over the two byte counts. */
  lemma ClauseRoundTrip(lo: nat, loUnit: string, hi: nat, hiUnit: string)
    requires forall k :: 0 <= k < |loUnit| ==> IsWordChar(loUnit[k])
    requires forall k :: 0 <= k < |hiUnit| ==> IsWordChar(hiUnit[k])
    requires lo * Multiplier(loUnit) <= Int64Max && hi * Multiplier(hiUnit) <= Int64Max
    ensures Clause(Some(IntToString(lo) + " " + loUnit), Some(IntToString(hi) + " " + hiUnit))
      == Success(RangeClause(IntToString(lo * Multiplier(loUnit)), IntToString(hi * Multiplier(hiUnit))))
  {
    ConvertRoundTrip(lo, loUnit);
    ConvertRoundTrip(hi, hiUnit);
  }

  /** ... and a missing upper bound is open. */
  lemma OpenClauseRoundTrip(lo: nat, loUnit: string)
    requires forall k :: 0 <= k < |loUnit| ==> IsWordChar(loUnit[k])
    requires lo * Multiplier(loUnit) <= Int64Max
    ensures Clause(Some(IntToString(lo) + " " + loUnit), None)
      == Success(RangeClause(IntToString(lo * Multiplier(loUnit)), OpenBound))
  {
    ConvertRoundTrip(lo, loUnit);
  }

  /** "10 KB" is ten kibibytes, and an empty upper bound is open. */
  lemma KilobytesExample(n: nat, unit: string)
    requires n == 10 && unit == "KB"
    ensures Clause(Some(IntToString(n) + " " + unit), None) == Success(RangeClause("10240", OpenBound))
  {
    KiloBytesUnit();
    assert IsWordChar(unit[0]) && IsWordChar(unit[1]);
    OpenClauseRoundTrip(n, unit);
    TenKibiPrints();
  }

  /** The unit is checked for 'k' before 'm': "MK" means kilo. */
  lemma KiloCheckedFirst()
    ensures Multiplier("MK") == Kibi
  {
    assert Fold("MK") == "mk";
    assert OccursAt(Fold("MK"), "k", 1);
    MultiplierPrecedence("MK");
  }

  /** 2^33 GB is 2^63 bytes, one past `long.MaxValue`: as written the bound
      wraps to `long.MinValue`, a negative size, where the checked
      conversion reports the overflow. */
  lemma HugeSizeWrapsNegative(n: nat, unit: string)
    requires n == 0x2_0000_0000 && unit == "GB"
    ensures ConvertAsWritten(Some(IntToString(n) + " " + unit)) == Success(IntToString(Int64Min))
    ensures Convert(Some(IntToString(n) + " " + unit)) == Failure(Overflow)
  {
    GigaBytesUnit();
    ConvertAsWrittenRoundTrip(n, unit);
    var x := n * Multiplier(unit);
    assert x - Int64Min == TwoTo64;
    assert TwoTo64 % TwoTo64 == 0;
    assert Wrap64(x) == Int64Min;
    DigitsRoundTrip(n);
    MatchSplits(NatToDigits(n), " ", unit);
  }
}
