/** The query-string and header helpers of the API controllers
    (RavenApiController): paging parameters, etag headers, the transaction
    header, highlighted fields and query inputs. Parsing an etag, a
    highlighted field or a time span is not visible here and is a
    parameter. */
module ApiQuery {
  import opened Wrappers
  import opened Text
  import opened Numbers

  /** The query string: its name/value pairs in order. */
  type Query = seq<(string, string)>

  datatype ApiError =
    | BadRequest(message: string)        // BadRequestException
    | InvalidArgument(message: string)   // ArgumentException
    | OutOfRange                         // ArgumentOutOfRangeException from Substring
    | InvalidFormat                      // FormatException from a parser

  const UnparsableEtagMessage: string := "Could not parse If-None-Match or If-Match header as Guid"
  const UnparsableHighlightMessage: string := "Could not parse highlight query parameter as field highlight options"
  const DuplicateHighlightMessage: string := "Duplicate highlighted field has found: "

  /** GetQueryStringValue: the value of the first pair whose key is
      `key` (ordinal), if any. */
  function GetQueryStringValue(q: Query, key: string): (r: Option<string>)
    ensures r.None? <==> forall i :: 0 <= i < |q| ==> q[i].0 != key
    ensures r.Some? ==> exists i :: 0 <= i < |q| && q[i] == (key, r.value) && forall j :: 0 <= j < i ==> q[j].0 != key
  {
    if q == [] then None
    else if q[0].0 == key then
      assert q[0] == (key, q[0].1);
      Some(q[0].1)
    else
      var r := GetQueryStringValue(q[1..], key);
      if r.Some? then
        var i :| 0 <= i < |q[1..]| && q[1..][i] == (key, r.value) && forall j :: 0 <= j < i ==> q[1..][j].0 != key;
        assert q[i + 1] == (key, r.value);
        r
      else r
  }

  /** The pairs whose key is `key` (ordinal), as LINQ `Where` selects them. */
  function KeyIs(key: string): ((string, string)) -> bool {
    (p: (string, string)) => p.0 == key
  }

  /** GetQueryStringValues: the values of every pair whose key is `key`,
      in query order and with repeats: `Where` then `Select`. */
  function GetQueryStringValues(q: Query, key: string): (r: seq<string>)
    ensures var pairs := Filter(q, KeyIs(key));
      |r| == |pairs| && forall i :: 0 <= i < |r| ==> pairs[i] == (key, r[i])
  {
    if q == [] then []
    else
      var rest := GetQueryStringValues(q[1..], key);
      if q[0].0 == key then [q[0].1] + rest else rest
  }

  /** The values of two query strings in a row are those of the first
      followed by those of the second. */
  lemma {:induction false} GetQueryStringValuesAppend(q1: Query, q2: Query, key: string)
    ensures GetQueryStringValues(q1 + q2, key) == GetQueryStringValues(q1, key) + GetQueryStringValues(q2, key)
  {
    if q1 == [] {
      assert q1 + q2 == q2;
    } else {
      assert (q1 + q2)[0] == q1[0];
      assert (q1 + q2)[1..] == q1[1..] + q2;
      GetQueryStringValuesAppend(q1[1..], q2, key);
    }
  }

  /** One pair contributes its value exactly when its key matches. */
  lemma GetQueryStringValuesOfPair(k: string, v: string, key: string)
    ensures GetQueryStringValues([(k, v)], key) == if k == key then [v] else []
  {
    assert [(k, v)][1..] == [];
  }

  /** The single value is the first of all the values. */
  lemma {:induction false} ValueIsFirstOfValues(q: Query, key: string)
    ensures GetQueryStringValue(q, key) == (if GetQueryStringValues(q, key) == [] then None
                                            else Some(GetQueryStringValues(q, key)[0]))
  {
    if q != [] && q[0].0 != key {
      ValueIsFirstOfValues(q[1..], key);
    }
  }

  /** GetStart: the parsed "start" value, never below 0; 0 when it is
      absent or does not parse. */
  function GetStart(q: Query): (r: int)
    ensures r >= 0
    ensures var v := TryParseInt32(GetQueryStringValue(q, "start"));
      r == (if v.Some? && v.value > 0 then v.value else 0)
  {
    var v := TryParseInt32(GetQueryStringValue(q, "start"));
    var start := if v.Some? then v.value else 0;
    if start > 0 then start else 0
  }

  /** A non-negative start written in decimal is read back. */
  lemma GetStartRoundTrip(n: int, rest: Query)
    requires 0 <= n <= Int32Max
    ensures GetStart([("start", IntToString(n))] + rest) == n
  {
    var q := [("start", IntToString(n))] + rest;
    assert q[0] == ("start", IntToString(n));
    assert GetQueryStringValue(q, "start") == Some(IntToString(n));
    TryParseInt32RoundTrip(n);
  }

  const DefaultPageSize: int := 25

  /** GetPageSize: the parsed "pageSize", or 25 when it is absent, does
      not parse or is negative; then capped at `maxPageSize`. */
  function GetPageSize(q: Query, maxPageSize: int): (r: int)
    ensures r <= maxPageSize
    ensures var v := TryParseInt32(GetQueryStringValue(q, "pageSize"));
      var requested := if v.Some? && v.value >= 0 then v.value else DefaultPageSize;
      r == (if requested > maxPageSize then maxPageSize else requested)
  {
    var v := TryParseInt32(GetQueryStringValue(q, "pageSize"));
    var pageSize := if v.None? || v.value < 0 then DefaultPageSize else v.value;
    if pageSize > maxPageSize then maxPageSize else pageSize
  }

  /** A page size within the cap is honoured; a missing one gives the
      default, capped. */
  lemma GetPageSizeHonoursRequest(n: int, maxPageSize: int, rest: Query)
    requires 0 <= n <= maxPageSize && n <= Int32Max
    ensures GetPageSize([("pageSize", IntToString(n))] + rest, maxPageSize) == n
    ensures GetPageSize([], maxPageSize) == if maxPageSize < DefaultPageSize then maxPageSize else DefaultPageSize
  {
    var q := [("pageSize", IntToString(n))] + rest;
    assert q[0] == ("pageSize", IntToString(n));
    assert GetQueryStringValue(q, "pageSize") == Some(IntToString(n));
    TryParseInt32RoundTrip(n);
    assert GetQueryStringValue([], "pageSize").None?;
  }

  /** An etag as read from a request: the invalid etag, or a parsed one. */
  datatype RequestEtag = InvalidEtag | Parsed(etag: nat)

  /** EtagHeaderToEtag: the "If-None-Match" query value; absent or empty
      gives the invalid etag; a value starting with a quote loses its first
      and last characters (whatever the last one is) before parsing; a
      lone quote fails the Substring call. */
  function EtagHeaderToEtag(q: Query, parse: string -> Option<nat>): (r: Result<RequestEtag, ApiError>)
    ensures var h := GetQueryStringValue(q, "If-None-Match");
      && (h.None? || h.value == "" ==> r == Success(InvalidEtag))
      && (h.Some? && h.value == "\"" ==> r == Failure(OutOfRange))
      && (h.Some? && |h.value| >= 2 && h.value[0] == '"' ==>
            r == (if parse(h.value[1..|h.value| - 1]).Some? then Success(Parsed(parse(h.value[1..|h.value| - 1]).value))
                  else Failure(InvalidFormat)))
      && (h.Some? && h.value != "" && h.value[0] != '"' ==>
            r == (if parse(h.value).Some? then Success(Parsed(parse(h.value).value)) else Failure(InvalidFormat)))
  {
    var h := GetQueryStringValue(q, "If-None-Match");
    if h.None? || h.value == "" then Success(InvalidEtag)
    else
      var text :- if h.value[0] == '"' then
                    (if |h.value| < 2 then Failure(OutOfRange) else Success(h.value[1..|h.value| - 1]))
                  else Success(h.value);
      var e := parse(text);
      if e.None? then Failure(InvalidFormat) else Success(Parsed(e.value))
  }

  /** An etag sent quoted, or bare when it does not start with a quote,
      is read back as its parse. */
  lemma EtagHeaderRoundTrip(s: string, rest: Query, parse: string -> Option<nat>)
    requires parse(s).Some?
    ensures EtagHeaderToEtag([("If-None-Match", "\"" + s + "\"")] + rest, parse) == Success(Parsed(parse(s).value))
    ensures s != "" && s[0] != '"' ==> EtagHeaderToEtag([("If-None-Match", s)] + rest, parse) == Success(Parsed(parse(s).value))
  {
    var quoted := "\"" + s + "\"";
    var q := [("If-None-Match", quoted)] + rest;
    assert q[0] == ("If-None-Match", quoted);
    assert GetQueryStringValue(q, "If-None-Match") == Some(quoted);
    assert quoted[1..|quoted| - 1] == s;
    var q2 := [("If-None-Match", s)] + rest;
    assert q2[0] == ("If-None-Match", s);
    assert GetQueryStringValue(q2, "If-None-Match") == Some(s);
  }

  /** A header value wrapped in quotes: it both starts and ends with one
      (a lone quote counts). */
  predicate Quoted(h: string) {
    |h| >= 1 && h[0] == '"' && h[|h| - 1] == '"'
  }

  /** Quoted is `StartsWith("\"") && EndsWith("\"")`. */
  lemma QuotedIsStartsAndEnds(h: string)
    ensures Quoted(h) <==> StartsWith(h, "\"") && EndsWith(h, "\"")
  {
    if |h| >= 1 {
      assert h[..1] == [h[0]];
      assert h[|h| - 1..] == [h[|h| - 1]];
    }
  }

  /** GetEtag: the If-None-Match header, else If-Match; quotes are
      stripped only when the value both starts and ends with one; a value
      that does not parse is a bad request; no header gives no etag. */
  function GetEtag(ifNoneMatch: Option<string>, ifMatch: Option<string>, tryParse: string -> Option<nat>)
    : (r: Result<Option<nat>, ApiError>)
    ensures ifNoneMatch.None? && ifMatch.None? ==> r == Success(None)
    ensures var h := if ifNoneMatch.Some? then ifNoneMatch else ifMatch;
      h.Some? ==>
        && (h.value == "\"" ==> r == Failure(OutOfRange))
        && (h.value != "\"" ==>
              var text := if Quoted(h.value) then h.value[1..|h.value| - 1] else h.value;
              && (r.Success? <==> tryParse(text).Some?)
              && (r.Success? ==> r.value == Some(tryParse(text).value))
              && (r.Failure? ==> r.error == BadRequest(UnparsableEtagMessage)))
  {
    var h := if ifNoneMatch.Some? then ifNoneMatch else ifMatch;
    if h.None? then Success(None)
    else
      var quoted := Quoted(h.value);
      if quoted && |h.value| < 2 then Failure(OutOfRange)
      else
        var text := if quoted then h.value[1..|h.value| - 1] else h.value;
        var e := tryParse(text);
        if e.None? then Failure(BadRequest(UnparsableEtagMessage))
        else Success(Some(e.value))
  }

  /** A quoted etag in either header is read without its quotes. */
  lemma GetEtagUnquotes(s: string, tryParse: string -> Option<nat>)
    requires tryParse(s).Some?
    ensures GetEtag(Some("\"" + s + "\""), None, tryParse) == Success(tryParse(s))
    ensures GetEtag(None, Some("\"" + s + "\""), tryParse) == Success(tryParse(s))
  {
    var h := "\"" + s + "\"";
    assert h[..1] == "\"" && h[|h| - 1..] == "\"";
    assert h[1..|h| - 1] == s;
  }

  /** An etag sent bare in either header is read as it is, provided it is
      not itself wrapped in quotes; one that does not parse is a bad
      request. */
  lemma GetEtagBare(s: string, tryParse: string -> Option<nat>)
    requires !Quoted(s)
    ensures GetEtag(Some(s), None, tryParse) ==
      (if tryParse(s).Some? then Success(tryParse(s)) else Failure(BadRequest(UnparsableEtagMessage)))
    ensures GetEtag(None, Some(s), tryParse) == GetEtag(Some(s), None, tryParse)
  {
  }

  datatype TransactionInformation = TransactionInformation(id: string, timeout: int)

  const TransactionSeparator: string := ", "
  const TransactionFormatMessage: string :=
    "'Raven-Transaction-Information' is in invalid format, expected format is: 'xxxxxxxx-xxxx-xxxx-xxxx-xxxxxxxxxxxx, hh:mm:ss'"

  /** GetRequestTransaction: no header or an empty one means no
      transaction; otherwise the value split on ", " (empty pieces
      dropped) must give exactly an id and a timeout, and the timeout must
      parse. */
  function GetRequestTransaction(header: Option<string>, parseTimeout: string -> Option<int>)
    : (r: Result<Option<TransactionInformation>, ApiError>)
    ensures header.None? || header.value == "" ==> r == Success(None)
    ensures header.Some? && header.value != "" ==>
      var parts := NonEmpty(Split(header.value, TransactionSeparator));
      && (|parts| != 2 ==> r.Failure? && r.error.InvalidArgument?)
      && (|parts| == 2 && parseTimeout(parts[1]).None? ==> r == Failure(InvalidFormat))
      && (|parts| == 2 && parseTimeout(parts[1]).Some? ==>
            r == Success(Some(TransactionInformation(parts[0], parseTimeout(parts[1]).value))))
    ensures r.Success? && r.value.Some? ==> r.value.value.id != "" && !Contains(r.value.value.id, TransactionSeparator)
  {
    if header.None? || header.value == "" then Success(None)
    else
      var parts := NonEmpty(Split(header.value, TransactionSeparator));
      if |parts| != 2 then
        Failure(InvalidArgument(TransactionFormatMessage))
      else
        var timeout := parseTimeout(parts[1]);
        if timeout.None? then Failure(InvalidFormat)
        else
          PartsHaveNoSeparator(header.value);
          Success(Some(TransactionInformation(parts[0], timeout.value)))
  }

  /** The pieces kept after splitting on ", " are non-empty and free of it. */
  lemma PartsHaveNoSeparator(s: string)
    ensures var parts := NonEmpty(Split(s, TransactionSeparator));
      forall i :: 0 <= i < |parts| ==> parts[i] != "" && !Contains(parts[i], TransactionSeparator)
  {
    var split := Split(s, TransactionSeparator);
    var parts := NonEmpty(split);
    forall i | 0 <= i < |parts| ensures parts[i] != "" && !Contains(parts[i], TransactionSeparator) {
      var j :| 0 <= j < |split| && split[j] == parts[i];
    }
  }

  /** The transaction header written as "<id>, <timeout>" is read back. */
  lemma {:induction false} GetRequestTransactionRoundTrip(id: string, timeout: string, parseTimeout: string -> Option<int>)
    requires id != "" && timeout != ""
    requires !Contains(id, TransactionSeparator) && !Contains(timeout, TransactionSeparator)
    requires parseTimeout(timeout).Some?
    ensures GetRequestTransaction(Some(id + TransactionSeparator + timeout), parseTimeout)
            == Success(Some(TransactionInformation(id, parseTimeout(timeout).value)))
  {
    var h := id + TransactionSeparator + timeout;
    assert h != "" by { assert |h| >= 2; }
    SplitTwo(id, timeout);
    assert [timeout][1..] == [];
    assert NonEmpty([timeout]) == [timeout];
    assert [id, timeout][1..] == [timeout];
    assert NonEmpty([id, timeout]) == [id, timeout];
  }

  /** Splitting "<a>, <b>" on ", " gives a and b when neither holds ", ". */
  lemma {:induction false} SplitTwo(a: string, b: string)
    requires !Contains(a, TransactionSeparator) && !Contains(b, TransactionSeparator)
    ensures Split(a + TransactionSeparator + b, TransactionSeparator) == [a, b]
  {
    var s := a + TransactionSeparator + b;
    var sep := TransactionSeparator;
    assert OccursAt(s, sep, |a|) by { assert s[|a|..|a| + 2] == sep; }
    NoSeparatorBefore(a, b);
    assert IndexOf(s, sep) == |a|;
    assert s[|a| + 2..] == b;
    assert s[..|a|] == a;
    assert Split(b, sep) == [b];
  }

  /** In "<a>, <b>", the separator does not start inside `a`. */
  lemma NoSeparatorBefore(a: string, b: string)
    requires !Contains(a, TransactionSeparator)
    ensures forall j :: 0 <= j < |a| ==> !OccursAt(a + TransactionSeparator + b, TransactionSeparator, j)
  {
    var s := a + TransactionSeparator + b;
    var sep := TransactionSeparator;
    forall j | 0 <= j < |a| ensures !OccursAt(s, sep, j) {
      if j + 2 <= |a| {
        assert s[j..j + 2] == a[j..j + 2];
        assert !OccursAt(a, sep, j);
      } else {
        assert s[j + 1] == ',' && sep[1] == ' ';
        assert s[j..j + 2][1] != sep[1];
      }
    }
  }

  /** The options of one highlighted field; parsing them is not visible
      here. */
  datatype HighlightedField = HighlightedField(field: string, fragmentLength: int, fragmentCount: int)

  /** Every entry parses and no field name repeats. */
  predicate HighlightsValid(values: seq<string>, tryParse: string -> Option<HighlightedField>) {
    && (forall i :: 0 <= i < |values| ==> tryParse(values[i]).Some?)
    && (forall i, j :: 0 <= i < j < |values| ==> tryParse(values[i]).value.field != tryParse(values[j]).value.field)
  }

  /** The fields already seen among `hs`. */
  function FieldsOf(hs: seq<HighlightedField>): (r: set<string>)
    ensures forall k :: 0 <= k < |hs| ==> hs[k].field in r
    ensures forall f :: f in r ==> exists k :: 0 <= k < |hs| && hs[k].field == f
  {
    if hs == [] then {}
    else
      var rest := FieldsOf(hs[..|hs| - 1]);
      assert forall k :: 0 <= k < |hs| - 1 ==> hs[..|hs| - 1][k] == hs[k];
      rest + {hs[|hs| - 1].field}
  }

  /** The loop of GetHighlightedFields over the highlight values. */
  method ParseHighlights(values: seq<string>, tryParse: string -> Option<HighlightedField>)
    returns (r: Result<seq<HighlightedField>, ApiError>)
    ensures r.Success? <==> HighlightsValid(values, tryParse)
    ensures r.Success? ==> |r.value| == |values| && forall i :: 0 <= i < |values| ==> r.value[i] == tryParse(values[i]).value
    ensures r.Failure? ==> r.error.BadRequest?
  {
    var fields: set<string> := {};
    var result: seq<HighlightedField> := [];
    var i := 0;
    while i < |values|
      invariant 0 <= i <= |values|
      invariant |result| == i && forall k :: 0 <= k < i ==> tryParse(values[k]).Some? && result[k] == tryParse(values[k]).value
      invariant forall a, b :: 0 <= a < b < i ==> result[a].field != result[b].field
      invariant fields == FieldsOf(result)
    {
      var parsed := tryParse(values[i]);
      if parsed.None? {
        return Failure(BadRequest(UnparsableHighlightMessage));
      }
      if parsed.value.field in fields {
        var k :| 0 <= k < |result| && result[k].field == parsed.value.field;
        assert tryParse(values[k]).value.field == tryParse(values[i]).value.field;
        return Failure(BadRequest(DuplicateHighlightMessage + parsed.value.field));
      }
      var next := result + [parsed.value];
      assert next[..|next| - 1] == result;
      fields := fields + {parsed.value.field};
      result := next;
      i := i + 1;
    }
    return Success(result);
  }

  /** GetHighlightedFields: the parsed "highlight" values in order; an
      entry that does not parse, or repeats an earlier field name, is a
      bad request. */
  method GetHighlightedFields(q: Query, tryParse: string -> Option<HighlightedField>)
    returns (r: Result<seq<HighlightedField>, ApiError>)
    ensures var values := GetQueryStringValues(q, "highlight");
      && (r.Success? <==> HighlightsValid(values, tryParse))
      && (r.Success? ==> |r.value| == |values| && forall i :: 0 <= i < |values| ==> r.value[i] == tryParse(values[i]).value)
      && (r.Failure? ==> r.error.BadRequest?)
  {
    r := ParseHighlights(GetQueryStringValues(q, "highlight"), tryParse);
  }

  /** The key names a query input: non-empty and starting with "qp-". */
  predicate IsInputKey(key: string) {
    key != "" && StartsWith(key, "qp-")
  }

  /** The input names carried by the keys of the pairs from index `i` on. */
  function NamesFrom(q: Query, i: nat): set<string>
    requires i <= |q|
    decreases |q| - i
  {
    if i == |q| then {}
    else (if IsInputKey(q[i].0) then {q[i].0[3..]} else {}) + NamesFrom(q, i + 1)
  }

  /** A key is an input key naming `k` exactly when it is "qp-" + k. */
  lemma InputKeyNames(key: string, k: string)
    ensures IsInputKey(key) && key[3..] == k <==> key == "qp-" + k
  {
    if key == "qp-" + k {
      assert key[..3] == "qp-";
    }
    if IsInputKey(key) && key[3..] == k {
      assert key == key[..3] + key[3..];
    }
  }

  /** `k` is named from index `i` on exactly when some later key is "qp-" + k. */
  lemma {:induction false} NamesFromMeaning(q: Query, i: nat, k: string)
    requires i <= |q|
    ensures k in NamesFrom(q, i) <==> exists j :: i <= j < |q| && q[j].0 == "qp-" + k
    decreases |q| - i
  {
    if i < |q| {
      NamesFromMeaning(q, i + 1, k);
      InputKeyNames(q[i].0, k);
    }
  }

  /** The loop of ExtractQueryInputs from the pair at index `i` on, adding
      to `acc`: each input key writes the first value of that key under the
      name after "qp-". */
  function CollectInputs(q: Query, i: nat, acc: map<string, string>): (r: map<string, string>)
    requires i <= |q|
    ensures forall k :: k in r <==> k in acc || k in NamesFrom(q, i)
    ensures forall k :: k in r ==> r[k] == if k in NamesFrom(q, i) then GetQueryStringValue(q, "qp-" + k).GetOr("") else acc[k]
    decreases |q| - i
  {
    if i == |q| then acc
    else
      var key := q[i].0;
      if IsInputKey(key) then
        assert key == "qp-" + key[3..] by { InputKeyNames(key, key[3..]); }
        CollectInputs(q, i + 1, acc[key[3..] := GetQueryStringValue(q, key).GetOr("")])
      else CollectInputs(q, i + 1, acc)
  }

  /** ExtractQueryInputs: every pair whose key starts with "qp-" gives an
      input named by the rest of the key, whose value is the first value of
      that key; all other pairs are ignored. */
  function ExtractQueryInputs(q: Query): (r: map<string, string>)
    ensures forall k :: k in r <==> exists j :: 0 <= j < |q| && q[j].0 == "qp-" + k
    ensures forall k :: k in r ==> GetQueryStringValue(q, "qp-" + k) == Some(r[k])
  {
    var r := CollectInputs(q, 0, map[]);
    forall k
      ensures k in r <==> exists j :: 0 <= j < |q| && q[j].0 == "qp-" + k
      ensures k in r ==> GetQueryStringValue(q, "qp-" + k) == Some(r[k])
    {
      NamesFromMeaning(q, 0, k);
    }
    r
  }
}
