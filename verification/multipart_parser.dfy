/** The multipart body parser of the RavenFS client (MultiPartParser),
    as a cursor over the bytes of the body. The delimiter of a part is
    "--" followed by the boundary (section 5.1.1 of RFC 2046). Bytes read
    into a line become the characters with the same code; the boundary is
    encoded back to bytes as UTF-8. */
module MultiPartParser {
  import opened Wrappers
  import opened Text
  import CI = CaseInsensitive

  newtype byte = x: int | 0 <= x < 256

  const CR: byte := 13
  const LF: byte := 10

  datatype ParseError =
    | HeaderWithoutColon         // "Header without : field"
    | MissingContentType         // the Content-Type header is absent and dereferenced
    | NoBoundary                 // "Could not figure out what the boundary is"

  /** `(char)b` for every byte read into a line. */
  function Decode(bs: seq<byte>): (s: string)
    ensures |s| == |bs|
    ensures forall i :: 0 <= i < |bs| ==> s[i] as int == bs[i] as int
  {
    seq(|bs|, i requires 0 <= i < |bs| => (bs[i] as int) as char)
  }

  predicate IsLatin1(s: string) {
    forall i :: 0 <= i < |s| ==> s[i] as int < 256
  }

  /** The bytes that decode to a string of one-byte characters. */
  function Latin1(s: string): (bs: seq<byte>)
    requires IsLatin1(s)
    ensures |bs| == |s|
    ensures Decode(bs) == s
  {
    seq(|s|, i requires 0 <= i < |s| => s[i] as int as byte)
  }

  /** `Encoding.UTF8.GetBytes` of one character. */
  function Utf8Char(c: char): (bs: seq<byte>)
    ensures 1 <= |bs| <= 4
    ensures (c as int < 0x80) <==> |bs| == 1
    ensures c as int < 0x80 ==> bs[0] as int == c as int
  {
    var n := c as int;
    if n < 0x80 then [n as byte]
    else if n < 0x800 then [(0xC0 + n / 64) as byte, (0x80 + n % 64) as byte]
    else if n < 0x10000 then [(0xE0 + n / 4096) as byte, (0x80 + (n / 64) % 64) as byte, (0x80 + n % 64) as byte]
    else [(0xF0 + n / 262144) as byte, (0x80 + (n / 4096) % 64) as byte, (0x80 + (n / 64) % 64) as byte,
          (0x80 + n % 64) as byte]
  }

  function Utf8(s: string): (bs: seq<byte>)
    ensures |bs| >= |s|
  {
    if s == [] then [] else Utf8Char(s[0]) + Utf8(s[1..])
  }

  predicate IsAscii(s: string) {
    forall i :: 0 <= i < |s| ==> s[i] as int < 0x80
  }

  /** An ASCII string is encoded one byte per character. */
  lemma {:induction false} Utf8OfAscii(s: string)
    requires IsAscii(s)
    ensures IsLatin1(s) && Utf8(s) == Latin1(s)
  {
    if s != [] {
      Utf8OfAscii(s[1..]);
      assert Latin1(s) == Latin1([s[0]]) + Latin1(s[1..]);
    }
  }

  /** ReadLine: the bytes up to the first LF as characters, with a CR
      right before the LF dropped, and the stream after the LF; at end of
      stream without an LF, no line and the stream is exhausted. */
  function ReadLine(input: seq<byte>): (r: (Option<string>, seq<byte>))
    ensures r.0.None? <==> LF !in input
    ensures r.0.None? ==> r.1 == []
    ensures r.0.Some? ==> |r.1| < |input|
    ensures r.0.Some? ==>
      var i := IndexOf(input, [LF]);
      && 0 <= i < |input| && LF !in input[..i]
      && r.1 == input[i + 1..]
      && Decode(input[..i]) == r.0.value + (if i > 0 && input[i - 1] == CR then "\r" else "")
      && '\n' !in r.0.value
  {
    var i := IndexOf(input, [LF]);
    if i < 0 then
      assert LF !in input by {
        forall j | 0 <= j < |input| ensures input[j] != LF {
          assert !OccursAt(input, [LF], j);
          assert input[j..j + 1] == [input[j]];
        }
      }
      (None, [])
    else
      assert OccursAt(input, [LF], i);
      assert input[i] == input[i..i + 1][0] == LF;
      assert forall j :: 0 <= j < i ==> input[j] != LF by {
        forall j | 0 <= j < i ensures input[j] != LF {
          assert !OccursAt(input, [LF], j);
          assert input[j..j + 1] == [input[j]];
        }
      }
      var text := Decode(input[..i]);
      var line := if i > 0 && input[i - 1] == CR then text[..i - 1] else text;
      assert text == line + (if i > 0 && input[i - 1] == CR then "\r" else "");
      (Some(line), input[i + 1..])
  }

  /** Equal sequences with equal tails have equal heads. */
  lemma CancelSuffix(a: string, b: string, t: string)
    requires a + t == b + t
    ensures a == b
  {
    assert a == (a + t)[..|a|];
    assert |a| == |b|;
    assert b == (b + t)[..|b|];
  }

  /** The bytes of a Latin-1 line without line feeds hold no LF. */
  lemma NoLFInLine(line: string)
    requires IsLatin1(line) && '\n' !in line
    ensures LF !in Latin1(line)
  {
    var bs := Latin1(line);
    forall j | 0 <= j < |bs| ensures bs[j] != LF {
      assert Decode(bs)[j] == line[j];
    }
  }

  /** A line ended by CRLF is read back without the CR. */
  lemma ReadLineCRLF(line: string, rest: seq<byte>)
    requires IsLatin1(line) && '\n' !in line
    ensures ReadLine(Latin1(line) + [CR, LF] + rest) == (Some(line), rest)
  {
    var bs := Latin1(line);
    NoLFInLine(line);
    var input := Latin1(line) + [CR, LF] + rest;
    assert input == bs + ([CR, LF] + rest);
    FirstLF(bs, [CR, LF] + rest, 1);
    var i := |bs| + 1;
    assert input[..i] == bs + [CR];
    assert input[i - 1] == CR;
    assert Decode(bs + [CR]) == line + "\r";
    var r := ReadLine(input);
    CancelSuffix(r.0.value, line, "\r");
  }

  /** A line ended by a bare LF, not ending in CR itself, is read back. */
  lemma ReadLineLF(line: string, rest: seq<byte>)
    requires IsLatin1(line) && '\n' !in line
    requires line == [] || line[|line| - 1] != '\r'
    ensures ReadLine(Latin1(line) + [LF] + rest) == (Some(line), rest)
  {
    var bs := Latin1(line);
    NoLFInLine(line);
    var input := Latin1(line) + [LF] + rest;
    assert input == bs + ([LF] + rest);
    FirstLF(bs, [LF] + rest, 0);
    var i := |bs|;
    assert input[..i] == bs;
    assert i > 0 ==> input[i - 1] != CR by {
      if i > 0 {
        assert input[i - 1] == bs[i - 1];
        assert Decode(bs)[i - 1] == line[i - 1];
      }
    }
    var r := ReadLine(input);
    assert r.0.value + "" == r.0.value;
  }

  /** A line written with CRLF, or with a bare LF when it does not end in
      CR, is read back unchanged and the rest of the stream is left. */
  lemma ReadLineRoundTrip(line: string, rest: seq<byte>)
    requires IsLatin1(line) && '\n' !in line
    ensures ReadLine(Latin1(line) + [CR, LF] + rest) == (Some(line), rest)
    ensures (line == [] || line[|line| - 1] != '\r') ==> ReadLine(Latin1(line) + [LF] + rest) == (Some(line), rest)
  {
    ReadLineCRLF(line, rest);
    if line == [] || line[|line| - 1] != '\r' {
      ReadLineLF(line, rest);
    }
  }

  /** The first LF of `pre + tail`, when `pre` has none and `tail` has
      its first one at `k`. */
  lemma FirstLF(pre: seq<byte>, tail: seq<byte>, k: nat)
    requires LF !in pre
    requires k < |tail| && tail[k] == LF && LF !in tail[..k]
    ensures IndexOf(pre + tail, [LF]) == |pre| + k
    ensures (pre + tail)[|pre| + k + 1..] == tail[k + 1..]
  {
    var s := pre + tail;
    assert OccursAt(s, [LF], |pre| + k) by {
      assert s[|pre| + k..|pre| + k + 1] == [LF];
    }
    forall j | 0 <= j < |pre| + k ensures !OccursAt(s, [LF], j) {
      if j < |pre| {
        assert s[j] == pre[j];
      } else {
        assert s[j] == tail[j - |pre|];
        assert tail[j - |pre|] in tail[..k];
      }
      assert s[j..j + 1] == [s[j]];
    }
  }

  /** The case-insensitive name/value collection of a part's headers. */
  type Headers = CI.Dict<string>

  /** The header lines up to the first empty line (or end of stream): each
      must hold ": ", and the text after the colon is stored under the text
      before it. */
  function ReadHeaderLines(input: seq<byte>, headers: Headers): (r: Result<(Headers, seq<byte>), ParseError>)
    ensures r.Success? ==> |r.value.1| <= |input| && r.value.1 == input[|input| - |r.value.1|..]
    ensures r.Success? && (LF !in input || ReadLine(input).0 == Some("")) ==> r.value.0 == headers
    ensures r.Failure? ==> r.error == HeaderWithoutColon
    decreases |input|
  {
    var (line, rest) := ReadLine(input);
    if line.None? || line.value == [] then Success((headers, rest))
    else
      var colon := IndexOf(line.value, ": ");
      if colon < 0 then Failure(HeaderWithoutColon)
      else ReadHeaderLines(rest, CI.Set(headers, line.value[..colon], line.value[colon + 1..]))
  }

  /** ReadHeaders: the line right after a boundary is skipped, then the
      header lines are read. */
  function ReadHeaders(input: seq<byte>): (r: Result<(Headers, seq<byte>), ParseError>)
    ensures r.Success? ==> |r.value.1| <= |input| && r.value.1 == input[|input| - |r.value.1|..]
    ensures r.Failure? ==> r.error == HeaderWithoutColon
  {
    var (_, rest) := ReadLine(input);
    ReadHeaderLines(rest, CI.Empty())
  }

  /** A header line splits at its first ": "; the value keeps the space. */
  lemma {:induction false} HeaderLineSplits(name: string, value: string)
    requires ':' !in name
    ensures IndexOf(name + ": " + value, ": ") == |name|
    ensures (name + ": " + value)[..|name|] == name
    ensures (name + ": " + value)[|name| + 1..] == " " + value
  {
    var line := name + ": " + value;
    assert OccursAt(line, ": ", |name|) by {
      assert line[|name|..|name| + 2] == ": ";
    }
    forall j | 0 <= j < |name| ensures !OccursAt(line, ": ", j) {
      assert line[j] == name[j];
      assert line[j..j + 2][0] == line[j];
    }
  }

  lemma {:induction false} HeaderLineIsLine(name: string, value: string)
    requires IsLatin1(name) && IsLatin1(value)
    requires '\n' !in name && '\n' !in value
    ensures IsLatin1(name + ": " + value) && '\n' !in name + ": " + value
  {
    var line := name + ": " + value;
    forall i | 0 <= i < |line| ensures line[i] as int < 256 && line[i] != '\n' {
      if i < |name| { assert line[i] == name[i]; }
      else if i >= |name| + 2 { assert line[i] == value[i - |name| - 2]; }
    }
  }

  /** A header a sender can write on one line: a name without ':' and a
      value, both one-byte characters without line feeds. */
  predicate WritableHeader(h: (string, string)) {
    IsLatin1(h.0) && IsLatin1(h.1) && ':' !in h.0 && '\n' !in h.0 && '\n' !in h.1
  }

  /** The bytes of header lines "name: value", each ended by CRLF. */
  function HeaderBytes(hs: seq<(string, string)>): seq<byte>
    requires forall i :: 0 <= i < |hs| ==> WritableHeader(hs[i])
  {
    if hs == [] then []
    else
      assert WritableHeader(hs[0]);
      HeaderLineIsLine(hs[0].0, hs[0].1);
      Latin1(hs[0].0 + ": " + hs[0].1) + [CR, LF] + HeaderBytes(hs[1..])
  }

  /** The collection after storing each header in turn, its value keeping
      the space after the colon; a later header replaces an earlier one
      of the same name in any case. */
  function StoreHeaders(headers: Headers, hs: seq<(string, string)>): Headers
    decreases |hs|
  {
    if hs == [] then headers else StoreHeaders(CI.Set(headers, hs[0].0, " " + hs[0].1), hs[1..])
  }

  /** Reading one header line stores it and goes on with the rest. */
  lemma {:induction false} ReadHeaderLineStep(name: string, value: string, more: seq<byte>, headers: Headers)
    requires WritableHeader((name, value))
    ensures IsLatin1(name + ": " + value)
    ensures ReadHeaderLines(Latin1(name + ": " + value) + [CR, LF] + more, headers)
            == ReadHeaderLines(more, CI.Set(headers, name, " " + value))
  {
    HeaderLineIsLine(name, value);
    var line := name + ": " + value;
    ReadLineRoundTrip(line, more);
    HeaderLineSplits(name, value);
    assert line != [] by { assert |line| >= 2; }
  }

  /** The empty line ends the headers and leaves the rest of the stream. */
  lemma {:induction false} ReadHeaderLinesEnd(rest: seq<byte>, headers: Headers)
    ensures ReadHeaderLines([CR, LF] + rest, headers) == Success((headers, rest))
  {
    ReadLineRoundTrip("", rest);
    assert Latin1("") + [CR, LF] + rest == [CR, LF] + rest;
  }

  /** Header lines written with CRLF and followed by the empty line are
      read back as those headers, in order, and the rest of the stream is
      left unread. */
  lemma {:induction false} ReadHeaderLinesRoundTrip(hs: seq<(string, string)>, rest: seq<byte>, headers: Headers)
    requires forall i :: 0 <= i < |hs| ==> WritableHeader(hs[i])
    ensures ReadHeaderLines(HeaderBytes(hs) + [CR, LF] + rest, headers) == Success((StoreHeaders(headers, hs), rest))
  {
    if hs == [] {
      assert HeaderBytes(hs) + [CR, LF] + rest == [CR, LF] + rest;
      ReadHeaderLinesEnd(rest, headers);
    } else {
      var (name, value) := hs[0];
      assert WritableHeader(hs[0]);
      HeaderLineIsLine(name, value);
      var more := HeaderBytes(hs[1..]) + [CR, LF] + rest;
      assert HeaderBytes(hs) + [CR, LF] + rest == Latin1(name + ": " + value) + [CR, LF] + more;
      ReadHeaderLineStep(name, value, more, headers);
      ReadHeaderLinesRoundTrip(hs[1..], rest, CI.Set(headers, name, " " + value));
    }
  }

  /** After a boundary, the rest of its line is skipped and the header
      block that follows is read into a fresh collection. */
  lemma {:induction false} ReadHeadersRoundTrip(skipped: string, hs: seq<(string, string)>, rest: seq<byte>)
    requires IsLatin1(skipped) && '\n' !in skipped
    requires forall i :: 0 <= i < |hs| ==> WritableHeader(hs[i])
    ensures ReadHeaders(Latin1(skipped) + [CR, LF] + HeaderBytes(hs) + [CR, LF] + rest)
            == Success((StoreHeaders(CI.Empty(), hs), rest))
  {
    var tail := HeaderBytes(hs) + [CR, LF] + rest;
    assert Latin1(skipped) + [CR, LF] + HeaderBytes(hs) + [CR, LF] + rest == Latin1(skipped) + [CR, LF] + tail;
    ReadLineRoundTrip(skipped, tail);
    ReadHeaderLinesRoundTrip(hs, rest, CI.Empty());
  }

  /** GetParameter as written: the value after the first occurrence of
      `attr`, either quoted or up to the next space. For an unquoted value
      followed by a space, the first character is dropped. */
  function GetParameter(header: string, attr: string): (r: Option<string>)
    ensures IndexOf(header, attr) < 0 ==> r.None?
    ensures IndexOf(header, attr) >= 0 && IndexOf(header, attr) + |attr| >= |header| ==> r.None?
    ensures IndexOf(header, attr) >= 0 && IndexOf(header, attr) + |attr| < |header| ==>
      var ap := IndexOf(header, attr) + |attr|;
      if header[ap] == '"' then
        var end := IndexOfFrom(header, "\"", ap + 1);
        (end < 0 ==> r.None?) && (end >= 0 ==> r == Some(header[ap + 1..end]) && '"' !in r.value)
      else
        var end := IndexOfFrom(header, " ", ap + 1);
        (end < 0 ==> r == Some(header[ap..])) && (end >= 0 ==> r == Some(header[ap + 1..end]))
  {
    var ap := IndexOf(header, attr);
    if ap < 0 || ap + |attr| >= |header| then None
    else
      var start := ap + |attr|;
      if header[start] == '"' then
        var end := IndexOfFrom(header, "\"", start + 1);
        if end < 0 then None
        else
          NoOccurrenceBefore(header, "\"", start + 1, end);
          Some(header[start + 1..end])
      else
        var end := IndexOfFrom(header, " ", start + 1);
        if end < 0 then Some(header[start..]) else Some(header[start + 1..end])
  }

  /** GetParameter as evidently intended: an unquoted value runs from its
      first character up to the next space. */
  function GetParameterFixed(header: string, attr: string): (r: Option<string>)
    ensures IndexOf(header, attr) < 0 ==> r.None?
    ensures IndexOf(header, attr) >= 0 && IndexOf(header, attr) + |attr| >= |header| ==> r.None?
    ensures r.Some? && header[IndexOf(header, attr) + |attr|] != '"' ==> r.value != [] && ' ' !in r.value[1..]
    ensures r.Some? && header[IndexOf(header, attr) + |attr|] == '"' ==> '"' !in r.value
  {
    var ap := IndexOf(header, attr);
    if ap < 0 || ap + |attr| >= |header| then None
    else
      var start := ap + |attr|;
      if header[start] == '"' then
        var end := IndexOfFrom(header, "\"", start + 1);
        if end < 0 then None
        else
          NoOccurrenceBefore(header, "\"", start + 1, end);
          Some(header[start + 1..end])
      else
        var end := IndexOfFrom(header, " ", start + 1);
        var stop := if end < 0 then |header| else end;
        NoOccurrenceBefore(header, " ", start + 1, stop);
        assert header[start..stop][1..] == header[start + 1..stop];
        if end < 0 then Some(header[start..]) else Some(header[start..end])
  }

  /** The corrected GetParameter at a known attribute position and end. */
  lemma FixedValueAt(h: string, attr: string, start: nat, end: int)
    requires 0 <= IndexOf(h, attr) && IndexOf(h, attr) + |attr| == start < |h|
    requires end == IndexOfFrom(h, if h[start] == '"' then "\"" else " ", start + 1)
    ensures end >= 0 && h[start] == '"' ==> GetParameterFixed(h, attr) == Some(h[start + 1..end])
    ensures end >= 0 && h[start] != '"' ==> GetParameterFixed(h, attr) == Some(h[start..end])
    ensures end < 0 && h[start] != '"' ==> GetParameterFixed(h, attr) == Some(h[start..])
  {
  }

  /** Before the first occurrence found by a search, the one-character
      pattern does not occur. */
  lemma NoOccurrenceBefore(s: string, pattern: string, from: nat, end: int)
    requires |pattern| == 1 && from <= |s|
    requires end == (if IndexOfFrom(s, pattern, from) < 0 then |s| else IndexOfFrom(s, pattern, from))
    ensures from <= end <= |s|
    ensures pattern[0] !in s[from..end]
  {
    forall j | from <= j < end ensures s[j] != pattern[0] {
      assert !OccursAt(s, pattern, j);
      assert s[j..j + 1] == [s[j]];
    }
  }

  /** The attribute's first occurrence in a header that starts with
      `pre + attr` is right after `pre`. */
  lemma FirstAttr(pre: string, attr: string, h: string)
    requires forall j :: 0 <= j < |pre| ==> !OccursAt(pre + attr, attr, j)
    requires |pre| + |attr| <= |h| && h[..|pre| + |attr|] == pre + attr
    ensures IndexOf(h, attr) == |pre|
  {
    var p := pre + attr;
    assert h[|pre|..|pre| + |attr|] == p[|pre|..] == attr;
    forall j | 0 <= j < |pre| ensures !OccursAt(h, attr, j) {
      assert !OccursAt(p, attr, j);
      assert j + |attr| <= |p|;
      assert h[j..j + |attr|] == h[..|p|][j..j + |attr|];
    }
    assert OccursAt(h, attr, |pre|);
  }

  /** The corrected GetParameter reads back an unquoted value followed
      by a space. */
  lemma {:induction false} GetParameterFixedUnquoted(pre: string, attr: string, v: string, rest: string)
    requires forall j :: 0 <= j < |pre| ==> !OccursAt(pre + attr, attr, j)
    requires v != [] && v[0] != '"' && ' ' !in v
    ensures GetParameterFixed(pre + attr + v + " " + rest, attr) == Some(v)
  {
    var start := |pre| + |attr|;
    var h := pre + attr + v + " " + rest;
    assert h[..start] == pre + attr;
    FirstAttr(pre, attr, h);
    assert h[start..start + |v|] == v;
    assert h[start + |v|] == ' ';
    assert h[start] == v[0] != '"';
    SpaceAt(h, start, v);
    FixedValueAt(h, attr, start, start + |v|);
  }

  /** ... and an unquoted value that ends the header. */
  lemma {:induction false} GetParameterFixedUnquotedAtEnd(pre: string, attr: string, v: string)
    requires forall j :: 0 <= j < |pre| ==> !OccursAt(pre + attr, attr, j)
    requires v != [] && v[0] != '"' && ' ' !in v
    ensures GetParameterFixed(pre + attr + v, attr) == Some(v)
  {
    var start := |pre| + |attr|;
    var h := pre + attr + v;
    assert h[..start] == pre + attr;
    FirstAttr(pre, attr, h);
    assert h[start..] == v;
    assert h[start] == v[0] != '"';
    NoSpaceAfter(h, start, v);
    FixedValueAt(h, attr, start, -1);
  }

  /** ... and a quoted value, without its quotes. */
  lemma {:induction false} GetParameterFixedQuoted(pre: string, attr: string, q: string, rest: string)
    requires forall j :: 0 <= j < |pre| ==> !OccursAt(pre + attr, attr, j)
    requires '"' !in q
    ensures GetParameterFixed(pre + attr + "\"" + q + "\"" + rest, attr) == Some(q)
  {
    var start := |pre| + |attr|;
    var h := pre + attr + "\"" + q + "\"" + rest;
    assert h[..start] == pre + attr;
    FirstAttr(pre, attr, h);
    assert h[start] == '"';
    assert h[start + 1 + |q|] == '"';
    assert h[start + 1..start + 1 + |q|] == q;
    QuoteAt(h, start, q);
    FixedValueAt(h, attr, start, start + 1 + |q|);
    assert GetParameterFixed(h, attr) == Some(h[start + 1..start + 1 + |q|]);
  }

  lemma SpaceAt(h: string, start: nat, v: string)
    requires v != [] && ' ' !in v && start + |v| < |h| && h[start..start + |v|] == v && h[start + |v|] == ' '
    ensures IndexOfFrom(h, " ", start + 1) == start + |v|
  {
    assert OccursAt(h, " ", start + |v|) by { assert h[start + |v|..start + |v| + 1] == " "; }
    forall j | start + 1 <= j < start + |v| ensures !OccursAt(h, " ", j) {
      assert h[j] == v[j - start];
      assert h[j..j + 1] == [h[j]];
    }
    var r := IndexOfFrom(h, " ", start + 1);
    assert r != -1;
  }

  lemma NoSpaceAfter(h: string, start: nat, v: string)
    requires ' ' !in v && start + |v| == |h| && h[start..] == v && v != []
    ensures IndexOfFrom(h, " ", start + 1) == -1
  {
    forall j | start + 1 <= j ensures !OccursAt(h, " ", j) {
      if j < |h| {
        assert h[j] == v[j - start];
        assert h[j..j + 1] == [h[j]];
      }
    }
  }

  lemma QuoteAt(h: string, start: nat, q: string)
    requires '"' !in q && start + |q| + 1 < |h| && h[start] == '"' && h[start + 1..start + 1 + |q|] == q
    requires h[start + 1 + |q|] == '"'
    ensures IndexOfFrom(h, "\"", start + 1) == start + 1 + |q|
  {
    assert OccursAt(h, "\"", start + 1 + |q|) by { assert h[start + 1 + |q|..start + 2 + |q|] == "\""; }
    forall j | start + 1 <= j < start + 1 + |q| ensures !OccursAt(h, "\"", j) {
      assert h[j] == q[j - start - 1];
      assert h[j..j + 1] == [h[j]];
    }
    var r := IndexOfFrom(h, "\"", start + 1);
    assert r != -1;
  }

  /** As written, an unquoted value followed by a space loses its first
      character: "; boundary=ab c" gives "b". */
  lemma {:induction false} GetParameterDropsFirstCharacter(pre: string, attr: string, v: string, rest: string)
    requires forall j :: 0 <= j < |pre| ==> !OccursAt(pre + attr, attr, j)
    requires v != [] && v[0] != '"' && ' ' !in v
    ensures GetParameter(pre + attr + v + " " + rest, attr) == Some(v[1..])
  {
    var start := |pre| + |attr|;
    var h := pre + attr + v + " " + rest;
    assert h[..start] == pre + attr;
    FirstAttr(pre, attr, h);
    assert h[start..start + |v|] == v;
    assert h[start] == v[0] != '"';
    assert h[start + |v|] == ' ';
    SpaceAt(h, start, v);
    assert h[start + 1..start + |v|] == v[1..];
  }

  /** "; boundary=ab c" yields "b" as written and "ab" when corrected. */
  lemma BoundaryExample()
    ensures GetParameter("; boundary=ab c", "; boundary=") == Some("b")
    ensures GetParameterFixed("; boundary=ab c", "; boundary=") == Some("ab")
  {
    assert "" + "; boundary=" + "ab" + " " + "c" == "; boundary=ab c";
    assert "ab"[1..] == "b";
    GetParameterDropsFirstCharacter("", "; boundary=", "ab", "c");
    GetParameterFixedUnquoted("", "; boundary=", "ab", "c");
  }

  /** The parser after its constructor: the delimiter bytes and the
      stream positioned after the body's own headers. */
  datatype Parser = Parser(boundary: seq<byte>, rest: seq<byte>)

  const BoundaryAttribute: string := "; boundary="

  /** The boundary parameter of the Content-Type header. */
  function BoundaryParameter(headers: Headers): (r: Result<string, ParseError>)
    ensures CI.Get(headers, "Content-Type").None? ==> r == Failure(MissingContentType)
    ensures CI.Get(headers, "Content-Type").Some? ==>
      var b := GetParameterFixed(CI.Get(headers, "Content-Type").value, BoundaryAttribute);
      (b.None? ==> r == Failure(NoBoundary)) && (b.Some? ==> r == Success(b.value))
  {
    var contentType := CI.Get(headers, "Content-Type");
    if contentType.None? then Failure(MissingContentType)
    else
      var b := GetParameterFixed(contentType.value, BoundaryAttribute);
      if b.None? then Failure(NoBoundary) else Success(b.value)
  }

  /** The delimiter bytes: "--" followed by the boundary, as UTF-8. */
  function Delimiter(boundary: string): (bs: seq<byte>)
    ensures |bs| >= 2 && bs[..2] == [45, 45]
  {
    var s := "--" + boundary;
    assert s[0] == '-' && s[1..] == "-" + boundary;
    assert ("-" + boundary)[0] == '-' && ("-" + boundary)[1..] == boundary;
    assert Utf8(s) == [45 as byte] + ([45 as byte] + Utf8(boundary));
    Utf8(s)
  }

  /** The constructor: reads the headers, takes the boundary parameter of
      Content-Type and builds the delimiter from it. */
  function Create(input: seq<byte>): (r: Result<Parser, ParseError>)
    ensures ReadHeaders(input).Failure? ==> r == Failure(ReadHeaders(input).error)
    ensures ReadHeaders(input).Success? ==>
      var b := BoundaryParameter(ReadHeaders(input).value.0);
      && (b.Failure? ==> r == Failure(b.error))
      && (b.Success? ==> r == Success(Parser(Delimiter(b.value), ReadHeaders(input).value.1)))
    ensures r.Success? ==> |r.value.boundary| >= 2 && r.value.boundary[..2] == [45, 45]
  {
    match ReadHeaders(input)
    case Failure(e) => Failure(e)
    case Success((headers, rest)) =>
      match BoundaryParameter(headers)
      case Failure(e) => Failure(e)
      case Success(b) => Success(Parser(Delimiter(b), rest))
  }

  /** The scan of ReadUntilBoundary from index `i`, having matched the
      first `matched` delimiter bytes: on a mismatch it starts over at the
      NEXT byte. The result is the position right after the delimiter it
      detects. */
  function ScanBoundary(input: seq<byte>, boundary: seq<byte>, i: nat, matched: nat): (r: Option<nat>)
    requires 0 < |boundary| && matched < |boundary| && matched <= i <= |input|
    requires input[i - matched..i] == boundary[..matched]
    ensures r.Some? ==> i < r.value <= |input| && |boundary| <= r.value
    ensures r.Some? ==> input[r.value - |boundary|..r.value] == boundary
    decreases |input| - i
  {
    if i == |input| then None
    else if boundary[matched] == input[i] then
      assert input[i - matched..i + 1] == input[i - matched..i] + [input[i]];
      assert boundary[..matched + 1] == boundary[..matched] + [boundary[matched]];
      if matched + 1 == |boundary| then Some(i + 1)
      else ScanBoundary(input, boundary, i + 1, matched + 1)
    else ScanBoundary(input, boundary, i + 1, 0)
  }

  /** ReadUntilBoundary as written: the stream after the delimiter the
      scan detects, or false with the stream exhausted. Whatever it
      detects is a real delimiter. */
  function ReadUntilBoundary(input: seq<byte>, boundary: seq<byte>): (r: (bool, seq<byte>))
    requires 0 < |boundary|
    ensures !r.0 ==> r.1 == []
    ensures r.0 ==> exists k :: OccursAt(input, boundary, k) && r.1 == input[k + |boundary|..]
  {
    match ScanBoundary(input, boundary, 0, 0)
    case None => (false, [])
    case Some(e) =>
      assert OccursAt(input, boundary, e - |boundary|);
      (true, input[e..])
  }

  /** ReadUntilBoundary as evidently intended: the stream after the first
      occurrence of the delimiter, or false with the stream exhausted when
      there is none. */
  function ReadUntilBoundaryFixed(input: seq<byte>, boundary: seq<byte>): (r: (bool, seq<byte>))
    requires 0 < |boundary|
    ensures r.0 <==> Contains(input, boundary)
    ensures !r.0 ==> r.1 == []
    ensures r.0 ==> r.1 == input[IndexOf(input, boundary) + |boundary|..] && |r.1| < |input|
  {
    var i := IndexOf(input, boundary);
    if i < 0 then (false, []) else (true, input[i + |boundary|..])
  }

  /** What the scan as written detects, the corrected search finds too. */
  lemma ReadUntilBoundarySound(input: seq<byte>, boundary: seq<byte>)
    requires 0 < |boundary|
    ensures ReadUntilBoundary(input, boundary).0 ==> ReadUntilBoundaryFixed(input, boundary).0
  {
    if ReadUntilBoundary(input, boundary).0 {
      var k :| OccursAt(input, boundary, k);
    }
  }

  /** As written, a mismatch restarts the scan at the next byte, so the
      delimiter "--a" inside "---a" is missed. */
  lemma ReadUntilBoundaryMissesOverlap()
    ensures ReadUntilBoundary([45, 45, 45, 97], [45, 45, 97]) == (false, [])
    ensures ReadUntilBoundaryFixed([45, 45, 45, 97], [45, 45, 97]) == (true, [])
  {
    var input: seq<byte> := [45, 45, 45, 97];
    var b: seq<byte> := [45, 45, 97];
    assert ScanBoundary(input, b, 4, 0) == None;
    assert ScanBoundary(input, b, 3, 0) == None;
    assert ScanBoundary(input, b, 2, 2) == None;
    assert ScanBoundary(input, b, 1, 1) == None;
    assert ScanBoundary(input, b, 0, 0) == None;
    assert !OccursAt(input, b, 0);
    assert OccursAt(input, b, 1);
    assert IndexOf(input, b) == 1;
  }

  /** Next: skips to the next delimiter, reads the part's headers and
      returns them when Content-Disposition mentions "filename=";
      other parts are skipped. Without a further delimiter there is no
      part and the stream is exhausted. The part's content is where the
      returned parser stands. */
  function Next(p: Parser): (r: Result<(Option<Headers>, Parser), ParseError>)
    requires 0 < |p.boundary|
    ensures r.Success? ==> r.value.1.boundary == p.boundary && |r.value.1.rest| <= |p.rest|
    ensures r.Success? && r.value.0.None? ==> r.value.1.rest == []
    ensures r.Success? && r.value.0.Some? ==>
      var cd := CI.Get(r.value.0.value, "Content-Disposition");
      cd.Some? && Contains(cd.value, "filename=")
    ensures !Contains(p.rest, p.boundary) ==> r == Success((None, p.(rest := [])))
    decreases |p.rest|
  {
    var (found, rest) := ReadUntilBoundaryFixed(p.rest, p.boundary);
    if !found then Success((None, p.(rest := [])))
    else
      match ReadHeaders(rest)
      case Failure(e) => Failure(e)
      case Success((headers, after)) =>
        var cd := CI.Get(headers, "Content-Disposition");
        if cd.None? || !Contains(cd.value, "filename=") then Next(p.(rest := after))
        else Success((Some(headers), p.(rest := after)))
  }

  /** A file part right after the first delimiter is the one returned. */
  lemma NextFindsFilePart(p: Parser, pre: seq<byte>, tail: seq<byte>, headers: Headers, after: seq<byte>)
    requires 0 < |p.boundary|
    requires p.rest == pre + p.boundary + tail
    requires forall j :: 0 <= j < |pre| ==> !OccursAt(pre + p.boundary, p.boundary, j)
    requires ReadHeaders(tail) == Success((headers, after))
    requires CI.Get(headers, "Content-Disposition").Some?
    requires Contains(CI.Get(headers, "Content-Disposition").value, "filename=")
    ensures Next(p) == Success((Some(headers), Parser(p.boundary, after)))
  {
    FirstOccurrence(pre, p.boundary, tail);
    assert p.rest[|pre| + |p.boundary|..] == tail;
  }

  /** The first occurrence of `b` in `pre + b + tail` is right after `pre`. */
  lemma FirstOccurrence(pre: seq<byte>, b: seq<byte>, tail: seq<byte>)
    requires forall j :: 0 <= j < |pre| ==> !OccursAt(pre + b, b, j)
    ensures IndexOf(pre + b + tail, b) == |pre|
  {
    var h := pre + b + tail;
    forall j | 0 <= j < |pre| ensures !OccursAt(h, b, j) {
      assert !OccursAt(pre + b, b, j);
      assert h[j..j + |b|] == (pre + b)[j..j + |b|];
    }
    assert h[|pre|..|pre| + |b|] == b;
    assert OccursAt(h, b, |pre|);
  }
}
