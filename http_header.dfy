/**
 * The pure half of the HTTP/1.1 client: splitting a URL into host name and page, stripping
 * leading spaces, and parsing a response header block (status line as in section 3.1.2 of
 * RFC 7230, header fields as in section 3.2 of RFC 7230, in the simplified form the client uses).
 */
module HttpHeader {
  import opened Wrappers
  import opened Strings

  const SCHEME_SEPARATOR := "://"

  // ---------------------------------------------------------------- URLs

  /** `url_get_host_name`: the text after "://" up to the next '/', or "" without "://". */
  function HostName(url: string): (r: string)
    ensures Find(url, SCHEME_SEPARATOR).None? ==> r == ""
    ensures '/' !in r
    ensures Find(url, SCHEME_SEPARATOR).Some? ==>
              var start := Find(url, SCHEME_SEPARATOR).value + 3;
              && start + |r| <= |url| && url[start..start + |r|] == r
              && (start + |r| == |url| || url[start + |r|] == '/')
  {
    match Find(url, SCHEME_SEPARATOR)
    case None => ""
    case Some(p) => url[p + 3..IndexOfChar(url, p + 3, '/')]
  }

  /** `get_page_url`: the path from the first '/' after the host on, "/" if there is none. */
  function PageUrl(url: string): (r: string)
    ensures Find(url, SCHEME_SEPARATOR).None? ==> r == ""
    ensures Find(url, SCHEME_SEPARATOR).Some? ==> |r| > 0 && r[0] == '/'
  {
    match Find(url, SCHEME_SEPARATOR)
    case None => ""
    case Some(p) =>
      var res := url[IndexOfChar(url, p + 3, '/')..];
      if res == "" then "/" else res
  }

  /** Scheme and separator, host, and page put back together give the URL again. */
  lemma UrlReassembly(url: string)
    requires Find(url, SCHEME_SEPARATOR).Some?
    ensures var start := Find(url, SCHEME_SEPARATOR).value + 3;
            if '/' in url[start..] then url == url[..start] + HostName(url) + PageUrl(url)
            else url == url[..start] + HostName(url) && PageUrl(url) == "/"
  {
    var start := Find(url, SCHEME_SEPARATOR).value + 3;
    var k := IndexOfChar(url, start, '/');
    if '/' in url[start..] {
      var j :| start <= j < |url| && url[j] == '/';
      assert k < |url|;
      assert url == url[..start] + url[start..k] + url[k..];
    } else {
      assert url == url[..start] + url[start..k];
    }
  }

  // ---------------------------------------------------------------- leading spaces

  /** The input without its leading ' ' characters. */
  function StripLeadingSpaces(s: string): (r: string)
    decreases |s|
    ensures |r| <= |s|
    ensures r == [] || r[0] != ' '
  {
    if |s| > 0 && s[0] == ' ' then StripLeadingSpaces(s[1..]) else s
  }

  /** The stripped text is a suffix, everything removed was ' ', and it starts with no ' '. */
  lemma {:induction false} StripLeadingSpacesIsSuffix(s: string)
    ensures |StripLeadingSpaces(s)| <= |s|
    ensures StripLeadingSpaces(s) == s[|s| - |StripLeadingSpaces(s)|..]
    ensures forall i :: 0 <= i < |s| - |StripLeadingSpaces(s)| ==> s[i] == ' '
    ensures StripLeadingSpaces(s) == [] || StripLeadingSpaces(s)[0] != ' '
    decreases |s|
  {
    if |s| > 0 && s[0] == ' ' {
      StripLeadingSpacesIsSuffix(s[1..]);
    }
  }

  lemma {:induction false} StripLeadingSpacesIdempotent(s: string)
    ensures StripLeadingSpaces(StripLeadingSpaces(s)) == StripLeadingSpaces(s)
  {
    StripLeadingSpacesIsSuffix(s);
  }

  lemma {:induction false} StripLeadingSpacesFrom(s: string, i: nat)
    requires i <= |s| && forall j :: 0 <= j < i ==> s[j] == ' '
    ensures StripLeadingSpaces(s) == StripLeadingSpaces(s[i..])
    decreases i
  {
    if i > 0 {
      assert s[1..][i - 1..] == s[i..];
      StripLeadingSpacesFrom(s[1..], i - 1);
    }
  }

  /** `remove_leading_whitespaces`. */
  method RemoveLeadingWhitespaces(str: string) returns (r: string)
    ensures r == StripLeadingSpaces(str)
  {
    var i := 0;
    while i < |str| && str[i] == ' '
      invariant i <= |str|
      invariant forall j :: 0 <= j < i ==> str[j] == ' '
    {
      i := i + 1;
    }
    StripLeadingSpacesFrom(str, i);
    r := str[i..|str|];
  }

  // ---------------------------------------------------------------- header lines

  /** The lines of `h` split at '\n', built the way the splitting loop builds them. */
  function SplitLines(h: string): (lines: seq<string>)
    decreases |h|
    ensures |lines| >= 1
  {
    if |h| == 0 then [""]
    else
      var prev := SplitLines(h[..|h| - 1]);
      if h[|h| - 1] == '\n' then prev + [""]
      else prev[..|prev| - 1] + [prev[|prev| - 1] + [h[|h| - 1]]]
  }

  function JoinLines(lines: seq<string>): string
    requires |lines| >= 1
    decreases |lines|
  {
    if |lines| == 1 then lines[0] else JoinLines(lines[..|lines| - 1]) + "\n" + lines[|lines| - 1]
  }

  lemma JoinAppendChar(lines: seq<string>, c: char)
    requires |lines| >= 1
    ensures JoinLines(lines[..|lines| - 1] + [lines[|lines| - 1] + [c]]) == JoinLines(lines) + [c]
  {
    var n := |lines| - 1;
    var lines' := lines[..n] + [lines[n] + [c]];
    if n > 0 {
      assert lines'[..n] == lines[..n];
      var j := JoinLines(lines[..n]);
      assert JoinLines(lines') == j + "\n" + (lines[n] + [c]);
      assert JoinLines(lines) == j + "\n" + lines[n];
      assert j + "\n" + (lines[n] + [c]) == (j + "\n" + lines[n]) + [c];
    }
  }

  lemma JoinAppendEmpty(lines: seq<string>)
    requires |lines| >= 1
    ensures JoinLines(lines + [""]) == JoinLines(lines) + "\n"
  {
    assert (lines + [""])[..|lines|] == lines;
  }

  /** Splitting loses nothing: no line holds '\n', and joining the lines with '\n' gives `h` back. */
  lemma {:induction false} SplitLinesRoundTrip(h: string)
    ensures forall i :: 0 <= i < |SplitLines(h)| ==> '\n' !in SplitLines(h)[i]
    ensures JoinLines(SplitLines(h)) == h
    decreases |h|
  {
    if |h| > 0 {
      var h' := h[..|h| - 1];
      var c := h[|h| - 1];
      SplitLinesRoundTrip(h');
      assert h == h' + [c];
      if c == '\n' {
        JoinAppendEmpty(SplitLines(h'));
      } else {
        JoinAppendChar(SplitLines(h'), c);
      }
    }
  }

  /** One trailing '\r' removed, as the cleaning loop does. */
  function DropCr(line: string): (r: string)
    ensures line == r || line == r + "\r"
  {
    if |line| > 0 && line[|line| - 1] == '\r' then line[..|line| - 1] else line
  }

  /** The cleaned lines: one trailing '\r' dropped, then empty lines skipped. */
  function CleanLines(lines: seq<string>): (r: seq<string>)
    decreases |lines|
    ensures forall i :: 0 <= i < |r| ==> |r[i]| > 0
    ensures |r| <= |lines|
  {
    if |lines| == 0 then []
    else
      var line := DropCr(lines[|lines| - 1]);
      CleanLines(lines[..|lines| - 1]) + (if line == "" then [] else [line])
  }

  /** Cleaning works line by line: the kept lines of `a + b` are those of `a`, then those of `b`. */
  lemma {:induction false} CleanLinesAppend(a: seq<string>, b: seq<string>)
    ensures CleanLines(a + b) == CleanLines(a) + CleanLines(b)
    decreases |b|
  {
    if |b| == 0 {
      assert a + b == a;
    } else {
      var b' := b[..|b| - 1];
      assert (a + b)[..|a + b| - 1] == a + b';
      CleanLinesAppend(a, b');
    }
  }

  /** A line is kept exactly when it is non-empty once its '\r' is dropped. */
  lemma {:induction false} CleanLinesMembers(lines: seq<string>, l: string)
    ensures l in CleanLines(lines) <==> l != "" && exists i :: 0 <= i < |lines| && DropCr(lines[i]) == l
    decreases |lines|
  {
    if |lines| > 0 {
      var init := lines[..|lines| - 1];
      CleanLinesMembers(init, l);
      assert forall i :: 0 <= i < |init| ==> init[i] == lines[i];
      if exists i :: 0 <= i < |lines| && DropCr(lines[i]) == l {
        var i :| 0 <= i < |lines| && DropCr(lines[i]) == l;
        if i < |init| {
          assert DropCr(init[i]) == l;
        }
      }
    }
  }

  // ---------------------------------------------------------------- status line

  /** `std::isspace` in the C locale. */
  predicate IsSpace(c: char) {
    c == ' ' || '\t' <= c <= '\r'
  }

  predicate IsDigit(c: char) {
    '0' <= c <= '9'
  }

  /** First index at or after `i` that is not white space. */
  function SkipSpaces(line: string, i: nat): (k: nat)
    requires i <= |line|
    decreases |line| - i
    ensures i <= k <= |line|
    ensures k < |line| ==> !IsSpace(line[k])
    ensures forall j :: i <= j < k ==> IsSpace(line[j])
  {
    if i < |line| && IsSpace(line[i]) then SkipSpaces(line, i + 1) else i
  }

  /** First index at or after `i` that is not a decimal digit. */
  function DigitsEnd(line: string, i: nat): (k: nat)
    requires i <= |line|
    decreases |line| - i
    ensures i <= k <= |line|
    ensures k < |line| ==> !IsDigit(line[k])
    ensures forall j :: i <= j < k ==> IsDigit(line[j])
  {
    if i < |line| && IsDigit(line[i]) then DigitsEnd(line, i + 1) else i
  }

  function DecimalValue(digits: string): (v: nat)
    requires forall i :: 0 <= i < |digits| ==> IsDigit(digits[i])
    decreases |digits|
  {
    if |digits| == 0 then 0
    else
      var d := digits[|digits| - 1];
      assert IsDigit(d);
      10 * DecimalValue(digits[..|digits| - 1]) + (d as int - '0' as int)
  }

  /**
   * `strtol(line + i, &end, 10)` when `line[i]` is not white space: an optional sign and a run of
   * decimal digits. `None` when no digit follows (strtol then leaves `end` at the start).
   * The value is unbounded: strtol's clamping on overflow is not modelled.
   */
  function StrToL(line: string, i: nat): (r: Option<(int, nat)>)
    requires i <= |line|
    ensures r.Some? ==> i < r.value.1 <= |line|
  {
    var signed := i < |line| && (line[i] == '+' || line[i] == '-');
    var start := if signed then i + 1 else i;
    var end := DigitsEnd(line, start);
    if end == start then None
    else
      var v: int := DecimalValue(line[start..end]);
      Some((if signed && line[i] == '-' then -v else v, end))
  }

  /** The decimal digits of `n`, most significant first, without leading zeros. */
  function ToDecimal(n: nat): (s: string)
    decreases n
    ensures |s| > 0 && forall i :: 0 <= i < |s| ==> IsDigit(s[i])
  {
    if n < 10 then [('0' as int + n) as char] else ToDecimal(n / 10) + [('0' as int + n % 10) as char]
  }

  lemma {:induction false} DecimalRoundTrip(n: nat)
    ensures DecimalValue(ToDecimal(n)) == n
    decreases n
  {
    if n >= 10 {
      DecimalRoundTrip(n / 10);
      var s := ToDecimal(n);
      assert s[..|s| - 1] == ToDecimal(n / 10);
    }
  }

  /** The scan for the end of a digit run stops exactly at the first non-digit. */
  lemma {:induction false} DigitsEndIs(line: string, i: nat, k: nat)
    requires i <= k <= |line|
    requires forall j :: i <= j < k ==> IsDigit(line[j])
    requires k == |line| || !IsDigit(line[k])
    ensures DigitsEnd(line, i) == k
    decreases k - i
  {
    if i < k {
      DigitsEndIs(line, i + 1, k);
    }
  }

  /** The digit run of `p + d + s` that starts after `p` is exactly `d` when `s` does not start with a digit. */
  lemma {:induction false} DigitsEndAfter(p: string, d: string, s: string)
    requires forall i :: 0 <= i < |d| ==> IsDigit(d[i])
    requires s == [] || !IsDigit(s[0])
    ensures DigitsEnd(p + d + s, |p|) == |p| + |d|
  {
    var line := p + d + s;
    forall j | |p| <= j < |p| + |d|
      ensures IsDigit(line[j])
    {
      assert line[j] == d[j - |p|];
    }
    if |s| > 0 {
      assert line[|p| + |d|] == s[0];
    }
    DigitsEndIs(line, |p|, |p| + |d|);
  }

  /** `strtol` reads back a number written in decimal and stops right after its last digit. */
  lemma {:induction false} StrToLRoundTrip(p: string, n: nat, s: string)
    requires s == [] || !IsDigit(s[0])
    ensures StrToL(p + ToDecimal(n) + s, |p|) == Some((n as int, |p| + |ToDecimal(n)|))
  {
    var digits := ToDecimal(n);
    var line := p + digits + s;
    assert line[|p|] == digits[0];
    DigitsEndAfter(p, digits, s);
    assert line[|p|..|p| + |digits|] == digits;
    DecimalRoundTrip(n);
  }

  /** With a minus sign in front, `strtol` reads back the negated number. */
  lemma {:induction false} StrToLRoundTripNegative(p: string, n: nat, s: string)
    requires s == [] || !IsDigit(s[0])
    ensures StrToL(p + "-" + ToDecimal(n) + s, |p|) == Some((-(n as int), |p| + 1 + |ToDecimal(n)|))
  {
    var digits := ToDecimal(n);
    var q := p + "-";
    var line := q + digits + s;
    assert p + "-" + digits + s == line;
    DigitsEndAfter(q, digits, s);
    assert line[|q|..|q| + |digits|] == digits;
    DecimalRoundTrip(n);
    StrToLMinus(line, |p|, |q| + |digits|);
  }

  /** `strtol` at a '-' followed by a run of digits up to `end` reads the negated digits. */
  lemma StrToLMinus(line: string, i: nat, end: nat)
    requires i < |line| && line[i] == '-'
    requires i + 1 < end <= |line| && DigitsEnd(line, i + 1) == end
    ensures StrToL(line, i) == Some((-(DecimalValue(line[i + 1..end]) as int), end))
  {
  }

  predicate IsStatusLine(line: string) {
    StartsWith(line, "HTTP/1.1") || StartsWith(line, "HTTP/1.0")
  }

  datatype ResponseHeader = ResponseHeader(statusCode: int, statusMessage: string, headers: map<string, string>)

  const EMPTY_RESPONSE := ResponseHeader(-1, "", map[])

  // ---------------------------------------------------------------- header fields

  /** The key and value a header line contributes, or none for a line without ':'. */
  function FieldOf(line: string): (r: Option<(string, string)>)
    ensures r.None? <==> ':' !in line
  {
    var colon := IndexOfChar(line, 0, ':');
    if colon == |line| then None
    else Some((StripLeadingSpaces(line[..colon]), StripLeadingSpaces(line[colon + 1..])))
  }

  /** The header map after the lines in order, a later key overwriting an earlier one. */
  function HeaderFields(lines: seq<string>): (r: map<string, string>)
    decreases |lines|
    ensures |lines| == 0 ==> r == map[]
    ensures |lines| > 0 && FieldOf(lines[|lines| - 1]).Some? ==>
              var (k, v) := FieldOf(lines[|lines| - 1]).value; k in r && r[k] == v
  {
    if |lines| == 0 then map[]
    else
      var m := HeaderFields(lines[..|lines| - 1]);
      match FieldOf(lines[|lines| - 1])
      case None => m
      case Some((k, v)) => m[k := v]
  }

  predicate HasKey(line: string, k: string) {
    FieldOf(line).Some? && FieldOf(line).value.0 == k
  }

  /** Line `i` is the last of `lines` that carries key `k`. */
  predicate LastWithKey(lines: seq<string>, k: string, i: int) {
    0 <= i < |lines| && HasKey(lines[i], k) && forall j :: i < j < |lines| ==> !HasKey(lines[j], k)
  }

  /** A key is in the map exactly when some line with a colon carries it. */
  lemma {:induction false} HeaderFieldsKeys(lines: seq<string>, k: string)
    ensures k in HeaderFields(lines) <==> exists i :: 0 <= i < |lines| && HasKey(lines[i], k)
    decreases |lines|
  {
    if |lines| > 0 {
      var init := lines[..|lines| - 1];
      var n := |lines| - 1;
      HeaderFieldsKeys(init, k);
      if !HasKey(lines[n], k) {
        if k in HeaderFields(init) {
          var i :| 0 <= i < n && HasKey(init[i], k);
          assert lines[i] == init[i];
        } else {
          forall i | 0 <= i < |lines|
            ensures !HasKey(lines[i], k)
          {
            if i < n {
              assert lines[i] == init[i];
            }
          }
        }
      }
    }
  }

  /** A key's value is the one from the last line that carries it. */
  lemma {:induction false} HeaderFieldsLastWins(lines: seq<string>, k: string)
    ensures k in HeaderFields(lines) ==>
              exists i :: LastWithKey(lines, k, i) && HeaderFields(lines)[k] == FieldOf(lines[i]).value.1
    decreases |lines|
  {
    if |lines| > 0 {
      var init := lines[..|lines| - 1];
      var n := |lines| - 1;
      if HasKey(lines[n], k) {
        assert LastWithKey(lines, k, n);
      } else if k in HeaderFields(init) {
        HeaderFieldsLastWins(init, k);
        var i :| LastWithKey(init, k, i) && HeaderFields(init)[k] == FieldOf(init[i]).value.1;
        assert lines[i] == init[i];
        forall j | i < j < |lines|
          ensures !HasKey(lines[j], k)
        {
          if j < n {
            assert lines[j] == init[j];
          }
        }
        assert LastWithKey(lines, k, i);
      }
    }
  }

  /** Keys and values never start with a space. */
  lemma FieldsHaveNoLeadingSpace(line: string)
    requires FieldOf(line).Some?
    ensures var (k, v) := FieldOf(line).value;
            (k == [] || k[0] != ' ') && (v == [] || v[0] != ' ')
  {
    var colon := IndexOfChar(line, 0, ':');
    StripLeadingSpacesIsSuffix(line[..colon]);
    StripLeadingSpacesIsSuffix(line[colon + 1..]);
  }

  // ---------------------------------------------------------------- parse_header

  /**
   * `status_message = status_line.c_str() + head`: the C string after the white space that
   * follows the code, so it stops at the first NUL byte; without a NUL it is the whole rest.
   */
  function StatusMessage(status: string, end: nat): (msg: string)
    requires end <= |status|
    ensures '\0' !in msg
    ensures var k := SkipSpaces(status, end);
              && k + |msg| <= |status| && status[k..k + |msg|] == msg
              && (k + |msg| == |status| || status[k + |msg|] == '\0')
    ensures '\0' !in status[SkipSpaces(status, end)..] ==> msg == status[SkipSpaces(status, end)..]
  {
    var k := SkipSpaces(status, end);
    var msg := TakeUntil(status, k, '\0');
    TakeUntilAbsent(status, k, '\0');
    msg
  }

  /** A NUL byte inside the status line ends the message. */
  lemma StatusMessageStopsAtNul()
    ensures StatusMessage("HTTP/1.1 200 OK\0x", 12) == "OK"
  {
    var status := "HTTP/1.1 200 OK\0x";
    SkipSpacesIs(status, 12, 13);
    IndexOfCharAt(status, 13, '\0', 15);
  }

  /** The meaning of `parse_header`. */
  function ParsedHeader(header: string): (r: ResponseHeader)
    ensures '\0' !in r.statusMessage
    ensures r.headers != map[] ==> |CleanLines(SplitLines(header))| > 1
  {
    var lines := CleanLines(SplitLines(header));
    if |lines| == 0 || !IsStatusLine(lines[0]) then EMPTY_RESPONSE
    else
      var status := lines[0];
      match StrToL(status, SkipSpaces(status, 8))
      case None => EMPTY_RESPONSE
      case Some((code, end)) =>
        ResponseHeader(code, StatusMessage(status, end), HeaderFields(lines[1..]))
  }

  /** The three ways the status line can be unusable. */
  predicate MalformedStatus(header: string) {
    var lines := CleanLines(SplitLines(header));
    || |lines| == 0
    || !IsStatusLine(lines[0])
    || StrToL(lines[0], SkipSpaces(lines[0], 8)).None?
  }

  /** A malformed status line leaves the default result: code -1, no message, no headers. */
  lemma MalformedStatusIsEmpty(header: string)
    ensures MalformedStatus(header) ==> ParsedHeader(header) == EMPTY_RESPONSE
    ensures !MalformedStatus(header) ==>
              var status := CleanLines(SplitLines(header))[0];
              ParsedHeader(header).statusCode == StrToL(status, SkipSpaces(status, 8)).value.0
  {
  }

  /** A number that starts with a digit is read, and is not negative. */
  lemma UnsignedStrToL(line: string, i: nat)
    requires i < |line| && IsDigit(line[i])
    ensures StrToL(line, i).Some? && StrToL(line, i).value.0 >= 0
  {
    assert DigitsEnd(line, i) > i;
  }

  /** A status code written without a sign is never -1. */
  lemma UnsignedStatusCode(header: string)
    requires !MalformedStatus(header)
    requires var status := CleanLines(SplitLines(header))[0];
             var i := SkipSpaces(status, 8);
             i < |status| && IsDigit(status[i])
    ensures ParsedHeader(header).statusCode >= 0
  {
    var status := CleanLines(SplitLines(header))[0];
    var i := SkipSpaces(status, 8);
    MalformedStatusIsEmpty(header);
    UnsignedStrToL(status, i);
  }

  /** The spaces after "HTTP/1.x" are skipped up to the first digit of the code. */
  lemma {:induction false} StatusCodeStart(version: string, spaces: string, d: string, rest: string)
    requires |version| == 8
    requires forall i :: 0 <= i < |spaces| ==> IsSpace(spaces[i])
    requires |d| > 0 && IsDigit(d[0])
    ensures SkipSpaces(version + spaces + d + rest, 8) == 8 + |spaces|
  {
    assert version + spaces + d + rest == version + spaces + (d + rest);
    SkipSpacesOver(version, spaces, d + rest);
  }

  /**
   * In a status line of an 8-character version, white space and a decimal code followed by a
   * non-digit, `parse_header`'s `strtol` call reads exactly that code and ends after its digits.
   */
  lemma {:induction false} StatusLineCode(status: string, version: string, spaces: string, n: nat, rest: string)
    requires |version| == 8
    requires forall i :: 0 <= i < |spaces| ==> IsSpace(spaces[i])
    requires rest == [] || !IsDigit(rest[0])
    requires status == version + spaces + ToDecimal(n) + rest
    ensures StrToL(status, SkipSpaces(status, 8)) == Some((n as int, 8 + |spaces| + |ToDecimal(n)|))
  {
    StatusCodeStart(version, spaces, ToDecimal(n), rest);
    assert status == (version + spaces) + ToDecimal(n) + rest;
    StrToLRoundTrip(version + spaces, n, rest);
  }

  /** The scan over white space stops exactly at the first other character. */
  lemma {:induction false} SkipSpacesIs(line: string, i: nat, k: nat)
    requires i <= k <= |line|
    requires forall j :: i <= j < k ==> IsSpace(line[j])
    requires k == |line| || !IsSpace(line[k])
    ensures SkipSpaces(line, i) == k
    decreases k - i
  {
    if i < k {
      SkipSpacesIs(line, i + 1, k);
    }
  }

  lemma {:induction false} SkipSpacesOver(v: string, sp: string, t: string)
    requires forall i :: 0 <= i < |sp| ==> IsSpace(sp[i])
    requires |t| > 0 && !IsSpace(t[0])
    ensures SkipSpaces(v + sp + t, |v|) == |v| + |sp|
  {
    var line := v + sp + t;
    forall j | |v| <= j < |v| + |sp|
      ensures IsSpace(line[j])
    {
      assert line[j] == sp[j - |v|];
    }
    assert line[|v| + |sp|] == t[0];
    SkipSpacesIs(line, |v|, |v| + |sp|);
  }

  /** The splitting loop of `parse_header`. */
  method SplitHeaderLines(header: string) returns (linesTmp: seq<string>)
    ensures linesTmp == SplitLines(header)
  {
    linesTmp := [""];
    var n := 0;
    while n < |header|
      invariant n <= |header|
      invariant linesTmp == SplitLines(header[..n])
    {
      var c := header[n];
      assert header[..n + 1][..n] == header[..n];
      if c == '\n' {
        linesTmp := linesTmp + [""];
      } else {
        linesTmp := linesTmp[..|linesTmp| - 1] + [linesTmp[|linesTmp| - 1] + [c]];
      }
      n := n + 1;
    }
    assert header[..|header|] == header;
  }

  /** The cleaning loop of `parse_header`. */
  method CleanHeaderLines(linesTmp: seq<string>) returns (lines: seq<string>)
    ensures lines == CleanLines(linesTmp)
  {
    lines := [];
    var m := 0;
    while m < |linesTmp|
      invariant m <= |linesTmp|
      invariant lines == CleanLines(linesTmp[..m])
    {
      var line := linesTmp[m];
      assert linesTmp[..m + 1][..m] == linesTmp[..m];
      if |line| > 0 && line[|line| - 1] == '\r' {
        line := line[..|line| - 1];
      }
      if |line| > 0 {
        lines := lines + [line];
      }
      m := m + 1;
    }
    assert linesTmp[..|linesTmp|] == linesTmp;
  }

  /** The header-field loop of `parse_header`. */
  method CollectHeaderFields(fields: seq<string>) returns (headers: map<string, string>)
    ensures headers == HeaderFields(fields)
  {
    headers := map[];
    var k := 0;
    while k < |fields|
      invariant k <= |fields|
      invariant headers == HeaderFields(fields[..k])
    {
      var line := fields[k];
      assert fields[..k + 1][..k] == fields[..k];
      var colon := IndexOfChar(line, 0, ':');
      if colon != |line| {
        var key := RemoveLeadingWhitespaces(line[..colon]);
        var value := RemoveLeadingWhitespaces(line[colon + 1..]);
        headers := headers[key := value];
      }
      k := k + 1;
    }
    assert fields[..|fields|] == fields;
  }

  /** `parse_header`. */
  method ParseHeader(header: string) returns (res: ResponseHeader)
    ensures res == ParsedHeader(header)
  {
    res := EMPTY_RESPONSE;
    var linesTmp := SplitHeaderLines(header);
    var lines := CleanHeaderLines(linesTmp);
    // status line
    if |lines| == 0 {
      return;
    }
    var status := lines[0];
    if !(StartsWith(status, "HTTP/1.1") || StartsWith(status, "HTTP/1.0")) {
      return;
    }
    var head := 8;
    while head < |status| && IsSpace(status[head])
      invariant 8 <= head <= |status|
      invariant SkipSpaces(status, head) == SkipSpaces(status, 8)
    {
      head := head + 1;
    }
    var parsed := StrToL(status, head);
    if parsed.None? {
      return;
    }
    var (code, end) := parsed.value;
    head := end;
    while head < |status| && IsSpace(status[head])
      invariant end <= head <= |status|
      invariant SkipSpaces(status, head) == SkipSpaces(status, end)
    {
      head := head + 1;
    }
    var message := CopyUntil(status, head, '\0');
    assert message == StatusMessage(status, end);
    var headers := CollectHeaderFields(lines[1..]);
    res := ResponseHeader(code, message, headers);
  }
}
