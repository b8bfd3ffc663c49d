/** The replies that the server prints, and what the parser makes of them. */
module Reply {
  import opened Options
  import opened Folding
  import opened Bytes
  import opened HttpText
  import opened HttpParser

  const SEPARATOR: bytes := [COLON, SPACE]

  function HeaderText(h: Header): (r: bytes) { h.name + SEPARATOR + h.value + CRLF }

  function HeadersText(hs: seq<Header>): (r: bytes) {
    if hs == [] then [] else HeaderText(hs[0]) + HeadersText(hs[1..])
  }

  /** The six headers of every reply; the date is the clock's. */
  function ReplyHeaders(date: bytes, length: nat): (hs: seq<Header>) {
    [Header(Ascii("Server"), Ascii("airobot_msgd/1.0")),
     Header(Ascii("Date"), date),
     Header(Ascii("Content-Length"), ToDecimal(length)),
     Header(Ascii("Content-Type"), Ascii("text/html")),
     Header(Ascii("Connection"), Ascii("keep-alive")),
     Header(Ascii("Access-Control-Allow-Origin"), Ascii("*"))]
  }

  /** The head of a reply, with its blank line. */
  function ReplyHead(date: bytes, length: nat, status: bytes): (r: bytes) {
    status + HeadersText(ReplyHeaders(date, length)) + CRLF
  }

  lemma {:induction false} HeadersTextAppend(hs: seq<Header>, h: Header)
    ensures HeadersText(hs + [h]) == HeadersText(hs) + HeaderText(h)
  {
    if hs == [] {
      assert [h][1..] == [];
    } else {
      assert (hs + [h])[1..] == hs[1..] + [h];
      HeadersTextAppend(hs[1..], h);
    }
  }

  method AppendHeader(before: bytes, h: Header) returns (str: bytes)
    ensures str == before + HeaderText(h)
  {
    str := before;
    str := str + h.name;
    str := str + SEPARATOR;
    str := str + h.value;
    str := str + CRLF;
  }

  method AppendHeaders(before: bytes, headers: seq<Header>) returns (str: bytes)
    ensures str == before + HeadersText(headers)
  {
    str := before;
    for i := 0 to |headers|
      invariant str == before + HeadersText(headers[..i])
    {
      HeadersTextAppend(headers[..i], headers[i]);
      assert headers[..i] + [headers[i]] == headers[..i + 1];
      str := AppendHeader(str, headers[i]);
    }
    assert headers[..|headers|] == headers;
  }

  method ReplyGenerate(content: bytes, date: bytes, status: bytes) returns (str: bytes)
    ensures str == ReplyHead(date, |content|, status) + content
  {
    var headers := ReplyHeaders(date, |content|);
    str := AppendHeaders(status, headers);
    str := str + CRLF;
    str := str + content;
  }

  // ---- Reading it back ----

  /** Text that can stand on a line of a head. */
  predicate Clean(s: bytes) { forall k :: 0 <= k < |s| ==> s[k] != CR && s[k] != LF && s[k] != 0 }

  /** Text that trimming leaves as it is. */
  predicate Trimmed(s: bytes) { s != [] ==> !IsSpace(s[0]) && !IsSpace(s[|s| - 1]) }

  predicate CleanHeader(h: Header) {
    Clean(h.name) && Clean(h.value) && Trimmed(h.name) && Trimmed(h.value) && COLON !in h.name
  }

  predicate CleanHeaders(hs: seq<Header>) { forall k :: 0 <= k < |hs| ==> CleanHeader(hs[k]) }

  /** The options with the headers put in one after the other. */
  function InsertAll(opts: seq<Header>, hs: seq<Header>): (r: seq<Header>)
    decreases |hs|
  {
    if hs == [] then opts else InsertAll(InsertNew(opts, hs[0].name, hs[0].value), hs[1..])
  }

  lemma {:induction false} SkipLastRun(s: bytes, spaces: bytes)
    requires (forall k :: 0 <= k < |spaces| ==> IsSpace(spaces[k])) && (s != [] ==> !IsSpace(s[|s| - 1]))
    ensures SkipLastSpaces(s + spaces) == s
  {
    if spaces == [] {
      assert s + spaces == s;
    } else {
      assert (s + spaces)[..|s + spaces| - 1] == s + spaces[..|spaces| - 1];
      SkipLastRun(s, spaces[..|spaces| - 1]);
    }
  }

  /** Trimming takes all the white space from both sides, and nothing else. */
  lemma TrimIs(before: bytes, value: bytes, after: bytes)
    requires (forall k :: 0 <= k < |before| ==> IsSpace(before[k])) && (forall k :: 0 <= k < |after| ==> IsSpace(after[k]))
    requires Trimmed(value)
    ensures Trim(before + (value + after)) == value
  {
    if value == [] {
      assert before + (value + after) == (before + after) + [];
      SkipsSpaces(before + after, []);
    } else {
      SkipsSpaces(before, value + after);
      SkipLastRun(value, after);
    }
  }

  lemma TrimBack(value: bytes)
    requires Trimmed(value)
    ensures Trim([SPACE] + value + [CR]) == value && Trim(value) == value
  {
    TrimIs([SPACE], value, [CR]);
    TrimIs([], value, []);
    assert [SPACE] + value + [CR] == [SPACE] + (value + [CR]);
    assert [] + (value + []) == value;
  }

  /** A printed header line, as getline gives it, is read as the header. */
  lemma HeaderLineIsRead(h: Header, opts: seq<Header>)
    requires CleanHeader(h)
    ensures AddLine(opts, h.name + SEPARATOR + h.value + [CR]) == InsertNew(opts, h.name, h.value)
  {
    var item := h.name + SEPARATOR + h.value + [CR];
    assert item == h.name + [COLON] + ([SPACE] + h.value + [CR]);
    IndexOfAppend(h.name, COLON, [SPACE] + h.value + [CR]);
    assert item[|h.name| + 1..] == [SPACE] + h.value + [CR];
    assert item[..|h.name|] == h.name;
    TrimBack(h.value);
    TrimBack(h.name);
  }

  /** getline of a clean line. */
  lemma LineIs(s: bytes, i: nat, line: bytes, rest: bytes)
    requires i <= |s| && s[i..] == line + CRLF + rest && Clean(line)
    ensures i < |s| && Line(s, i) == (line + [CR], i + |line| + 2) && s[i + |line| + 2..] == rest
  {
    var t, n := s[i..], |line| + 1;
    assert t == line + [CR] + [LF] + rest;
    IndexOfAppend(line + [CR], LF, rest);
    assert t[..n] == line + [CR];
    assert s[i..i + n] == t[..n];
    assert s[i + n + 1..] == t[n + 1..];
  }

  lemma HeadersTextHead(hs: seq<Header>, rest: bytes)
    requires hs != []
    ensures HeadersText(hs) + rest == (hs[0].name + SEPARATOR + hs[0].value) + CRLF + (HeadersText(hs[1..]) + rest)
  {
  }

  lemma CleanLine(h: Header)
    requires CleanHeader(h)
    ensures Clean(h.name + SEPARATOR + h.value) && COLON in h.name + SEPARATOR + h.value
  {
    assert (h.name + SEPARATOR + h.value)[|h.name|] == COLON;
  }

  /** The header lines of a printed head are read as the headers, in their order, up to the blank line. */
  lemma {:induction false} HeadersAreRead(s: bytes, i: nat, hs: seq<Header>, opts: seq<Header>)
    requires i <= |s| && s[i..] == HeadersText(hs) + CRLF && CleanHeaders(hs)
    ensures ParseLines(s, i, opts) == InsertAll(opts, hs)
    decreases |hs|
  {
    if hs == [] {
      LineIs(s, i, [], []);
    } else {
      var line := HeaderStep(s, i, hs);
      HeaderLineIsRead(hs[0], opts);
      HeadersAreRead(s, Line(s, i).1, hs[1..], InsertNew(opts, hs[0].name, hs[0].value));
    }
  }

  lemma HeaderStep(s: bytes, i: nat, hs: seq<Header>) returns (line: bytes)
    requires i <= |s| && s[i..] == HeadersText(hs) + CRLF && CleanHeaders(hs) && hs != []
    ensures line == hs[0].name + SEPARATOR + hs[0].value && i < |s| && Line(s, i).0 == line + [CR] != [CR]
    ensures s[Line(s, i).1..] == HeadersText(hs[1..]) + CRLF
  {
    line := hs[0].name + SEPARATOR + hs[0].value;
    HeadersTextHead(hs, CRLF);
    CleanLine(hs[0]);
    var rest := HeadersText(hs[1..]) + CRLF;
    LineIs(s, i, line, rest);
    assert line + [CR] != [CR] by {
      assert COLON in line;
    }
  }

  lemma {:induction false} BlankIsFound(s: bytes, j: nat, k: nat)
    requires j <= k && BlankAt(s, k) && forall n: nat :: j <= n < k ==> !BlankAt(s, n)
    ensures HeadEnd(s, j) == Some(k + 4)
    decreases k - j
  {
    if j < k {
      assert !BlankAt(s, j);
      BlankIsFound(s, j + 1, k);
    }
  }

  lemma LineStands(s: bytes, j: nat, line: bytes, rest: bytes)
    requires j <= |s| && s[j..] == CRLF + line + rest && Clean(line)
    ensures j + 2 + |line| <= |s| && s[j + 1] == LF && s[j + 2 + |line|..] == rest
    ensures forall k :: j + 2 <= k < j + 2 + |line| ==> s[k] != CR
  {
    var t := s[j..];
    assert t[1] == LF;
    forall k | j + 2 <= k < j + 2 + |line| ensures s[k] != CR {
      assert s[k] == t[k - j] == line[k - j - 2];
    }
    assert s[j + 2 + |line|..] == t[2 + |line|..];
  }

  /** The blank line of a printed head is the first in the text, whatever follows it. */
  lemma {:induction false} BlankLineIsFirst(s: bytes, j: nat, hs: seq<Header>, content: bytes)
    requires j <= |s| && s[j..] == CRLF + HeadersText(hs) + CRLF + content && CleanHeaders(hs)
    ensures BlankAt(s, j + |HeadersText(hs)|)
    ensures forall k: nat :: j <= k < j + |HeadersText(hs)| ==> !BlankAt(s, k)
    decreases |hs|
  {
    if hs == [] {
      var t := s[j..];
      assert t[0] == CR && t[1] == LF && t[2] == CR && t[3] == LF;
    } else {
      var n := FirstLine(s, j, hs, content);
      BlankLineIsFirst(s, j + 2 + n, hs[1..], content);
    }
  }

  lemma FirstLine(s: bytes, j: nat, hs: seq<Header>, content: bytes) returns (n: nat)
    requires j <= |s| && s[j..] == CRLF + HeadersText(hs) + CRLF + content && CleanHeaders(hs) && hs != []
    ensures n > 0 && j + 2 + n <= |s| && s[j + 1] == LF && forall k :: j + 2 <= k < j + 2 + n ==> s[k] != CR
    ensures s[j + 2 + n..] == CRLF + HeadersText(hs[1..]) + CRLF + content
    ensures |HeadersText(hs)| == n + 2 + |HeadersText(hs[1..])|
  {
    var line := hs[0].name + SEPARATOR + hs[0].value;
    n := |line|;
    CleanLine(hs[0]);
    Regroup(s[j..], hs, line, content);
    LineStands(s, j, line, CRLF + HeadersText(hs[1..]) + CRLF + content);
  }

  lemma Regroup(t: bytes, hs: seq<Header>, line: bytes, content: bytes)
    requires hs != [] && line == hs[0].name + SEPARATOR + hs[0].value && t == CRLF + HeadersText(hs) + CRLF + content
    ensures t == CRLF + line + (CRLF + HeadersText(hs[1..]) + CRLF + content)
    ensures |HeadersText(hs)| == |line| + 2 + |HeadersText(hs[1..])|
  {
    Reassociate(CRLF, line, HeadersText(hs[1..]), content);
  }

  lemma Reassociate(crlf: bytes, line: bytes, rest: bytes, content: bytes)
    ensures crlf + (line + crlf + rest) + crlf + content == crlf + line + (crlf + rest + crlf + content)
  {
  }

  /** A first line of a head, with its line end, that the parser takes no option from. */
  ghost predicate IsStatusLine(status: bytes) {
    exists line :: status == line + CRLF && line != [] && Clean(line) && COLON !in line && ParseRequestLine(line + [CR]) == None
  }

  /** The options of the text, folded. */
  ghost predicate ReadsAs(text: bytes, opts: seq<Header>) {
    HeadEnd(text, 0).Some? && forall x: int :: Unfold(x) ==> HeaderOpts(text) == opts
  }

  /** Any printed head of clean headers is read back: the same headers, and the content as the body. */
  lemma PrintedIsRead(status: bytes, hs: seq<Header>, content: bytes) returns (head: bytes)
    requires IsStatusLine(status) && CleanHeaders(hs)
    ensures head == status + HeadersText(hs) + CRLF
    ensures HeadEnd(head + content, 0) == Some(|head|)
    ensures ReadsAs(head + content, InsertAll(InsertNew([], REQUEST_BODY, content), hs))
  {
    head := status + HeadersText(hs) + CRLF;
    var line :| status == line + CRLF && line != [] && Clean(line) && COLON !in line && ParseRequestLine(line + [CR]) == None;
    assert head == line + CRLF + HeadersText(hs) + CRLF;
    WithLineIsRead(head, line, hs, content);
  }

  lemma WithLineIsRead(head: bytes, line: bytes, hs: seq<Header>, content: bytes)
    requires head == line + CRLF + HeadersText(hs) + CRLF && CleanHeaders(hs)
    requires line != [] && Clean(line) && COLON !in line && ParseRequestLine(line + [CR]) == None
    ensures HeadEnd(head + content, 0) == Some(|head|)
    ensures HeaderOpts(head + content) == InsertAll(InsertNew([], REQUEST_BODY, content), hs)
  {
    HeadIsPrinted(head + content, line, hs, content);
    LineIsRead(head + content, head, line, hs, content);
  }

  lemma LineIsRead(s: bytes, head: bytes, line: bytes, hs: seq<Header>, content: bytes)
    requires s == head + content && HeadEnd(s, 0) == Some(|head|)
    requires head == line + CRLF + HeadersText(hs) + CRLF && CleanHeaders(hs)
    requires line != [] && Clean(line) && COLON !in line && ParseRequestLine(line + [CR]) == None
    ensures HeaderOpts(s) == InsertAll(InsertNew([], REQUEST_BODY, content), hs)
  {
    StatusLineIsRead(head, line, hs, InsertNew([], REQUEST_BODY, content));
    HeaderOptsAt(s, head, content);
  }

  lemma HeadIsPrinted(s: bytes, line: bytes, hs: seq<Header>, content: bytes)
    requires s == line + CRLF + HeadersText(hs) + CRLF + content && Clean(line) && CleanHeaders(hs)
    ensures HeadEnd(s, 0) == Some(|line| + 2 + |HeadersText(hs)| + 2)
  {
    var k := |line| + |HeadersText(hs)|;
    FirstBlank(s, line, hs, content, k);
    BlankIsFound(s, 0, k);
  }

  lemma FirstBlank(s: bytes, line: bytes, hs: seq<Header>, content: bytes, k: nat)
    requires s == line + CRLF + HeadersText(hs) + CRLF + content && Clean(line) && CleanHeaders(hs)
    requires k == |line| + |HeadersText(hs)|
    ensures BlankAt(s, k) && forall n: nat :: n < k ==> !BlankAt(s, n)
  {
    assert forall n :: 0 <= n < |line| ==> s[n] == line[n];
    assert s[|line|..] == CRLF + HeadersText(hs) + CRLF + content;
    BlankLineIsFirst(s, |line|, hs, content);
  }

  lemma StatusLineIsRead(head: bytes, line: bytes, hs: seq<Header>, opts: seq<Header>)
    requires head == line + CRLF + HeadersText(hs) + CRLF && CleanHeaders(hs)
    requires line != [] && Clean(line) && COLON !in line && ParseRequestLine(line + [CR]) == None
    ensures ParseLines(head, 0, opts) == InsertAll(opts, hs)
  {
    var rest := HeadersText(hs) + CRLF;
    assert head[0..] == line + CRLF + rest;
    LineIs(head, 0, line, rest);
    StatusAddsNothing(line, opts);
    ParseStep(head, 0, opts, line + [CR], |line| + 2, opts);
    HeadersAreRead(head, |line| + 2, hs, opts);
  }

  lemma StatusAddsNothing(line: bytes, opts: seq<Header>)
    requires COLON !in line && ParseRequestLine(line + [CR]) == None
    ensures AddLine(opts, line + [CR]) == opts
  {
    assert COLON !in line + [CR];
  }

  lemma {:induction false} MatchAfterAll(opts: seq<Header>, hs: seq<Header>, query: bytes, at: nat)
    requires NoMatch(opts, query) && at < |hs|
    requires forall k :: 0 <= k < |hs| ==> (IEquals(query, hs[k].name) <==> k == at)
    ensures FirstMatch(InsertAll(opts, hs), query) == hs[at].value
    decreases |hs|
  {
    var rest := hs[1..];
    MatchAfterInsert(opts, hs[0].name, hs[0].value, query);
    var opts1 := InsertNew(opts, hs[0].name, hs[0].value);
    if at == 0 {
      MatchAfterOthers(opts1, rest, query);
    } else {
      MatchAfterAll(opts1, rest, query, at - 1);
    }
  }

  lemma {:induction false} MatchAfterOthers(opts: seq<Header>, hs: seq<Header>, query: bytes)
    requires forall k :: 0 <= k < |hs| ==> !IEquals(query, hs[k].name)
    ensures FirstMatch(InsertAll(opts, hs), query) == FirstMatch(opts, query)
    decreases |hs|
  {
    if hs != [] {
      MatchAfterInsert(opts, hs[0].name, hs[0].value, query);
      MatchAfterOthers(InsertNew(opts, hs[0].name, hs[0].value), hs[1..], query);
    }
  }

  /** Visible ASCII without a colon. */
  predicate Plain(s: string) { s != [] && forall k :: 0 <= k < |s| ==> '!' <= s[k] <= '~' && s[k] != ':' }

  lemma PlainIsClean(s: string)
    requires Plain(s)
    ensures Clean(Ascii(s)) && Trimmed(Ascii(s)) && COLON !in Ascii(s)
  {
    forall k | 0 <= k < |s| ensures 33 <= Ascii(s)[k] <= 126 && Ascii(s)[k] != COLON {
      assert '!' <= s[k] <= '~' && s[k] != ':';
    }
  }

  lemma DecimalIsClean(n: nat)
    ensures Clean(ToDecimal(n)) && Trimmed(ToDecimal(n))
  {
    var d := ToDecimal(n);
    assert forall k :: 0 <= k < |d| ==> IsDigit(d[k]);
  }

  lemma PlainHeader(h: Header, name: string, value: string)
    requires Plain(name) && Plain(value) && h == Header(Ascii(name), Ascii(value))
    ensures CleanHeader(h)
  {
    PlainIsClean(name);
    PlainIsClean(value);
  }

  lemma PlainName(h: Header, name: string)
    requires Plain(name) && h.name == Ascii(name) && Clean(h.value) && Trimmed(h.value)
    ensures CleanHeader(h)
  {
    PlainIsClean(name);
  }

  lemma FirstHeadersAreClean(date: bytes, length: nat, k: nat)
    requires Clean(date) && Trimmed(date) && k < 3
    ensures CleanHeader(ReplyHeaders(date, length)[k])
  {
    hide Clean, Trimmed, CleanHeader, ToDecimal;
    if k == 0 {
      PlainHeader(ReplyHeaders(date, length)[0], "Server", "airobot_msgd/1.0");
    } else if k == 1 {
      PlainName(ReplyHeaders(date, length)[1], "Date");
    } else {
      DecimalIsClean(length);
      PlainName(ReplyHeaders(date, length)[2], "Content-Length");
    }
  }

  lemma LastHeadersAreClean(date: bytes, length: nat, k: nat)
    requires 3 <= k < 6
    ensures CleanHeader(ReplyHeaders(date, length)[k])
  {
    hide Clean, Trimmed, CleanHeader, ToDecimal;
    if k == 3 {
      PlainHeader(ReplyHeaders(date, length)[3], "Content-Type", "text/html");
    } else if k == 4 {
      PlainHeader(ReplyHeaders(date, length)[4], "Connection", "keep-alive");
    } else {
      PlainHeader(ReplyHeaders(date, length)[5], "Access-Control-Allow-Origin", "*");
    }
  }

  lemma ReplyHeadersAreClean(date: bytes, length: nat) returns (hs: seq<Header>)
    requires Clean(date) && Trimmed(date)
    ensures hs == ReplyHeaders(date, length) && CleanHeaders(hs)
  {
    hs := ReplyHeaders(date, length);
    forall k | 0 <= k < |hs| ensures CleanHeader(hs[k]) {
      if k < 3 {
        FirstHeadersAreClean(date, length, k);
      } else {
        LastHeadersAreClean(date, length, k);
      }
    }
  }

  lemma {:induction false} NoNul(hs: seq<Header>)
    requires CleanHeaders(hs)
    ensures 0 !in HeadersText(hs)
  {
    if hs != [] {
      NoNul(hs[1..]);
      assert Clean(hs[0].name) && Clean(hs[0].value);
    }
  }

  lemma NoNulIsWhole(s: bytes)
    requires 0 !in s
    ensures CString(s) == s
  {
    assert IndexOf(s, 0) == |s|;
  }

  /**
   * A printed reply is read back, whatever the clock and the status say: the body is the content,
   * and the length is the content's.
   */
  lemma ReplyIsRead(content: bytes, date: bytes, status: bytes) returns (text: bytes)
    requires IsStatusLine(status) && Clean(date) && Trimmed(date) && 0 !in content
    ensures text == ReplyHead(date, |content|, status) + content && CString(text) == text
    ensures HeadEnd(text, 0) == Some(|text| - |content|)
    ensures OptionOf(HeaderOpts(text), REQUEST_BODY) == content
    ensures OptionOf(HeaderOpts(text), CONTENT_LENGTH) == ToDecimal(|content|)
    ensures Atoi(OptionOf(HeaderOpts(text), CONTENT_LENGTH)) == |content| && status <= text
  {
    hide HeaderOpts, OptionOf, HeadEnd, CString, HeadersText, CleanHeaders, IsStatusLine, Clean, Trimmed, Atoi, ToDecimal;
    var hs := ReplyHeadersAreClean(date, |content|);
    ReplyNames(hs, date, |content|, 2);
    text := AnyReplyIsRead(status, hs, content, 2);
    AtoiOfDecimal(|content|);
    BeginsWith(status, HeadersText(hs), CRLF, content);
  }

  lemma BeginsWith(a: bytes, b: bytes, c: bytes, d: bytes)
    ensures a <= a + b + c + d
  {
  }

  /** So are its other headers. */
  lemma ReplyHeadersAreRead(content: bytes, date: bytes, status: bytes) returns (text: bytes)
    requires IsStatusLine(status) && Clean(date) && Trimmed(date) && 0 !in content
    ensures text == ReplyHead(date, |content|, status) + content && HeadEnd(text, 0).Some?
    ensures OptionOf(HeaderOpts(text), Ascii("Server")) == Ascii("airobot_msgd/1.0")
    ensures OptionOf(HeaderOpts(text), Ascii("Date")) == date
    ensures OptionOf(HeaderOpts(text), Ascii("Content-Type")) == Ascii("text/html")
    ensures OptionOf(HeaderOpts(text), Ascii("Connection")) == Ascii("keep-alive")
    ensures OptionOf(HeaderOpts(text), Ascii("Access-Control-Allow-Origin")) == Ascii("*")
  {
    hide HeaderOpts, OptionOf, HeadEnd, CString, HeadersText, CleanHeaders, IsStatusLine, Clean, Trimmed;
    var hs := ReplyHeadersAreClean(date, |content|);
    text := ReplyHead(date, |content|, status) + content;
    forall k | 0 <= k < 6 ensures HeadEnd(text, 0).Some? && OptionOf(HeaderOpts(text), hs[k].name) == hs[k].value {
      ReplyNames(hs, date, |content|, k);
      var t := AnyReplyIsRead(status, hs, content, k);
    }
    HeadersAre(hs, date, |content|);
  }

  lemma HeadersAre(hs: seq<Header>, date: bytes, length: nat)
    requires hs == ReplyHeaders(date, length)
    ensures |hs| == 6
    ensures hs[0] == Header(Ascii("Server"), Ascii("airobot_msgd/1.0")) && hs[1] == Header(Ascii("Date"), date)
    ensures hs[3] == Header(Ascii("Content-Type"), Ascii("text/html")) && hs[4] == Header(Ascii("Connection"), Ascii("keep-alive"))
    ensures hs[5] == Header(Ascii("Access-Control-Allow-Origin"), Ascii("*"))
  {
  }

  /** Of any printed reply the header whose name has a length of its own is read back, and the content. */
  lemma AnyReplyIsRead(status: bytes, hs: seq<Header>, content: bytes, k: nat) returns (text: bytes)
    requires IsStatusLine(status) && CleanHeaders(hs) && 0 !in content && k < |hs| && |hs[k].name| != 0
    requires forall j :: 0 <= j < |hs| ==> |hs[j].name| != |REQUEST_BODY| && (|hs[j].name| == |hs[k].name| <==> j == k)
    ensures text == status + HeadersText(hs) + CRLF + content && CString(text) == text
    ensures HeadEnd(text, 0) == Some(|text| - |content|)
    ensures OptionOf(HeaderOpts(text), REQUEST_BODY) == content
    ensures OptionOf(HeaderOpts(text), hs[k].name) == hs[k].value
  {
    var opts;
    text, opts := AnyReplyReads(status, hs, content);
    ReplyOptions(opts, content, hs, k);
    assert Unfold(0);
  }

  lemma AnyReplyReads(status: bytes, hs: seq<Header>, content: bytes) returns (text: bytes, opts: seq<Header>)
    requires IsStatusLine(status) && CleanHeaders(hs) && 0 !in content
    ensures text == status + HeadersText(hs) + CRLF + content && CString(text) == text
    ensures HeadEnd(text, 0) == Some(|text| - |content|)
    ensures opts == InsertAll(InsertNew([], REQUEST_BODY, content), hs) && ReadsAs(text, opts)
  {
    hide HeadersText, CleanHeaders, IsStatusLine, CString, HeadEnd, InsertAll, InsertNew, ReadsAs;
    var head := PrintedIsRead(status, hs, content);
    text, opts := head + content, InsertAll(InsertNew([], REQUEST_BODY, content), hs);
    PrintedIsWhole(text, head, status, hs, content);
  }

  lemma PrintedIsWhole(text: bytes, head: bytes, status: bytes, hs: seq<Header>, content: bytes)
    requires IsStatusLine(status) && CleanHeaders(hs) && head == status + HeadersText(hs) + CRLF
    requires text == head + content && 0 !in content
    ensures CString(text) == text
  {
    assert 0 !in status;
    HasNoNul(head, status, hs);
    NoNulIsWhole(text);
  }

  lemma HasNoNul(head: bytes, status: bytes, hs: seq<Header>)
    requires 0 !in status && CleanHeaders(hs) && head == status + HeadersText(hs) + CRLF
    ensures 0 !in head
  {
    NoNul(hs);
    NoNulTogether(status, HeadersText(hs), CRLF);
  }

  lemma NoNulTogether(a: bytes, b: bytes, c: bytes)
    requires 0 !in a && 0 !in b && 0 !in c
    ensures 0 !in a + b + c
  {
  }

  /** The six names are not the body's, and no two are the same: they differ in their lengths. */
  lemma ReplyNames(hs: seq<Header>, date: bytes, length: nat, k: nat)
    requires hs == ReplyHeaders(date, length) && k < 6
    ensures |hs| == 6 && hs[2] == Header(CONTENT_LENGTH, ToDecimal(length)) && |hs[k].name| != 0
    ensures forall j :: 0 <= j < |hs| ==> |hs[j].name| != |REQUEST_BODY| && (|hs[j].name| == |hs[k].name| <==> j == k)
  {
  }

  lemma ReplyOptions(opts: seq<Header>, content: bytes, hs: seq<Header>, k: nat)
    requires opts == InsertAll(InsertNew([], REQUEST_BODY, content), hs) && k < |hs| && |hs[k].name| != 0
    requires forall j :: 0 <= j < |hs| ==> |hs[j].name| != |REQUEST_BODY| && (|hs[j].name| == |hs[k].name| <==> j == k)
    ensures OptionOf(opts, REQUEST_BODY) == content && OptionOf(opts, hs[k].name) == hs[k].value
  {
    var base, body, name := InsertNew([], REQUEST_BODY, content), REQUEST_BODY, hs[k].name;
    MatchAfterInsert([], body, content, body);
    MatchAfterInsert([], body, content, name);
    forall j | 0 <= j < |hs| ensures !IEquals(body, hs[j].name) && (IEquals(name, hs[j].name) <==> j == k) {
      SameLength(body, hs[j].name);
      SameLength(name, hs[j].name);
    }
    SameLength(name, body);
    MatchAfterOthers(base, hs, body);
    MatchAfterAll(base, hs, name, k);
  }

  lemma SameLength(a: bytes, b: bytes)
    ensures IEquals(a, b) ==> |a| == |b|
  {
    assert |ToUpperCopy(a)| == |a| && |ToUpperCopy(b)| == |b|;
  }

  /** The status lines of the protocol all qualify: letters, a slash, no colon. */
  lemma HttpLineIsStatus(line: bytes)
    requires |line| >= 5 && line[..5] == Ascii("HTTP/") && Clean(line) && COLON !in line
    ensures IsStatusLine(line + CRLF)
  {
    var item := line + [CR];
    assert forall k :: 0 <= k < 5 ==> item[k] == line[..5][k];
    var letters := Run(item, IsLetter);
    assert !IsLetter(item[4]) && item[4] == SLASH;
    assert forall k :: 0 <= k < 4 ==> IsLetter(item[k]);
    assert |letters| == 4;
    assert item[4..][0] == SLASH;
    assert ParseRequestLine(item) == None;
  }
}
