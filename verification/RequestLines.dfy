/** Request heads as a client prints them, and what the parser makes of them. */
module RequestLines {
  import opened Options
  import opened Bytes
  import opened HttpText
  import opened HttpParser
  import opened Reply

  /** A head: method, blanks, URI, blanks and version on one line, and the header lines. */
  datatype RequestText = RequestText(verb: bytes, gap: bytes, uri: bytes, gap': bytes, version: bytes, headers: seq<Header>)

  /** ASCII letters of either case. */
  predicate IsWord(s: bytes) { s != [] && forall k :: 0 <= k < |s| ==> 65 <= s[k] <= 90 || 97 <= s[k] <= 122 }

  /** Visible ASCII without a colon. */
  predicate IsToken(s: bytes) { s != [] && forall k :: 0 <= k < |s| ==> 33 <= s[k] <= 126 && s[k] != COLON }

  predicate IsBlanks(s: bytes) { s != [] && forall k :: 0 <= k < |s| ==> s[k] == SPACE }

  predicate ValidRequest(q: RequestText) {
    IsWord(q.verb) && IsBlanks(q.gap) && IsToken(q.uri) && IsBlanks(q.gap') && IsToken(q.version) && CleanHeaders(q.headers)
  }

  function LineOf(q: RequestText): (r: bytes) { q.verb + (q.gap + (q.uri + (q.gap' + q.version))) }

  function HeadOf(q: RequestText): (r: bytes) { LineOf(q) + CRLF + HeadersText(q.headers) + CRLF }

  /** No header goes by this name, in any case. */
  predicate NotNamed(q: RequestText, name: bytes) {
    forall k :: 0 <= k < |q.headers| ==> !SameUpToCase(name, q.headers[k].name)
  }

  /** The header at k alone goes by this name. */
  predicate NamedAt(q: RequestText, name: bytes, k: nat) {
    k < |q.headers| && forall j :: 0 <= j < |q.headers| ==> (SameUpToCase(name, q.headers[j].name) <==> j == k)
  }

  /** The entries of the request line, and the body's. */
  predicate IsReserved(name: bytes) {
    SameUpToCase(name, REQUEST_METHOD) || SameUpToCase(name, REQUEST_URI) || SameUpToCase(name, HTTP_VERSION)
    || SameUpToCase(name, REQUEST_BODY)
  }

  /** The URI without the slashes at its end. */
  ghost predicate WithoutSlashes(uri: bytes, r: bytes) {
    r <= uri && (r != [] ==> r[|r| - 1] != SLASH) && forall k :: |r| <= k < |uri| ==> uri[k] == SLASH
  }

  /** The same letters, all of them capitals. */
  ghost predicate InCapitals(s: bytes, r: bytes) { SameUpToCase(r, s) && forall k :: 0 <= k < |r| ==> 65 <= r[k] <= 90 }

  /**
   * A printed head is found and read: the method in capitals, the URI without its last slashes, the
   * version, each header under its name in any case, and nothing under a name that no header has.
   */
  lemma RequestIsRead(q: RequestText)
    requires ValidRequest(q)
    ensures 0 !in HeadOf(q) && HeadEnd(HeadOf(q), 0) == Some(|HeadOf(q)|)
    ensures NotNamed(q, REQUEST_METHOD) ==> InCapitals(q.verb, OptionOf(HeaderOpts(HeadOf(q)), REQUEST_METHOD))
    ensures NotNamed(q, REQUEST_URI) ==> WithoutSlashes(q.uri, OptionOf(HeaderOpts(HeadOf(q)), REQUEST_URI))
    ensures NotNamed(q, HTTP_VERSION) ==> OptionOf(HeaderOpts(HeadOf(q)), HTTP_VERSION) == q.version
    ensures forall name, k: nat :: name != [] && !IsReserved(name) && NamedAt(q, name, k) ==>
      OptionOf(HeaderOpts(HeadOf(q)), name) == q.headers[k].value
    ensures forall name :: name != [] && !IsReserved(name) && NotNamed(q, name) ==> OptionOf(HeaderOpts(HeadOf(q)), name) == []
  {
    hide HeaderOpts, HeadEnd, FirstMatch, InsertNew, InsertAll, HeadersText, Trim, StripSlashes, IEquals, SameUpToCase, CleanHeaders;
    var head, opts := HeadOf(q), LineOpts(q);
    HeadIsRead(q);
    LineEntries(q);
    if NotNamed(q, REQUEST_METHOD) { UnderNoHeader(q, opts, REQUEST_METHOD); }
    if NotNamed(q, REQUEST_URI) { UnderNoHeader(q, opts, REQUEST_URI); }
    if NotNamed(q, HTTP_VERSION) { UnderNoHeader(q, opts, HTTP_VERSION); }
    forall name, k: nat | name != [] && !IsReserved(name) && NamedAt(q, name, k)
      ensures OptionOf(HeaderOpts(head), name) == q.headers[k].value
    {
      NotInLine(q, name);
      UnderHeader(q, opts, name, k);
    }
    forall name | name != [] && !IsReserved(name) && NotNamed(q, name) ensures OptionOf(HeaderOpts(head), name) == [] {
      NotInLine(q, name);
      UnderNoHeader(q, opts, name);
    }
  }

  // ---- The head and its lines ----

  function LineItem(q: RequestText): (r: RequestLine) { RequestLine(q.verb, q.uri, q.gap' + q.version + [CR]) }

  /** The options after the request line. */
  function LineOpts(q: RequestText): (r: seq<Header>) { AddRequest(InsertNew([], REQUEST_BODY, []), LineItem(q)) }

  lemma HeadIsRead(q: RequestText)
    requires ValidRequest(q)
    ensures 0 !in HeadOf(q) && HeadEnd(HeadOf(q), 0) == Some(|HeadOf(q)|)
    ensures HeaderOpts(HeadOf(q)) == InsertAll(LineOpts(q), q.headers)
  {
    hide HeadersText, InsertAll, AddRequest, InsertNew, ParseRequestLine, CleanHeaders, IsWord, IsToken, IsBlanks, ParseLines;
    var head, line, rest, opts := HeadOf(q), LineOf(q), HeadersText(q.headers) + CRLF, InsertNew([], REQUEST_BODY, []);
    LineIsClean(q);
    LineIsParsed(q);
    assert head + [] == head;
    HeadIsPrinted(head + [], line, q.headers, []);
    HeaderOptsAt(head, head, []);
    NoNul(q.headers);
    assert head[0..] == line + CRLF + rest;
    LineIs(head, 0, line, rest);
    assert COLON !in line + [CR];
    ParseStep(head, 0, opts, line + [CR], |line| + 2, LineOpts(q));
    HeadersAreRead(head, |line| + 2, q.headers, LineOpts(q));
    NoNulTogether(line, CRLF, HeadersText(q.headers));
    NoNulTogether(line + CRLF + HeadersText(q.headers), CRLF, []);
    assert line + CRLF + HeadersText(q.headers) + CRLF + [] == head;
  }

  lemma LineIsClean(q: RequestText)
    requires ValidRequest(q)
    ensures Clean(LineOf(q)) && COLON !in LineOf(q) && 0 !in LineOf(q) && LineOf(q) != []
  {
    hide CleanHeaders;
    var line := LineOf(q);
    assert forall k :: 0 <= k < |line| ==> 32 <= line[k] <= 126 && line[k] != COLON;
  }

  lemma LineIsParsed(q: RequestText)
    requires ValidRequest(q)
    ensures ParseRequestLine(LineOf(q) + [CR]) == Some(LineItem(q))
  {
    hide Run, CleanHeaders, ParseRequestLine;
    var tail := q.gap' + q.version + [CR];
    assert LineOf(q) + [CR] == q.verb + (q.gap + (q.uri + tail));
    LineIsRequest(LineOf(q) + [CR], q.verb, q.gap, q.uri, tail);
  }

  lemma {:induction false} RunOf(a: bytes, rest: bytes, p: byte -> bool)
    requires (forall k :: 0 <= k < |a| ==> p(a[k])) && (rest != [] ==> !p(rest[0]))
    ensures Run(a + rest, p) == a
  {
    if a == [] {
      assert a + rest == rest;
    } else {
      assert (a + rest)[1..] == a[1..] + rest;
      RunOf(a[1..], rest, p);
    }
  }

  lemma LineIsRequest(item: bytes, verb: bytes, gap: bytes, uri: bytes, tail: bytes)
    requires item == verb + (gap + (uri + tail)) && tail != [] && tail[0] == SPACE
    requires IsWord(verb) && IsBlanks(gap) && IsToken(uri)
    ensures ParseRequestLine(item) == Some(RequestLine(verb, uri, tail))
  {
    hide Run;
    RunOf(verb, gap + (uri + tail), IsLetter);
    assert item[|verb|..] == gap + (uri + tail);
    RunOf(gap, uri + tail, IsBlank);
    assert item[|verb| + |gap|..] == uri + tail;
    RunOf(uri, tail, NotBlank);
    assert item[|verb| + |gap| + |uri|..] == tail;
  }

  // ---- The options ----

  lemma UnderNoHeader(q: RequestText, opts: seq<Header>, name: bytes)
    requires NotNamed(q, name)
    ensures FirstMatch(InsertAll(opts, q.headers), name) == FirstMatch(opts, name)
  {
    forall k | 0 <= k < |q.headers| ensures !IEquals(name, q.headers[k].name) { IEqualsIsCase(name, q.headers[k].name); }
    MatchAfterOthers(opts, q.headers, name);
  }

  lemma UnderHeader(q: RequestText, opts: seq<Header>, name: bytes, at: nat)
    requires NamedAt(q, name, at) && NoMatch(opts, name)
    ensures FirstMatch(InsertAll(opts, q.headers), name) == q.headers[at].value
  {
    forall k | 0 <= k < |q.headers| ensures IEquals(name, q.headers[k].name) <==> k == at { IEqualsIsCase(name, q.headers[k].name); }
    MatchAfterAll(opts, q.headers, name, at);
  }

  lemma NotInLine(q: RequestText, name: bytes)
    requires !IsReserved(name)
    ensures NoMatch(LineOpts(q), name) && FirstMatch(LineOpts(q), name) == []
  {
    hide InsertNew, FirstMatch, IEquals, SameUpToCase;
    IEqualsIsCase(name, REQUEST_METHOD);
    IEqualsIsCase(name, REQUEST_URI);
    IEqualsIsCase(name, HTTP_VERSION);
    IEqualsIsCase(name, REQUEST_BODY);
    var a, b, c := Trim(ToUpperCopy(q.verb)), StripSlashes(Trim(q.uri)), Trim(LineItem(q).version);
    var one := InsertNew([], REQUEST_BODY, []);
    var two := InsertNew(one, REQUEST_METHOD, a);
    MatchAfterInsert([], REQUEST_BODY, [], name);
    MatchAfterInsert(one, REQUEST_METHOD, a, name);
    MatchAfterInsert(two, REQUEST_URI, b, name);
    MatchAfterInsert(InsertNew(two, REQUEST_URI, b), HTTP_VERSION, c, name);
    NoEntries(name);
  }

  lemma NoEntries(name: bytes)
    ensures NoMatch([], name) && FirstMatch([], name) == []
  {
  }

  lemma LineEntries(q: RequestText)
    requires ValidRequest(q)
    ensures InCapitals(q.verb, FirstMatch(LineOpts(q), REQUEST_METHOD)) && WithoutSlashes(q.uri, FirstMatch(LineOpts(q), REQUEST_URI))
    ensures FirstMatch(LineOpts(q), HTTP_VERSION) == q.version
  {
    hide InsertNew, FirstMatch, IEquals, Trim, StripSlashes, InCapitals, WithoutSlashes, ToUpperCopy, CleanHeaders;
    var a, b, c := Trim(ToUpperCopy(q.verb)), StripSlashes(Trim(q.uri)), Trim(LineItem(q).version);
    WordsAreKept(q.verb, q.uri);
    VersionIsKept(q);
    var one := InsertNew([], REQUEST_BODY, []);
    var two := InsertNew(one, REQUEST_METHOD, a);
    OtherNames();
    NoEntries(REQUEST_METHOD);
    NoEntries(REQUEST_URI);
    NoEntries(HTTP_VERSION);
    MatchAfterInsert([], REQUEST_BODY, [], REQUEST_METHOD);
    MatchAfterInsert([], REQUEST_BODY, [], REQUEST_URI);
    MatchAfterInsert(one, REQUEST_METHOD, a, REQUEST_METHOD);
    MatchAfterInsert(one, REQUEST_METHOD, a, REQUEST_URI);
    MatchAfterInsert(two, REQUEST_URI, b, REQUEST_METHOD);
    MatchAfterInsert(two, REQUEST_URI, b, REQUEST_URI);
    MatchAfterInsert(InsertNew(two, REQUEST_URI, b), HTTP_VERSION, c, REQUEST_METHOD);
    MatchAfterInsert(InsertNew(two, REQUEST_URI, b), HTTP_VERSION, c, REQUEST_URI);
    VersionEntry(two, b, c);
  }

  lemma VersionEntry(two: seq<Header>, uri: bytes, version: bytes)
    requires exists verb :: two == InsertNew(InsertNew([], REQUEST_BODY, []), REQUEST_METHOD, verb)
    ensures FirstMatch(InsertNew(InsertNew(two, REQUEST_URI, uri), HTTP_VERSION, version), HTTP_VERSION) == version
  {
    hide InsertNew, FirstMatch, IEquals, NoMatch;
    var verb :| two == InsertNew(InsertNew([], REQUEST_BODY, []), REQUEST_METHOD, verb);
    OtherNames();
    NoEntries(HTTP_VERSION);
    MatchAfterInsert([], REQUEST_BODY, [], HTTP_VERSION);
    MatchAfterInsert(InsertNew([], REQUEST_BODY, []), REQUEST_METHOD, verb, HTTP_VERSION);
    MatchAfterInsert(two, REQUEST_URI, uri, HTTP_VERSION);
    MatchAfterInsert(InsertNew(two, REQUEST_URI, uri), HTTP_VERSION, version, HTTP_VERSION);
  }

  lemma VersionIsKept(q: RequestText)
    requires ValidRequest(q)
    ensures Trim(LineItem(q).version) == q.version
  {
    hide Trim, CleanHeaders;
    assert LineItem(q).version == q.gap' + (q.version + [CR]);
    TrimIs(q.gap', q.version, [CR]);
  }

  lemma WordsAreKept(verb: bytes, uri: bytes)
    requires IsWord(verb) && IsToken(uri)
    ensures InCapitals(verb, Trim(ToUpperCopy(verb))) && WithoutSlashes(uri, StripSlashes(Trim(uri)))
  {
    hide Trim;
    TrimBack(ToUpperCopy(verb));
    TrimBack(uri);
  }

  lemma SameIsEqual(s: bytes)
    ensures IEquals(s, s)
  {
  }

  lemma VersionIsNotBody()
    ensures !IEquals(HTTP_VERSION, REQUEST_BODY)
  {
    hide IEquals;
    IEqualsIsCase(HTTP_VERSION, REQUEST_BODY);
    assert HTTP_VERSION[0] == 104 && REQUEST_BODY[0] == 114;
  }

  /** The names of the options differ in their lengths, but for one pair. */
  lemma OtherNames()
    ensures IEquals(REQUEST_METHOD, REQUEST_METHOD) && IEquals(REQUEST_URI, REQUEST_URI)
    ensures !IEquals(REQUEST_METHOD, REQUEST_BODY) && !IEquals(REQUEST_METHOD, REQUEST_URI) && !IEquals(REQUEST_METHOD, HTTP_VERSION)
    ensures IEquals(HTTP_VERSION, HTTP_VERSION) && !IEquals(HTTP_VERSION, REQUEST_BODY)
    ensures !IEquals(HTTP_VERSION, REQUEST_METHOD) && !IEquals(HTTP_VERSION, REQUEST_URI)
    ensures !IEquals(REQUEST_URI, REQUEST_BODY) && !IEquals(REQUEST_URI, REQUEST_METHOD) && !IEquals(REQUEST_URI, HTTP_VERSION)
  {
    hide IEquals;
    SameIsEqual(REQUEST_METHOD);
    SameIsEqual(REQUEST_URI);
    SameIsEqual(HTTP_VERSION);
    VersionIsNotBody();
    SameLength(HTTP_VERSION, REQUEST_METHOD);
    SameLength(HTTP_VERSION, REQUEST_URI);
    SameLength(REQUEST_METHOD, REQUEST_BODY);
    SameLength(REQUEST_METHOD, REQUEST_URI);
    SameLength(REQUEST_METHOD, HTTP_VERSION);
    SameLength(REQUEST_URI, REQUEST_BODY);
    SameLength(REQUEST_URI, REQUEST_METHOD);
    SameLength(REQUEST_URI, HTTP_VERSION);
  }
}
