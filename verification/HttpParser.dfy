/** The HTTP head parser: a request or reply head as a map of options. */
module HttpParser {
  import opened Options
  import opened Bytes
  import opened HttpText

  /** An entry of the std::map of options. */
  datatype Header = Header(name: bytes, value: bytes)

  const REQUEST_METHOD := Ascii("request_method_")
  const REQUEST_URI := Ascii("request_uri_")
  const HTTP_VERSION := Ascii("http_version_")
  const REQUEST_BODY := Ascii("request_body_")
  const CONTENT_LENGTH := Ascii("Content-Length")

  /** map::insert: the entry goes to its place in the order of names, unless there is one. */
  function InsertNew(opts: seq<Header>, name: bytes, value: bytes): (r: seq<Header>) {
    if opts == [] || LessBytes(name, opts[0].name) then [Header(name, value)] + opts
    else if name == opts[0].name then opts
    else [opts[0]] + InsertNew(opts[1..], name, value)
  }

  function ToUpper(b: byte): (r: byte) { if 97 <= b <= 122 then b - 32 else b }

  function ToUpperCopy(s: bytes): (r: bytes)
    ensures |r| == |s|
  {
    seq(|s|, k requires 0 <= k < |s| => ToUpper(s[k]))
  }

  predicate IEquals(a: bytes, b: bytes) { ToUpperCopy(a) == ToUpperCopy(b) }

  /** One byte, or the two cases of one ASCII letter. */
  predicate SameLetter(a: byte, b: byte) { a == b || (65 <= a <= 90 && b == a + 32) || (65 <= b <= 90 && a == b + 32) }

  predicate SameUpToCase(a: bytes, b: bytes) { |a| == |b| && forall k :: 0 <= k < |a| ==> SameLetter(a[k], b[k]) }

  /** boost::iequals holds of two strings exactly if they are the same but for the case of ASCII letters. */
  lemma IEqualsIsCase(a: bytes, b: bytes)
    ensures IEquals(a, b) <==> SameUpToCase(a, b)
  {
    var x, y := ToUpperCopy(a), ToUpperCopy(b);
    if |a| == |b| {
      if SameUpToCase(a, b) {
        assert forall k :: 0 <= k < |a| ==> x[k] == y[k];
      } else {
        var k :| 0 <= k < |a| && !SameLetter(a[k], b[k]);
        assert x[k] != y[k];
      }
    } else {
      assert |x| != |y|;
    }
  }

  /** The value of the first entry whose name is the option's up to case, or nothing. */
  function FirstMatch(opts: seq<Header>, name: bytes): (r: bytes) {
    if opts == [] then [] else if IEquals(name, opts[0].name) then opts[0].value else FirstMatch(opts[1..], name)
  }

  function OptionOf(opts: seq<Header>, name: bytes): (r: bytes) { if name == [] then [] else FirstMatch(opts, name) }

  /** An entry spelled in any case is found, the first such in the map; without one the option is empty. */
  ghost predicate IsFound(opts: seq<Header>, name: bytes, r: bytes) {
    if exists k :: 0 <= k < |opts| && SameUpToCase(name, opts[k].name) then
      exists k :: 0 <= k < |opts| && SameUpToCase(name, opts[k].name) && r == opts[k].value
        && forall j :: 0 <= j < k ==> !SameUpToCase(name, opts[j].name)
    else r == []
  }

  lemma {:induction false} OptionIsFound(opts: seq<Header>, name: bytes)
    ensures IsFound(opts, name, FirstMatch(opts, name))
  {
    if opts != [] {
      IEqualsIsCase(name, opts[0].name);
      if !SameUpToCase(name, opts[0].name) {
        var rest := opts[1..];
        OptionIsFound(rest, name);
        if k :| 0 <= k < |rest| && SameUpToCase(name, rest[k].name) && FirstMatch(rest, name) == rest[k].value
                && forall j :: 0 <= j < k ==> !SameUpToCase(name, rest[j].name) {
          assert opts[k + 1] == rest[k];
          assert forall j :: 0 <= j < k + 1 ==> j == 0 || opts[j] == rest[j - 1];
        } else {
          assert forall k :: 0 <= k < |opts| ==> k == 0 || opts[k] == rest[k - 1];
        }
      }
    }
  }

  // ---- One line ----

  function SkipLastSpaces(s: bytes): (r: bytes)
    ensures r <= s && (r != [] ==> !IsSpace(r[|r| - 1]))
    ensures forall k :: |r| <= k < |s| ==> IsSpace(s[k])
  {
    if s != [] && IsSpace(s[|s| - 1]) then SkipLastSpaces(s[..|s| - 1]) else s
  }

  function Trim(s: bytes): (r: bytes) { SkipLastSpaces(SkipSpaces(s)) }

  predicate IsBlank(b: byte) { b == SPACE }
  predicate NotBlank(b: byte) { b != SPACE }
  predicate IsLetter(b: byte) { 65 <= b <= 90 || 97 <= b <= 122 }

  /** The longest run at the front of bytes that p holds of. */
  function Run(s: bytes, p: byte -> bool): (r: bytes)
    ensures r <= s && (forall k :: 0 <= k < |r| ==> p(r[k]))
    ensures |r| < |s| ==> !p(s[|r|])
  {
    if s == [] || !p(s[0]) then [] else [s[0]] + Run(s[1..], p)
  }

  datatype RequestLine = RequestLine(method_: bytes, uri: bytes, version: bytes)

  /** A line of letters, blanks, a URI without blanks and, after blanks, anything. */
  function ParseRequestLine(item: bytes): (r: Option<RequestLine>) {
    var letters := Run(item, IsLetter);
    var blanks := Run(item[|letters|..], IsBlank);
    var uri := Run(item[|letters| + |blanks|..], NotBlank);
    if letters == [] || blanks == [] || uri == [] then None
    else Some(RequestLine(letters, uri, item[|letters| + |blanks| + |uri|..]))
  }

  function StripSlashes(uri: bytes): (r: bytes)
    ensures r <= uri && (r == [] || r[|r| - 1] != SLASH)
    ensures forall k :: |r| <= k < |uri| ==> uri[k] == SLASH
  {
    if uri != [] && uri[|uri| - 1] == SLASH then StripSlashes(uri[..|uri| - 1]) else uri
  }

  /** The entries of a request line. */
  function AddRequest(opts: seq<Header>, line: RequestLine): (r: seq<Header>) {
    var withMethod := InsertNew(opts, REQUEST_METHOD, Trim(ToUpperCopy(line.method_)));
    var withUri := InsertNew(withMethod, REQUEST_URI, StripSlashes(Trim(line.uri)));
    InsertNew(withUri, HTTP_VERSION, Trim(line.version))
  }

  datatype Item = Entry(name: bytes, value: bytes) | Request(line: RequestLine) | Other

  /** A line with a colon is an entry, whatever else it looks like. */
  function Classify(item: bytes): (r: Item) {
    var index := IndexOf(item, COLON);
    if index < |item| then Entry(Trim(item[..index]), Trim(item[index + 1..]))
    else
      match ParseRequestLine(item)
      case None => Other
      case Some(line) => Request(line)
  }

  function AddItem(opts: seq<Header>, item: Item): (r: seq<Header>) {
    match item
    case Entry(name, value) => InsertNew(opts, name, value)
    case Request(line) => AddRequest(opts, line)
    case Other => opts
  }

  function AddLine(opts: seq<Header>, item: bytes): (r: seq<Header>) { AddItem(opts, Classify(item)) }

  // ---- The whole head ----

  /** CR LF CR LF stands at k. */
  predicate BlankAt(s: bytes, k: nat) {
    k + 4 <= |s| && s[k] == CR && s[k + 1] == LF && s[k + 2] == CR && s[k + 3] == LF
  }

  /** Where the first blank line at i or later ends. */
  function HeadEnd(s: bytes, i: nat): (r: Option<nat>)
    ensures r.Some? ==> i + 4 <= r.value <= |s|
    decreases |s| - i
  {
    if i + 4 > |s| then None
    else if BlankAt(s, i) then Some(i + 4)
    else HeadEnd(s, i + 1)
  }

  /** It is the first blank line, and there is none without one. */
  lemma {:induction false} HeadEndIsFirst(s: bytes, i: nat)
    ensures var r := HeadEnd(s, i);
      if r.Some? then BlankAt(s, r.value - 4) && forall k: nat :: i <= k < r.value - 4 ==> !BlankAt(s, k)
      else forall k: nat :: i <= k ==> !BlankAt(s, k)
    decreases |s| - i
  {
    if i + 4 <= |s| && !BlankAt(s, i) { HeadEndIsFirst(s, i + 1); }
  }

  /** getline at i: the line without its line feed, and where the next one begins. */
  function Line(s: bytes, i: nat): (r: (bytes, nat))
    requires i < |s|
    ensures i < r.1 <= |s|
  {
    var n := IndexOf(s[i..], LF);
    if i + n == |s| then (s[i..], |s|) else (s[i..i + n], i + n + 1)
  }

  /** The lines from i on, up to an empty one. */
  function ParseLines(s: bytes, i: nat, opts: seq<Header>): (r: seq<Header>)
    requires i <= |s|
    decreases |s| - i
  {
    if i == |s| || Line(s, i).0 == [CR] then opts
    else ParseLines(s, Line(s, i).1, AddLine(opts, Line(s, i).0))
  }

  lemma ParseStep(s: bytes, i: nat, opts: seq<Header>, item: bytes, next: nat, added: seq<Header>)
    requires i < |s| && Line(s, i) == (item, next) && item != [CR] && AddLine(opts, item) == added
    ensures ParseLines(s, i, opts) == ParseLines(s, next, added)
  {
  }

  /** The options of a text with a blank line. */
  function HeaderOpts(s: bytes): (r: seq<Header>)
    requires HeadEnd(s, 0).Some?
  {
    var end := HeadEnd(s, 0).value;
    ParseLines(s[..end], 0, InsertNew([], REQUEST_BODY, s[end..]))
  }

  // ---- What the options mean ----

  predicate SortedOpts(opts: seq<Header>) {
    forall i, j :: 0 <= i < j < |opts| ==> LessBytes(opts[i].name, opts[j].name)
  }

  ghost predicate Has(opts: seq<Header>, name: bytes) { exists h :: h in opts && h.name == name }

  /** An insertion keeps the entry there is for the name; otherwise it adds its own, and nothing else. */
  lemma {:induction false} InsertKeepsFirst(opts: seq<Header>, name: bytes, value: bytes)
    requires SortedOpts(opts)
    ensures forall h :: h in InsertNew(opts, name, value) <==> h in opts || (!Has(opts, name) && h == Header(name, value))
  {
    if opts == [] {
    } else if LessBytes(name, opts[0].name) {
      LessThanAll(opts, name);
    } else if name != opts[0].name {
      InsertKeepsFirst(opts[1..], name, value);
      assert opts == [opts[0]] + opts[1..];
    }
  }

  lemma LessThanAll(opts: seq<Header>, name: bytes)
    requires SortedOpts(opts) && opts != [] && LessBytes(name, opts[0].name)
    ensures forall h :: h in opts ==> LessBytes(name, h.name) && h.name != name
  {
    forall h | h in opts ensures LessBytes(name, h.name) && h.name != name {
      var k :| 0 <= k < |opts| && opts[k] == h;
      if k > 0 {
        LessBytesTransitive(name, opts[0].name, h.name);
      }
      LessBytesTrichotomy(name, h.name);
    }
  }

  /** An insertion keeps the map in the order of its names. */
  lemma {:induction false} InsertKeepsSorted(opts: seq<Header>, name: bytes, value: bytes)
    requires SortedOpts(opts)
    ensures SortedOpts(InsertNew(opts, name, value))
  {
    if opts == [] {
    } else if LessBytes(name, opts[0].name) {
      LessThanAll(opts, name);
    } else if name != opts[0].name {
      InsertKeepsSorted(opts[1..], name, value);
      InsertKeepsFirst(opts[1..], name, value);
      LessBytesTrichotomy(name, opts[0].name);
      var rest := InsertNew(opts[1..], name, value);
      forall k | 0 <= k < |rest| ensures LessBytes(opts[0].name, rest[k].name) {
        assert rest[k] in rest;
      }
    }
  }

  ghost predicate NoMatch(opts: seq<Header>, query: bytes) {
    forall k :: 0 <= k < |opts| ==> !IEquals(query, opts[k].name)
  }

  lemma {:induction false} MatchAfterInsert(opts: seq<Header>, name: bytes, value: bytes, query: bytes)
    ensures !IEquals(query, name) ==> FirstMatch(InsertNew(opts, name, value), query) == FirstMatch(opts, query)
    ensures !IEquals(query, name) && NoMatch(opts, query) ==> NoMatch(InsertNew(opts, name, value), query)
    ensures IEquals(query, name) && NoMatch(opts, query) ==> FirstMatch(InsertNew(opts, name, value), query) == value
  {
    if opts != [] && !LessBytes(name, opts[0].name) && name != opts[0].name {
      MatchAfterInsert(opts[1..], name, value, query);
    }
  }

  lemma AddRequestKeepsSorted(opts: seq<Header>, line: RequestLine)
    requires SortedOpts(opts)
    ensures SortedOpts(AddRequest(opts, line))
  {
    var withMethod := InsertNew(opts, REQUEST_METHOD, Trim(ToUpperCopy(line.method_)));
    InsertKeepsSorted(opts, REQUEST_METHOD, Trim(ToUpperCopy(line.method_)));
    var withUri := InsertNew(withMethod, REQUEST_URI, StripSlashes(Trim(line.uri)));
    InsertKeepsSorted(withMethod, REQUEST_URI, StripSlashes(Trim(line.uri)));
    InsertKeepsSorted(withUri, HTTP_VERSION, Trim(line.version));
  }

  lemma AddKeepsSorted(opts: seq<Header>, item: Item)
    requires SortedOpts(opts)
    ensures SortedOpts(AddItem(opts, item))
  {
    match item
    case Entry(name, value) => InsertKeepsSorted(opts, name, value);
    case Request(line) => AddRequestKeepsSorted(opts, line);
    case Other =>
  }

  /** The options stay a map, so a name has one entry: the first the text gave it. */
  lemma {:induction false} ParseKeepsSorted(s: bytes, i: nat, opts: seq<Header>)
    requires i <= |s| && SortedOpts(opts)
    ensures SortedOpts(ParseLines(s, i, opts))
    decreases |s| - i
  {
    if i < |s| && Line(s, i).0 != [CR] {
      AddKeepsSorted(opts, Classify(Line(s, i).0));
      ParseKeepsSorted(s, Line(s, i).1, AddLine(opts, Line(s, i).0));
    }
  }

  /** Of several names that differ in case only, an option is answered with the least. */
  lemma {:induction false} MatchIsLeast(opts: seq<Header>, query: bytes) returns (h: Header)
    requires SortedOpts(opts) && !NoMatch(opts, query)
    ensures h in opts && IEquals(query, h.name) && FirstMatch(opts, query) == h.value
    ensures forall g :: g in opts && IEquals(query, g.name) ==> g == h || LessBytes(h.name, g.name)
  {
    if IEquals(query, opts[0].name) {
      h := opts[0];
    } else {
      h := MatchIsLeast(opts[1..], query);
    }
  }

  // ---- Only the head decides ----

  /** The same options, but for what the body is. */
  ghost predicate SameButBody(a: seq<Header>, b: seq<Header>) {
    |a| == |b| && forall k :: 0 <= k < |a| ==> a[k].name == b[k].name && (a[k].name != REQUEST_BODY ==> a[k] == b[k])
  }

  lemma {:induction false} InsertSame(a: seq<Header>, b: seq<Header>, name: bytes, value: bytes)
    requires SameButBody(a, b)
    ensures SameButBody(InsertNew(a, name, value), InsertNew(b, name, value))
  {
    if a != [] && !LessBytes(name, a[0].name) && name != a[0].name {
      InsertSame(a[1..], b[1..], name, value);
    }
  }

  lemma AddSame(a: seq<Header>, b: seq<Header>, item: Item)
    requires SameButBody(a, b)
    ensures SameButBody(AddItem(a, item), AddItem(b, item))
  {
    match item
    case Entry(name, value) => InsertSame(a, b, name, value);
    case Request(line) => AddRequestSame(a, b, line);
    case Other =>
  }

  lemma AddRequestSame(a: seq<Header>, b: seq<Header>, line: RequestLine)
    requires SameButBody(a, b)
    ensures SameButBody(AddRequest(a, line), AddRequest(b, line))
  {
    var m, uri, version := Trim(ToUpperCopy(line.method_)), StripSlashes(Trim(line.uri)), Trim(line.version);
    InsertSame(a, b, REQUEST_METHOD, m);
    var a1, b1 := InsertNew(a, REQUEST_METHOD, m), InsertNew(b, REQUEST_METHOD, m);
    InsertSame(a1, b1, REQUEST_URI, uri);
    InsertSame(InsertNew(a1, REQUEST_URI, uri), InsertNew(b1, REQUEST_URI, uri), HTTP_VERSION, version);
  }

  lemma {:induction false} ParseSame(s: bytes, i: nat, a: seq<Header>, b: seq<Header>)
    requires i <= |s| && SameButBody(a, b)
    ensures SameButBody(ParseLines(s, i, a), ParseLines(s, i, b))
    decreases |s| - i
  {
    if i < |s| && Line(s, i).0 != [CR] {
      AddSame(a, b, Classify(Line(s, i).0));
      ParseSame(s, Line(s, i).1, AddLine(a, Line(s, i).0), AddLine(b, Line(s, i).0));
    }
  }

  lemma {:induction false} MatchSame(a: seq<Header>, b: seq<Header>, query: bytes)
    requires SameButBody(a, b) && !IEquals(query, REQUEST_BODY)
    ensures FirstMatch(a, query) == FirstMatch(b, query)
  {
    if a != [] {
      MatchSame(a[1..], b[1..], query);
    }
  }

  lemma {:induction false} HeadEndOfPrefix(s: bytes, t: bytes, i: nat)
    requires s <= t && HeadEnd(s, i).Some?
    ensures HeadEnd(t, i) == HeadEnd(s, i)
    decreases |s| - i
  {
    if !BlankAt(s, i) {
      HeadEndOfPrefix(s, t, i + 1);
    }
  }

  lemma CStringAfter(head: bytes, extra: bytes)
    requires 0 !in head
    ensures CString(head + extra) == head + CString(extra)
    decreases |head|
  {
    if head == [] {
      assert head + extra == extra;
    } else {
      assert (head + extra)[1..] == head[1..] + extra;
      CStringAfter(head[1..], extra);
    }
  }

  lemma HeaderOptsAt(s: bytes, head: bytes, body: bytes)
    requires s == head + body && HeadEnd(s, 0) == Some(|head|)
    ensures HeaderOpts(s) == ParseLines(head, 0, InsertNew([], REQUEST_BODY, body))
  {
    assert s[..|head|] == head && s[|head|..] == body;
  }

  /**
   * What the first read took along after the head, in part or in whole, makes no difference: the
   * head is found, and every option but the body is as in the head alone.
   */
  lemma OptionsOfHead(head: bytes, extra: bytes, query: bytes)
    requires HeadEnd(head, 0) == Some(|head|) && 0 !in head && !IEquals(query, REQUEST_BODY)
    ensures HeadEnd(CString(head + extra), 0) == Some(|head|)
    ensures OptionOf(HeaderOpts(CString(head + extra)), query) == OptionOf(HeaderOpts(head), query)
  {
    HeadIsFound(head, extra);
    OptionsOfText(CString(head + extra), head, CString(extra), query);
  }

  lemma HeadIsFound(head: bytes, extra: bytes)
    requires HeadEnd(head, 0) == Some(|head|) && 0 !in head
    ensures CString(head + extra) == head + CString(extra)
    ensures HeadEnd(head + CString(extra), 0) == Some(|head|)
  {
    CStringAfter(head, extra);
    HeadEndOfPrefix(head, head + CString(extra), 0);
  }

  lemma OptionsOfText(text: bytes, head: bytes, body: bytes, query: bytes)
    requires text == head + body && HeadEnd(text, 0) == Some(|head|) && HeadEnd(head, 0) == Some(|head|)
    requires !IEquals(query, REQUEST_BODY)
    ensures OptionOf(HeaderOpts(text), query) == OptionOf(HeaderOpts(head), query)
  {
    HeaderOptsAt(text, head, body);
    HeaderOptsAt(head, head, []);
    LinesDecide(head, body, [], query);
  }

  lemma LinesDecide(head: bytes, body: bytes, other: bytes, query: bytes)
    requires !IEquals(query, REQUEST_BODY)
    ensures FirstMatch(ParseLines(head, 0, InsertNew([], REQUEST_BODY, body)), query)
         == FirstMatch(ParseLines(head, 0, InsertNew([], REQUEST_BODY, other)), query)
  {
    var a, b := InsertNew([], REQUEST_BODY, body), InsertNew([], REQUEST_BODY, other);
    ParseSame(head, 0, a, b);
    MatchSame(ParseLines(head, 0, a), ParseLines(head, 0, b), query);
  }

  class HttpParser {
    var headerOpts: seq<Header>

    constructor ()
      ensures headerOpts == []
    {
      headerOpts := [];
    }

    method Insert(name: bytes, value: bytes)
      modifies this
      ensures headerOpts == InsertNew(old(headerOpts), name, value)
    {
      headerOpts := InsertNew(headerOpts, name, value);
    }

    method ParseLine(item: bytes)
      modifies this
      ensures headerOpts == AddLine(old(headerOpts), item)
    {
      var index := IndexOf(item, COLON);
      if index < |item| {
        Insert(Trim(item[..index]), Trim(item[index + 1..]));
      } else {
        var what := ParseRequestLine(item);
        if what.Some? {
          InsertRequest(what.value);
        }
      }
    }

    method InsertRequest(line: RequestLine)
      modifies this
      ensures headerOpts == AddRequest(old(headerOpts), line)
    {
      Insert(REQUEST_METHOD, Trim(ToUpperCopy(line.method_)));
      var uri := Trim(line.uri);
      while uri != [] && uri[|uri| - 1] == SLASH
        invariant StripSlashes(uri) == StripSlashes(Trim(line.uri))
      {
        uri := uri[..|uri| - 1];
      }
      Insert(REQUEST_URI, uri);
      Insert(HTTP_VERSION, Trim(line.version));
    }

    /** Whether the text, as a C string, has a blank line; only then the options are replaced. */
    method ParseRequest(ptr: bytes) returns (ok: bool)
      modifies this
      ensures ok <==> HeadEnd(CString(ptr), 0).Some?
      ensures headerOpts == if ok then HeaderOpts(CString(ptr)) else old(headerOpts)
    {
      var header := CString(ptr);
      var blank := HeadEnd(header, 0);
      if blank.None? {
        return false;
      }
      headerOpts := [];
      Insert(REQUEST_BODY, header[blank.value..]);
      ParseHeader(header[..blank.value]);
      return true;
    }

    method ParseHeader(resp: bytes)
      modifies this
      ensures headerOpts == ParseLines(resp, 0, old(headerOpts))
    {
      var pos := 0;
      while pos < |resp|
        invariant pos <= |resp| && ParseLines(resp, pos, headerOpts) == ParseLines(resp, 0, old(headerOpts))
      {
        var (item, next) := Line(resp, pos);
        if item == [CR] {
          break;
        }
        ParseLine(item);
        pos := next;
      }
    }

    method RequestOption(name: bytes) returns (r: bytes)
      ensures r == OptionOf(headerOpts, name)
      ensures name != [] ==> IsFound(headerOpts, name, r)
    {
      OptionIsFound(headerOpts, name);
      if name == [] {
        return [];
      }
      for i := 0 to |headerOpts|
        invariant FirstMatch(headerOpts, name) == FirstMatch(headerOpts[i..], name)
      {
        if IEquals(name, headerOpts[i].name) {
          return headerOpts[i].value;
        }
        assert headerOpts[i..][1..] == headerOpts[i + 1..];
      }
      return [];
    }
  }
}
