/**
 * A front connection: a request head and its body are put together from what the reads bring, the
 * body is handled, and the reply goes out in as many writes as it takes.
 */
module FrontConn {
  import opened Options
  import opened Bytes
  import opened HttpText
  import opened HttpParser
  import opened Reply
  import opened RequestLines
  import opened Socket
  import opened Registry
  import JsonGrammar
  import JsonParser
  import JsonParsing
  import JsonSound
  import JsonValue

  datatype ErrorCode = Success | Aborted | Failed

  /** What a handler leaves under way when it returns, or how it breaks off. */
  datatype Started = ReadingBody | Writing | WritingThenReading | Nothing | Broken(end: Ending)

  /** What is fetched as the answer to a request for /bb; where it comes from is not modelled. */
  datatype BackendAnswer = NoAnswer | Answer(text: bytes)

  const BUFFER_SIZE := 16 * 1024

  const STATUS_OK := Ascii("HTTP/1.1 200 OK") + CRLF
  const STATUS_BAD_REQUEST := Ascii("HTTP/1.1 400 Bad Request") + CRLF
  const STATUS_NOT_FOUND := Ascii("HTTP/1.1 404 Not Found") + CRLF
  const STATUS_ERROR := Ascii("HTTP/1.1 500 Internal Server Error") + CRLF

  function Page(title: string, text: string): string {
    "<html><head><title>" + title + "</title></head><body><h1>" + text + "</h1></body></html>"
  }

  const CONTENT_ERROR := Ascii(Page("Internal Server Error", "500 Internal Server Error"))
  const CONTENT_BAD_REQUEST := Ascii(Page("Bad Request", "400 Bad Request"))
  const CONTENT_NOT_FOUND := Ascii(Page("Not Found", "404 Not Found"))

  /** memcpy of data into s at at. */
  function Copied(s: bytes, at: nat, data: bytes): (r: bytes)
    requires at + |data| <= |s|
    ensures |r| == |s| && r[..at] == s[..at] && r[at..at + |data|] == data && r[at + |data|..] == s[at + |data|..]
  {
    s[..at] + data + s[at + |data|..]
  }

  /** What is copied behind a part that begins at at makes that part longer, and leaves what is before it. */
  lemma CopiedBehind(was: bytes, at: nat, len: nat, got: bytes, s: bytes, stream: bytes)
    requires at + len + |got| <= |was| && s == Copied(was, at + len, got)
    ensures s[..at] == was[..at] && s[at..at + len + |got|] + stream == was[at..at + len] + (got + stream)
  {
    assert s[..at] == s[..at + len][..at];
    assert s[at..at + len] == s[..at + len][at..] == was[at..at + len];
    assert s[at..at + len + |got|] == s[at..at + len] + s[at + len..at + len + |got|];
  }

  // ---- Requests ----

  predicate IsPost(opts: seq<Header>) { IEquals(OptionOf(opts, REQUEST_METHOD), Ascii("POST")) }

  predicate HasUri(opts: seq<Header>, uri: string) { IEquals(OptionOf(opts, REQUEST_URI), Ascii(uri)) }

  predicate IsServed(opts: seq<Header>) { HasUri(opts, "/aa") || HasUri(opts, "/bb") || HasUri(opts, "/cc") }

  function LengthOf(opts: seq<Header>): int { Atoi(OptionOf(opts, CONTENT_LENGTH)) }

  /**
   * The size of the receive buffer after room has been made in it for a body of the length that atoi
   * gave, and a NUL. The body stays inside if and only if the length is not negative: a negative one
   * is a huge size_t, for which the buffer is left as it is, or cut down, or resize throws.
   */
  function RoomFor(size: nat, n: int): (room: nat)
    ensures size <= VECTOR_MAX && -INT_MAX - 1 <= n <= INT_MAX ==> (SizeT(n) < room <= VECTOR_MAX <==> n >= 0)
    ensures n == -1 ==> room == size
    ensures size <= VECTOR_MAX && -256 <= n < -1 ==> room == n + 256
    ensures size <= VECTOR_MAX && -INT_MAX - 1 <= n < -256 ==> room > VECTOR_MAX
  {
    if SizeT(SizeT(n) + 1) > size then SizeT(SizeT(n) + 256) else size
  }

  /** atoi of the Content-Length is defined, and no more of the body has come than that, as a size_t. */
  predicate Accepted(come: nat, length: int) { -INT_MAX - 1 <= length <= INT_MAX && come <= SizeT(length) }

  /** The grammar of RFC 8259 derives the text, nested at most 200 deep. */
  ghost predicate IsJson(text: bytes) { exists d :: JsonGrammar.Derives(JsonGrammar.Standard, text, d) }

  /** The content and status that a body is answered with, if it is answered: /bb takes JSON only. */
  ghost function Reaction(opts: seq<Header>, body: bytes, bb: BackendAnswer): (r: Option<(bytes, bytes)>) {
    if HasUri(opts, "/aa") then Some((Ascii("aa"), STATUS_OK))
    else if HasUri(opts, "/bb") then
      if !IsJson(CString(body)) then Some((Ascii("bb_ret"), STATUS_OK))
      else
        match bb
        case NoAnswer => None
        case Answer(text) => Some((CString(text), STATUS_OK))
    else if HasUri(opts, "/cc") then Some((Ascii("cc"), STATUS_OK))
    else Some((CONTENT_NOT_FOUND, STATUS_NOT_FOUND))
  }

  // ---- What the peer gets ----

  /** The text, read back by the parser, has this status line and this content, with its length. */
  ghost predicate ReadsBackAs(text: bytes, status: string, content: bytes) {
    && Ascii(status) + CRLF <= text && CString(text) == text && HeadEnd(text, 0) == Some(|text| - |content|)
    && OptionOf(HeaderOpts(text), REQUEST_BODY) == content && LengthOf(HeaderOpts(text)) == |content|
  }

  /** The head asks for the URI, in any case. */
  predicate Asks(head: bytes, uri: string)
    requires HeadEnd(head, 0).Some?
  {
    SameUpToCase(OptionOf(HeaderOpts(head), REQUEST_URI), Ascii(uri))
  }

  /**
   * What a request is answered with, by its URI: aa for /aa and cc for /cc; for /bb bb_ret if no
   * derivation gives the body up to its NUL, else the backend's answer up to its NUL, or nothing.
   */
  ghost predicate AnswersByUri(head: bytes, body: bytes, bb: BackendAnswer, open: bool, text: bytes)
    requires HeadEnd(head, 0).Some?
  {
    if Asks(head, "/aa") then open && ReadsBackAs(text, "HTTP/1.1 200 OK", Ascii("aa"))
    else if Asks(head, "/cc") then open && ReadsBackAs(text, "HTTP/1.1 200 OK", Ascii("cc"))
    else if !exists d :: JsonGrammar.Derives(JsonGrammar.Standard, CString(body), d) then
      open && ReadsBackAs(text, "HTTP/1.1 200 OK", Ascii("bb_ret"))
    else
      match bb
      case NoAnswer => !open && text == []
      case Answer(t) => open && ReadsBackAs(text, "HTTP/1.1 200 OK", CString(t))
  }

  class FrontConn {
    const sock: Socket
    const parser: HttpParser
    const lib: JsonValue.Libc
    var request: bytes
    var rSize: nat
    var wSize: nat
    var wPos: nat
    var pBuffer: bytes
    var pWrite: bytes
    var stats: Stats
    ghost var handled: seq<bytes>

    ghost predicate Valid()
      reads this, sock
    {
      sock.Valid() && rSize <= |pBuffer| <= VECTOR_MAX && wSize <= |pWrite|
    }

    constructor (sock: Socket, lib: JsonValue.Libc)
      requires sock.Valid()
      ensures Valid() && this.sock == sock && this.lib == lib && fresh(parser)
      ensures request == [] && stats == Pending && handled == [] && wSize == wPos == 0
    {
      this.sock, this.lib := sock, lib;
      parser := new HttpParser();
      request, rSize, wSize, wPos, stats, handled := [], 0, 0, 0, Pending, [];
      pBuffer, pWrite := seq(BUFFER_SIZE, _ => 0), seq(BUFFER_SIZE, _ => 0);
    }

    // ---- Writing ----

    method FillForHttp(content: bytes, date: bytes, status: bytes)
      requires Valid()
      modifies `pWrite, `wSize, `wPos
      ensures Valid() && wPos == 0 < wSize < |pWrite|
      ensures pWrite[..wSize] == ReplyHead(date, |content|, status) + content
    {
      var enc := ReplyGenerate(content, date, status);
      if |enc| + 1 > |pWrite| {
        pWrite := Resized(pWrite, |enc| + 1);
      }
      pWrite := Copied(pWrite, 0, enc + [0]);
      wSize, wPos := |enc|, 0;
      assert pWrite[..|enc| + 1] == enc + [0];
      assert pWrite[..|enc|] == pWrite[..|enc| + 1][..|enc|];
    }

    method FillAndSend(data: bytes)
      requires Valid() && data != []
      modifies `pWrite, `wSize, `wPos, `rSize, `stats, sock`sent
      ensures Valid() && Sent(old(stats), stats, old(sock.sent), sock.sent, data)
    {
      if |data| > |pWrite| {
        pWrite := Resized(pWrite, |data|);
      }
      pWrite := Copied(pWrite, 0, data);
      wSize, wPos := |data|, 0;
      assert pWrite[wPos..wSize] == data;
      DoWrite();
    }

    /** Writes what is between wPos and wSize; each write takes some of it, or fails. */
    method DoWrite()
      requires Valid() && wPos < wSize
      modifies `wSize, `wPos, `rSize, `stats, sock`sent
      ensures Valid() && Sent(old(stats), stats, old(sock.sent), sock.sent, old(pWrite[wPos..wSize]))
      ensures old(stats) == Working && stats == Working ==> wPos == wSize == 0 && rSize == old(rSize)
      decreases wSize - wPos, 1
    {
      if stats != Working {
        return;
      }
      var ec, n := *, *;
      if ec {
        WriteHandler(Failed, 0);
      } else {
        n :| 0 < n <= wSize - wPos;
        sock.Take(pWrite[wPos..wPos + n]);
        ghost var sent, first, rest := old(sock.sent), pWrite[wPos..wPos + n], pWrite[wPos + n..wSize];
        assert pWrite[wPos..wSize] == first + rest;
        WriteHandler(Success, n);
        assert sent + (first + rest) == sent + first + rest;
        assert rest == [] ==> first + rest == first;
        PrefixOfLonger(sent, first, sock.sent);
      }
    }

    method WriteHandler(ec: ErrorCode, n: nat)
      requires Valid() && wPos + n <= wSize
      modifies `wSize, `wPos, `rSize, `stats, sock`sent
      ensures Valid()
      ensures ec == Success && n > 0 && old(wPos + n < wSize) ==>
        Sent(old(stats), stats, old(sock.sent), sock.sent, old(pWrite[wPos + n..wSize]))
      ensures ec == Success && n > 0 && old(wPos + n == wSize) ==> stats == old(stats) && sock.sent == old(sock.sent)
      ensures ec == Success && n > 0 && stats == old(stats) == Working ==> wPos == wSize == 0 && rSize == old(rSize)
      ensures ec == Failed || (ec == Success && n == 0) ==> stats == Error && sock.sent == old(sock.sent)
      ensures ec == Aborted ==> stats == old(stats) && sock.sent == old(sock.sent)
      decreases wSize - wPos - n, if n > 0 then 2 else 0
    {
      if ec == Success && n > 0 {
        wPos := wPos + n;
        if wPos < wSize {
          DoWrite();
        } else {
          wPos, wSize := 0, 0;
        }
      } else if ec != Aborted {
        NotifyConnError();
      }
    }

    method NotifyConnError()
      requires Valid()
      modifies `rSize, `wSize, `stats
      ensures Valid() && rSize == wSize == 0 && stats == Error
    {
      rSize, wSize, stats := 0, 0, Error;
    }

    // ---- Reading ----

    /**
     * async_read_until of the blank line: reads until the streambuf has one. How much each read has
     * room for depends on the capacity of the streambuf.
     */
    method AsyncReadUntil() returns (ec: ErrorCode, n: nat)
      requires Valid()
      modifies `request, sock`chunks
      ensures Valid() && request + sock.Stream() == old(request + sock.Stream())
      ensures ec == Success <==> HeadEnd(request, 0).Some?
      ensures ec == Success ==> HeadEnd(request, 0) == Some(n)
      ensures ec != Success ==> ec == Failed && sock.Stream() == []
    {
      while HeadEnd(request, 0).None?
        invariant Valid() && request + sock.Stream() == old(request + sock.Stream())
        decreases |sock.Stream()|
      {
        ghost var before, stream := request, sock.Stream();
        var room: nat :| room > 0;
        var got, err := sock.ReadSome(room);
        if err {
          return Failed, 0;
        }
        assert before + (got + sock.Stream()) == before + got + sock.Stream();
        request := request + got;
      }
      ec, n := Success, HeadEnd(request, 0).value;
    }

    /** async_read of exactly n bytes into the buffer from at on. */
    method AsyncRead(at: nat, n: nat) returns (ec: ErrorCode, len: nat)
      requires Valid() && at + n <= |pBuffer|
      modifies `pBuffer, sock`chunks
      ensures Valid() && |pBuffer| == old(|pBuffer|) && len <= n && pBuffer[..at] == old(pBuffer[..at])
      ensures pBuffer[at..at + len] + sock.Stream() == old(sock.Stream())
      ensures ec == Success <==> len == n
      ensures ec != Success ==> ec == Failed && sock.Stream() == []
    {
      len := 0;
      while len < n
        invariant Valid() && |pBuffer| == old(|pBuffer|) && len <= n && pBuffer[..at] == old(pBuffer[..at])
        invariant pBuffer[at..at + len] + sock.Stream() == old(sock.Stream())
        decreases n - len
      {
        ghost var was := pBuffer;
        var got, err := sock.ReadSome(n - len);
        if err {
          return Failed, len;
        }
        pBuffer := Copied(pBuffer, at + len, got);
        CopiedBehind(was, at, len, got, pBuffer, sock.Stream());
        len := len + |got|;
      }
      ec := Success;
    }

    // ---- Handling ----

    ghost predicate Replies(content: bytes, date: bytes, status: bytes)
      reads this
    {
      wSize <= |pWrite| && wPos == 0 < wSize && pWrite[..wSize] == ReplyHead(date, |content|, status) + content
    }

    /** What the reaction to the body leaves under way. */
    ghost predicate Reacts(body: bytes, next: Started, date: bytes, bb: BackendAnswer)
      reads this, parser
    {
      match Reaction(parser.headerOpts, body, bb)
      case None => next == Nothing
      case Some(reply) => next == WritingThenReading && Replies(reply.0, date, reply.1)
    }

    /** The same by the URI, in any case, and by whether the body up to its NUL is JSON. */
    ghost predicate HandledByUri(body: bytes, next: Started, date: bytes, bb: BackendAnswer)
      reads this, parser
    {
      var uri := OptionOf(parser.headerOpts, REQUEST_URI);
      if SameUpToCase(uri, Ascii("/aa")) then next == WritingThenReading && Replies(Ascii("aa"), date, STATUS_OK)
      else if SameUpToCase(uri, Ascii("/cc")) then next == WritingThenReading && Replies(Ascii("cc"), date, STATUS_OK)
      else if !SameUpToCase(uri, Ascii("/bb")) then
        next == WritingThenReading && Replies(CONTENT_NOT_FOUND, date, STATUS_NOT_FOUND)
      else if !IsJson(CString(body)) then next == WritingThenReading && Replies(Ascii("bb_ret"), date, STATUS_OK)
      else if bb.NoAnswer? then next == Nothing
      else next == WritingThenReading && Replies(CString(bb.text), date, STATUS_OK)
    }

    /** json11::Json::parse of a body, in which nothing but the error is looked at; errno is whatever it was. */
    method ParsesAsJson(text: bytes) returns (ok: bool)
      ensures ok <==> IsJson(text)
    {
      var erange: bool := *;
      var value, err, failed, range := JsonParser.Parse(text, JsonParsing.NoError, JsonGrammar.Standard, lib, erange);
      JsonSound.ParserIsTheGrammar(JsonParsing.Source(text, JsonGrammar.Standard, lib), JsonParsing.NoError, erange);
      ok := !failed;
    }

    /** The body is complete: it is answered, or left without an answer. */
    method HandleBody(date: bytes, bb: BackendAnswer) returns (next: Started)
      requires Valid()
      modifies `pWrite, `wSize, `wPos, `handled
      ensures Valid() && handled == old(handled) + [pBuffer[..rSize]]
      ensures Reacts(pBuffer[..rSize], next, date, bb)
      ensures HandledByUri(pBuffer[..rSize], next, date, bb)
    {
      hide ReplyHead, OptionOf, CString, IsJson, SameUpToCase;
      IEqualsIsCase(OptionOf(parser.headerOpts, REQUEST_URI), Ascii("/aa"));
      IEqualsIsCase(OptionOf(parser.headerOpts, REQUEST_URI), Ascii("/bb"));
      IEqualsIsCase(OptionOf(parser.headerOpts, REQUEST_URI), Ascii("/cc"));
      UrisDiffer(OptionOf(parser.headerOpts, REQUEST_URI));
      handled := handled + [pBuffer[..rSize]];
      next := WritingThenReading;
      var uri := parser.RequestOption(REQUEST_URI);
      if IEquals(uri, Ascii("/aa")) {
        FillForHttp(Ascii("aa"), date, STATUS_OK);
      } else if IEquals(uri, Ascii("/bb")) {
        var ok := ParsesAsJson(CString(pBuffer[..rSize]));
        if !ok {
          FillForHttp(Ascii("bb_ret"), date, STATUS_OK);
        } else if bb.NoAnswer? {
          next := Nothing;
        } else {
          FillForHttp(CString(bb.text), date, STATUS_OK);
        }
      } else if IEquals(uri, Ascii("/cc")) {
        FillForHttp(Ascii("cc"), date, STATUS_OK);
      } else {
        FillForHttp(CONTENT_NOT_FOUND, date, STATUS_NOT_FOUND);
      }
    }

    /** More of the body has come: it is read on, or handled when it is complete. */
    method ReadBodyHandler(ec: ErrorCode, n: nat, date: bytes, bb: BackendAnswer) returns (next: Started)
      requires Valid() && rSize + n <= |pBuffer|
      modifies `rSize, `pWrite, `wSize, `wPos, `stats, `handled
      ensures Valid()
      ensures ec == Success && n > 0 ==> rSize == old(rSize) + n && stats == old(stats)
      ensures ec == Success && n > 0 && rSize < SizeT(LengthOf(parser.headerOpts)) ==> next == ReadingBody && handled == old(handled)
      ensures ec == Success && n > 0 && rSize >= SizeT(LengthOf(parser.headerOpts)) ==>
        handled == old(handled) + [pBuffer[..rSize]]
        && Reacts(pBuffer[..rSize], next, date, bb)
      ensures ec == Failed || (ec == Success && n == 0) ==> next == Nothing && stats == Error && handled == old(handled)
      ensures ec == Aborted ==>
        next == WritingThenReading && handled == old(handled) && stats == old(stats)
        && Replies(CONTENT_ERROR, date, STATUS_ERROR)
    {
      if ec == Success && n > 0 {
        var length := parser.RequestOption(CONTENT_LENGTH);
        rSize := rSize + n;
        if rSize < SizeT(Atoi(length)) {
          return ReadingBody;
        }
        next := HandleBody(date, bb);
      } else if ec != Aborted {
        NotifyConnError();
        next := Nothing;
      } else {
        FillForHttp(CONTENT_ERROR, date, STATUS_ERROR);
        next := WritingThenReading;
      }
    }

    /**
     * The head of a request has come, in the first n bytes of the streambuf. What follows it there
     * is the start of the body.
     */
    method ReadHeadHandler(ec: ErrorCode, n: nat, date: bytes, bb: BackendAnswer) returns (next: Started)
      requires Valid() && n <= |request|
      requires ec == Success && n > 0 && Expected(request) ==> Accepted(|request| - n, Length(request))
      modifies this, parser
      ensures Valid()
      ensures ec == Success && n > 0 ==> HeadOutcome(old(request), n, old(|pBuffer|), next, date, bb, old(handled), old(stats))
      ensures ec == Failed || (ec == Success && n == 0) ==> next == Nothing && stats == Error && handled == old(handled)
      ensures ec == Aborted ==>
        next == Writing && handled == old(handled) && stats == old(stats) && request == []
        && Replies(CONTENT_ERROR, date, STATUS_ERROR)
    {
      hide Reaction, ReplyHead, OptionOf, IEquals, Atoi, HeadEnd;
      if ec == Success && n > 0 {
        var headStr := request;
        request := request[n..];
        var ok := parser.ParseRequest(headStr);
        if ok {
          next := DispatchHead(date, bb);
          return;
        }
      } else if ec != Aborted {
        NotifyConnError();
        return Nothing;
      }
      FillForHttp(CONTENT_ERROR, date, STATUS_ERROR);
      request, rSize := [], 0;
      next := Writing;
    }

    /** The head is parsed: what it asks for is refused, or its body is begun. */
    method DispatchHead(date: bytes, bb: BackendAnswer) returns (next: Started)
      requires Valid()
      requires IsPost(parser.headerOpts) && IsServed(parser.headerOpts) ==> Accepted(|request|, LengthOf(parser.headerOpts))
      modifies `rSize, `pBuffer, `request, `pWrite, `wSize, `wPos, `stats, `handled
      ensures Valid() && DispatchOutcome(old(request), old(|pBuffer|), next, date, bb, old(handled), old(stats))
    {
      hide Reaction, ReplyHead, OptionOf, Atoi;
      var verb := parser.RequestOption(REQUEST_METHOD);
      var uri := parser.RequestOption(REQUEST_URI);
      if !IEquals(verb, Ascii("POST")) {
        FillForHttp(CONTENT_BAD_REQUEST, date, STATUS_BAD_REQUEST);
        next := Writing;
      } else if IEquals(uri, Ascii("/aa")) || IEquals(uri, Ascii("/bb")) || IEquals(uri, Ascii("/cc")) {
        next := BeginBody(date, bb);
      } else {
        FillForHttp(CONTENT_NOT_FOUND, date, STATUS_NOT_FOUND);
        next := Writing;
      }
    }

    /** The streambuf has the start of the body: it is read on, or it is all there and handled. */
    method BeginBody(date: bytes, bb: BackendAnswer) returns (next: Started)
      requires Valid() && Accepted(|request|, LengthOf(parser.headerOpts))
      modifies `rSize, `pBuffer, `request, `pWrite, `wSize, `wPos, `stats, `handled
      ensures Valid()
      ensures BodyOutcome(old(request), LengthOf(parser.headerOpts), old(|pBuffer|), next, date, bb, old(handled), old(stats))
    {
      hide Reaction, ReplyHead, OptionOf, Atoi, SizeT, IEquals;
      var length := parser.RequestOption(CONTENT_LENGTH);
      var additional, end := TakeAdditional(SizeT(Atoi(length)), Atoi(length));
      if end != Returned {
        return Broken(end);
      }
      if additional < SizeT(Atoi(length)) {
        rSize := additional;
        return ReadingBody;
      }
      next := ReadBodyHandler(Success, additional, date, bb);
    }

    /** Makes room for the body and a NUL, and moves what there is of it from the streambuf. */
    method TakeAdditional(len: nat, ghost length: int) returns (additional: nat, end: Ending)
      requires Valid() && len == SizeT(length) && Accepted(|request|, length)
      modifies `rSize, `pBuffer, `request
      ensures Valid() && rSize == 0 && additional == |old(request)|
      ensures end == Thrown <==> length < -256
      ensures end == Overrun <==> -256 <= length < 0 && old(request) != [] && additional >= RoomFor(old(|pBuffer|), length)
      ensures end != Thrown ==> |pBuffer| == RoomFor(old(|pBuffer|), length)
      ensures if end == Returned then request == [] && additional <= |pBuffer| && pBuffer[..additional] == old(request)
              else request == old(request)
    {
      hide SizeT;
      rSize, additional, end := 0, |request|, Returned;
      if SizeT(len + 1) > |pBuffer| {
        if SizeT(len + 256) > VECTOR_MAX {
          return additional, Thrown;
        }
        pBuffer := Resized(pBuffer, SizeT(len + 256));
      }
      if additional > 0 {
        if additional + 1 > |pBuffer| {
          return additional, Overrun;
        }
        pBuffer := Copied(pBuffer, 0, request + [0]);
        assert pBuffer[..additional] == pBuffer[..additional + 1][..additional];
        assert pBuffer[0..additional + 1] == request + [0];
        request := [];
      }
    }

    /** What a successful read of the head in text[..n] leaves. */
    ghost predicate HeadOutcome(text: bytes, n: nat, size: nat, next: Started, date: bytes, bb: BackendAnswer,
                                handledBefore: seq<bytes>, statsBefore: Stats)
      requires n <= |text|
      reads this, parser
    {
      if HeadEnd(CString(text), 0).None? then
        next == Writing && request == [] && rSize == 0 && handled == handledBefore && stats == statsBefore
        && Replies(CONTENT_ERROR, date, STATUS_ERROR)
      else
        parser.headerOpts == HeaderOpts(CString(text))
        && DispatchOutcome(text[n..], size, next, date, bb, handledBefore, statsBefore)
    }

    /** What a parsed head leaves when extra follows it. */
    ghost predicate DispatchOutcome(extra: bytes, size: nat, next: Started, date: bytes, bb: BackendAnswer,
                                    handledBefore: seq<bytes>, statsBefore: Stats)
      reads this, parser
    {
      if !IsPost(parser.headerOpts) then
        next == Writing && request == extra && handled == handledBefore && stats == statsBefore
        && Replies(CONTENT_BAD_REQUEST, date, STATUS_BAD_REQUEST)
      else if !IsServed(parser.headerOpts) then
        next == Writing && request == extra && handled == handledBefore && stats == statsBefore
        && Replies(CONTENT_NOT_FOUND, date, STATUS_NOT_FOUND)
      else
        BodyOutcome(extra, LengthOf(parser.headerOpts), size, next, date, bb, handledBefore, statsBefore)
    }

    /**
     * What the start of a body of len bytes leaves, when the receive buffer had the size: a body of no
     * bytes at all is taken for an error, and of a negative length nothing is ever handled.
     */
    ghost predicate BodyOutcome(start: bytes, len: int, size: nat, next: Started, date: bytes, bb: BackendAnswer,
                                handledBefore: seq<bytes>, statsBefore: Stats)
      reads this, parser
    {
      if len < -256 then
        next == Broken(Thrown) && request == start && rSize == 0 && handled == handledBefore && stats == statsBefore
      else if len < 0 && start != [] && |start| >= RoomFor(size, len) then
        next == Broken(Overrun) && handled == handledBefore && stats == statsBefore
      else
        request == [] && |pBuffer| == RoomFor(size, len) &&
        if |start| < SizeT(len) then
          next == ReadingBody && handled == handledBefore && stats == statsBefore
          && rSize == |start| <= |pBuffer| && pBuffer[..rSize] == start
        else if start == [] then
          next == Nothing && handled == handledBefore && stats == Error
        else
          handled == handledBefore + [start] && stats == statsBefore
          && Reacts(start, next, date, bb)
    }

    /** A request for something that is served is taken for a read error exactly if its length is zero, or missing. */
    lemma ErrorIffNoLength(text: bytes, n: nat, size: nat, next: Started, date: bytes, bb: BackendAnswer,
                           handledBefore: seq<bytes>)
      requires n <= |text| && HeadOutcome(text, n, size, next, date, bb, handledBefore, Working)
      requires Expected(text) && Accepted(|text| - n, Length(text))
      ensures stats == Error <==> Length(text) == 0
    {
      hide Reaction, ReplyHead, OptionOf, Atoi, SizeT, IEquals, HeaderOpts, HeadEnd, CString;
    }

    /** An input: to a POST of /aa without a Content-Length nothing is answered. */
    lemma MissingLength(size: nat, next: Started, date: bytes, bb: BackendAnswer, handledBefore: seq<bytes>)
      returns (head: bytes)
      ensures head == Ascii("POST /aa HTTP/1.1") + CRLF + CRLF
      ensures HeadOutcome(head, |head|, size, next, date, bb, handledBefore, Working) ==>
        next == Nothing && stats == Error && handled == handledBefore
    {
      hide Reaction, ReplyHead, OptionOf, Atoi, IEquals, HeaderOpts, HeadEnd, CString;
      head := PostWithoutLength();
    }

    /**
     * What a head that is refused is answered with: 500 without a blank line, 400 if its method is
     * not POST, and 404 if its URI is none of the three.
     */
    lemma RefusalIsRead(text: bytes, n: nat, size: nat, next: Started, date: bytes, bb: BackendAnswer,
                        handledBefore: seq<bytes>, statsBefore: Stats)
      requires n <= |text| && wSize <= |pWrite| && HeadOutcome(text, n, size, next, date, bb, handledBefore, statsBefore)
      requires Clean(date) && Trimmed(date)
      ensures HeadEnd(CString(text), 0).None? ==>
        next == Writing && ReadsBackAs(pWrite[..wSize], "HTTP/1.1 500 Internal Server Error",
                                        Ascii(Page("Internal Server Error", "500 Internal Server Error")))
      ensures HeadEnd(CString(text), 0).Some? ==> var opts := HeaderOpts(CString(text));
        var verb, uri := OptionOf(opts, REQUEST_METHOD), OptionOf(opts, REQUEST_URI);
        && (!SameUpToCase(verb, Ascii("POST")) ==>
             next == Writing && ReadsBackAs(pWrite[..wSize], "HTTP/1.1 400 Bad Request", Ascii(Page("Bad Request", "400 Bad Request"))))
        && (SameUpToCase(verb, Ascii("POST")) && !SameUpToCase(uri, Ascii("/aa")) && !SameUpToCase(uri, Ascii("/bb"))
            && !SameUpToCase(uri, Ascii("/cc")) ==>
             next == Writing && ReadsBackAs(pWrite[..wSize], "HTTP/1.1 404 Not Found", Ascii(Page("Not Found", "404 Not Found"))))
    {
      hide BodyOutcome, ReplyHead, ReadsBackAs, OptionOf, IEquals, HeaderOpts, HeadEnd, CString, Clean, Trimmed, SameUpToCase;
      PagesAreRead(date);
      if HeadEnd(CString(text), 0).Some? {
        var opts := HeaderOpts(CString(text));
        IEqualsIsCase(OptionOf(opts, REQUEST_METHOD), Ascii("POST"));
        IEqualsIsCase(OptionOf(opts, REQUEST_URI), Ascii("/aa"));
        IEqualsIsCase(OptionOf(opts, REQUEST_URI), Ascii("/bb"));
        IEqualsIsCase(OptionOf(opts, REQUEST_URI), Ascii("/cc"));
      }
    }

    // ---- Whole requests ----

    /** The body is read to its end, in one exact read; one of a negative length has more room than the buffer. */
    method DoReadBody(date: bytes, bb: BackendAnswer) returns (next: Started)
      requires Valid() && stats == Working && Accepted(rSize, LengthOf(parser.headerOpts))
      requires rSize != LengthOf(parser.headerOpts) && LengthOf(parser.headerOpts) <= |pBuffer|
      modifies `pBuffer, `rSize, `pWrite, `wSize, `wPos, `stats, `handled, sock`chunks
      ensures Valid()
      ensures LengthOf(parser.headerOpts) < 0 ==> next == Broken(Overrun) && stats == Working && handled == old(handled)
      ensures 0 <= LengthOf(parser.headerOpts) <= old(rSize + |sock.Stream()|) ==>
        var len, stream := LengthOf(parser.headerOpts), old(sock.Stream());
        && stats == Working && sock.Stream() == stream[len - old(rSize)..]
        && handled == old(handled) + [old(pBuffer[..rSize]) + stream[..len - old(rSize)]]
        && Reacts(old(pBuffer[..rSize]) + stream[..len - old(rSize)], next, date, bb)
      ensures LengthOf(parser.headerOpts) > old(rSize + |sock.Stream()|) ==>
        stats == Error && next == Nothing && handled == old(handled)
    {
      hide Reaction, ReplyHead, OptionOf, IEquals, Atoi, SizeT;
      ghost var at, stream, start := rSize, sock.Stream(), pBuffer[..rSize];
      var length := parser.RequestOption(CONTENT_LENGTH);
      if SizeT(Atoi(length)) > |pBuffer| {
        return Broken(Overrun);
      }
      var ec, n := AsyncRead(rSize, SizeT(Atoi(length)) - rSize);
      ghost var got := pBuffer[at..at + n];
      assert pBuffer[..at + n] == pBuffer[..at] + got;
      assert (got + sock.Stream())[..n] == got && (got + sock.Stream())[n..] == sock.Stream();
      next := ReadBodyHandler(ec, n, date, bb);
    }

    /** The head: from the first read to what its handler leaves under way. */
    method DoReadHead(ghost head: bytes, ghost body: bytes, date: bytes, bb: BackendAnswer)
      returns (next: Started, ghost start: bytes)
      requires Valid() && stats == Working && IsRequest(head, body) && request + sock.Stream() == head + body
      modifies this, parser, sock`chunks
      ensures Valid() && start + sock.Stream() == body
      ensures LengthOf(parser.headerOpts) == |body| && Reaction(parser.headerOpts, body, bb) == Reaction(HeaderOpts(head), body, bb)
      ensures BodyOutcome(start, |body|, old(|pBuffer|), next, date, bb, old(handled), Working)
    {
      hide Reaction, ReplyHead, HeaderOpts, OptionOf, IEquals, Atoi;
      RequestIsThere(head, body);
      var ec, n := AsyncReadUntil();
      assert sock.Stream() == [] ==> request + sock.Stream() == request;
      RequestIsFound(head, body, request, sock.Stream(), n, bb);
      start := request[n..];
      next := ReadHeadHandler(ec, n, date, bb);
    }

    /** A request is put together and handled; what is left to do is to send the reply. */
    method ReadRequest(ghost head: bytes, ghost body: bytes, date: bytes, bb: BackendAnswer) returns (next: Started)
      requires Valid() && stats == Working && IsRequest(head, body) && request + sock.Stream() == head + body
      modifies this, parser, sock`chunks
      ensures Valid() && stats == Working && handled == old(handled) + [body] && request == [] && sock.Stream() == []
      ensures match Reaction(HeaderOpts(head), body, bb)
              case None => next == Nothing
              case Some(reply) => next == WritingThenReading && Replies(reply.0, date, reply.1)
    {
      hide Reaction, ReplyHead, HeaderOpts, OptionOf, HeadEnd, IEquals, Atoi;
      ghost var start;
      next, start := DoReadHead(head, body, date, bb);
      if next == ReadingBody {
        WholeSlice(sock.Stream());
        next := DoReadBody(date, bb);
      } else {
        NothingFollows(start, sock.Stream(), body);
      }
    }

    /**
     * One request, as the handlers follow each other: however the head and the body are cut into
     * reads, what is handled is the body, and what is sent is its reply.
     */
    method ServeRequest(ghost head: bytes, ghost body: bytes, date: bytes, bb: BackendAnswer) returns (open: bool)
      requires Valid() && stats == Working && IsRequest(head, body) && request + sock.Stream() == head + body
      modifies this, parser, sock
      ensures Valid() && handled == old(handled) + [body] && request == [] && sock.Stream() == []
      ensures open == Answered(head, body, date, bb).Some? && (!open ==> stats == Working)
      ensures Sent(Working, stats, old(sock.sent), sock.sent, Text(Answered(head, body, date, bb)))
      ensures Clean(date) && Trimmed(date) ==>
        exists text :: AnswersByUri(head, body, bb, open, text) && Sent(Working, stats, old(sock.sent), sock.sent, text)
    {
      hide Reaction, ReplyHead, HeaderOpts, OptionOf, HeadEnd, IEquals, Atoi, AnswersByUri, Clean, Trimmed;
      if Clean(date) && Trimmed(date) { AnswerByUri(head, body, date, bb); }
      ghost var sent := sock.sent;
      var next := ReadRequest(head, body, date, bb);
      open := next == WritingThenReading;
      if next == Writing || next == WritingThenReading {
        assert pWrite[wPos..wSize] == pWrite[..wSize];
        DoWrite();
      } else {
        assert sent + [] == sent;
      }
    }

    /**
     * Keep-alive: each request comes, in any chunks, when the one before it has been answered.
     * Returns how many were served: all of them, unless a write failed or one got no answer, after
     * which nothing more is read. What was sent is the answers in order, cut short if a write failed.
     */
    method ServeAll(arrivals: seq<Arrival>, ghost requests: seq<(bytes, bytes)>) returns (served: nat)
      requires Valid() && stats == Working && request == [] && sock.Stream() == []
      requires |requests| == |arrivals| && forall k :: 0 <= k < |arrivals| ==> Brings(arrivals[k], requests[k].0, requests[k].1)
      modifies this, parser, sock
      ensures Valid() && served <= |arrivals|
      ensures handled == old(handled) + Bodies(requests, served)
      ensures Sent(Working, stats, old(sock.sent), sock.sent, Answers(arrivals, requests, served))
      ensures served < |arrivals| ==> stats == Error || (served > 0 && AnswerTo(arrivals[served - 1], requests[served - 1]).None?)
    {
      hide Bodies, Answers, AnswerTo, Flatten, IsRequest;
      served := 0;
      var open := true;
      NoneServed(arrivals, requests, stats, handled, sock.sent);
      while served < |arrivals| && open && stats == Working
        invariant Valid() && served <= |arrivals|
        invariant stats == Working ==> request == [] && sock.Stream() == []
        invariant Served(arrivals, requests, served, open, stats, old(handled), handled, old(sock.sent), sock.sent)
        decreases |arrivals| - served
      {
        open := ServeNext(arrivals, requests, served, old(handled), old(sock.sent));
        served := served + 1;
      }
    }

    /** The next request comes, and is served. */
    method ServeNext(arrivals: seq<Arrival>, ghost requests: seq<(bytes, bytes)>, k: nat,
                     ghost handled0: seq<bytes>, ghost sent0: bytes)
      returns (open: bool)
      requires Valid() && stats == Working && request == [] && sock.Stream() == []
      requires k < |arrivals| == |requests| && Brings(arrivals[k], requests[k].0, requests[k].1)
      requires Served(arrivals, requests, k, true, stats, handled0, handled, sent0, sock.sent)
      modifies this, parser, sock
      ensures Valid() && request == [] && sock.Stream() == []
      ensures Served(arrivals, requests, k + 1, open, stats, handled0, handled, sent0, sock.sent)
    {
      ghost var sent := sock.sent;
      sock.Deliver(arrivals[k].chunks);
      open := ServeRequest(requests[k].0, requests[k].1, arrivals[k].date, arrivals[k].bb);
      Extend(handled0, Bodies(requests, k), [requests[k].1]);
      SentMore(stats, sent0, sent, sock.sent, Answers(arrivals, requests, k), Text(AnswerTo(arrivals[k], requests[k])));
    }
  }

  /** The first k of the requests have been served: their bodies were handled and their answers sent. */
  ghost predicate Served(arrivals: seq<Arrival>, requests: seq<(bytes, bytes)>, k: nat, open: bool, stats: Stats,
                         handled0: seq<bytes>, handled: seq<bytes>, sent0: bytes, sent: bytes)
    requires k <= |arrivals| == |requests|
  {
    && handled == handled0 + Bodies(requests, k)
    && Sent(Working, stats, sent0, sent, Answers(arrivals, requests, k))
    && (open || (k > 0 && AnswerTo(arrivals[k - 1], requests[k - 1]).None?))
  }

  lemma NoneServed(arrivals: seq<Arrival>, requests: seq<(bytes, bytes)>, stats: Stats, handled: seq<bytes>, sent: bytes)
    requires |arrivals| == |requests| && stats == Working
    ensures Served(arrivals, requests, 0, true, stats, handled, handled, sent, sent)
  {
    assert handled + [] == handled && sent + [] == sent;
  }

  lemma SentMore(after: Stats, sent: bytes, sent': bytes, sent'': bytes, a: bytes, b: bytes)
    requires Sent(Working, Working, sent, sent', a) && Sent(Working, after, sent', sent'', b)
    ensures Sent(Working, after, sent, sent'', a + b)
  {
    Extend(sent, a, b);
    PrefixOfLonger(sent, a, sent'');
  }

  lemma Extend<T>(a: seq<T>, b: seq<T>, c: seq<T>)
    ensures a + b + c == a + (b + c)
  {
  }

  /** The chunks of a request, and what the clock and the backend say while it is served. */
  datatype Arrival = Arrival(chunks: seq<bytes>, date: bytes, bb: BackendAnswer)

  ghost predicate Brings(a: Arrival, head: bytes, body: bytes) {
    [] !in a.chunks && IsRequest(head, body) && Flatten(a.chunks) == head + body
  }

  function Bodies(requests: seq<(bytes, bytes)>, k: nat): (r: seq<bytes>)
    requires k <= |requests|
  {
    if k == 0 then [] else Bodies(requests, k - 1) + [requests[k - 1].1]
  }

  /** The reply to a request with the head, if it is answered. */
  ghost function Answered(head: bytes, body: bytes, date: bytes, bb: BackendAnswer): (r: Option<bytes>) {
    if HeadEnd(head, 0).None? then None else
      match Reaction(HeaderOpts(head), body, bb)
      case None => None
      case Some(reply) => Some(ReplyHead(date, |reply.0|, reply.1) + reply.0)
  }

  function Text(answer: Option<bytes>): (r: bytes) { if answer.Some? then answer.value else [] }

  ghost function AnswerTo(a: Arrival, request: (bytes, bytes)): (r: Option<bytes>) {
    Answered(request.0, request.1, a.date, a.bb)
  }

  ghost function Answers(arrivals: seq<Arrival>, requests: seq<(bytes, bytes)>, k: nat): (r: bytes)
    requires k <= |requests| == |arrivals|
  {
    if k == 0 then [] else Answers(arrivals, requests, k - 1) + Text(AnswerTo(arrivals[k - 1], requests[k - 1]))
  }

  /** A request with a body: a head up to its blank line, and as many bytes as it says. */
  ghost predicate IsRequest(head: bytes, body: bytes) {
    && HeadEnd(head, 0) == Some(|head|) && 0 !in head
    && IsPost(HeaderOpts(head)) && IsServed(HeaderOpts(head))
    && LengthOf(HeaderOpts(head)) == |body| && 0 < |body| <= INT_MAX
  }

  lemma RequestIsThere(head: bytes, body: bytes)
    requires IsRequest(head, body)
    ensures HeadEnd(head + body, 0) == Some(|head|)
  {
    HeadEndOfPrefix(head, head + body, 0);
  }

  /** The head is found in whatever part of the request has come, and is the head of the request. */
  lemma RequestIsFound(head: bytes, body: bytes, text: bytes, rest: bytes, n: nat, bb: BackendAnswer)
    requires IsRequest(head, body) && text + rest == head + body && HeadEnd(text, 0) == Some(n)
    ensures n == |head| && text[n..] + rest == body && HeadEnd(CString(text), 0) == Some(n)
    ensures IsPost(HeaderOpts(CString(text))) && IsServed(HeaderOpts(CString(text)))
    ensures LengthOf(HeaderOpts(CString(text))) == |body|
    ensures Reaction(HeaderOpts(CString(text)), body, bb) == Reaction(HeaderOpts(head), body, bb)
  {
    hide OptionOf, Atoi, IEquals, CString, HeaderOpts;
    RequestIsThere(head, body);
    HeadEndOfPrefix(text, text + rest, 0);
    assert text == head + text[n..] by {
      assert text[..n] == (text + rest)[..n] == head;
    }
    assert (text + rest)[n..] == text[n..] + rest && (head + body)[n..] == body;
    OptionsOfRequest(head, text[n..], text);
  }

  lemma OptionsOfRequest(head: bytes, extra: bytes, text: bytes)
    requires HeadEnd(head, 0) == Some(|head|) && 0 !in head && text == head + extra
    ensures HeadEnd(CString(text), 0) == Some(|head|)
    ensures OptionOf(HeaderOpts(CString(text)), REQUEST_METHOD) == OptionOf(HeaderOpts(head), REQUEST_METHOD)
    ensures OptionOf(HeaderOpts(CString(text)), REQUEST_URI) == OptionOf(HeaderOpts(head), REQUEST_URI)
    ensures OptionOf(HeaderOpts(CString(text)), CONTENT_LENGTH) == OptionOf(HeaderOpts(head), CONTENT_LENGTH)
  {
    NotTheBody(REQUEST_METHOD);
    NotTheBody(REQUEST_URI);
    NotTheBody(CONTENT_LENGTH);
    OptionsOfHead(head, extra, REQUEST_METHOD);
    OptionsOfHead(head, extra, REQUEST_URI);
    OptionsOfHead(head, extra, CONTENT_LENGTH);
  }

  /**
   * Any head that a client prints is a request for a body of the length it says: POST and one of the
   * three URIs in any case, with slashes at the end or without, and one Content-Length, in any case.
   */
  lemma PrintedRequest(q: RequestText, k: nat, body: bytes, uri: string)
    requires ValidRequest(q) && NotNamed(q, REQUEST_METHOD) && NotNamed(q, REQUEST_URI)
    requires SameUpToCase(q.verb, Ascii("POST")) && (uri == "/aa" || uri == "/bb" || uri == "/cc")
    requires |q.uri| >= 3 && SameUpToCase(q.uri[..3], Ascii(uri)) && forall i :: 3 <= i < |q.uri| ==> q.uri[i] == SLASH
    requires NamedAt(q, Ascii("Content-Length"), k) && q.headers[k].value == ToDecimal(|body|) && 0 < |body| <= INT_MAX
    ensures IsRequest(HeadOf(q), body) && Asks(HeadOf(q), uri)
  {
    hide HeaderOpts, OptionOf, HeadEnd, HeadOf, ValidRequest, IEquals, Atoi, NamedAt, NotNamed, SameUpToCase, InCapitals;
    hide WithoutSlashes, IsReserved, IsRequest, Asks, ToDecimal, Ascii;
    RequestIsRead(q);
    var opts := HeaderOpts(HeadOf(q));
    CapitalsOfPost(q.verb, OptionOf(opts, REQUEST_METHOD));
    UriOfThree(q.uri, OptionOf(opts, REQUEST_URI), uri);
    LengthIsNotReserved();
    AtoiOfDecimal(|body|);
    IsServedRequest(HeadOf(q), body, uri);
  }

  lemma IsServedRequest(head: bytes, body: bytes, uri: string)
    requires HeadEnd(head, 0) == Some(|head|) && 0 !in head && 0 < |body| <= INT_MAX
    requires SameUpToCase(OptionOf(HeaderOpts(head), REQUEST_METHOD), Ascii("POST"))
    requires SameUpToCase(OptionOf(HeaderOpts(head), REQUEST_URI), Ascii(uri)) && (uri == "/aa" || uri == "/bb" || uri == "/cc")
    requires Atoi(OptionOf(HeaderOpts(head), CONTENT_LENGTH)) == |body|
    ensures IsRequest(head, body) && Asks(head, uri)
  {
    hide HeaderOpts, OptionOf, HeadEnd, IEquals, Atoi, SameUpToCase;
    IEqualsIsCase(OptionOf(HeaderOpts(head), REQUEST_METHOD), Ascii("POST"));
    IEqualsIsCase(OptionOf(HeaderOpts(head), REQUEST_URI), Ascii(uri));
  }

  lemma CapitalsOfPost(verb: bytes, r: bytes)
    requires SameUpToCase(verb, Ascii("POST")) && InCapitals(verb, r)
    ensures SameUpToCase(r, Ascii("POST"))
  {
    var post := Ascii("POST");
    assert post == [80, 79, 83, 84];
    forall k | 0 <= k < |r| ensures SameLetter(r[k], post[k]) {
      assert SameLetter(r[k], verb[k]) && SameLetter(verb[k], post[k]);
    }
  }

  lemma UriOfThree(text: bytes, r: bytes, uri: string)
    requires |text| >= 3 && |uri| == 3 && SameUpToCase(text[..3], Ascii(uri)) && WithoutSlashes(text, r)
    requires (forall i :: 3 <= i < |text| ==> text[i] == SLASH) && uri[2] != '/' && 'a' <= uri[2] <= 'z'
    ensures SameUpToCase(r, Ascii(uri))
  {
    var u := Ascii(uri);
    assert text[..3][2] == text[2] && SameLetter(text[2], u[2]) && u[2] == uri[2] as int % 256;
    assert text[2] != SLASH;
    assert r == [] || r[|r| - 1] == text[|r| - 1];
    assert |r| == 3 && r == text[..3];
  }

  lemma LengthIsNotReserved()
    ensures CONTENT_LENGTH == Ascii("Content-Length") != [] && !IsReserved(CONTENT_LENGTH)
  {
  }

  /** A POST of /aa whose head is nothing but its request line. */
  lemma PostWithoutLength() returns (head: bytes)
    ensures head == Ascii("POST /aa HTTP/1.1") + CRLF + CRLF
    ensures HeadEnd(CString(head), 0) == Some(|head|) && IsPost(HeaderOpts(CString(head)))
    ensures HasUri(HeaderOpts(CString(head)), "/aa") && LengthOf(HeaderOpts(CString(head))) == 0
  {
    hide HeaderOpts, FirstMatch, HeadEnd, IEquals, ValidRequest, HeadOf, LineOf, HeadersText;
    var q := RequestText(Ascii("POST"), [SPACE], Ascii("/aa"), [SPACE], Ascii("HTTP/1.1"), []);
    PostIsValid(q);
    head := HeadOf(q);
    RequestIsRead(q);
    NoNulIsWhole(head);
    var opts := HeaderOpts(head);
    LengthIsNotReserved();
    CapitalsOfPost(q.verb, OptionOf(opts, REQUEST_METHOD));
    assert q.uri[..3] == Ascii("/aa");
    UriOfThree(q.uri, OptionOf(opts, REQUEST_URI), "/aa");
    IEqualsIsCase(OptionOf(opts, REQUEST_METHOD), Ascii("POST"));
    IEqualsIsCase(OptionOf(opts, REQUEST_URI), Ascii("/aa"));
  }

  lemma PostIsValid(q: RequestText)
    requires q == RequestText(Ascii("POST"), [SPACE], Ascii("/aa"), [SPACE], Ascii("HTTP/1.1"), [])
    ensures ValidRequest(q) && HeadOf(q) == Ascii("POST /aa HTTP/1.1") + CRLF + CRLF
  {
    assert q.verb == [80, 79, 83, 84] && q.uri == [47, 97, 97] && q.version == [72, 84, 84, 80, 47, 49, 46, 49];
    PostLine(q);
    assert LineOf(q) + CRLF + [] + CRLF == LineOf(q) + CRLF + CRLF;
  }

  lemma PostLine(q: RequestText)
    requires q.verb == [80, 79, 83, 84] && q.gap == q.gap' == [SPACE] && q.uri == [47, 97, 97]
    requires q.version == [72, 84, 84, 80, 47, 49, 46, 49]
    ensures LineOf(q) == Ascii("POST /aa HTTP/1.1")
  {
    var a: bytes := [32, 72, 84, 84, 80, 47, 49, 46, 49];
    var b, c: bytes := [47, 97, 97, 32, 72, 84, 84, 80, 47, 49, 46, 49], [32, 47, 97, 97, 32, 72, 84, 84, 80, 47, 49, 46, 49];
    var d: bytes := [80, 79, 83, 84, 32, 47, 97, 97, 32, 72, 84, 84, 80, 47, 49, 46, 49];
    assert q.gap' + q.version == a;
    assert q.uri + a == b && q.gap + b == c && q.verb + c == d;
    PostInCode(d);
  }

  lemma PostInCode(d: bytes)
    requires d == [80, 79, 83, 84, 32, 47, 97, 97, 32, 72, 84, 84, 80, 47, 49, 46, 49]
    ensures d == Ascii("POST /aa HTTP/1.1")
  {
  }

  lemma NothingFollows(start: bytes, rest: bytes, body: bytes)
    requires start + rest == body && |start| >= |body|
    ensures start == body && rest == []
  {
    assert |rest| == 0;
  }

  lemma WholeSlice(s: bytes)
    ensures s[..|s|] == s && s[|s|..] == []
  {
  }

  lemma NotTheBody(name: bytes)
    requires |name| != |REQUEST_BODY|
    ensures !IEquals(name, REQUEST_BODY)
  {
    SameLength(name, REQUEST_BODY);
  }

  /** The head that text begins with asks for something that is served with a body. */
  predicate Expected(text: bytes) {
    HeadEnd(CString(text), 0).Some? && IsPost(HeaderOpts(CString(text))) && IsServed(HeaderOpts(CString(text)))
  }

  function Length(text: bytes): int { if HeadEnd(CString(text), 0).Some? then LengthOf(HeaderOpts(CString(text))) else 0 }

  // ---- What the peer reads ----

  predicate Visible(s: string) { forall k :: 0 <= k < |s| ==> ' ' <= s[k] <= '~' && s[k] != ':' }

  lemma VisibleIsClean(s: string)
    requires Visible(s)
    ensures Clean(Ascii(s)) && COLON !in Ascii(s) && 0 !in Ascii(s)
  {
    forall k | 0 <= k < |s| ensures 32 <= Ascii(s)[k] <= 126 && Ascii(s)[k] != COLON {
      assert ' ' <= s[k] <= '~' && s[k] != ':';
    }
  }

  lemma StatusIsLine(status: bytes, s: string)
    requires Visible(s) && |s| >= 5 && s[..5] == "HTTP/" && status == Ascii(s) + CRLF
    ensures IsStatusLine(status)
  {
    VisibleIsClean(s);
    assert Ascii(s)[..5] == Ascii("HTTP/") by {
      assert forall k :: 0 <= k < 5 ==> s[k] == s[..5][k];
    }
    HttpLineIsStatus(Ascii(s));
  }

  /** A reply with a status line of the protocol is read back, with its content. */
  lemma ReplyReadsBack(content: bytes, date: bytes, status: string)
    requires Visible(status) && |status| >= 5 && status[..5] == "HTTP/" && 0 !in content && Clean(date) && Trimmed(date)
    ensures ReadsBackAs(ReplyHead(date, |content|, Ascii(status) + CRLF) + content, status, content)
  {
    hide HeaderOpts, OptionOf, Atoi, HeadEnd, CString, ReplyHead, Clean, Trimmed;
    StatusIsLine(Ascii(status) + CRLF, status);
    var text := ReplyIsRead(content, date, Ascii(status) + CRLF);
  }

  lemma PageIsVisible(title: string, text: string)
    requires Visible(title) && Visible(text)
    ensures 0 !in Ascii(Page(title, text))
  {
    VisibleTogether("<html><head><title>", title);
    VisibleTogether("<html><head><title>" + title, "</title></head><body><h1>");
    VisibleTogether("<html><head><title>" + title + "</title></head><body><h1>", text);
    VisibleTogether("<html><head><title>" + title + "</title></head><body><h1>" + text, "</h1></body></html>");
    VisibleIsClean(Page(title, text));
  }

  lemma VisibleTogether(a: string, b: string)
    requires Visible(a) && Visible(b)
    ensures Visible(a + b)
  {
  }

  lemma PagesAreRead(date: bytes)
    requires Clean(date) && Trimmed(date)
    ensures ReadsBackAs(ReplyHead(date, |CONTENT_ERROR|, STATUS_ERROR) + CONTENT_ERROR, "HTTP/1.1 500 Internal Server Error",
                        Ascii(Page("Internal Server Error", "500 Internal Server Error")))
    ensures ReadsBackAs(ReplyHead(date, |CONTENT_BAD_REQUEST|, STATUS_BAD_REQUEST) + CONTENT_BAD_REQUEST, "HTTP/1.1 400 Bad Request",
                        Ascii(Page("Bad Request", "400 Bad Request")))
    ensures ReadsBackAs(ReplyHead(date, |CONTENT_NOT_FOUND|, STATUS_NOT_FOUND) + CONTENT_NOT_FOUND, "HTTP/1.1 404 Not Found",
                        Ascii(Page("Not Found", "404 Not Found")))
  {
    hide ReadsBackAs, ReplyHead, Clean, Trimmed, Page, Visible;
    VisibleWords();
    PageIsRead("Internal Server Error", "500 Internal Server Error", "HTTP/1.1 500 Internal Server Error", date);
    PageIsRead("Bad Request", "400 Bad Request", "HTTP/1.1 400 Bad Request", date);
    PageIsRead("Not Found", "404 Not Found", "HTTP/1.1 404 Not Found", date);
  }

  lemma PageIsRead(title: string, text: string, status: string, date: bytes)
    requires Visible(title) && Visible(text) && status == "HTTP/1.1 " + text && Clean(date) && Trimmed(date)
    ensures var content := Ascii(Page(title, text));
      ReadsBackAs(ReplyHead(date, |content|, Ascii(status) + CRLF) + content, status, content)
  {
    hide ReadsBackAs, ReplyHead, Clean, Trimmed, Page;
    PageIsVisible(title, text);
    VisibleTogether("HTTP/1.1 ", text);
    assert status[..5] == "HTTP/";
    ReplyReadsBack(Ascii(Page(title, text)), date, status);
  }

  lemma VisibleWords()
    ensures Visible("Internal Server Error") && Visible("500 Internal Server Error")
    ensures Visible("Bad Request") && Visible("400 Bad Request") && Visible("Not Found") && Visible("404 Not Found")
  {
  }

  /** The answer to a request is the one for its URI and its body. */
  lemma AnswerByUri(head: bytes, body: bytes, date: bytes, bb: BackendAnswer)
    requires IsRequest(head, body) && Clean(date) && Trimmed(date)
    ensures AnswersByUri(head, body, bb, Answered(head, body, date, bb).Some?, Text(Answered(head, body, date, bb)))
  {
    hide HeaderOpts, OptionOf, Atoi, HeadEnd, ReplyHead, IEquals, Clean, Trimmed, ReadsBackAs, SameUpToCase;
    var uri := OptionOf(HeaderOpts(head), REQUEST_URI);
    IEqualsIsCase(uri, Ascii("/aa"));
    IEqualsIsCase(uri, Ascii("/bb"));
    IEqualsIsCase(uri, Ascii("/cc"));
    if Answered(head, body, date, bb).Some? {
      ReactionIsPlain(HeaderOpts(head), body, bb);
      var content := Reaction(HeaderOpts(head), body, bb).value.0;
      ReplyReadsBack(content, date, "HTTP/1.1 200 OK");
    }
    UrisDiffer(uri);
  }

  lemma UrisDiffer(uri: bytes)
    ensures !(SameUpToCase(uri, Ascii("/aa")) && SameUpToCase(uri, Ascii("/cc")))
    ensures !(SameUpToCase(uri, Ascii("/bb")) && SameUpToCase(uri, Ascii("/cc")))
    ensures !(SameUpToCase(uri, Ascii("/aa")) && SameUpToCase(uri, Ascii("/bb")))
  {
    assert Ascii("/aa")[1] == 97 && Ascii("/bb")[1] == 98 && Ascii("/cc")[1] == 99;
  }

  lemma ReactionIsPlain(opts: seq<Header>, body: bytes, bb: BackendAnswer)
    requires IsServed(opts) && Reaction(opts, body, bb).Some?
    ensures 0 !in Reaction(opts, body, bb).value.0 && Reaction(opts, body, bb).value.1 == STATUS_OK
  {
    VisibleIsClean("aa");
    VisibleIsClean("bb_ret");
    VisibleIsClean("cc");
  }

  /** Every answer to a request, as it is sent, is read back by the parser: its content and its length. */
  lemma AnswerIsRead(head: bytes, body: bytes, date: bytes, bb: BackendAnswer) returns (content: bytes)
    requires IsRequest(head, body) && Answered(head, body, date, bb).Some? && Clean(date) && Trimmed(date)
    ensures Some((content, STATUS_OK)) == Reaction(HeaderOpts(head), body, bb)
    ensures var text := Answered(head, body, date, bb).value;
      CString(text) == text && HeadEnd(text, 0) == Some(|text| - |content|)
      && OptionOf(HeaderOpts(text), REQUEST_BODY) == content
      && LengthOf(HeaderOpts(text)) == |content|
  {
    hide HeaderOpts, OptionOf, Atoi, HeadEnd, CString, IsJson, ReplyHead, IEquals, Clean, Trimmed;
    content := AnswerText(head, body, date, bb);
    StatusIsLine(STATUS_OK, "HTTP/1.1 200 OK");
    var text := ReplyIsRead(content, date, STATUS_OK);
  }

  lemma AnswerText(head: bytes, body: bytes, date: bytes, bb: BackendAnswer) returns (content: bytes)
    requires IsRequest(head, body) && Answered(head, body, date, bb).Some?
    ensures Some((content, STATUS_OK)) == Reaction(HeaderOpts(head), body, bb) && 0 !in content
    ensures Answered(head, body, date, bb).value == ReplyHead(date, |content|, STATUS_OK) + content
  {
    hide HeaderOpts, OptionOf, Atoi, HeadEnd, CString, IsJson, ReplyHead, IEquals;
    ReactionIsPlain(HeaderOpts(head), body, bb);
    content := Reaction(HeaderOpts(head), body, bb).value.0;
  }

  lemma PrefixOfLonger(a: bytes, b: bytes, c: bytes)
    ensures a + b <= c ==> a <= c
  {
    if a + b <= c {
      assert a == (a + b)[..|a|] == c[..|a + b|][..|a|];
    }
  }

  ghost predicate Sent(before: Stats, after: Stats, sent: bytes, sent': bytes, data: bytes) {
    if before != Working then after == before && sent' == sent
    else if after == Working then sent' == sent + data
    else after == Error && sent <= sent' <= sent + data
  }
}
