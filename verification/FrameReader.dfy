/**
 * Frames from the backend: the length in decimal, a colon and the payload, read into a buffer that
 * grows when the payload needs it.
 */
module FrameReader {
  import opened Options
  import opened Bytes
  import opened HttpText
  import opened Socket

  /** The stream begins with a frame of the payload, and rest follows. */
  ghost predicate IsFrame(stream: bytes, payload: bytes, rest: bytes) {
    stream == ToDecimal(|payload|) + [COLON] + payload + rest
  }

  /** The text before the first colon of the first twenty bytes, as a C string, if there is a colon. */
  function Prefix(b: bytes): (r: Option<bytes>)
    requires |b| >= 20
    ensures r.Some? ==> |r.value| < 20 && 0 !in r.value && r.value + [COLON] <= b
  {
    var text := CString(b[..20]);
    var pos := IndexOf(text, COLON);
    if pos == |text| then None else Some(text[..pos])
  }

  /** There is a prefix exactly if a colon is among the first twenty bytes with no NUL before it; the first colon ends it. */
  lemma PrefixIsFirst(b: bytes, n: nat)
    requires |b| >= 20
    ensures Prefix(b).Some? && |Prefix(b).value| == n <==>
      n < 20 && b[n] == COLON && forall k :: 0 <= k < n ==> b[k] != COLON && b[k] != 0
    ensures Prefix(b).Some? && |Prefix(b).value| == n ==> Prefix(b).value == b[..n]
  {
    var front := b[..20];
    var text := CString(front);
    var pos := IndexOf(text, COLON);
    assert forall k :: 0 <= k < |text| ==> text[k] == front[k] == b[k];
    assert |text| < 20 ==> b[|text|] == 0;
    if n < 20 && b[n] == COLON && forall k :: 0 <= k < n ==> b[k] != COLON && b[k] != 0 {
      assert n < |text| && text[n] == COLON;
      assert pos == n;
    }
  }

  /** The buffer after a read has put got at its front. */
  function Filled(b: bytes, got: bytes): (r: bytes)
    requires |got| <= |b|
    ensures |r| == |b|
  {
    got + b[|got|..]
  }

  predicate AllZero(b: bytes) { forall k :: 0 <= k < |b| ==> b[k] == 0 }

  /** In a buffer of zeros the prefix and its colon are among the bytes that were read. */
  lemma PrefixWasRead(b: bytes, got: bytes)
    requires |b| >= 20 && AllZero(b) && |got| <= |b| && Prefix(Filled(b, got)).Some?
    ensures |Prefix(Filled(b, got)).value| < |got|
    ensures Prefix(Filled(b, got)).value + [COLON] <= got
  {
    var p := Prefix(Filled(b, got)).value;
    assert (p + [COLON])[|p|] == Filled(b, got)[|p|];
  }

  /** A frame whose prefix the first read has got is recognised, whatever came with it. */
  lemma FrameHasPrefix(b: bytes, got: bytes, stream: bytes, payload: bytes, rest: bytes)
    requires |b| >= 20 && |got| <= |b| && got <= stream && IsFrame(stream, payload, rest)
    requires |ToDecimal(|payload|)| < |got| && |payload| <= INT_MAX
    ensures Prefix(Filled(b, got)) == Some(ToDecimal(|payload|))
    ensures Atoi(ToDecimal(|payload|)) == |payload|
  {
    var d := ToDecimal(|payload|);
    var seen := Filled(b, got);
    ShortDecimal(|payload|);
    assert seen[..|d|] == d && seen[|d|] == COLON by {
      assert stream[..|d|] == d && stream[|d|] == COLON;
    }
    assert forall k :: 0 <= k < |d| ==> IsDigit(d[k]);
    ColonInPrefix(seen, d);
    AtoiOfDecimal(|payload|);
  }

  lemma ShortDecimal(n: nat)
    requires n <= INT_MAX
    ensures |ToDecimal(n)| <= 10
  {
    var d := ToDecimal(n);
    DecimalBounds(d);
    assert Pow10(10) == 10 * Pow10(9) && Pow10(9) == 10 * Pow10(8) && Pow10(8) == 10 * Pow10(7) && Pow10(7) == 10 * Pow10(6);
    assert Pow10(6) == 1_000_000;
    if |d| > 10 {
      Pow10Monotone(10, |d| - 1);
    }
  }

  lemma ColonInPrefix(b: bytes, d: bytes)
    requires |b| >= 20 > |d| && 0 !in d && COLON !in d && b[..|d|] == d && b[|d|] == COLON
    ensures Prefix(b) == Some(d)
  {
    var front := b[..20];
    var text := CString(front);
    assert forall k :: 0 <= k < |d| ==> b[k] == d[k] && d[k] in d;
    assert forall k :: 0 <= k <= |d| ==> front[k] == b[k] != 0;
    assert text[..|d|] == d;
    assert text == d + [COLON] + text[|d| + 1..];
    IndexOfAppend(d, COLON, text[|d| + 1..]);
  }

  /**
   * The size of the buffer after room has been made in it for a payload of the length that atoi
   * gave. A negative length is a huge size_t: resize throws for it, or, from -256 on, cuts the
   * buffer down.
   */
  function RoomFor(size: nat, n: int): (room: nat)
    ensures size <= VECTOR_MAX && 0 <= n <= INT_MAX ==> n <= room <= VECTOR_MAX && size <= room
    ensures size <= VECTOR_MAX && -256 <= n < 0 ==> room == n + 256
    ensures size <= VECTOR_MAX && -INT_MAX - 1 <= n < -256 ==> room > VECTOR_MAX
  {
    if SizeT(n) > size then SizeT(SizeT(n) + 256) else size
  }

  /** The bytes that came with the prefix do not fit in the buffer exactly when it was cut down below them. */
  lemma CutBelow(size: nat, n: int, actual: nat)
    requires actual <= size <= VECTOR_MAX && -INT_MAX - 1 <= n <= INT_MAX
    ensures RoomFor(size, n) <= VECTOR_MAX && actual > RoomFor(size, n) <==> -256 <= n < 0 && actual > n + 256
  {
  }

  /** The prefix as the first read of the chunks shows it in the buffer. */
  function FrameHead(b: bytes, chunks: seq<bytes>): (r: Option<bytes>)
    requires |b| >= 20 && chunks != []
  {
    Prefix(Filled(b, chunks[0][..Least(|b|, |chunks[0]|)]))
  }

  /** How many bytes behind the prefix and its colon the first read of the chunks gets. */
  function Actual(b: bytes, chunks: seq<bytes>, head: bytes): (n: int)
    requires chunks != []
  {
    Least(|b|, |chunks[0]|) - |head| - 1
  }

  /**
   * How a call ends that has read a prefix, its colon included, with the length, and actual bytes
   * behind it; and what it returns, n and ec, with front in the first n bytes of the buffer and left
   * on the stream. Nothing is lost or repeated, and less than the length comes only before the stream
   * ends. A negative length of which the call returns never comes: the buffer fills up.
   */
  ghost predicate PayloadOutcome(stream: bytes, prefix: bytes, length: int, actual: int,
                                 end: Ending, n: nat, ec: bool, front: bytes, left: bytes)
  {
    if length < -256 then end == Thrown
    else if length < 0 && actual > length + 256 then end == Overrun
    else
      && end == Returned && |front| == n && stream == prefix + front + left
      && if ec then left == [] && n < (if length > 0 then length else length + 256)
         else if length > 0 then n >= length else n == length + 256
  }

  /** The same of a whole call: without a prefix, or with a length of zero, it returns an error. */
  ghost predicate Outcome(b: bytes, chunks: seq<bytes>, end: Ending, n: nat, ec: bool, front: bytes, left: bytes)
    requires |b| >= 20
  {
    if chunks == [] then end == Returned && n == 0 && ec && left == [] else
      match FrameHead(b, chunks)
      case None => end == Returned && n == 0 && !ec
      case Some(head) =>
        if Atoi(head) == 0 then end == Returned && n == 0 && !ec
        else PayloadOutcome(Flatten(chunks), head + [COLON], Atoi(head), Actual(b, chunks, head), end, n, ec, front, left)
  }

  /** An input that overruns: the prefix -256 leaves no buffer, and one byte came with it. */
  lemma NegativeOverruns(b: bytes, more: seq<bytes>, end: Ending, n: nat, ec: bool, front: bytes, left: bytes)
    requires |b| >= 20 && Outcome(b, [Ascii("-256:a")] + more, end, n, ec, front, left)
    ensures end == Overrun
  {
    hide FrameHead, Atoi, Flatten;
    var chunk, digits := Ascii("-256:a"), Ascii("256");
    assert chunk == [MINUS, 50, 53, 54, COLON, 97] && digits == [50, 53, 54];
    HeadIsNegative(b, chunk, digits, [97], more);
    assert digits[..2] == [50, 53] && [50, 53][..1] == [50] && [50][..0] == [];
    assert Decimal(digits) == 256;
  }

  /** A negative one that does not: when just the prefix -5 comes first, at most 251 bytes are read. */
  lemma NegativeConfined(b: bytes, more: seq<bytes>, end: Ending, n: nat, ec: bool, front: bytes, left: bytes)
    requires |b| >= 20 && Outcome(b, [Ascii("-5:")] + more, end, n, ec, front, left)
    ensures end == Returned && n <= 251
  {
    hide FrameHead, Atoi, Flatten;
    var chunk, digits := Ascii("-5:"), Ascii("5");
    assert chunk == [MINUS, 53, COLON] && digits == [53];
    HeadIsNegative(b, chunk, digits, [], more);
    assert digits[..0] == [];
    assert Decimal(digits) == 5;
  }

  lemma HeadIsNegative(b: bytes, chunk: bytes, digits: bytes, rest: bytes, more: seq<bytes>)
    requires |b| >= 20 > |chunk| && chunk == [MINUS] + digits + [COLON] + rest && AllDigits(digits)
    ensures FrameHead(b, [chunk] + more) == Some([MINUS] + digits) && Atoi([MINUS] + digits) == -(Decimal(digits) as int)
  {
    hide Prefix, Atoi;
    var d, seen := [MINUS] + digits, Filled(b, chunk);
    assert ([chunk] + more)[0] == chunk && chunk[..|chunk|] == chunk;
    assert seen[..|d|] == d && seen[|d|] == COLON by {
      assert seen[..|chunk|] == chunk && chunk[..|d|] == d && chunk[|d|] == COLON;
    }
    assert forall k :: 0 <= k < |digits| ==> IsDigit(digits[k]);
    ColonInPrefix(seen, d);
    AtoiOfNegative(digits);
  }

  lemma AtoiOfNegative(digits: bytes)
    requires AllDigits(digits)
    ensures Atoi([MINUS] + digits) == -(Decimal(digits) as int)
  {
    assert ([MINUS] + digits)[1..] == digits;
    AllDigitsLead(digits);
  }

  /**
   * However the stream is cut, if the first read has the whole prefix then the call succeeds with
   * the payload at the front of the buffer, and what follows it is the start of the rest.
   */
  lemma FrameIsDelivered(b: bytes, chunks: seq<bytes>, end: Ending, n: nat, ec: bool, front: bytes, left: bytes,
                         payload: bytes, rest: bytes)
    requires |b| >= 20 && chunks != [] && Outcome(b, chunks, end, n, ec, front, left)
    requires IsFrame(Flatten(chunks), payload, rest) && 0 < |payload| <= INT_MAX && |ToDecimal(|payload|)| < |chunks[0]|
    ensures end == Returned && !ec && |payload| <= n && front[..|payload|] == payload && front[|payload|..] + left == rest
  {
    var head := ToDecimal(|payload|);
    var got := chunks[0][..Least(|b|, |chunks[0]|)];
    ShortDecimal(|payload|);
    assert got <= Flatten(chunks);
    FrameHasPrefix(b, got, Flatten(chunks), payload, rest);
    FrameIsRead(head + [COLON], payload, rest, front, left);
  }

  lemma FrameIsRead(head: bytes, payload: bytes, rest: bytes, front: bytes, left: bytes)
    requires head + payload + rest == head + front + left
    requires |front| < |payload| ==> left == []
    ensures |payload| <= |front| && front[..|payload|] == payload && front[|payload|..] + left == rest
  {
    var s := head + payload + rest;
    assert s[|head|..] == payload + rest && s[|head|..] == front + left;
    assert |payload + rest| == |front + left|;
    assert (front + left)[..|payload|] == payload;
    assert (front + left)[|payload|..] == rest;
  }

  lemma Reassemble(head: bytes, got: bytes, start: bytes, stream: bytes, front: bytes, left: bytes)
    requires head <= got <= stream && start == got[|head|..]
    requires front + left == start + stream[|got|..]
    ensures stream == head + front + left
  {
    assert stream == got + stream[|got|..] && got == head + start;
    assert head + front + left == head + (front + left);
    assert head + (start + stream[|got|..]) == head + start + stream[|got|..];
  }

  class FrameReader {
    var buff: bytes

    constructor (n: nat)
      ensures |buff| == n && AllZero(buff)
    {
      buff := seq(n, _ => 0);
    }

    /** One read_some into what the buffer has from at on. */
    method ReadAt(sock: Socket, at: nat) returns (len: nat, ec: bool)
      requires sock.Valid() && at <= |buff|
      modifies this, sock`chunks
      ensures sock.Valid() && |buff| == old(|buff|) && at + len <= |buff|
      ensures buff[..at] == old(buff[..at]) && buff[at + len..] == old(buff)[at + len..]
      ensures buff[at..at + len] + sock.Stream() == old(sock.Stream())
      ensures ec <==> at < |buff| && old(sock.chunks) == []
      ensures len == if at == |buff| || ec then 0 else Least(old(|buff|) - at, |old(sock.chunks)[0]|)
      ensures len > 0 ==> buff[at..at + len] == old(sock.chunks)[0][..len]
    {
      var got;
      got, ec := sock.ReadSome(|buff| - at);
      len := |got|;
      buff := buff[..at] + got + buff[at + len..];
    }

    /**
     * Returns how many bytes at the front of the buffer are payload or follow it, and 0 for an
     * error. The buffer is full of zeros, so that the prefix ends where the first read ends; the C
     * library gives a length that is no int no meaning. A call that starts a read beyond the end
     * of the buffer is followed no further.
     */
    method SyncReadFrom(sock: Socket) returns (end: Ending, n: nat, ec: bool)
      requires sock.Valid() && 20 <= |buff| <= VECTOR_MAX && AllZero(buff)
      requires sock.chunks != [] && FrameHead(buff, sock.chunks).Some? ==>
        -INT_MAX - 1 <= Atoi(FrameHead(buff, sock.chunks).value) <= INT_MAX
      modifies this, sock`chunks
      ensures sock.Valid() && n <= |buff|
      ensures Outcome(old(buff), old(sock.chunks), end, n, ec, buff[..n], sock.Stream())
    {
      hide Atoi, SizeT, PayloadOutcome;
      ghost var before, chunks := buff, sock.chunks;
      var len;
      end, n := Returned, 0;
      len, ec := ReadAt(sock, 0);
      if ec {
        return;
      }
      ghost var got := buff[..len];
      assert buff == Filled(before, got) && got == chunks[0][..len];
      assert Prefix(buff) == FrameHead(before, chunks);
      var prefix := Prefix(buff);
      if prefix.Some? && SizeT(Atoi(prefix.value)) != 0 {
        PrefixWasRead(before, got);
        assert buff[0..len] == got;
        end, n, ec := ReadPayload(sock, prefix.value + [COLON], len, Atoi(prefix.value), SizeT(Atoi(prefix.value)), got);
      }
    }

    /** The prefix is erased, and the payload is read. */
    method ReadPayload(sock: Socket, prefix: bytes, len: nat, ghost length: int, realLen: nat, ghost got: bytes)
      returns (end: Ending, n: nat, ec: bool)
      requires sock.Valid() && |buff| <= VECTOR_MAX && prefix <= got <= buff && len == |got|
      requires -INT_MAX - 1 <= length <= INT_MAX && length != 0 && realLen == SizeT(length)
      modifies this, sock`chunks
      ensures sock.Valid() && n <= |buff|
      ensures PayloadOutcome(got + old(sock.Stream()), prefix, length, |got| - |prefix|, end, n, ec, buff[..n], sock.Stream())
    {
      hide SizeT;
      ghost var stream := got + sock.Stream();
      var thrown := DropPrefix(prefix, length, realLen, got);
      if thrown {
        return Thrown, 0, false;
      }
      ghost var start := buff[..Least(len - |prefix|, |buff|)];
      end, n, ec := ReadRest(sock, len - |prefix|, realLen);
      if end == Returned {
        assert stream[|got|..] == old(sock.Stream());
        Reassemble(prefix, got, start, stream, buff[..n], sock.Stream());
      }
    }

    /** Erases the prefix, and makes room for the payload. */
    method DropPrefix(prefix: bytes, ghost length: int, realLen: nat, ghost got: bytes) returns (thrown: bool)
      requires prefix <= got <= buff && |buff| <= VECTOR_MAX && -INT_MAX - 1 <= length <= INT_MAX && realLen == SizeT(length)
      modifies this
      ensures thrown <==> length < -256
      ensures !thrown ==> |buff| == RoomFor(old(|buff|) - |prefix|, length)
      ensures !thrown ==> (|got| - |prefix| > |buff| <==> -256 <= length < 0 && |got| - |prefix| > length + 256)
      ensures !thrown ==> buff[..Least(|got| - |prefix|, |buff|)] == got[|prefix|..][..Least(|got| - |prefix|, |buff|)]
    {
      buff := buff[|prefix|..];
      ghost var size := |buff|;
      assert RoomFor(size, length) == if realLen > size then SizeT(realLen + 256) else size;
      if realLen > |buff| {
        if SizeT(realLen + 256) > VECTOR_MAX {
          return true;
        }
        buff := Resized(buff, SizeT(realLen + 256));
      }
      CutBelow(size, length, |got| - |prefix|);
      thrown := false;
    }

    /**
     * The sub-reads, until the payload is complete, the buffer is full or the stream ends. What the
     * buffer has room for wraps around when it is shorter than what it is said to hold.
     */
    method ReadRest(sock: Socket, actual: nat, realLen: nat) returns (end: Ending, n: nat, ec: bool)
      requires sock.Valid() && (actual <= |buff| || actual < realLen)
      modifies this, sock`chunks
      ensures sock.Valid() && |buff| == old(|buff|) && n <= |buff|
      ensures end == if actual <= |buff| then Returned else Overrun
      ensures end == Returned ==> actual <= n && buff[..n] + sock.Stream() == old(buff[..actual] + sock.Stream())
      ensures end == Returned ==> if ec then n < realLen && n < |buff| && sock.Stream() == [] else n >= realLen || n == |buff|
    {
      end, n, ec := Returned, actual, false;
      while n < realLen
        invariant sock.Valid() && |buff| == old(|buff|) && actual <= n && (n <= |buff| || n == actual < realLen)
        invariant n <= |buff| ==> buff[..n] + sock.Stream() == old(buff[..actual] + sock.Stream())
        decreases realLen - n
      {
        if n > |buff| {
          return Overrun, 0, false;
        }
        ghost var before := buff[..n];
        var len;
        len, ec := ReadAt(sock, n);
        if ec || len == 0 {
          return;
        }
        assert before + (buff[n..n + len] + sock.Stream()) == before + buff[n..n + len] + sock.Stream();
        assert buff[..n + len] == before + buff[n..n + len];
        n := n + len;
      }
      ec := false;
    }
  }
}
