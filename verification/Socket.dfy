/**
 * A connected socket as the handlers see it. What the peer sends arrives in chunks, cut anywhere,
 * and the end of the chunks is the end of the stream.
 */
module Socket {
  import opened Bytes

  function Flatten(chunks: seq<bytes>): (s: bytes) {
    if chunks == [] then [] else chunks[0] + Flatten(chunks[1..])
  }

  lemma {:induction false} FlattenConcat(a: seq<bytes>, b: seq<bytes>)
    ensures Flatten(a + b) == Flatten(a) + Flatten(b)
  {
    if a == [] {
      assert a + b == b;
    } else {
      assert (a + b)[1..] == a[1..] + b;
      FlattenConcat(a[1..], b);
    }
  }

  class Socket {
    var chunks: seq<bytes>
    var sent: bytes

    ghost predicate Valid()
      reads this
    {
      [] !in chunks
    }

    /** What is still to come. */
    ghost function Stream(): bytes
      reads this
    {
      Flatten(chunks)
    }

    constructor (chunks: seq<bytes>)
      requires [] !in chunks
      ensures Valid() && this.chunks == chunks && sent == []
    {
      this.chunks, sent := chunks, [];
    }

    /** read_some into room bytes: as much of the next chunk as fits, and an error at the end. */
    method ReadSome(room: nat) returns (got: bytes, ec: bool)
      requires Valid()
      modifies `chunks
      ensures Valid() && got + Stream() == old(Stream())
      ensures ec <==> room > 0 && old(chunks) == []
      ensures |got| == if room == 0 || old(chunks) == [] then 0 else Least(room, |old(chunks)[0]|)
      ensures old(chunks) != [] && got != [] ==> got <= old(chunks)[0]
    {
      if room == 0 || chunks == [] {
        return [], room > 0;
      }
      var n := Least(room, |chunks[0]|);
      got, ec := chunks[0][..n], false;
      assert chunks[0] == chunks[0][..n] + chunks[0][n..];
      if n < |chunks[0]| {
        chunks := [chunks[0][n..]] + chunks[1..];
      } else {
        chunks := chunks[1..];
      }
    }

    /** What the peer sends next. */
    method Deliver(more: seq<bytes>)
      requires Valid() && [] !in more
      modifies `chunks
      ensures Valid() && Stream() == old(Stream()) + Flatten(more)
    {
      FlattenConcat(chunks, more);
      chunks := chunks + more;
    }

    /** write_some of bytes that the peer took. */
    method Take(data: bytes)
      modifies `sent
      ensures sent == old(sent) + data
    {
      sent := sent + data;
    }
  }
}
