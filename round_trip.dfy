/**
 * The two directions together: the arguments the chunker emits, fed in order
 * to the reassembler from an empty buffer, give back the original response
 * when its encoding fits in MaxSize, and are rejected when it does not.
 */
module RoundTrip {
  import opened Wrappers
  import opened Wire
  import opened Base64
  import opened Chunker
  import opened Reassembler

  /** The results of feeding fragments one after the other, each seeing the buffer left by the one before. */
  function FeedAll(buffer: Option<string>, fragments: seq<string>): (results: seq<Reassembly>)
    ensures |results| == |fragments|
    decreases |fragments|
  {
    if fragments == [] then []
    else
      var r := Reassemble(buffer, fragments[0]);
      [r] + FeedAll(NextBuffer(r), fragments[1..])
  }

  /** The buffer holding an already received, full-fragment prefix. */
  function BufferOf(received: string): Option<string> {
    if received == "" then None else Some(received)
  }

  /** Feeding a first fragment, then the rest. */
  lemma FeedAllCons(buffer: Option<string>, fragment: string, more: seq<string>)
    ensures FeedAll(buffer, [fragment] + more)
         == [Reassemble(buffer, fragment)] + FeedAll(NextBuffer(Reassemble(buffer, fragment)), more)
  {
    assert ([fragment] + more)[1..] == more;
  }

  /** The results stay pending until the last one, which completes with the payload. */
  predicate CompletesWith(rs: seq<Reassembly>, payload: seq<Byte>)
    decreases |rs|
  {
    rs != [] && if |rs| == 1 then rs[0] == Complete(payload) else rs[0].Pending? && CompletesWith(rs[1..], payload)
  }

  lemma PendingThenComplete(buffer: string, later: seq<Reassembly>, payload: seq<Byte>)
    requires CompletesWith(later, payload)
    ensures CompletesWith([Pending(buffer)] + later, payload)
  {
    assert ([Pending(buffer)] + later)[1..] == later;
  }

  /** A fragment that does not fill a chunk, or the terminator, ends the message. */
  lemma FeedLast(received: string, rest: string)
    requires |received| % ChunkSize == 0
    requires |received| + |rest| <= MaxSize
    requires |rest| % 4 == 0 && |rest| < ChunkSize
    ensures FeedAll(BufferOf(received), Terminated(rest)) == [Complete(Decode(received + rest))]
  {
    var buffer := BufferOf(received);
    var fragment := if rest == "" then "+" else rest;
    assert Terminated(rest) == [fragment];
    FeedAllCons(buffer, fragment, []);
    if rest == "" {
      assert received + rest == received;
    } else {
      assert Accumulate(buffer, rest) == received + rest;
    }
  }

  /** A full-size leading segment keeps the reassembler pending with the longer prefix. */
  lemma FeedFull(received: string, rest: string)
    requires |received| % ChunkSize == 0
    requires |received| + ChunkSize <= MaxSize
    requires |rest| >= ChunkSize
    ensures FeedAll(BufferOf(received), Terminated(rest))
         == [Pending(received + rest[..ChunkSize])] + FeedAll(BufferOf(received + rest[..ChunkSize]), Terminated(rest[ChunkSize..]))
  {
    var buffer := BufferOf(received);
    var head := rest[..ChunkSize];
    TerminatedStep(rest);
    assert Accumulate(buffer, head) == received + head;
    FeedAllCons(buffer, head, Terminated(rest[ChunkSize..]));
  }

  /**
   * After a prefix of full fragments has been received, the remaining
   * arguments keep the reassembler pending until the last, which completes
   * with the decoding of the whole text.
   */
  lemma {:induction false} FeedRemaining(received: string, rest: string)
    requires |received| % ChunkSize == 0
    requires |received| + |rest| <= MaxSize
    requires |rest| % 4 == 0
    ensures CompletesWith(FeedAll(BufferOf(received), Terminated(rest)), Decode(received + rest))
    decreases |rest|
  {
    if |rest| < ChunkSize {
      FeedLast(received, rest);
    } else {
      var head, tail := rest[..ChunkSize], rest[ChunkSize..];
      var later := FeedAll(BufferOf(received + head), Terminated(tail));
      assert FeedAll(BufferOf(received), Terminated(rest)) == [Pending(received + head)] + later by {
        FeedFull(received, rest);
      }
      assert CompletesWith(later, Decode(received + rest)) by {
        assert received + head + tail == received + rest;
        assert |received + head| == |received| + ChunkSize && |tail| == |rest| - ChunkSize;
        FeedRemaining(received + head, tail);
      }
      PendingThenComplete(received + head, later, Decode(received + rest));
    }
  }

  /**
   * Round trip: the chunker's arguments for a response, the trailing `+`
   * included, leave the reassembler pending until the last one, which yields
   * exactly the original payload (the empty payload for a NULL response).
   */
  lemma RoundTrip(response: Option<seq<Byte>>)
    requires response.Some? ==> |Encode(response.value)| <= MaxSize
    ensures CompletesWith(FeedAll(None, ResponseArgs(response)), response.GetOr([]))
  {
    match response
    case None =>
      FeedAllCons(None, "+", []);
    case Some(data) =>
      FeedRemaining("", Encode(data));
      assert "" + Encode(data) == Encode(data);
      DecodeEncode(data);
  }

  /** The results stay pending until one of them is a failure; nothing completes before it. */
  predicate RefusedBeforeComplete(rs: seq<Reassembly>)
    decreases |rs|
  {
    rs != [] && (rs[0].TooLarge? || (rs[0].Pending? && RefusedBeforeComplete(rs[1..])))
  }

  /**
   * After a prefix of full fragments, remaining arguments that would grow the
   * text beyond MaxSize make some step fail before anything completes.
   */
  lemma {:induction false} RejectRemaining(received: string, rest: string)
    requires |received| % ChunkSize == 0
    requires |received| <= MaxSize < |received| + |rest|
    requires |rest| % 4 == 0
    ensures RefusedBeforeComplete(FeedAll(BufferOf(received), Terminated(rest)))
    decreases |rest|
  {
    var buffer := BufferOf(received);
    if |rest| < ChunkSize {
      assert Terminated(rest) == [rest];
      assert Accumulate(buffer, rest) == received + rest;
      FeedAllCons(buffer, rest, []);
    } else {
      var head, tail := rest[..ChunkSize], rest[ChunkSize..];
      TerminatedStep(rest);
      assert Accumulate(buffer, head) == received + head;
      FeedAllCons(buffer, head, Terminated(tail));
      if |received + head| <= MaxSize {
        RejectRemaining(received + head, tail);
      }
    }
  }

  /** Size limit: a response whose encoding exceeds MaxSize is refused before it completes. */
  lemma Oversize(data: seq<Byte>)
    requires |Encode(data)| > MaxSize
    ensures RefusedBeforeComplete(FeedAll(None, ResponseArgs(Some(data))))
  {
    var text := Encode(data);
    assert ResponseArgs(Some(data)) == Terminated(text);
    assert BufferOf("") == None;
    RejectRemaining("", text);
  }
}
