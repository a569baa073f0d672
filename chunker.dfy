/**
 * The outgoing side of sasl_send_response: how a response becomes the
 * arguments of successive AUTHENTICATE commands.
 */
module Chunker {
  import opened Wrappers
  import opened Wire
  import opened Base64

  /** Concatenation of segments, in order. */
  function Concat(segs: seq<string>): string {
    if segs == [] then "" else segs[0] + Concat(segs[1..])
  }

  /**
   * The text cut into ChunkSize-long segments, as the loop of
   * sasl_send_response does; only the last may be shorter, and the empty text
   * has no segment.
   */
  function Segments(text: string): seq<string>
    decreases |text|
  {
    if text == "" then []
    else if |text| <= ChunkSize then [text]
    else [text[..ChunkSize]] + Segments(text[ChunkSize..])
  }

  /**
   * The segments put back together give the text; each holds 1 to ChunkSize
   * bytes, all but the last exactly ChunkSize, and the last is full
   * exactly when the text length is a multiple of ChunkSize. Segments of a
   * text whose length is a multiple of 4 (base64 output) are multiples of 4 too.
   */
  lemma {:induction false} SegmentsShape(text: string)
    ensures var segs := Segments(text);
            Concat(segs) == text &&
            (forall i :: 0 <= i < |segs| ==> 0 < |segs[i]| <= ChunkSize) &&
            (forall i :: 0 <= i < |segs| - 1 ==> |segs[i]| == ChunkSize) &&
            (segs != [] ==> (|segs[|segs| - 1]| == ChunkSize <==> |text| % ChunkSize == 0)) &&
            (|text| % 4 == 0 ==> forall i :: 0 <= i < |segs| ==> |segs[i]| % 4 == 0)
    decreases |text|
  {
    if |text| > ChunkSize {
      var head, tail := text[..ChunkSize], text[ChunkSize..];
      SegmentsShape(tail);
      var later := Segments(tail);
      var segs := [head] + later;
      assert Segments(text) == segs;
      assert segs[1..] == later;
      assert head + tail == text;
      assert |tail| % ChunkSize == |text| % ChunkSize;
      assert segs[|segs| - 1] == later[|later| - 1];
      forall i | 0 < i < |segs| ensures segs[i] == later[i - 1] {
      }
    }
  }

  /**
   * The segments of an encoded text followed by the empty terminator `+`
   * exactly when the text length is a multiple of ChunkSize (zero included),
   * so that the receiver never waits for a continuation that will not come.
   */
  function Terminated(text: string): seq<string> {
    Segments(text) + (if |text| % ChunkSize == 0 then ["+"] else [])
  }

  /** The AUTHENTICATE arguments sent for a response; NULL is the empty response `+`. */
  function ResponseArgs(response: Option<seq<Byte>>): seq<string> {
    match response
    case None => ["+"]
    case Some(data) => Terminated(Encode(data))
  }

  /** Peeling off the first full segment. */
  lemma TerminatedStep(text: string)
    requires |text| >= ChunkSize
    ensures Terminated(text) == [text[..ChunkSize]] + Terminated(text[ChunkSize..])
  {
    var tail := text[ChunkSize..];
    assert |tail| % ChunkSize == |text| % ChunkSize;
    if |text| == ChunkSize {
      assert tail == "" && text[..ChunkSize] == text;
      assert Segments(text) == [text[..ChunkSize]] + Segments(tail);
    } else {
      assert Segments(text) == [text[..ChunkSize]] + Segments(tail);
    }
  }

  /** A NULL response is sent as the single argument `+`. */
  lemma NullResponse()
    ensures ResponseArgs(None) == ["+"]
  {
  }

  /**
   * The arguments carry a base64 text correctly: every data argument holds 4 to
   * ChunkSize bytes and is not `+`, the data arguments concatenate to the
   * text, and a final `+` follows exactly when the length of the text is a
   * multiple of ChunkSize.
   */
  predicate ChunkedAs(args: seq<string>, text: string) {
    |args| > 0 &&
    var body := if |text| % ChunkSize == 0 then args[..|args| - 1] else args;
    (args[|args| - 1] == "+" <==> |text| % ChunkSize == 0) &&
    Concat(body) == text &&
    (forall i :: 0 <= i < |body| ==> 4 <= |body[i]| <= ChunkSize && body[i] != "+")
  }

  /** Chunking of a base64 text, whose length is a multiple of 4. */
  lemma ChunkingText(text: string)
    requires |text| % 4 == 0
    ensures ChunkedAs(Terminated(text), text)
  {
    var segs := Segments(text);
    assert Concat(segs) == text && forall i :: 0 <= i < |segs| ==> 4 <= |segs[i]| <= ChunkSize by {
      SegmentsShape(text);
    }
    if |text| % ChunkSize == 0 {
      var args := segs + ["+"];
      assert Terminated(text) == args;
      assert args[..|args| - 1] == segs;
    } else {
      assert Terminated(text) == segs + [] == segs;
      assert segs != [] by {
        assert text != "";
      }
      assert segs[|segs| - 1] != "+";
    }
  }

  /**
   * Chunking of a non-NULL response: its arguments carry its base64 encoding,
   * cut into segments of at most ChunkSize, with the trailing `+` exactly when
   * the encoded length is a multiple of ChunkSize.
   */
  lemma Chunking(data: seq<Byte>)
    ensures ChunkedAs(ResponseArgs(Some(data)), Encode(data))
  {
    var text := Encode(data);
    assert |text| % 4 == 0;
    ChunkingText(text);
  }
}
