/**
 * The incoming side: how sasl_reassemble_incoming turns the arguments of the
 * server's AUTHENTICATE lines into one decoded payload, given the partial
 * buffer (sasl_buffer) left by the previous line.
 */
module Reassembler {
  import opened Wrappers
  import opened Wire
  import opened Base64

  /** What one fragment leads to. */
  datatype Reassembly =
    | TooLarge                  // accumulated text over MaxSize: the exchange fails
    | Pending(buffer: string)   // a full-size fragment: more is expected
    | Complete(payload: seq<Byte>)

  /**
   * The text to examine: the fragment itself without a buffer; with a buffer,
   * the buffer unchanged when the fragment is the terminator `+`, otherwise the
   * buffer followed by the fragment.
   */
  function Accumulate(buffer: Option<string>, fragment: string): string {
    match buffer
    case None => fragment
    case Some(b) => if fragment == "+" then b else b + fragment
  }

  /**
   * Every buffer the reassembler keeps is a concatenation of full fragments:
   * a positive multiple of ChunkSize and at most MaxSize bytes.
   */
  predicate BufferShape(buffer: Option<string>) {
    buffer.Some? ==> 0 < |buffer.value| <= MaxSize && |buffer.value| % ChunkSize == 0
  }

  /**
   * One step of reassembly. The size check applies to the accumulated text;
   * whether more is expected depends on the length of the fragment alone.
   * Malformed base64 is not an error: it decodes to whatever Decode yields.
   */
  function Reassemble(buffer: Option<string>, fragment: string): Reassembly {
    var request := Accumulate(buffer, fragment);
    if |request| > MaxSize then TooLarge
    else if |fragment| == ChunkSize then Pending(request)
    else if request == "+" then Complete([])
    else Complete(Decode(request))
  }

  /**
   * Size limit: reassembly fails exactly when the accumulated text exceeds
   * MaxSize, and then no buffer survives.
   */
  lemma SizeLimit(buffer: Option<string>, fragment: string)
    ensures Reassemble(buffer, fragment).TooLarge? <==> |Accumulate(buffer, fragment)| > MaxSize
    ensures Reassemble(buffer, fragment).TooLarge? ==> NextBuffer(Reassemble(buffer, fragment)) == None
  {
  }

  /**
   * A fragment of exactly ChunkSize bytes that keeps the text within
   * MaxSize leaves the step pending with the accumulated text stored, and
   * stored buffers keep their shape: a positive multiple of ChunkSize, at most
   * MaxSize. Any other fragment within the limit completes the message and
   * clears the buffer.
   */
  lemma FullFragment(buffer: Option<string>, fragment: string)
    requires BufferShape(buffer)
    ensures var r := Reassemble(buffer, fragment);
            (r.Pending? <==> |Accumulate(buffer, fragment)| <= MaxSize && |fragment| == ChunkSize) &&
            (r.Pending? ==> r.buffer == Accumulate(buffer, fragment)) &&
            BufferShape(NextBuffer(r)) &&
            (r.Complete? ==> NextBuffer(r) == None)
  {
  }

  /**
   * The terminator: with a stored buffer, `+` is not appended and the stored
   * text is decoded as it is; with no buffer, `+` alone is the empty message.
   */
  lemma Terminator(buffer: Option<string>)
    requires BufferShape(buffer)
    ensures buffer.Some? ==> Reassemble(buffer, "+") == Complete(Decode(buffer.value))
    ensures buffer.None? ==> Reassemble(buffer, "+") == Complete([])
  {
  }

  /** The sasl_buffer left behind: only a pending step keeps one. */
  function NextBuffer(r: Reassembly): (buffer: Option<string>) {
    if r.Pending? then Some(r.buffer) else None
  }
}
