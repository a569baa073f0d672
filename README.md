# SASL negotiation engine of irssi

This project models the SASL engine that irssi runs on each IRC server connection, in `src/irc/core/sasl.c`. The engine follows the IRCv3 SASL 3.1 extension over the `AUTHENTICATE` command. It has four parts:

- **Outgoing chunker** (`sasl_send_response`). It base64-encodes a response (section 4 of RFC 4648) and sends it in pieces of 400 bytes. A bare `AUTHENTICATE +` follows when the encoded length is a multiple of 400, including 0. A missing response is sent as `AUTHENTICATE +` alone.
- **Incoming reassembler** (`sasl_reassemble_incoming`). It collects 400-byte fragments in the per-server `sasl_buffer` and treats a lone `+` as the terminator. It refuses any message that grows beyond 8192 bytes and decodes the completed text.
- **Mechanism responses** (`sasl_step_complete`).
  - PLAIN sends `username NUL username NUL password` (section 2 of RFC 4616, with the authorization identity set to the username).
  - EXTERNAL (appendix A of RFC 4422) sends the empty response.
- **Negotiation handlers**: `sasl_start`, `sasl_step`, `sasl_step_fail`, `sasl_timeout`, `sasl_success`, `sasl_already`, `sasl_fail` and `sasl_disconnected`, with the numeric routing of `sasl_init`.

Modules:

- `Wire` holds the two size constants, the `AUTHENTICATE` command and `Octets`, the byte strings of the wire. A Dafny `string` stands for a C byte string with one char per byte, so its length is the byte count that `strlen` and the GString length give. The server's AUTHENTICATE argument enters the session as `Octets`, whose chars all lie between 1 and 255: a C string holds no NUL.
- `Base64` holds a concrete encoder and a decoder that inverts it.
- `Chunker` and `Reassembler` are the two halves of the fragmentation protocol, as functions.
- `Mechanism` builds the PLAIN and EXTERNAL responses. It also holds an independent RFC 4616 parser, `SplitPlain`, used to state what the PLAIN message means.
- `RoundTrip` feeds the chunker's output to the reassembler.
- `Sasl` holds the class `SaslSession`. Its fields are the connection's `sasl_buffer` and `sasl_timeout`, plus the effects the handlers have on their collaborators:
  - every command sent goes, in order, to `outbox`
  - each `cap_finish_negotiation` call increments `finishCount`
  - each "server sasl success" or "server sasl failure" signal is logged in `outcomes`
  - the live main-loop timeout sources form the set `scheduled`, and `nextSource` is the id `g_timeout_add` hands out next

The imperative parts of the source stay imperative:

- `ReassembleIncoming` updates the buffer field.
- `SendEncoded` is the offset loop of `sasl_send_response`, proved against `Chunker.Terminated` with a loop invariant.
- `StepComplete` builds the PLAIN response by successive appends.
- Every handler updates the timer field.

Each method's `ensures` ties its new state to the specification functions. The lemmas about those functions carry the protocol's promises.

## Model

| member | source | states |
|---|---|---|
| Base64.Encode | src/irc/core/sasl.c:195 | The base64 text of any response has a length that is a multiple of 4. |
| Base64.EncodedLength | src/irc/core/sasl.c:195 | The encoded length is exactly 4 * ceil(n / 3) for n input bytes, as section 4 of RFC 4648 prescribes. |
| Base64.LetterOf | src/irc/core/sasl.c:195 | Every sextet maps to a character of the RFC 4648 alphabet, and reading that character back gives the same sextet. |
| Base64.DecodeEncode | src/irc/core/sasl.c:172-173 | Decoding the encoder's output returns the original bytes, for every byte sequence. |
| Base64.Decode | src/irc/core/sasl.c:172-173 | Defines the decoder: four characters give three bytes, a quantum padded with one `=` gives two bytes and one padded with two `=` gives one byte, and decoding stops after a padded quantum. Characters outside the alphabet read as 0, and decoding never fails. |
| Base64.DecodedLength | src/irc/core/sasl.c:172-173 | A decoded payload has at most three bytes per four characters of text. |
| Chunker.NullResponse | src/irc/core/sasl.c:190-193 | A missing response is sent as exactly one argument, `+`. |
| Chunker.SegmentsShape | src/irc/core/sasl.c:198-204 | The pieces concatenate back to the text. Each piece is non-empty and at most 400 bytes, and every piece but the last is exactly 400. The last piece is full exactly when the length is a multiple of 400, and when the text length is a multiple of 4, so is every piece's. |
| Chunker.ChunkingText | src/irc/core/sasl.c:198-208 | For a text whose length is a multiple of 4, the arguments sent are non-empty. The last one is a bare `+` if and only if the length is a multiple of 400, including 0. The data arguments concatenate to the text, and each is 4 to 400 bytes long and never `+`. |
| Chunker.Chunking | src/irc/core/sasl.c:195-208 | The same holds for the arguments sent for any present response, measured against its base64 encoding. |
| Chunker.Segments | src/irc/core/sasl.c:198-204 | Defines the pieces the loop sends: the text cut into 400-byte pieces, the last one possibly shorter, with none for the empty text. |
| Chunker.Terminated | src/irc/core/sasl.c:198-208 | Defines the arguments sent for a base64 text: its pieces, followed by `+` when the length is a multiple of 400, including 0. |
| Chunker.ResponseArgs | src/irc/core/sasl.c:190-208 | Defines the arguments sent for a response: `+` alone for a missing one, otherwise the arguments of its base64 encoding. |
| Reassembler.Accumulate | src/irc/core/sasl.c:139-148 | Defines the request examined: the fragment alone without a buffer. With a buffer, the request is the buffer unchanged for `+`, and the buffer followed by the fragment otherwise. |
| Reassembler.Reassemble | src/irc/core/sasl.c:139-177 | Defines one reassembly step. A request over 8192 bytes is refused, and a 400-byte fragment leaves it pending. Otherwise a request of `+` completes empty and any other completes with its decoding. |
| Reassembler.NextBuffer | src/irc/core/sasl.c:145-164 | Defines the buffer left behind: the accumulated text after a pending step, and none after a refusal or a completion. |
| Reassembler.SizeLimit | src/irc/core/sasl.c:139-155 | Reassembly refuses a fragment if and only if the accumulated text exceeds 8192 bytes, and a refusal leaves no buffer behind. |
| Reassembler.FullFragment | src/irc/core/sasl.c:145-164 | Reassembly is pending if and only if the accumulated text fits and the fragment is exactly 400 bytes. It then stores the accumulated text. Every stored buffer is non-empty, at most 8192 bytes and a multiple of 400 long. A completed message leaves no buffer. |
| Reassembler.Terminator | src/irc/core/sasl.c:139-174 | With a stored buffer, `+` is not appended and the buffer alone is decoded. With no buffer, `+` completes with the empty payload. |
| Mechanism.MechanismName | src/irc/core/sasl.c:63-71 | Defines the name sent by sasl_start: `PLAIN` or `EXTERNAL`. |
| Mechanism.Response | src/irc/core/sasl.c:222-247 | Defines the response of each mechanism: the PLAIN message, or no response for EXTERNAL. |
| Mechanism.PlainResponse | src/irc/core/sasl.c:230-236 | The PLAIN message is 2 * (length of username) + (length of password) + 2 bytes with no trailing NUL. Parsed per section 2 of RFC 4616, it yields authzid = username, authcid = username and passwd = password. |
| RoundTrip.FeedRemaining | src/irc/core/sasl.c:131-178 | After any number of full fragments, feeding the pieces of the rest of a text (length a multiple of 4, total at most 8192) stays pending until the last piece. The last piece completes with the decoding of the whole text. |
| RoundTrip.RejectRemaining | src/irc/core/sasl.c:153-155 | If the whole text exceeds 8192 bytes, feeding its pieces is refused before anything completes. |
| RoundTrip.RoundTrip | src/irc/core/sasl.c:131-210 | Starting from no buffer, feeding the chunker's arguments for a response in order, including a trailing `+`, reproduces it. The reassembler stays pending until the last argument, which completes with exactly the original payload (empty for a missing response), provided the encoding is at most 8192 bytes. |
| RoundTrip.Oversize | src/irc/core/sasl.c:153-155 | A response whose encoding is longer than 8192 bytes is refused by the reassembler before it completes. |
| Sasl.NumericHandler | src/irc/core/sasl.c:302-307 | Defines the routing of numerics. 903 goes to sasl_success and 907 to sasl_already. 902, 904, 905 and 906 go to sasl_fail, and every other numeric to no SASL handler. |
| Sasl.TimeoutThenAborted | src/irc/core/sasl.c:44-93 | A timeout followed by the 906 reply to its `AUTHENTICATE *` (routed at line 306) finishes negotiation twice. It reports two failures, the timeout text and then the server's error, and sends the abort once. |
| Sasl.OversizeThenAborted | src/irc/core/sasl.c:250-306 | An oversized AUTHENTICATE payload followed by the 906 reply likewise finishes negotiation twice. It reports the invalid-payload failure and then the server's error, and sends the abort once. |
| Sasl.SaslSession.AddTimeout | src/irc/core/sasl.c:72 | `g_timeout_add` returns a source id not yet live, and that source becomes live. |
| Sasl.SaslSession.StopTimer | src/irc/core/sasl.c:80-83 | A pending timeout is removed from the live sources and the field is cleared. Nothing else changes. |
| Sasl.SaslSession.Start | src/irc/core/sasl.c:57-73 | Sends `AUTHENTICATE` with the mechanism's name and arms one fresh timeout. A previously armed source stays live. The buffer, finish count and outcomes are unchanged. |
| Sasl.SaslSession.Timeout | src/irc/core/sasl.c:44-55 | Sends `AUTHENTICATE *` and finishes negotiation once. It reports "The authentication timed out", clears the timer and drops the fired source. |
| Sasl.SaslSession.Fail | src/irc/core/sasl.c:75-93 | Stops the timer, reports a failure with the server's error text and finishes negotiation once. Nothing is sent. |
| Sasl.SaslSession.Already | src/irc/core/sasl.c:95-106 | Stops the timer, reports success and finishes negotiation once. Nothing is sent. |
| Sasl.SaslSession.Success | src/irc/core/sasl.c:108-119 | Stops the timer, reports success and finishes negotiation once. Nothing is sent. |
| Sasl.SaslSession.Disconnected | src/irc/core/sasl.c:284-296 | Stops the timer only. It does not finish negotiation, report anything or clear the reassembly buffer. |
| Sasl.SaslSession.ReassembleIncoming | src/irc/core/sasl.c:131-178 | Updates the buffer in place and returns what `Reassembler.Reassemble` prescribes: failure only when the message is too large, a payload only when it is complete. |
| Sasl.SaslSession.SendResponse | src/irc/core/sasl.c:185-210 | The commands sent are exactly `AUTHENTICATE` with each argument of `Chunker.ResponseArgs`, in order. |
| Sasl.SaslSession.SendEncoded | src/irc/core/sasl.c:195-209 | The offset loop sends the 400-byte pieces of the text in order, then `+` exactly when the loop ended on the text's end. |
| Sasl.SaslSession.StepComplete | src/irc/core/sasl.c:215-248 | Answers a completed challenge with the mechanism's response: the PLAIN message, or the bare `+` for EXTERNAL. The challenge itself is ignored. |
| Sasl.SaslSession.StepFail | src/irc/core/sasl.c:250-258 | Sends `AUTHENTICATE *`, finishes negotiation once and reports "The server sent an invalid payload", with the timer cleared. |
| Sasl.SaslSession.Step | src/irc/core/sasl.c:260-282 | Always stops the old timer first. An oversized message aborts (see StepFail) and arms nothing. Otherwise any completed message is answered, negotiation is not finished, and exactly one fresh timeout is armed in place of the old one. |
| Sasl.SaslSession.Dispatch | src/irc/core/sasl.c:298-309 | Each event has the whole effect of its handler. The CAP acknowledgement has the effect of Start, and an AUTHENTICATE line that of Step: the abort, the invalid-payload report, or the mechanism response with a fresh timeout. 903 and 907 report success, and 902, 904, 905 and 906 report the error text. Each of these removes the live timeout, sends nothing and finishes negotiation once in this call. Other numerics change nothing. A disconnect removes the timeout and changes nothing else. With a single live timeout before the call, any event but the CAP acknowledgement leaves at most one. |

## Left out

- Real time is not modelled. The 20-second interval of `g_timeout_add` is not modelled either: a timeout source is an id, and its firing is the `Timeout` method called by the environment.
- Signal registration is not modelled. Of the `signal_add_first` and `signal_remove` tables in `sasl_init` and `sasl_deinit`, only the numeric-to-handler routing is kept, as `Dispatch`.
- `irc_send_cmd_now` and `irc_send_cmdv` both append to one ordered outbox. Their difference in queue priority is not modelled.
- The error text of `sasl_fail` is an input. The parameter splitting of `event_get_params` is not part of this model.
- `Base64.Decode` is a total model of `g_base64_decode`, stated only on encoder output (`Base64.DecodeEncode`). What the library returns for malformed or non-canonical text is not modelled. As in the code, such a message is decoded without error, never refused.
- Freeing memory (`g_free`, `g_string_free`) is not modelled. Neither is the leak of the accumulated request on the oversize path.
- The early return of `sasl_disconnected` for a server that is not an IRC server is not modelled. The session is always an IRC connection.
- Usernames and passwords are C strings. The `Mechanism.CString` type rules out NUL bytes rather than modelling truncation at the first NUL.
- `src/fe-fuzz/server.c`, a fuzzing harness, is not part of this model.
- Base64.Encode: its own contract gives the length only modulo 4. The exact length is stated separately by `Base64.EncodedLength`.
- `sasl_disconnected` clears only the timer, and `sasl_buffer` survives (src/irc/core/sasl.c:292-295). `Disconnected` keeps the buffer accordingly.
- A malformed payload is decoded, never refused (src/irc/core/sasl.c:172-173). Only the size limit makes `Step` abort.
- `sasl_start` arms a timeout without removing one already armed (src/irc/core/sasl.c:72). `Start` therefore keeps an old source live, and it preserves `SingleTimer` only from a state with no timer.
- The reassembly functions (`Reassembler.Accumulate`, `Reassembler.Reassemble`) accept any Dafny string. Only the session restricts its input to `Octets`, so a string with a NUL or a char above 255 stands for no line the code can receive.
- `cap_finish_negotiation` and the outcome signal run once per handler, not once per connection. The failure numeric that answers `AUTHENTICATE *` (src/irc/core/sasl.c:47-48, 252-253) runs `sasl_fail`, which calls both again (src/irc/core/sasl.c:87-90). `TimeoutThenAborted` and `OversizeThenAborted` state this; nothing in the model promises a single finish per connection.
- The comment at src/irc/core/sasl.c:35-39 gives a maximum message size other than 8192. The test at line 153 bounds the accumulated text by 8192, and `Reassembler.SizeLimit` follows the test.
