/**
 * The SASL negotiation engine of one IRC server connection: the handlers
 * sasl_start, sasl_step, sasl_success, sasl_already, sasl_fail, sasl_timeout
 * and sasl_disconnected, with the two fields they own on the server record
 * (sasl_buffer and sasl_timeout).
 *
 * Collaborators become state the handlers append to: every command sent goes
 * to `outbox` in order, each call of cap_finish_negotiation adds one to
 * `finishCount`, and each "server sasl success" or "server sasl failure"
 * signal adds one entry to `outcomes`. Timeout sources of the main loop are
 * the set `scheduled` of live source ids; `nextSource` is the id the next
 * g_timeout_add hands out (ids are positive, 0 meaning "no timeout").
 */
module Sasl {
  import opened Wrappers
  import opened Wire
  import opened Base64
  import opened Chunker
  import opened Reassembler
  import opened Mechanism

  /** What the UI is told: success, or failure with a reason. */
  datatype Outcome = Succeeded | Failed(reason: string)

  const TimedOutReason := "The authentication timed out"
  const InvalidPayloadReason := "The server sent an invalid payload"

  /** The handler a numeric reply is routed to by sasl_init. */
  datatype Handler = OnSuccess | OnAlready | OnFail | Unrouted

  /** 903 is success, 907 "already authenticated", 902, 904, 905 and 906 are failures. */
  function NumericHandler(numeric: nat): Handler {
    if numeric == 903 then OnSuccess
    else if numeric == 907 then OnAlready
    else if numeric == 902 || numeric == 904 || numeric == 905 || numeric == 906 then OnFail
    else Unrouted
  }

  /** The signals the engine listens to; a failure numeric carries its error text. */
  datatype Event =
    | CapAckSasl
    | AuthenticateLine(data: Octets)
    | Numeric(code: nat, error: string)
    | ServerDisconnected

  class SaslSession {
    const mechanism: Kind
    const username: CString
    const password: CString

    var buffer: Option<Octets>
    var timer: nat
    var scheduled: set<nat>
    var nextSource: nat
    var outbox: seq<Command>
    var finishCount: nat
    var outcomes: seq<Outcome>

    /** The buffer has the shape reassembly leaves, and the timeout field names a live source or is 0. */
    ghost predicate Valid()
      reads this
    {
      BufferShape(buffer) &&
      0 < nextSource && timer < nextSource &&
      (timer != 0 ==> timer in scheduled) &&
      (forall source :: source in scheduled ==> 0 < source < nextSource)
    }

    /** The only live timeout is the one sasl_timeout names. */
    ghost predicate SingleTimer()
      reads this
    {
      scheduled == if timer == 0 then {} else {timer}
    }

    constructor (mechanism: Kind, username: CString, password: CString)
      ensures Valid() && SingleTimer()
      ensures this.mechanism == mechanism && this.username == username && this.password == password
      ensures buffer == None && timer == 0 && scheduled == {}
      ensures outbox == [] && finishCount == 0 && outcomes == []
    {
      this.mechanism := mechanism;
      this.username := username;
      this.password := password;
      buffer := None;
      timer := 0;
      scheduled := {};
      nextSource := 1;
      outbox := [];
      finishCount := 0;
      outcomes := [];
    }

    /** g_timeout_add: a fresh live source. */
    method AddTimeout() returns (source: nat)
      requires Valid()
      modifies this`scheduled, this`nextSource
      ensures source == old(nextSource) && nextSource == source + 1
      ensures scheduled == old(scheduled) + {source}
    {
      source := nextSource;
      scheduled := scheduled + {source};
      nextSource := nextSource + 1;
    }

    /** Stops the pending timeout, if any, and clears the field. */
    method StopTimer()
      requires Valid()
      modifies this`timer, this`scheduled
      ensures Valid()
      ensures timer == 0 && scheduled == old(scheduled) - {old(timer)}
      ensures old(SingleTimer()) ==> scheduled == {}
    {
      if timer != 0 {
        scheduled := scheduled - {timer};
        timer := 0;
      }
    }

    /** sasl_start: names the mechanism and arms the timeout, without stopping one that is already armed. */
    method Start()
      requires Valid()
      modifies this
      ensures Valid()
      ensures outbox == old(outbox) + [Authenticate(MechanismName(mechanism))]
      ensures timer == old(nextSource) && timer !in old(scheduled) && scheduled == old(scheduled) + {timer}
      ensures buffer == old(buffer) && finishCount == old(finishCount) && outcomes == old(outcomes)
      ensures old(timer) == 0 && old(SingleTimer()) ==> SingleTimer()
    {
      match mechanism {
        case Plain => outbox := outbox + [Authenticate("PLAIN")];
        case External => outbox := outbox + [Authenticate("EXTERNAL")];
      }
      timer := AddTimeout();
    }

    /** sasl_timeout: the armed source fired; abort the exchange and finish negotiation. */
    method Timeout(source: nat)
      requires Valid() && source in scheduled
      modifies this
      ensures Valid()
      ensures outbox == old(outbox) + [Authenticate("*")]
      ensures finishCount == old(finishCount) + 1
      ensures outcomes == old(outcomes) + [Failed(TimedOutReason)]
      ensures timer == 0 && scheduled == old(scheduled) - {source}
      ensures buffer == old(buffer)
      ensures old(SingleTimer()) ==> scheduled == {}
    {
      outbox := outbox + [Authenticate("*")];
      finishCount := finishCount + 1;
      timer := 0;
      outcomes := outcomes + [Failed(TimedOutReason)];
      // the callback returns FALSE, so the main loop drops the source
      scheduled := scheduled - {source};
    }

    /** sasl_fail (numerics 902, 904, 905, 906): report the server's error text and finish negotiation. */
    method Fail(error: string)
      requires Valid()
      modifies this
      ensures Valid()
      ensures timer == 0 && scheduled == old(scheduled) - {old(timer)}
      ensures outcomes == old(outcomes) + [Failed(error)]
      ensures finishCount == old(finishCount) + 1
      ensures outbox == old(outbox) && buffer == old(buffer)
      ensures old(SingleTimer()) ==> scheduled == {}
    {
      StopTimer();
      outcomes := outcomes + [Failed(error)];
      finishCount := finishCount + 1;
    }

    /** sasl_already (numeric 907): treated as a success. */
    method Already()
      requires Valid()
      modifies this
      ensures Valid()
      ensures timer == 0 && scheduled == old(scheduled) - {old(timer)}
      ensures outcomes == old(outcomes) + [Succeeded]
      ensures finishCount == old(finishCount) + 1
      ensures outbox == old(outbox) && buffer == old(buffer)
      ensures old(SingleTimer()) ==> scheduled == {}
    {
      StopTimer();
      outcomes := outcomes + [Succeeded];
      finishCount := finishCount + 1;
    }

    /** sasl_success (numeric 903). */
    method Success()
      requires Valid()
      modifies this
      ensures Valid()
      ensures timer == 0 && scheduled == old(scheduled) - {old(timer)}
      ensures outcomes == old(outcomes) + [Succeeded]
      ensures finishCount == old(finishCount) + 1
      ensures outbox == old(outbox) && buffer == old(buffer)
      ensures old(SingleTimer()) ==> scheduled == {}
    {
      StopTimer();
      outcomes := outcomes + [Succeeded];
      finishCount := finishCount + 1;
    }

    /** sasl_disconnected: stops the timeout only; the reassembly buffer is kept. */
    method Disconnected()
      requires Valid()
      modifies this
      ensures Valid()
      ensures timer == 0 && scheduled == old(scheduled) - {old(timer)}
      ensures buffer == old(buffer) && outbox == old(outbox)
      ensures finishCount == old(finishCount) && outcomes == old(outcomes)
      ensures old(SingleTimer()) ==> scheduled == {}
    {
      StopTimer();
    }

    /**
     * sasl_reassemble_incoming: one fragment against the stored buffer.
     * `ok` is false when the text grew beyond MaxSize; `decoded` holds the
     * payload once the message is complete.
     */
    method ReassembleIncoming(fragment: Octets) returns (ok: bool, decoded: Option<seq<Byte>>)
      modifies this`buffer
      ensures var r := Reassemble(old(buffer), fragment);
              ok == !r.TooLarge? &&
              decoded == (if r.Complete? then Some(r.payload) else None) &&
              buffer == NextBuffer(r)
    {
      var request: Octets;
      if buffer.Some? {
        if fragment == "+" {
          request := buffer.value;
        } else {
          request := buffer.value + fragment;
        }
        buffer := None;
      } else {
        request := fragment;
      }
      if |request| > MaxSize {
        return false, None;
      }
      if |fragment| == ChunkSize {
        buffer := Some(request);
        return true, None;
      }
      if request == "+" {
        decoded := Some([]);
      } else {
        decoded := Some(Decode(request));
      }
      ok := true;
    }

    /**
     * sasl_send_response: the empty response as `+`, otherwise its base64
     * text sent piece by piece.
     */
    method SendResponse(response: Option<seq<Byte>>)
      modifies this`outbox
      ensures outbox == old(outbox) + Authenticates(ResponseArgs(response))
    {
      if response.None? {
        outbox := outbox + [Authenticate("+")];
      } else {
        SendEncoded(Encode(response.value));
      }
    }

    /**
     * The loop of sasl_send_response over a base64 text: ChunkSize pieces,
     * then `+` when the last piece was full or there was none.
     */
    method SendEncoded(encoded: string)
      modifies this`outbox
      ensures outbox == old(outbox) + Authenticates(Terminated(encoded))
    {
      var offset := 0;
      ghost var sent: seq<string> := [];
      while offset < |encoded|
        invariant SentUpTo(encoded, offset, sent)
        invariant outbox == old(outbox) + Authenticates(sent)
        decreases |encoded| - offset
      {
        var chunkLength := |encoded| - offset;
        if chunkLength > ChunkSize {
          chunkLength := ChunkSize;
        }
        var piece := encoded[offset..offset + chunkLength];
        SentOneMore(encoded, offset, sent, chunkLength);
        assert outbox + [Authenticate(piece)] == old(outbox) + Authenticates(sent + [piece]) by {
          AuthenticatesAppend(sent, [piece]);
        }
        outbox := outbox + [Authenticate(piece)];
        sent := sent + [piece];
        offset := offset + ChunkSize;
      }
      SentAll(encoded, offset, sent);
      if offset == |encoded| {
        assert outbox + [Authenticate("+")] == old(outbox) + Authenticates(sent + ["+"]) by {
          AuthenticatesAppend(sent, ["+"]);
        }
        outbox := outbox + [Authenticate("+")];
        sent := sent + ["+"];
      }
    }

    /** sasl_step_complete: answers the completed challenge with the mechanism's response. */
    method StepComplete(challenge: seq<Byte>)
      modifies this`outbox
      ensures outbox == old(outbox) + Authenticates(ResponseArgs(Response(mechanism, username, password)))
    {
      match mechanism
      case Plain =>
        var response: seq<Byte> := [];
        response := response + username;
        response := response + [0];
        response := response + username;
        response := response + [0];
        response := response + password;
        assert Response(mechanism, username, password) == Some(response) by {
          assert response == PlainResponse(username, password);
        }
        SendResponse(Some(response));
      case External =>
        assert Response(mechanism, username, password) == None;
        SendResponse(None);
    }

    /** sasl_step_fail: abort after an oversized payload. */
    method StepFail()
      requires Valid() && timer == 0
      modifies this
      ensures Valid()
      ensures outbox == old(outbox) + [Authenticate("*")]
      ensures finishCount == old(finishCount) + 1
      ensures outcomes == old(outcomes) + [Failed(InvalidPayloadReason)]
      ensures timer == 0 && scheduled == old(scheduled) && buffer == old(buffer)
    {
      outbox := outbox + [Authenticate("*")];
      finishCount := finishCount + 1;
      timer := 0;
      outcomes := outcomes + [Failed(InvalidPayloadReason)];
    }

    /**
     * sasl_step: an AUTHENTICATE line from the server. The timeout is stopped
     * first; an oversized payload aborts without re-arming it; otherwise,
     * after answering a completed message, exactly one fresh timeout is armed.
     */
    method Step(data: Octets)
      requires Valid()
      modifies this
      ensures Valid()
      ensures var r := Reassemble(old(buffer), data);
              buffer == NextBuffer(r) &&
              if r.TooLarge? then
                outbox == old(outbox) + [Authenticate("*")] &&
                finishCount == old(finishCount) + 1 &&
                outcomes == old(outcomes) + [Failed(InvalidPayloadReason)] &&
                timer == 0 && scheduled == old(scheduled) - {old(timer)}
              else
                outbox == old(outbox) + (if r.Complete? then Authenticates(ResponseArgs(Response(mechanism, username, password))) else []) &&
                finishCount == old(finishCount) && outcomes == old(outcomes) &&
                timer == old(nextSource) && timer !in old(scheduled) &&
                scheduled == old(scheduled) - {old(timer)} + {timer}
      ensures old(SingleTimer()) ==> SingleTimer()
    {
      StopTimer();
      var ok, request := ReassembleIncoming(data);
      if !ok {
        StepFail();
        return;
      }
      if request.Some? {
        StepComplete(request.value);
      }
      timer := AddTimeout();
    }

    /**
     * The routing of sasl_init: each event has the effect of the handler it
     * is routed to. Every SASL outcome numeric ends the negotiation once and
     * leaves no timeout armed; other numerics are not handled here.
     */
    method Dispatch(event: Event)
      requires Valid()
      modifies this
      ensures Valid()
      ensures event.CapAckSasl? ==>
                outbox == old(outbox) + [Authenticate(MechanismName(mechanism))] &&
                timer == old(nextSource) && timer !in old(scheduled) && scheduled == old(scheduled) + {timer} &&
                buffer == old(buffer) && finishCount == old(finishCount) && outcomes == old(outcomes)
      ensures event.AuthenticateLine? ==>
                var r := Reassemble(old(buffer), event.data);
                buffer == NextBuffer(r) &&
                if r.TooLarge? then
                  outbox == old(outbox) + [Authenticate("*")] &&
                  finishCount == old(finishCount) + 1 &&
                  outcomes == old(outcomes) + [Failed(InvalidPayloadReason)] &&
                  timer == 0 && scheduled == old(scheduled) - {old(timer)}
                else
                  outbox == old(outbox) + (if r.Complete? then Authenticates(ResponseArgs(Response(mechanism, username, password))) else []) &&
                  finishCount == old(finishCount) && outcomes == old(outcomes) &&
                  timer == old(nextSource) && timer !in old(scheduled) &&
                  scheduled == old(scheduled) - {old(timer)} + {timer}
      ensures event.Numeric? && NumericHandler(event.code) != Unrouted ==>
                timer == 0 && scheduled == old(scheduled) - {old(timer)} &&
                finishCount == old(finishCount) + 1 &&
                outbox == old(outbox) && buffer == old(buffer) &&
                outcomes == old(outcomes) + [if NumericHandler(event.code) == OnFail then Failed(event.error) else Succeeded]
      ensures event.Numeric? && NumericHandler(event.code) == Unrouted ==>
                buffer == old(buffer) && timer == old(timer) && scheduled == old(scheduled) &&
                outbox == old(outbox) && finishCount == old(finishCount) && outcomes == old(outcomes)
      ensures event.ServerDisconnected? ==>
                timer == 0 && scheduled == old(scheduled) - {old(timer)} &&
                buffer == old(buffer) && outbox == old(outbox) &&
                finishCount == old(finishCount) && outcomes == old(outcomes)
      ensures old(SingleTimer()) && !event.CapAckSasl? ==> SingleTimer()
    {
      match event {
        case CapAckSasl => Start();
        case AuthenticateLine(data) => Step(data);
        case Numeric(code, error) =>
          match NumericHandler(code) {
            case OnSuccess => Success();
            case OnAlready => Already();
            case OnFail => Fail(error);
            case Unrouted =>
          }
        case ServerDisconnected => Disconnected();
      }
    }
  }

  /**
   * A timeout sends `AUTHENTICATE *`, and the server answers the abort with
   * numeric 906, which sasl_fail handles: negotiation is finished, and a
   * failure reported, twice for the one exchange.
   */
  method TimeoutThenAborted(s: SaslSession, source: nat, error: string)
    requires s.Valid() && source in s.scheduled
    modifies s
    ensures s.Valid()
    ensures s.finishCount == old(s.finishCount) + 2
    ensures s.outcomes == old(s.outcomes) + [Failed(TimedOutReason), Failed(error)]
    ensures s.outbox == old(s.outbox) + [Authenticate("*")]
  {
    s.Timeout(source);
    s.Dispatch(Numeric(906, error));
  }

  /**
   * The same for an oversized payload: sasl_step_fail aborts, and the 906
   * reply finishes negotiation and reports a failure a second time.
   */
  method OversizeThenAborted(s: SaslSession, data: Octets, error: string)
    requires s.Valid() && Reassemble(s.buffer, data).TooLarge?
    modifies s
    ensures s.Valid()
    ensures s.finishCount == old(s.finishCount) + 2
    ensures s.outcomes == old(s.outcomes) + [Failed(InvalidPayloadReason), Failed(error)]
    ensures s.outbox == old(s.outbox) + [Authenticate("*")]
  {
    s.Dispatch(AuthenticateLine(data));
    s.Dispatch(Numeric(906, error));
  }

  /**
   * The state of the chunking loop: the offset steps by ChunkSize and passes
   * the end by less than one chunk, and the pieces sent so far are the
   * segments before the offset.
   */
  ghost predicate SentUpTo(text: string, offset: nat, sent: seq<string>) {
    offset % ChunkSize == 0 && offset < |text| + ChunkSize &&
    (offset <= |text| ==> sent + Segments(text[offset..]) == Segments(text)) &&
    (offset > |text| ==> sent == Segments(text))
  }

  /** Sending the piece at the offset keeps the loop state. */
  lemma SentOneMore(text: string, offset: nat, sent: seq<string>, length: nat)
    requires SentUpTo(text, offset, sent) && offset < |text|
    requires length == if |text| - offset > ChunkSize then ChunkSize else |text| - offset
    ensures SentUpTo(text, offset + ChunkSize, sent + [text[offset..offset + length]])
  {
    var rest := text[offset..];
    if |rest| > ChunkSize {
      var piece := text[offset..offset + ChunkSize];
      assert rest[..ChunkSize] == piece;
      assert rest[ChunkSize..] == text[offset + ChunkSize..];
      assert Segments(rest) == [piece] + Segments(text[offset + ChunkSize..]);
      assert sent + [piece] + Segments(text[offset + ChunkSize..]) == sent + Segments(rest);
    } else {
      assert rest == text[offset..|text|];
      assert Segments(rest) == [rest];
      if offset + ChunkSize == |text| {
        assert text[offset + ChunkSize..] == "";
        assert sent + [rest] + Segments(text[offset + ChunkSize..]) == sent + [rest];
      }
    }
  }

  /** When the loop stops, a `+` is due exactly when the offset landed on the end. */
  lemma SentAll(text: string, offset: nat, sent: seq<string>)
    requires SentUpTo(text, offset, sent) && offset >= |text|
    ensures offset == |text| ==> Terminated(text) == sent + ["+"]
    ensures offset != |text| ==> Terminated(text) == sent
  {
    if offset == |text| {
      assert text[offset..] == "";
      assert sent + [] == sent;
    } else {
      assert |text| % ChunkSize != 0;
      assert Segments(text) + [] == Segments(text);
    }
  }
}
