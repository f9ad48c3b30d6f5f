/** One chat completion call: admission, normalisation, the HTTP exchange
    (an abstract transport supplied by the caller) and consumption of the
    reply, with the early exits in the order the client takes them. */
module Client {
  import opened Types
  import opened RateGate
  import opened SystemPrompt
  import opened StreamAggregation

  /** The model every request names. */
  const DefaultModel: string := "qwen2.5:3b"

  /** The only HTTP status the client accepts. */
  const StatusOK: int := 200

  /** The payload of one request: the model, the conversation and the stream flag. */
  datatype Request = Request(model: string, messages: seq<Message>, stream: bool)

  /** What the HTTP exchange yields: no response at all, or a status code and
      a body, the body given as the outcomes of successive decoder calls. */
  datatype Transport = SendFailed | Received(status: int, body: seq<DecodeOutcome>)

  /** The outcome of a call: the gate state after it, the request sent (if any)
      and the reply or error handed back to the caller. */
  datatype Exchange = Exchange(gate: Gate, sent: Option<Request>, reply: Result<string>)

  /** `Chat(messages, stream)` at clock reading `now`, with gate state `gate`,
      default system prompt `prompt` and HTTP exchange `send`. */
  method Chat(gate: Gate, now: int, prompt: string, messages: seq<Message>, stream: bool,
              send: Request -> Transport)
    returns (x: Exchange)
    // the gate takes one admission step on every call
    ensures x.gate == Allow(gate, now).gate
    // a rejected call fails with the quota error before anything is sent
    ensures !Allow(gate, now).allowed <==> x.sent.None?
    ensures x.sent.None? ==> x.reply == Err(QuotaExceeded(MaxReqHour))
    // an admitted call sends the normalised conversation once, which opens with a system message
    ensures x.sent.Some? ==>
      x.sent.value == Request(DefaultModel, WithSystemPrompt(messages, prompt), stream)
    ensures x.sent.Some? ==> x.sent.value.messages[0].role == SystemRole
    // transport failures and statuses other than 200 fail the call
    ensures x.sent.Some? && send(x.sent.value).SendFailed? ==> x.reply == Err(SendError)
    ensures x.sent.Some? && send(x.sent.value).Received? && send(x.sent.value).status != StatusOK
      ==> x.reply == Err(UnexpectedStatus(send(x.sent.value).status))
    // a 200 reply is consumed as a stream or as one object, as the flag says
    ensures x.sent.Some? && send(x.sent.value).Received? && send(x.sent.value).status == StatusOK
      ==> x.reply == (if stream then Aggregate(send(x.sent.value).body)
                      else DecodeSingle(send(x.sent.value).body))
    // every success went through admission and a 200 response
    ensures x.reply.Ok? ==> x.sent.Some? && send(x.sent.value) == Received(StatusOK, send(x.sent.value).body)
  {
    var admission := Allow(gate, now);
    if !admission.allowed {
      return Exchange(admission.gate, None, Err(QuotaExceeded(MaxReqHour)));
    }

    var request := Request(DefaultModel, WithSystemPrompt(messages, prompt), stream);
    var response := send(request);
    if response.SendFailed? {
      return Exchange(admission.gate, Some(request), Err(SendError));
    }
    if response.status != StatusOK {
      return Exchange(admission.gate, Some(request), Err(UnexpectedStatus(response.status)));
    }

    var reply: Result<string>;
    if stream {
      reply := ConsumeStream(response.body);
    } else {
      reply := DecodeSingle(response.body);
    }
    return Exchange(admission.gate, Some(request), reply);
  }
}
