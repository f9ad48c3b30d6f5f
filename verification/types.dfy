/** Data shared by the rate gate, the message normalisation and the
    response consumption of the chat client in main.go. */
module Types {

  /** One chat message, as sent to the inference server: a role
      ("system", "user", "assistant") and its text. */
  datatype Message = Message(role: string, content: string)

  /** One JSON object of the server's reply. In streaming mode every
      object carries a fragment of the text; `done` marks the last one. */
  datatype StreamResponse = StreamResponse(
    model: string,
    createdAt: string,
    message: Message,
    done: bool)

  /** What one call of the JSON decoder on the response body yields:
      a decoded object, a clean end of the body, or a decoding failure. */
  datatype DecodeOutcome = Decoded(chunk: StreamResponse) | EndOfBody | DecodeFailure

  /** The errors `Chat` can return, one per distinct error message of the
      client; `QuotaExceeded` carries the hourly maximum it reports and
      `UnexpectedStatus` the HTTP status code the server answered with. */
  datatype ChatError =
    | QuotaExceeded(max: int)
    | SendError
    | UnexpectedStatus(code: int)
    | StreamReadError
    | ResponseDecodeError

  /** The `(string, error)` pair of the client: a text on success, an
      error (and an empty string, which the model does not carry) otherwise. */
  datatype Result<+T> = Ok(value: T) | Err(error: ChatError)

  datatype Option<+T> = None | Some(value: T)
}
