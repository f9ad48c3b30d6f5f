# aquif2-go chat client — a Dafny model

The Go program in `main.go` forwards a chat conversation to a local inference
server. Three pieces of decision logic sit inside its HTTP and JSON plumbing,
and this project models and proves them:

- the **hourly rate gate** `allowReq`. It holds a request counter and the
  instant at which the current window ends, and admits at most 50 requests
  per window. The window is reset lazily by the first call that sees the clock
  strictly after that instant. Module `RateGate`, file `rate_gate.dfy`.
- the **system-message normalisation** at the top of `Chat`. It puts the
  default system prompt in front of the conversation unless message 0 already
  has role `"system"`. Module `SystemPrompt`, file `system_prompt.dfy`.
- the **reply consumption** in `Chat`. In streaming mode it concatenates
  fragment texts up to the first fragment marked `done`. A clean end of the
  body keeps the text received so far, and a decoding failure discards it.
  In single-shot mode it decodes one object. Module `StreamAggregation`, file
  `stream_aggregation.dfy`.

`Client.Chat` (file `client.dfy`) composes these steps in the order the Go
function takes them: admission, normalisation, the HTTP exchange, then
consumption. Shared datatypes (`Message`, `StreamResponse`, decoder outcomes,
errors) are in `types.dfy`.

Modelling choices:
- The clock reading `time.Now()` is an integer parameter `now`, in nanoseconds.
  `Hour` is 3 600 000 000 000, which is Go's `time.Hour`.
- Each `allowReq` call is one atomic transition `Allow(gate, now)`. Concurrent
  callers, serialised by the mutex, become a sequence of such steps (`Run`).
  So "100 concurrent calls admit exactly 50" is `FreshWindowAdmitsQuota` for
  every order of the 100 calls.
- The JSON decoder on the response body is the list of outcomes its
  successive `Decode` calls yield: `Decoded(object)`, `EndOfBody` (Go's
  `io.EOF`) or `DecodeFailure` (any other error). A list that runs out is read
  as `EndOfBody`.
- The HTTP exchange is a total function `send: Request -> Transport`. The
  default system prompt is the parameter `prompt`, because the Go value
  embeds the date at process start and is opaque to the logic.

The reset is strict: `now.After(resetTime)` (main.go:102) holds only for
`now > resetTime`. So at `now == resetTime` no reset happens, and a used-up
quota still rejects the call (see the contract of `RateGate.Allow`).

## Model

| member | source | states |
|---|---|---|
| RateGate.Init | main.go:92-94 | the start-up state has a zero counter, satisfies the quota invariant, and its window ends one hour after the start instant |
| RateGate.Allow | main.go:96-113 | a call is admitted iff the window has strictly expired or fewer than 50 were admitted; a rejection changes nothing; strictly after expiry the new window ends one hour after `now` and holds this request (count 1); at or before expiry the window is kept and an admission adds one; the counter stays within 0..50; the expiry instant never moves back |
| RateGate.Run | main.go:96-113 | a run of successive admission checks returns one verdict per call |
| RateGate.RunPreservesValid | main.go:102-111 | any sequence of calls keeps the counter within the quota of 50 and never moves the expiry instant back |
| RateGate.QuotaWithinWindow | main.go:100-112 | within one window, call i is admitted iff the count before the run plus i is below 50; the window end is kept; the final count is min(50, count + calls); the number admitted is min(calls, remaining quota) |
| RateGate.FreshWindowAdmitsQuota | main.go:92-112 | from the start-up state, calls in the first hour are admitted exactly while fewer than 50 were, so min(n, 50) of n calls get in, in any order |
| RateGate.ExpiryRestartsWindow | main.go:100-112 | a call strictly after expiry starts a window ending one hour after it, with count 1; that call and the next 49 in the window are admitted and later ones rejected |
| SystemPrompt.WithSystemPrompt | main.go:120-127 | the sent conversation opens with a system message; the caller's messages follow unchanged, in order; exactly one message with the default prompt is added iff the input is empty or message 0 is not a system message |
| SystemPrompt.WithSystemPromptIdempotent | main.go:120-127 | normalising a normalised conversation changes nothing |
| SystemPrompt.OnlyFirstMessageInspected | main.go:120 | only message 0 decides; messages appended to a non-empty conversation pass through untouched after normalisation |
| StreamAggregation.FirstStop | main.go:162-173 | the loop stops at the first outcome that is a done fragment, the end of the body or a failure; all earlier outcomes are non-final fragments |
| StreamAggregation.Aggregate | main.go:158-175 | streaming fails only with the stream read error, and does so iff the first stopping outcome is a decoding failure; a success is the text of a prefix of the body |
| StreamAggregation.LaterOutcomesNeverRead | main.go:170-172 | nothing after the first stopping outcome affects the reply |
| StreamAggregation.DoneFragmentEndsReply | main.go:169-174 | after non-final fragments, a fragment marked done yields their texts followed by its own, whatever comes after |
| StreamAggregation.EndOfBodyKeepsPartial | main.go:164-165 | the end of the body before any done fragment is a success carrying the text received so far |
| StreamAggregation.DecodeFailureDiscardsPartial | main.go:166-167 | a decoding failure before any done fragment is an error and the partial text is not returned |
| StreamAggregation.ConsumeStream | main.go:158-175 | the pull loop (decode, stop on end of body or failure, append, stop on done) computes exactly `Aggregate` |
| StreamAggregation.DecodeSingle | main.go:177-182 | without streaming the call succeeds iff the first outcome is a decoded object, whose text is the reply whether or not it is marked done; otherwise it fails with the response decoding error |
| StreamAggregation.SingleAgreesWithStream | main.go:158-182 | for a body holding one complete reply (marked done, followed by the end of the body, or alone), streaming and single-shot consumption give the same result |
| StreamAggregation.RunsOutIsEndOfBody | main.go:164-165 | a body whose outcome list runs out gives the same reply as that body followed by an explicit end of the body |
| StreamAggregation.DoneScenario | main.go:162-174 | a fragment "Hel" then a done fragment "lo" yields "Hello", whatever follows |
| StreamAggregation.EndOfBodyScenario | main.go:162-174 | fragments "A" and "B" then the end of the body yield "AB" without error |
| StreamAggregation.DecodeFailureScenario | main.go:162-174 | a fragment "partial" then a decoding failure yields the stream read error, not "partial" |
| Client.Chat | main.go:115-183 | the gate takes one step; a rejected call sends nothing and fails with the quota error carrying 50; an admitted call sends the default model, the normalised conversation and the stream flag; a transport failure or a status other than 200 fails the call; a 200 body is consumed as a stream or as one object, as the flag says |

## Left out

- The mutex around `allowReq` (main.go:97-98) is not modelled. Each call is one atomic step, and concurrent callers are one of the interleavings `Run` covers.
- `time.Now()`, `time.Time` and `time.Duration` are integers. Overflow of the clock arithmetic `now.Add(time.Hour)` is not modelled.
- `reqCount` is a Go `int`. It never leaves 0..50, so 64-bit overflow cannot arise and is not modelled.
- The text and date formatting of `defaultSystemPrompt` (main.go:37-88) are not modelled. The prompt is an opaque string parameter.
- `json.Marshal` of the payload and `http.NewRequest` with the fixed URL (main.go:129-145) are left out. They cannot fail for a map of strings, messages and a bool, or for a constant well-formed URL.
- The HTTP exchange `client.Do` (main.go:147-152) is the `send` parameter, and closing the body with `defer resp.Body.Close()` is not modelled.
- The `json.Decoder` itself is not modelled. The body is the list of its outcomes, and a list that runs out reads as the end of the body.
- Client.Chat: the error values carry no message text, and the empty string Go returns beside every error is not carried.
- `main` (main.go:185-205) is a command-line demonstration and is not modelled.
