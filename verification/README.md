# HTMX chatroom: message counter and server-sent-events stream

The chatroom server pushes a numbered message to every connected browser about
once a second over a server-sent-events (SSE) response. Two small pieces of
sequential logic carry that behaviour, and this Dafny project models and proves
both:

- **The message counter** (`api.ApplicationState`). It is one integer, shared by
  all sessions. It starts at 0. `NewMessage` increments it under a mutex and
  returns the new value. The model is the class `AppState.ApplicationState`.
  Its mutex is a flag that says whether it is held. A ghost history records
  every value returned.
- **The `/api/chatroomSSE` handler**, run sequentially (module `ChatroomSSE`).
  - The producer loop checks the request context at the top of each iteration.
    It then draws a number from the counter and builds the template data
    `{SenderName: "DEFAULT", Message: "Message <n>"}`. It renders that data and
    sends the fragment on the channel.
  - The writer (module `EventStream`) takes each fragment from the channel. It
    trims one trailing newline and splits the rest at newlines. It writes one
    `data: <piece>` line per piece, then `"\n\n"`.
  - The request context becomes a number `cancelAt`: the index of the first
    iteration whose check finds the context done. The context stays done once
    it is done, so this number fixes every check.
  - Template execution becomes a function `render` from template data to an
    optional fragment. None means the render failed.
  - The channel becomes the sequence of fragments sent, in order.

The Go library calls the handler makes are modelled in `GoText`:
`strings.TrimSuffix` and `strings.Split` with a one-character separator
(main.go:135), and the `%v` rendering of an `int` by `fmt.Sprintf` (main.go:153).
`GoText.Join` is not called by the handler. It is defined as the inverse of
`Split`, so that the splitting can be stated as a round trip.

The framing is proved against an independent reader, `EventStream.Decode`. It is
the event-stream interpretation of section 9.2.6 of the WHATWG HTML Living
Standard, restricted to LF line endings and the `data` field. A client that
reads the body written for a channel gets one event per fragment, in channel
order. Each event's data is the fragment without its trailing newline.

Facts about the code that the model makes explicit:

- After the data lines of a fragment the code writes `"\n\n"`. The first LF is
  the blank line that dispatches the event. The second is an extra blank line
  that dispatches nothing (`EventStream.DispatchFrame`).
- The code never closes `messageChannel`. So after the handler returns, the
  writer goroutine stays blocked on the channel. This is a concurrency matter
  and is not modelled.
- `NewMessage` is called while the template data is built, before the template
  is executed. A render failure therefore still uses up a message number
  (`ChatroomSSE.SessionBounds`, `ChatroomSSE.SessionRenderFailure`).

## Model

| member | source | states |
|---|---|---|
| `AppState.ApplicationState.constructor` | api/applicationState.go:10-14 | A new state has count 0, the mutex free and nothing issued |
| `AppState.ApplicationState.NewMessage` | api/applicationState.go:16-21 | Adds exactly 1 to the count and returns the new count. The returned value is appended to the history. The mutex is left released and the state invariant is kept |
| `AppState.IssuedAt` | api/applicationState.go:16-21 | On a fresh state the i-th call (from 0) returns i + 1, so the k-th call returns k |
| `AppState.IssuedStrictlyIncreasing` | api/applicationState.go:16-21 | Values returned by successive calls strictly increase, so no value is returned twice |
| `AppState.IssueFresh` | api/applicationState.go:10-21 | k calls on a new state return exactly 1, 2, ..., k |
| `GoText.TrimSuffix` | main.go:135 | The result followed by the suffix is the input when the input ends with the suffix; otherwise the input is unchanged |
| `GoText.TrimSuffixOnce` | main.go:135 | Only one occurrence is removed: trimming `s + suffix` gives `s`, even when `s` ends with the suffix |
| `GoText.Split` | main.go:135 | At least one piece. No piece contains the separator. The first piece is the prefix of the input up to the first separator |
| `GoText.SplitCount` | main.go:135 | The number of pieces is the number of separators plus one |
| `GoText.JoinSplit` | main.go:135 | Joining the pieces with the separator gives back the input |
| `GoText.SplitJoin` | main.go:135 | Splitting a join of separator-free pieces gives back the pieces |
| `GoText.Decimal` | main.go:153 | `%v` of an `int`: its decimal digits, preceded by `-` when it is negative. The result is never empty and starts with `-` exactly when the number is negative |
| `GoText.NatDigitsShape` | main.go:153 | `%v` of a natural number is a non-empty digit string without leading zeros |
| `GoText.DigitsValueOfNatDigits` | main.go:153 | Reading the decimal digits of n gives back n |
| `GoText.DecimalInjective` | main.go:153 | Different integers are rendered differently by `%v` |
| `EventStream.Pieces` | main.go:135 | The pieces of a fragment: one trailing LF trimmed, then split at LFs. There is at least one piece and no piece contains a LF |
| `EventStream.Frame` | main.go:134-138 | What the writer writes for one fragment: a `data: <piece>` line per piece, then `"\n\n"`. A frame starts with a `data: ` line, even for an empty fragment. It ends with the LF of its last data line followed by two more LFs |
| `EventStream.Stream` | main.go:133-141 | The body written for the channel: the frames of its fragments, in the order received. The body is empty exactly when no fragment was sent |
| `EventStream.WriteFrame` | main.go:135-138 | The loop writes `data: <piece>\n` for each piece of the trimmed fragment in order, then `"\n\n"`; its output is `Frame` of the fragment |
| `EventStream.WriteStream` | main.go:133-141 | The writer writes the frames of the channel's fragments in the order received; its output is `Stream` of the channel |
| `EventStream.PiecesExamples` | main.go:135-138 | `"a\n\n"` gives pieces `"a"` and `""`. `"a\n"` gives `"a"`. An empty fragment gives one empty piece, and its frame is `"data: \n\n\n"` |
| `EventStream.PiecesTrimOnce` | main.go:135 | Exactly one trailing newline is trimmed: the pieces of `m + "\n"` are the split of `m` |
| `EventStream.PiecesCount` | main.go:135-136 | The number of data lines is the number of newlines in the trimmed fragment plus one |
| `EventStream.PiecesJoin` | main.go:135-136 | The data-line payloads joined with newlines give back the trimmed fragment |
| `EventStream.LinesUnlines` | main.go:136-138 | Cutting LF-terminated, LF-free lines at their LFs gives back the lines |
| `EventStream.DispatchFrame` | main.go:135-138 | A reader reads one frame as exactly one event, whose data is the trimmed fragment. The extra blank line dispatches nothing and the reader starts afresh |
| `EventStream.DecodeStream` | main.go:133-141 | Round trip: decoding the body gives one event per fragment, in channel order, each the fragment without its trailing newline. Frames never merge |
| `ChatroomSSE.MessageFor` | main.go:151-154 | The template data built for counter value n: sender `DEFAULT` and a body that starts with `Message ` followed by `%v` of n |
| `ChatroomSSE.MessageForInjective` | main.go:151-154 | Template data (sender `DEFAULT`, body `Message <n>`) built for different numbers differs |
| `ChatroomSSE.Producing` | main.go:143-163 | The producer loop from any point: stop when the context is seen done, draw a number, stop if its render fails, otherwise send the fragment and go on. What was sent stays sent, and at most one fragment is added per remaining iteration |
| `ChatroomSSE.Session` | main.go:143-163 | A whole producer run from the counter's current value. It sends no more fragments than it draws numbers, and draws no more numbers than there are iterations before cancellation |
| `ChatroomSSE.ProducingBounds` | main.go:143-163 | From any point of the loop, what was sent stays sent and at most one fragment is added per iteration. Cancellation adds one fragment and one number per remaining iteration. A render failure draws one number more than it sends |
| `ChatroomSSE.ProducingFragment` | main.go:151-160 | From any point of the loop, the fragments added are the renderings of the following counter values, in order |
| `ChatroomSSE.ProducingRenderFailure` | main.go:151-158 | From any point of the loop, a run stopped by a render failure stops on the first number whose render fails |
| `ChatroomSSE.ProducingCancelledIff` | main.go:146-158 | From any point of the loop, the run ends by cancellation exactly when every number it would draw renders |
| `ChatroomSSE.SessionBounds` | main.go:143-163 | A session sends at most `cancelAt` fragments. Cancelled before its first iteration, it sends nothing and draws no number. Ended by cancellation, it sent `cancelAt` fragments and drew as many numbers. Ended by a render failure, it sent fewer and drew one number more than it sent |
| `ChatroomSSE.SessionFragment` | main.go:151-160 | The i-th fragment a session sends is the rendering of the template data for message number last + i + 1 |
| `ChatroomSSE.SessionRenderFailure` | main.go:151-158 | A session stopped by a render failure stops at the first number whose render fails, without sending it |
| `ChatroomSSE.SessionCancelledIff` | main.go:146-158 | A session ends by cancellation exactly when every message it draws renders |
| `ChatroomSSE.Produce` | main.go:143-163 | The loop sends exactly the fragments of `Session` for the counter's old value and stops for the same reason. The counter advances by the numbers drawn, and the counter invariant is kept |
| `ChatroomSSE.Serve` | main.go:124-164 | The body written is the framing of the producer's fragments, in order; the counter advances as in `Produce` |
| `ChatroomSSE.SessionEvents` | main.go:133-163 | A client reads one event per fragment sent. The i-th event is the rendering of message number last + i + 1, without its trailing newline |

## Left out

- Concurrency: goroutines, the channel's blocking hand-off, `time.Sleep` and the
  mutex as a mutual-exclusion mechanism. Producer and writer are run one after
  the other. Because the channel is first-in first-out, the body is the same.
  Interleavings of several sessions on the shared counter are not modelled.
  Each session draws a contiguous block of numbers from the counter's current
  value.
- Sessions that are never cancelled run forever. The model covers every finite
  run, through `cancelAt`.
- The writer goroutine left blocked after the handler returns, because
  `messageChannel` is never closed. This is a concurrency effect.
- `text/template` execution and template parsing. Rendering is the function
  parameter `render`, assumed deterministic in the template data.
- Flushing, network write errors and the response headers. These are I/O.
- Logging of cancellations and render errors, and the `err` variable shared
  between handlers.
- The unused context returned by `context.WithCancel`.
- Flag parsing, log-file creation, routing, the static asset handlers and the
  index page handler. These are start-up and I/O plumbing.
- AppState.ApplicationState.NewMessage: does not model the 64-bit wrap-around
  of Go's `int`. That is reached only after 2^63 - 1 messages, and the counter
  is unbounded here.
- GoText.Split: models `strings.Split` only for a one-character separator. That
  is the only kind the handler uses.
- EventStream.Decode: recognises only LF line endings and only the `data`
  field. A conforming client also ends lines at CR and at CRLF. So when a
  fragment contains a CR, `DecodeStream` does not describe what such a client
  reads. A CR that ends a piece forms a CRLF with the LF the writer adds, and
  the client drops that CR from the event data. A CR elsewhere in a piece ends
  the line there, and the client reads the rest of the piece as a separate
  line, which is not a `data` line unless it happens to start like one. The
  `event`, `id` and `retry` fields are ignored, and a leading byte-order mark is
  not handled. This writer writes none of them itself.
