# pixelflut-js viewer client, modelled in Dafny

`PixelflutClient` (index.js) is a read-only browser viewer for a pixelflut
canvas server. It holds a WebSocket, learns the canvas size with a `SIZE`
request, then polls for full frames with `STATE rgba64` requests on an
interval. A flag (`_currentylReceiving`) holds back the next `STATE`
request until a message has been handled: at most one `STATE` request goes
out per handled message. Any handled message lowers the flag, an unsolicited
`SIZE` reply included, so two requests can be in flight at once
(`UnsolicitedReplyReleasesFlag`). Replies are single text lines:

- `SIZE <w> <h>` resizes the canvas;
- `STATE rgba64 <base64>` is decoded and drawn at the canvas origin.

The model has four layers:

- `JsStrings` and `JsNumbers` model the JavaScript built-ins the message
  handler relies on. These are `replace` of the first `"\n"`, `split(" ")`,
  `toLowerCase`, and unary plus on a token. Each is proved against a
  reference definition or an inverse.
- `Protocol` is the parse step of `_onMessage`. It turns a message into a
  `Command` (`Size`, `State` or `Unrecognized`). It is proved to read back
  the replies a server sends.
- `Session` is the client's fields as a value, `ClientState`. It has one
  function per call or handler, giving the outcome and the state left
  behind. It also proves properties of whole event sequences: an object
  invariant, the flow-control bound on `STATE` requests, and that a second
  `connect` fails until the close event.
- `Viewer` is the class `PixelflutClient` with the same fields, updated in
  place by `Connect`, `Disconnect`, `OnOpen`, `OnTick`, `OnMessage`,
  `HandleBinaryAlgRgba64` and `OnClose`. Each method is proved to leave
  exactly the state its `Session` function describes.

A thrown JavaScript exception is an `Outcome` of `Threw(failure)`; the state
is then what it was when the exception was raised. The model covers five
points where a call or handler throws; the others (`new WebSocket`, a binary
message, a missing 2D context) are listed under "## Left out":

- `connect` while a socket is held (index.js:37-38);
- `disconnect` with a null socket (index.js:52);
- `toLowerCase` on a missing encoding token (index.js:95);
- the unknown-command branch, which reads the undeclared name `message`
  (index.js:101);
- `atob` or `new ImageData` rejecting a frame (index.js:109-110).

The last three never reach line 104, so they leave every field, the flag
included, as it was.

Some behaviours of the code as written are easy to mistake:

- The code removes the first `"\n"` wherever it is and splits on single
  spaces. It does not strip a trailing newline and split on white space.
- Malformed `SIZE` arguments are not rejected. Whatever unary plus yields is
  stored and handed to the canvas.
- A reply arriving after the close handler would still be processed. The
  handler has no connection check (`StrayReplyAfterClose`).
- A frame that fails to decode is not reported; the handler throws. A flag
  that was up stays up, so polling stalls until another message is handled
  or the connection closes.

## Model

| member | source | states |
|---|---|---|
| JsStrings.RemoveFirst | index.js:87 | the result is one character shorter exactly when the line feed occurs |
| JsStrings.RemoveFirstAt | index.js:87 | when the first line feed is at index i, exactly that character is removed and everything else is kept in order |
| JsStrings.RemoveFirstAbsent | index.js:87 | a message without a line feed is left unchanged |
| JsStrings.Split | index.js:87 | `split(" ")` gives at least one part, and no part contains a space |
| JsStrings.JoinSplit | index.js:87 | joining the parts with the separator gives back the message, so nothing is lost or reordered |
| JsStrings.SplitJoin | index.js:87 | space-free tokens joined by single spaces split back into exactly those tokens |
| JsStrings.AsciiLower | index.js:89-95 | `toLowerCase` keeps the length and maps every character by itself: ASCII capitals become their lower-case letters and every other character is kept |
| JsStrings.LowerEqualsIff | index.js:89 | `s.toLowerCase() === w` for a lower-case literal holds if and only if s spells w in any mixture of letter cases |
| JsNumbers.TrimStart | index.js:90-91 | unary plus ignores leading white space: the result is the longest suffix not starting with JavaScript white space |
| JsNumbers.TrimEnd | index.js:90-91 | unary plus ignores trailing white space: the result is the longest prefix not ending with JavaScript white space |
| JsNumbers.ToNumber | index.js:90-91 | an exact integer result lies within ±2^53 |
| JsNumbers.ToNumberShowInt | index.js:90-91 | unary plus reads every decimal integer within ±2^53 back exactly, including when white space such as a CR follows it |
| Protocol.Tokens | index.js:87 | the token list is never empty and no token contains a space, so `parts[0]` always exists |
| Protocol.TokensOfLine | index.js:87 | three space-separated tokens with any line ending tokenise to those tokens; a CRLF ending leaves "\r" on the last one |
| Protocol.Parse | index.js:87-101 | the command is Size exactly when the first token is "size" in any case, and State exactly when it is "state"; Size carries the coerced second and third tokens; State carries the encoding exactly when there is a second token, and as payload the third token, or "undefined" when there is none |
| Protocol.ParseSizeReply | index.js:87-91 | a server's `SIZE <w> <h>` with any line ending parses to exactly (w, h) |
| Protocol.ParseStateReply | index.js:94-96 | a server's `STATE <encoding> <payload>` parses to that encoding and payload, with any line ending; a CRLF ending leaves "\r" on the payload |
| Protocol.ParseBareState | index.js:94-95 | a lone `state` token in any case has no encoding token |
| Session.Connect | index.js:36-44 | connect succeeds exactly when no socket is held; a refusal names the URL and changes nothing; afterwards a socket is always held, and no other field has changed |
| Session.Disconnect | index.js:46-53 | disconnect succeeds exactly when a socket is held, and then marks that socket as closing; otherwise it fails and changes nothing; no client field changes either way |
| Session.Open | index.js:74-83 | the open handler sends exactly `SIZE`, raises the flag and arms the timer, and changes nothing else |
| Session.Tick | index.js:77-81 | with the flag down a tick sends exactly `STATE rgba64` and raises the flag; with the flag up it changes nothing |
| Session.RenderRgba64 | index.js:107-112 | a frame the browser rejects throws and changes nothing; an accepted one is kept as the image and drawn once, at (0, 0), with the current width and height |
| Session.Receive | index.js:85-105 | a handler that throws changes nothing, the flag included; one that completes lowers the flag and never sends or touches the socket or timer. SIZE sets the dimensions to the coerced tokens and resizes the canvas to them. STATE rgba64 (any case) draws exactly one frame at (0, 0), or throws when the frame is rejected. Any other encoding lowers the flag only. A missing encoding or an unknown command throws |
| Session.Close | index.js:64-71 | after the close handler there is no socket and no timer, the dimensions are -1 and the flag is down; image, outbox and canvas are kept |
| Session.CloseIdempotent | index.js:65-71 | applying the close handler twice gives the same state as applying it once |
| Session.InitialInv | index.js:6-25 | a freshly constructed client holds no socket and satisfies the invariant |
| Session.StepKeepsInv | index.js:36-105 | every deliverable call or event keeps the invariant: the flag and the timer are only set while a socket is held |
| Session.RunKeepsInv | index.js:36-105 | the invariant holds after any feasible sequence of calls and events |
| Session.RequestsPrefix | index.js:79 | an outbox extended by further sends never holds fewer `STATE` requests |
| Session.OutboxOnlyGrows | index.js:75-79 | no sequence of calls and events takes anything back from the outbox |
| Session.StepFlow | index.js:76-81 | one call or event adds at most one to requests sent plus the request the flag still allows, and only a handled message adds to that total |
| Session.FlowControl | index.js:76-104 | over any feasible event sequence, requests sent plus the one still allowed grow by at most the number of messages handled |
| Session.RequestsNeverAheadOfReplies | index.js:76-104 | from a fresh client, `STATE` requests sent never outnumber the messages handled |
| Session.AtMostOneRequestBetweenReplies | index.js:77-81 | with no message handled, at most one `STATE` request goes out |
| Session.NoRequestBeforeFirstReply | index.js:74-81 | after the open handler, no `STATE` request goes out until a message has been handled |
| Session.HeldUntilClosed | index.js:51-53 | only the close handler releases the socket; `disconnect` and everything else keep it |
| Session.ConnectTwiceFails | index.js:36-38 | after a successful connect, a second connect fails with the URL and changes nothing, whatever happens in between short of a close event |
| Session.ReceiveSizeReply | index.js:87-93 | a server's `SIZE <w> <h>` line sets the dimensions to (w, h), resizes the canvas to them and lowers the flag, changing nothing else |
| Session.ReceiveFrame | index.js:94-112 | a server's `STATE rgba64 <payload>` line whose frame is accepted stores the image, draws it once at (0, 0) with the current dimensions and lowers the flag, changing nothing else |
| Session.FirstFrame | index.js:74-111 | for any dimensions within ±2^53: connect, open, `SIZE <w> <h>`, two ticks and a `STATE rgba64` reply give dimensions (w, h), canvas resized to them, a single `STATE` request, then one draw at (0, 0) with the flag down again |
| Session.UnsolicitedReplyReleasesFlag | index.js:77-104 | for any dimensions within ±2^53, an unsolicited `SIZE` reply while a `STATE` request is in flight lowers the flag, so the next tick sends a second `STATE` request before any frame arrives |
| Session.StrayReplyAfterClose | index.js:86-93 | the message handler has no connection check: a `SIZE` reply after the close handler still sets the dimensions |
| Viewer.PixelflutClient.constructor | index.js:6-29 | the fields start at no socket, dimensions -1, flag down, timer off, then `connect` runs unless `autoConnect` is false, which it is not by default |
| Viewer.PixelflutClient.IsConnected | index.js:60-62 | true exactly when a socket is held, opened or not |
| Viewer.PixelflutClient.Send | index.js:75-79 | sending on the held socket appends exactly that text to the outbox and changes nothing else |
| Viewer.PixelflutClient.Connect | index.js:36-44 | leaves the state `Session.Connect` gives, with a fresh socket on success and the same socket on refusal |
| Viewer.PixelflutClient.Disconnect | index.js:51-53 | modifies only the socket object and leaves the state `Session.Disconnect` gives |
| Viewer.PixelflutClient.OnOpen | index.js:74-83 | leaves the state `Session.Open` gives and keeps the invariant |
| Viewer.PixelflutClient.OnTick | index.js:77-81 | leaves the state `Session.Tick` gives and keeps the invariant |
| Viewer.PixelflutClient.OnMessage | index.js:86-105 | returns the outcome and leaves the state `Session.Receive` gives, and keeps the socket |
| Viewer.PixelflutClient.HandleBinaryAlgRgba64 | index.js:108-112 | changes only the image and the canvas, as `Session.RenderRgba64` gives |
| Viewer.PixelflutClient.OnClose | index.js:65-71 | leaves the state `Session.Close` gives, with no socket held |

## Left out

- WebSocket construction, the `"pixelflut"` subprotocol and the network are not modelled. `send` appends to the client's outbox. `close()` marks the held socket as closing. Open, message, tick and close are method calls made one at a time.
- The `WebSocket` constructor throwing (for a malformed URL, say) is not modelled: a `connect` that passes its check always obtains a socket.
- `setInterval`, `clearInterval`, the interval id and the period `1000 / updateFrequency` (a floating-point division) are not modelled. They become a `timerActive` flag and a tick event. The `updateFrequency` and `canvas` constructor parameters are not modelled for the same reason.
- The canvas and its 2D context are not modelled. Assigning the canvas width and height, and `putImageData`, become entries in a call log. How the canvas converts NaN or negative sizes is browser behaviour. A missing 2D context (`getContext("2d")` returning null), which would make the `SIZE` branch and the frame drawing throw, is not modelled.
- `atob`, `Uint8ClampedArray.from` and the `ImageData` constructor are browser built-ins, so they are one abstract `Decoder` parameter. It returns the frame's bytes, or nothing when one of them throws. No property of base64 is claimed, since there is no base64 code in the repository.
- JsNumbers.ToNumber: computes unary plus only for optionally signed decimal digit strings with a magnitude of at most 2^53. Every other result becomes `Other`: NaN, infinities, fractions, rounded large integers, hexadecimal and exponent forms. The code does not validate these values, and neither does the model.
- JsStrings.AsciiLower: lowercases only ASCII letters. For the three comparisons the handler makes, against "size", "state" and "rgba64", this agrees with `toLowerCase`: the only non-ASCII character whose lower case is an ASCII letter is the Kelvin sign, which becomes "k", and none of the three words contains "k".
- Strings are sequences of Unicode scalar values, not UTF-16 code units. The handler only compares ASCII words and splits on ASCII characters, so this makes no difference to it.
- A binary WebSocket message (whose `data` is not a string) would throw at `replace`; it is not modelled.
- The `console.error` and `console.warn` logging is not modelled. Only the fact that line 101 throws is modelled.
- The text of the "already connected" error is not modelled; the failure carries only the URL.
- index.d.ts declares types only, with names that differ from index.js. It is not part of this model.
