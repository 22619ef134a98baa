# Bible-Analyzer: verified model of the recognition exchange

Bible-Analyzer lets a user photograph a printed Bible page; the browser posts the photo
to the `/api` route, which asks a hosted multimodal model which book and chapter it shows
and returns the hosted model's JSON answer. This project models the deterministic parts of that
exchange in Dafny and proves their properties:

- `Client` (client.dfy) — the component's `handleScreenshot` handler as a class `Scanner`
  with the three pieces of React state `isLoading`, `error` and `result`, one method per
  attempt, and the photo button that is disabled while an attempt is in flight. The
  outcome of the network exchange is an input (`Reply`), the captured frame an
  `Option<string>`. A ghost log `updates` records every state-setter call in order, so
  that "busy on, error cleared, one settling update, busy off" can be stated.
- `Fence` (fence.dfy) — the global replace `/```json\n|\n```/g` that strips markdown
  fences off the hosted model's reply, written as the regular-expression engine runs it: a scan
  with a moving index that tries "```json\n" before "\n```" at each index.
- `Api` (api.dfy) — the route module: the module-level `storageData` array (a class
  `Route` with a `seq` field), `action` (strip, parse, push, answer) and `loader`
  (element 0). `JSON.parse` is a parameter `string -> Option<V>`, `V` being whatever it
  yields.
- `Wrappers` (wrappers.dfy) — `Option` and JavaScript truthiness of an optional string.

There is no timer, time-to-live, single-slot overwrite or cross-origin header in the
route; `storageData` grows forever and the loader always answers with the first result
ever stored.

## Model

| member | source | states |
|---|---|---|
| Client.Scanner.constructor | app/routes/_index.tsx:5-7 | the initial state: not loading, no error, no result |
| Client.Scanner.HandleScreenshot | app/routes/_index.tsx:9-81 | a falsy capture (absent or empty) ends in "Failed to captur image" and sends no request; otherwise the capture is sent; a thrown fetch/decoding error ends in its message; a response that is not ok ends in "Network response was not ok"; status "error" ends in the answer's message or "Analysis failed", whatever the data holds; any other status without a non-empty book and chapter ends in "Invalid response structure"; every other answer sets `result` to exactly its `data` with no error; every failure leaves `result` as it was; `isLoading` ends false; the setters run as busy on, error cleared, one settling update, busy off |
| Client.Scanner.Click | app/routes/_index.tsx:95-97 | a click starts an attempt exactly when no attempt is in flight (`disabled={isLoading}`), and then settles exactly as `HandleScreenshot` does (same error, result, request and setter order); a click on the disabled button changes nothing and sends nothing |
| Client.Complete | app/routes/_index.tsx:70-72 | an answer passes the structure check only when `data` is present with a present, non-empty `book` and `chapter`; absent `data` never passes |
| Client.FailureMessage | app/routes/_index.tsx:66-68 | the semantic-failure message is never empty and is the answer's own message whenever that is non-empty |
| Fence.DelimitersSpelled | app/routes/api/index.tsx:26 | the character-by-character tests the scan uses hold exactly where "```json\n" or "\n```" occurs |
| Fence.ScanFrom | app/routes/api/index.tsx:26 | the scan from an index, recorded as pieces: at most one piece per remaining character, and none exactly at the end |
| Fence.StripFrom | app/routes/api/index.tsx:26 | scanning from an index never yields more text than remains after it |
| Fence.Strip | app/routes/api/index.tsx:26 | stripping never lengthens the reply |
| Fence.ScanJoined | app/routes/api/index.tsx:26 | the pieces of the scan (kept characters and removed delimiters) put back together are exactly the scanned text |
| Fence.StripKeepsScanned | app/routes/api/index.tsx:26 | the stripped text is exactly the characters the scan keeps, in order |
| Fence.StripIsScan | app/routes/api/index.tsx:26 | for a whole reply: it is the concatenation of kept characters and removed delimiters, and the result is the kept characters |
| Fence.DelimitersExclusive | app/routes/api/index.tsx:26 | the two alternatives never match at the same index, so the order the regular expression tries them in never changes the result |
| Fence.NonOverlapping | app/routes/api/index.tsx:26 | matches do not overlap: in "\n```json\n" the closing delimiter is removed first and the "```json\n" that began inside it is not, leaving "json\n" |
| Fence.NoDelimiterKept | app/routes/api/index.tsx:26 | with no delimiter at or after an index, the scan from there returns the rest unchanged |
| Fence.DelimiterShrinks | app/routes/api/index.tsx:26 | a delimiter anywhere at or after an index makes the scan from there strictly shorter than the rest |
| Fence.StripUnchangedIff | app/routes/api/index.tsx:26 | stripping returns the reply unchanged if and only if it contains neither delimiter |
| Fence.KeepsPlainRun | app/routes/api/index.tsx:26 | a run without backticks, not followed by a backtick, passes through whole |
| Fence.StripWrapped | app/routes/api/index.tsx:26 | for any JSON text J without backticks, stripping "```json\n" + J + "\n```" gives exactly J |
| Fence.SinglePass | app/routes/api/index.tsx:26 | the replace is one pass: "```js" + "```json\n" + "on\n" strips to "```json\n", which a second pass would remove |
| Api.Parsed | app/routes/api/index.tsx:25-27 | no parsed answer without a reply from the hosted model; a reply without fences reaches `JSON.parse` unchanged |
| Api.ParsedFenced | app/routes/api/index.tsx:25-27 | a backtick-free JSON text wrapped in a ```json fence is parsed as exactly that JSON text |
| Api.Route.constructor | app/routes/api/index.tsx:4 | `storageData` starts empty |
| Api.Route.Action | app/routes/api/index.tsx:6-44 | the action answers exactly when a reply was obtained and its stripped text parses; then the answer is the parsed value and the log gains exactly that one value at its end; any failure leaves the log unchanged; a non-empty log keeps its loader answer, and the first success on an empty log becomes the loader's answer |
| Api.Route.Loader | app/routes/api/index.tsx:46-49 | the loader answers nothing on an empty log and otherwise exactly `storageData[0]` |
| Api.RunConcat | app/routes/api/index.tsx:4-30 | two batches of actions run one after the other leave the same log as one batch of all of them, so the run lemmas apply to any number of `action` calls |
| Api.RunAppendsOnly | app/routes/api/index.tsx:4-30 | over any sequence of actions the earlier log stays a prefix of the later one, which grows by at most one element per action |
| Api.LoaderAfterRun | app/routes/api/index.tsx:46-49 | after any sequence of actions the loader returns the first result ever stored: the head of the earlier log, or else the first reply of the run that parsed, or nothing when none did |
| Api.FailedRunUnchanged | app/routes/api/index.tsx:38-43 | actions that all fail leave the log exactly as it was |

## Left out

- Webcam capture and the React rendering (app/routes/_index.tsx:83-127): `getScreenshot()` is an input `Option<string>`; the button's disabled state is modelled by `Click`.
- The network: `fetch('/api')`, `response.json()`, the image fetch and its base64 encoding are not modelled; their outcomes are the inputs `Reply` (client) and `reply: Option<string>` (server).
- The hosted model client and `generateContent` (app/routes/api/index.tsx:10-25): a foreign library; its reply is an arbitrary string.
- `JSON.parse` is not modelled; it is a parameter `string -> Option<V>`.
- The prompt text (app/routes/_index.tsx:21-57): an opaque constant; nothing here inspects it.
- HTTP status codes and headers. The failure branch of `action` is `Failure` and carries no status: its misplaced parenthesis makes the comma operator return the object literal `{status: 429, headers}`, not the error `Response`.
- The catch-all message "An unexpected error ocurred" (app/routes/_index.tsx:77): every error that can reach the catch block in this model is an `Error`, so that branch is not modelled.
- JSON field types: `status` is a string (an absent status counts as any string other than "error"); `message`, `book` and `chapter` are optional strings. Non-string JSON values in those fields are not modelled.
- `isLoading` has type `boolean | null` in the source but is only ever set to booleans; it is a `bool`.
- The `undefined` body the loader serialises on an empty log is `None`.
- The async interleaving of `await`: each attempt and each action is one sequential method, so two attempts never overlap. As a consequence `isLoading` is false in every state reachable between calls (the constructor and every started attempt end with it false); the ignored-click branch of `Click` is reachable only by setting the field directly.
