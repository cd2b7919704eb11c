# People counter: a Dafny model of the frame/response protocol

The system is a browser page with a webcam and a detection server.

- Every 200 ms the page encodes the current video frame as a JPEG blob.
- It reads the blob back as a `data:image/jpeg;base64,...` URL and sends that text over a WebSocket.
- For each text frame, the server:
  - splits off the base 64 payload;
  - decodes it to image bytes;
  - runs the person detector;
  - answers with `{count, boxes}`.
- When the page receives an answer, it:
  - sets the people count;
  - appends `{time, count}` to a rolling history of at most fifty samples;
  - clears its overlay canvas and draws one lime rectangle per box, labelled `Pessoa 1`, `Pessoa 2`, and so on.
- The chart shows the history: times as labels, counts as the data series.

The project has one module per concern:

- `Results`: `Option` and `Result`, and the two errors the decoding path can raise:
  - `IndexOutOfRange` (`split(",")[1]` without a comma);
  - `InvalidBase64` (a `binascii.Error`).
- `Protocol`: the response record `{count, boxes}` and its boxes.
- `Base64`: the encoding of section 4 of RFC 4648, as the browser writes it and the server reads it, with the round-trip proof.
- `DataUrl`: the `data:` URL (RFC 2397) as `readAsDataURL` produces it, plus Python's `str.split` and the `[1]` index the server applies to it.
- `Server`: `decode_base64_image` and `websocket_endpoint`:
  - the person filter and the response assembly;
  - the whole receive/respond loop as a function of the inbound events;
  - the loop itself as a method over a socket object.
- `History`: the `slice(-49)` rolling window and the chart projection.
- `Overlay`: the canvas commands one result produces, and what stays visible.
- `App`: the React component's state as a class:
  - `onmessage`;
  - the guards of `sendFrame`;
  - the `readyState` check in `onloadend`.

What the code does not do, and so the model does not either:

- The client has no reconnect logic, no pending-send limit and no back-pressure. A frame is sent whenever the socket is open at `onloadend` time; otherwise it is dropped.
- On the server, a malformed frame is not skipped. Any exception other than `WebSocketDisconnect` leaves the loop and ends the handler. `Server.Session` ends in `Raised(...)`, and `Server.MalformedFrameRaises` proves that nothing after such a frame is answered or read.
- `count` is always `len(people)`, which is the number of boxes. `Server.RespondDescribesPeople` proves `count == |boxes|`.

## Model

| member | source | states |
|---|---|---|
| Base64.SextetChar | face.py:96 | every value 0..63 maps to a character of the standard alphabet |
| Base64.SextetValue | server.py:21 | a character has a 6-bit value exactly when it is in the alphabet |
| Base64.Encode | face.py:96 | the encoding has 4 characters per started 3-byte group, all from the alphabet or `=` |
| Base64.DecodeQuad | server.py:21 | a non-final quadruple decodes to three bytes exactly when all four characters are in the alphabet |
| Base64.DecodeFinal | server.py:21 | the last quadruple (`xx==`, `xxx=`, `xxxx`) decodes to one to three bytes |
| Base64.Decode | server.py:21 | only an invalid encoding fails; accepted text has a length that is a multiple of four, and four characters give three bytes, less up to two for padding |
| Base64.DecodeEncode | server.py:21 | decoding what the browser encoded gives back exactly the original bytes, for every byte string |
| Base64.DecodeRejectsLength | server.py:21 | input whose length is not a multiple of four is rejected as invalid |
| DataUrl.Split | server.py:21 | `str.split(",")` yields one piece more than there are commas, and no piece contains a comma |
| DataUrl.JoinSplit | server.py:21 | joining the pieces with the separator restores the original text (split loses nothing) |
| DataUrl.SplitNoSeparator | server.py:21 | text without the separator is a single piece |
| DataUrl.SplitAround | server.py:21 | splitting `a + "," + b` gives the pieces of `a` followed by the pieces of `b` |
| DataUrl.Payload | server.py:21 | `split(",")[1]` exists exactly when the text holds a comma, and it is comma-free; the only failure is the out-of-range index |
| DataUrl.PayloadWithoutComma | server.py:21 | text with no comma raises `IndexError`; it does not yield an empty payload |
| DataUrl.PayloadAfterComma | server.py:21 | for `prefix,payload` with a single comma, exactly the payload is returned |
| DataUrl.PayloadStopsAtComma | server.py:21 | a second comma truncates the payload to the text between the first and second commas |
| DataUrl.Make | face.py:96 | the data URL is the fixed header, the media type, and four characters per started group of three bytes; it always holds the comma the server splits on |
| DataUrl.PayloadOfMake | face.py:96 | the payload of a `readAsDataURL` result is exactly the base 64 encoding of the blob |
| Server.DecodeBase64Image | server.py:20-24 | text without a comma raises the index error, never decoding an empty payload; with a comma the only failure is an invalid encoding |
| Server.DecodeClientFrame | server.py:20-24 | the bytes the server decodes from a client frame are exactly the JPEG blob the client encoded |
| Server.People | server.py:35 | the filter keeps only class-0 detections and never more than were given |
| Server.PeopleMembers | server.py:35 | a detection is kept if and only if it was detected and its class is person (0) |
| Server.PeopleAppend | server.py:35 | filtering distributes over concatenation |
| Server.PeopleInOrder | server.py:35 | the people are a subsequence of the detections (detector order is kept) |
| Server.Boxes | server.py:38-41 | one box per person, the i-th box holding the i-th person's `xyxy` corners and confidence |
| Server.BoxesAppend | server.py:41 | appending one person appends exactly that person's box |
| Server.Respond | server.py:43-46 | `count` equals the number of boxes, and there are never more boxes than detections |
| Server.RespondDescribesPeople | server.py:35-46 | `count == len(boxes) == len(people)`, and each box is a person detection's corners and confidence |
| Server.AssembleResponse | server.py:37-46 | the loop that appends boxes one by one builds exactly the specified response, with `count` equal to the number of boxes |
| Server.Session | server.py:29-50 | a run sends at most one response per inbound event, and one per event if and only if it is still waiting |
| Server.Unread | server.py:30-32 | the events left unread are a suffix of the events: those after the one that ended the run, none while waiting |
| Server.EventsAccounted | server.py:30-50 | every event is counted exactly once: it is answered, it ended the run, or it was never read |
| Server.UnreadStopsAt | server.py:30-32 | after the first unanswered event, everything that follows stays unread |
| Server.OneResponsePerMessage | server.py:30-48 | while connected, the i-th decodable frame gets the i-th response, built from that frame's detections |
| Server.SessionStopsAt | server.py:29-50 | the first unanswered event decides how the run ends; the frames before it are answered, and nothing after it is |
| Server.DisconnectEndsSession | server.py:49-50 | a disconnect ends the loop normally, only the frames before it are answered, and everything after it stays unread |
| Server.MalformedFrameRaises | server.py:21 | a frame without a comma raises and ends the handler; it gets no response, and everything after it stays unread |
| Server.ServerSocket.Receive | server.py:31 | takes the oldest unread frame from the socket |
| Server.ServerSocket.SendJson | server.py:48 | appends one response to what the client has been sent |
| Server.WebsocketEndpoint | server.py:29-50 | the responses the loop sends, how it ends, and the frames it leaves unread are exactly those that `Session` and `Unread` give for the inbound events |
| History.Last | face.py:53 | the last min(n, length) elements: a suffix of that length |
| History.Slice | face.py:53 | JavaScript `slice(start)` gives a suffix: for a negative start, of length min(-start, length); otherwise, of the length left after the start |
| History.SliceFromEnd | face.py:53 | `slice(-n)` for n > 0 is the last n elements |
| History.Append | face.py:52-55 | the history after a result has min(length + 1, 50) samples, and the newest sample is last |
| History.AppendKeepsNewest | face.py:53 | the samples in front of the new one are the most recent min(49, length) old ones, in order |
| History.AppendBelowCapacity | face.py:52-55 | below fifty samples nothing is evicted |
| History.AppendAtCapacity | face.py:52-55 | at fifty samples exactly the oldest one is evicted |
| History.AppendIsWindow | face.py:52-55 | one update is the last fifty samples of everything seen so far |
| History.LastOfLast | face.py:53 | taking a window first does not change a later window of the same size |
| History.Replay | face.py:52-55 | after a non-empty run of results, the history has min(old + new, 50) samples and ends with the latest; after no results it is unchanged |
| History.ReplayIsWindow | face.py:52-55 | after any run of results, the history holds exactly the most recent fifty samples, in arrival order (FIFO) |
| History.FiftyFirstAppend | face.py:52-55 | after 51 results from empty, fifty samples remain and the first one is gone |
| History.Labels | face.py:112 | the chart labels are the samples' times, index by index |
| History.Counts | face.py:116 | the chart data are the samples' counts, index by index |
| History.Chart | face.py:111-122 | the chart has one point per sample, and point i has sample i's time as label and its count as value |
| History.ChartAfterAppend | face.py:111-117 | after a result arrives, the chart has at most fifty points, and its last point is that result's time and count |
| Overlay.Decimal | face.py:67 | the numeral in the label is a non-empty string of digits, with no leading zero (it starts with `0` only for zero) |
| Overlay.DecimalRoundTrip | face.py:67 | the numeral denotes the number it was made from |
| Overlay.Label | face.py:67 | the label is `Pessoa ` followed by digits with no leading zero that denote the box's one-based position |
| Overlay.LabelsDistinct | face.py:67 | boxes at different positions get different `Pessoa n` labels |
| Overlay.BoxCommands | face.py:62-67 | for one box: a lime, 3-pixel rectangle from (x1, y1) to exactly (x2, y2), then its label in lime 18px Arial, 10 pixels above the top-left corner |
| Overlay.Overlay | face.py:61-68 | two drawing commands per box, and none of them clears the canvas |
| Overlay.OverlayStep | face.py:61-68 | drawing one more box appends exactly that box's rectangle and label |
| Overlay.OverlaySlot | face.py:61-68 | commands 2i and 2i+1 of the overlay are exactly box i's two commands |
| Overlay.OverlayAt | face.py:61-68 | box i gives commands 2i and 2i+1: a lime, 3-pixel rectangle with exactly the box's corners, then the label `Pessoa i+1` at (x1, y1 - 10) |
| Overlay.Visible | face.py:59 | what remains visible is never more than was drawn and includes no clear |
| Overlay.VisibleAfterDrawing | face.py:61-68 | drawing without clearing adds to what is visible |
| Overlay.OverlayReplaces | face.py:59-68 | whatever was on the canvas before, after the clear only the current result's boxes are visible |
| App.Client.constructor | face.py:27-28 | the first render has count 0, an empty history and nothing drawn or sent |
| App.Client.OnMessage | face.py:49-68 | the count is the message's count; the history is the rolling append; when both elements are mounted the canvas is cleared and exactly this result's overlay is visible; otherwise the canvas is untouched |
| App.Client.DrawBoxes | face.py:61-68 | the `forEach` loop issues exactly the overlay commands for the boxes, in box order, and only adds to the canvas log |
| App.Client.SendFrame | face.py:73-101 | a payload is produced if and only if the video is mounted, has a non-zero size and `toBlob` gave a blob; the payload is that blob's JPEG data URL |
| App.Client.OnLoadEnd | face.py:91-95 | the payload is sent exactly when the socket is open; otherwise it is dropped, not queued |
| App.Client.Tick | face.py:73-103 | one timer tick sends at most one frame, and it does so exactly when all the guards hold and the socket is open |

## Left out

- Rendering: React, the JSX layout, Chart.js options and the `<Line>` chart. Only the data object the chart receives (`History.Chart`) is modelled.
- Camera and canvas I/O: `getUserMedia`, `drawImage` and `canvas.toBlob` with JPEG quality 0.7. The blob `toBlob` produces is a parameter of `App.Client.SendFrame`.
- Asynchrony of `FileReader`: `readAsDataURL` and its callback are modelled as producing the URL directly.
- `App.Client.Tick`: runs the tick's callbacks to completion, with `readyState` read when `onloadend` fires. Interleavings of several pending ticks with socket state changes are not modelled.
- `setInterval` timing (200 ms) and the effect cleanup (`clearInterval`, `ws.close()`) are not modelled.
- `onopen` and `onclose` logging and the server's "Client disconnected" print are I/O.
- The WebSocket handshake, `accept`, FastAPI routing and CORS are framework code.
- The detector: `cv2.imdecode` and the YOLO model are one function parameter from image bytes to detections. A failure of `imdecode`, or the model raising on a `None` image, is not modelled.
- Server.Detection: `int()` truncation of the float corners and `float()` of the confidence are not modelled. Corners are integers and the confidence is a real number that is passed through unchanged.
- JSON: `send_json` serialisation and `JSON.parse` on the client, including malformed JSON, are not modelled. Responses travel as values.
- `toLocaleTimeString`: the wall-clock time text of a sample is a parameter.
- Base64.Decode: models strict decoding of canonical, padded input. `base64.b64decode` without `validate=True` also discards non-alphabet characters, and tolerates some irregular padding. Such inputs are rejected here as `InvalidBase64` even where CPython would decode them. The round trip on what the browser sends is unaffected.
- Server.ServerSocket.Receive: an empty inbox returns `None` and the endpoint reports `Waiting`, where the real `receive_text` blocks until the next frame arrives.
- Overlay.Visible: every clear is taken to cover the whole canvas, which is what the only clear in the code does.
- Concurrency between the server's event loop and other connections: each connection is modelled on its own.
