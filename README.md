# Field of Vision: OPI command layer, TCP server and response bookkeeping

This project models the core of the Unity application that serves the Open
Perimetry Interface (OPI) to an R client over TCP. It covers:

- the command dispatchers. There are three revisions of the rule "the first
  keyword of a fixed table that occurs anywhere in the message selects the
  handler":
  - `InputProcessing`, the one in use, with its four handlers and their
    binary replies;
  - `Actions`, a ten-entry switch whose cases are all empty;
  - `MessageProcessing`, an eleven-entry table headed by `OPI_CLOSE`, with
    the `OPI_MONO_PRESENT` token mapping and the frame loop that drains the
    shared queue one message per frame.
- the single-client `TCPServer` as a sequential state machine. Clients are
  ids, background tasks are flags, and the message `Buffer` is a queue. It
  covers accepting a client, which replaces the previous one, reading,
  writing, disconnecting and stopping.
- the response bookkeeping of `ScreenDrawing`:
  - key presses appended to `Responses`;
  - the first response of a presentation, or "not seen", sent back as 5 bytes;
  - the wait after the stimulus;
  - the clamp in `SetLevel`.
- `ViveProEye.ToAlpha`, the luminance-to-alpha conversion.

The .NET string operations the handlers use are written out in `OpiText`:
ordinal `Contains`, `Trim()`, `Split(' ')` and `FirstOrDefault` over a keyword
table. The byte layouts of `BitConverter` and `Encoding.ASCII` are in `Wire`.

A handler's observable behaviour is an `Outcome`:

- the message is not recognized;
- an exception escapes (`Fault`);
- or the handler runs and produces effects in order.

`InputProcessing.Update` performs the writes on the server. The other effects
are returned: scheduling the background, starting a presentation, and shutdown.

Times are whole milliseconds. The handlers take the argument parsers as
function-valued parameters, so every property of the handlers holds whatever
the parsers decide. Those parsers are `Conversions.ToAlpha/ToColor/ToEye`,
`FixationPoint.CreateFixationPoint`, `StaticStimulus.CreateStaticStimulus`,
`int.Parse` and `double.Parse`. `Conversions.ToColor` is also written out as
`OpiDefinitions.ToColorAsWritten`. It accepts one or three strings, but both
handlers pass it four, so as written no background is ever set and no
stimulus is ever presented (see "## Findings").

Where the code and its comments disagree, the model follows the code. Examples:

- `Disconnect` closes the client but leaves `CurrentClient` set.
- `Update` processes only half the queue per frame.
- The response wait is truncated to whole seconds. This one is kept as a
  finding, and the model uses the intended wait.

## Model

| member | source | states |
|---|---|---|
| OpiText.ContainsIff | Assets/Scripts/InputProcessing.cs:43 | the ordinal `Contains` scan finds a keyword exactly when it occurs at some position of the message |
| OpiText.LongerNeverContained | Assets/Scripts/InputProcessing.cs:43 | a keyword longer than the message is never contained in it |
| OpiText.ContainsSelf | Assets/Scripts/InputProcessing.cs:43 | a message that is exactly a keyword contains it |
| OpiText.FirstMatchSpec | Assets/Scripts/InputProcessing.cs:41-45 | the selected table entry occurs in the message and no earlier entry does; nothing is selected exactly when no entry occurs |
| OpiText.FirstMatchIs | Assets/Scripts/Actions.cs:9-13 | entry i is selected if and only if it occurs and every earlier entry does not |
| OpiText.TrimStart | Assets/Scripts/InputProcessing.cs:88 | the result is a suffix of the input, what it drops is all white space, and it does not start with white space |
| OpiText.TrimEnd | Assets/Scripts/InputProcessing.cs:88 | the result is a prefix of the input, what it drops is all white space, and it does not end with white space |
| OpiText.Trim | Assets/Scripts/InputProcessing.cs:88 | the result is the slice of the input between the leading and trailing white space, both of which are removed entirely |
| OpiText.Split | Assets/Scripts/InputProcessing.cs:88 | there is always at least one piece and no piece holds the separator |
| OpiText.SplitCount | Assets/Scripts/InputProcessing.cs:88-90 | a string with k separators splits into k + 1 pieces, empty pieces included |
| OpiText.JoinSplit | Assets/Scripts/InputProcessing.cs:88 | joining the pieces of a split with the separator gives back the string |
| OpiText.SplitPrefix | Assets/Scripts/InputProcessing.cs:88 | splitting a separator-free text followed by more text extends the first piece |
| OpiText.SplitJoin | Assets/Scripts/InputProcessing.cs:88 | splitting separator-free pieces joined by the separator gives back the pieces |
| Wire.EncodeBool | Assets/Scripts/InputProcessing.cs:63 | `GetBytes(bool)` is one byte, 1 exactly when the value is true |
| Wire.FromLittleEndianInverse | Assets/Scripts/InputProcessing.cs:154-156 | reading back the little-endian digits of a number that fits gives the number |
| Wire.LittleEndianInverse | Assets/Scripts/InputProcessing.cs:154-156 | writing out the value of a byte string gives back the byte string |
| Wire.EncodeInt32 | Assets/Scripts/InputProcessing.cs:155-156 | `GetBytes(int)` is four bytes |
| Wire.Int32RoundTrip | Assets/Scripts/InputProcessing.cs:154-156 | decoding the four bytes of an `int` gives the `int` back |
| Wire.Int32Bijective | Assets/Scripts/InputProcessing.cs:154-156 | every four bytes encode exactly one `int` |
| Wire.AsciiRoundTrip | Assets/Scripts/TCPServer.cs:188 | an ASCII text encoded by a client is decoded by the server unchanged |
| Wire.AsciiDecodeIsAscii | Assets/Scripts/TCPServer.cs:188 | the decoded text never holds a character outside ASCII |
| InputProcessing.SelectIs | Assets/Scripts/InputProcessing.cs:41-43 | command k is selected if and only if keyword k occurs and no earlier keyword of the four-entry table does |
| InputProcessing.CloseKeywordSelectsClose | Assets/Scripts/InputProcessing.cs:41-43 | the bare keyword `OPI_CLOSE` selects the close handler |
| InputProcessing.SelectNone | Assets/Scripts/InputProcessing.cs:43-49 | no handler is selected exactly when the message contains no keyword |
| InputProcessing.UnrecognizedIffNoKeyword | Assets/Scripts/InputProcessing.cs:43-49 | a message is left unhandled, with nothing written, if and only if it contains no keyword |
| InputProcessing.UnrecognizedIffNotSelected | Assets/Scripts/InputProcessing.cs:43-49 | a message is left unhandled if and only if no handler is selected: every handler either handles the message or throws |
| InputProcessing.Dispatch | Assets/Scripts/InputProcessing.cs:52-53 | each selected command runs its own handler on the message: the device query writes the connection flag, close writes true and then shuts down, the other two run on the message's parameters |
| InputProcessing.Parameters | Assets/Scripts/InputProcessing.cs:88 | no parameter holds a space |
| InputProcessing.ParameterCount | Assets/Scripts/InputProcessing.cs:88-90 | the number of parameters is the number of spaces in the trimmed message |
| InputProcessing.ParametersRebuild | Assets/Scripts/InputProcessing.cs:88 | the keyword token and the parameters joined by spaces give back the trimmed message |
| InputProcessing.SetBackgroundOn | Assets/Scripts/InputProcessing.cs:88-121 | the handler throws if and only if there are fewer than 16 parameters; otherwise it replies true exactly when there are exactly 16 and every conversion succeeds, in which case the background is scheduled before the reply, and replies false alone in every other case |
| InputProcessing.SetBackgroundWritesOnce | Assets/Scripts/InputProcessing.cs:111-121 | `OPI_SET_BGROUND`, when it does not throw, writes exactly once |
| InputProcessing.PresentErrorReply | Assets/Scripts/InputProcessing.cs:153-156 | the failed-present reply is 8 bytes that decode as int32 0 and int32 3 |
| InputProcessing.PresentOn | Assets/Scripts/InputProcessing.cs:141-162 | the error reply is written if and only if the count is not 11 or the stimulus factory reports an error; the stimulus is presented, with nothing written, if and only if neither happens |
| OpiDefinitions.ToColorAsWritten | Assets/Scripts/InputProcessing.cs:101-103 | `Conversions.ToColor` (lines 95-126 of Units.cs under OPI Definitions), as called here: the conversion succeeds only for one string (a colour name) or three (RGB values), and a failure yields white |
| InputProcessing.ColorAsWrittenRejectsEveryRequest | Assets/Scripts/InputProcessing.cs:101-103 | with `ToColor` as written, and a stimulus factory that reports a bad colour, `OPI_SET_BGROUND` throws or replies false and `OPI_PRESENT` writes the error reply, for every message |
| InputProcessing.ConvertibleArgumentsAccepted | Assets/Scripts/InputProcessing.cs:88-162 | when every conversion accepts its arguments, 16 parameters schedule the parsed background and reply true, and 11 parameters present the parsed stimulus |
| InputProcessing.PresentWrites | Assets/Scripts/InputProcessing.cs:149-162 | `OPI_PRESENT` writes once on error and not at all on success |
| InputProcessing.Reply | Assets/Scripts/InputProcessing.cs:63 | an outcome's reply is one of its writes, and an outcome that writes has a reply |
| InputProcessing.FirstWrite | Assets/Scripts/InputProcessing.cs:114 | the first write is one of the effects, and there is none exactly when nothing is written |
| InputProcessing.WriteCountSingle | Assets/Scripts/InputProcessing.cs:171-172 | one write among effects that write nothing counts once, before or after them |
| InputProcessing.WriteCountAppend | Assets/Scripts/InputProcessing.cs:23-30 | the writes of two effect lists add up |
| InputProcessing.AtMostOneReply | Assets/Scripts/InputProcessing.cs:59-173 | every handled message writes at most once, and writes nothing if and only if it is an accepted present |
| InputProcessing.RepliesSnoc | Assets/Scripts/InputProcessing.cs:25-29 | one more processed message adds its reply after the earlier ones |
| InputProcessing.DrainedStep | Assets/Scripts/InputProcessing.cs:25-28 | processing the next queued message keeps the outcomes those of the first messages in order |
| InputProcessing.DrainedDone | Assets/Scripts/InputProcessing.cs:25 | at the end of a pass only the last outcome can be a fault, and without one exactly ceil(n/2) messages were processed |
| InputProcessing.DequeueAndProcess | Assets/Scripts/InputProcessing.cs:27-28 | the oldest message is removed and processed, and its reply is written to the server |
| InputProcessing.Update | Assets/Scripts/InputProcessing.cs:23-30 | one pass processes the oldest messages in FIFO order and leaves the rest queued; only the last can fault; without a fault it processes exactly ceil(n/2) of n; the server state is that after writing their replies in order |
| Actions.Position | Assets/Scripts/Actions.cs:9 | every command has a position in the table |
| Actions.EveryKeywordHasACase | Assets/Scripts/Actions.cs:19-40 | every keyword of the table has a switch case, and it is the command at the same position |
| Actions.DefaultUnreachable | Assets/Scripts/Actions.cs:19-43 | the `default` branch of the switch is never taken |
| Actions.NotRecognizedIffNoKeyword | Assets/Scripts/Actions.cs:11-17 | a message is not recognized, with no further action, if and only if it contains no keyword of the ten |
| Actions.CaseOfFirstKeyword | Assets/Scripts/Actions.cs:9-40 | the case taken is that of keyword k if and only if keyword k occurs and no earlier one does; every case does nothing |
| Actions.CloseIsNotRecognized | Assets/Scripts/Actions.cs:9 | `OPI_CLOSE` is not in this table: the bare keyword is not recognized |
| MessageProcessing.CloseWins | Assets/Scripts/MessageProcessing.cs:40-42 | a message containing `OPI_CLOSE` anywhere selects the close handler, whose outcome is the `RunShutdown` call, whatever else it contains |
| MessageProcessing.UnrecognizedIffNoKeyword | Assets/Scripts/MessageProcessing.cs:42-48 | a message is left unhandled if and only if it contains no keyword of the eleven |
| MessageProcessing.OthersOnlyLog | Assets/Scripts/MessageProcessing.cs:69-137 | every selected handler other than close and mono-present only logs |
| MessageProcessing.MonoPresentReadsTokensTwoToSix | Assets/Scripts/MessageProcessing.cs:112-126 | fewer than seven tokens present nothing, and otherwise only tokens 2 to 6 matter |
| MessageProcessing.MonoPresentFields | Assets/Scripts/MessageProcessing.cs:119-126 | a stimulus is built exactly when all five numbers parse, and it holds tokens 2 and 3 as X and Y and tokens 4, 5 and 6 as size, duration and response window |
| MessageProcessing.FaultFreeSnoc | Assets/Scripts/MessageProcessing.cs:21-24 | one more outcome keeps the loop fault-free exactly when it is not a fault |
| MessageProcessing.ProgressTake | Assets/Scripts/MessageProcessing.cs:18-31 | a frame that takes the next message keeps the outcomes those of the oldest messages, one per frame |
| MessageProcessing.ProgressIdle | Assets/Scripts/MessageProcessing.cs:18-31 | a frame that finds the queue empty processes nothing |
| MessageProcessing.MessageLoop.constructor | Assets/Scripts/MessageProcessing.cs:12 | the loop starts with the queued messages and `Exited` false |
| MessageProcessing.MessageLoop.BeginProcessing | Assets/Scripts/MessageProcessing.cs:13-35 | each frame before shutdown takes at most one message in FIFO order and processes it; without a fault it processes min(frames, queued) messages and then sets `Exited`; a fault ends the loop with `Exited` unchanged |
| TcpServer.ReceivedPrefix | Assets/Scripts/TCPServer.cs:186-189 | reading one poll further stores what that poll stores |
| TcpServer.ReceivedSnoc | Assets/Scripts/TCPServer.cs:186-189 | one more poll adds at most one message, after the earlier ones |
| TcpServer.ReceivedAppend | Assets/Scripts/TCPServer.cs:163-194 | reading two series of polls stores the messages of the first, then those of the second |
| TcpServer.ReceivedIgnoresEmptyPolls | Assets/Scripts/TCPServer.cs:186 | zero-byte polls store nothing |
| TcpServer.Packets | Assets/Scripts/TCPServer.cs:306-307 | a series of writes reaches the client as one packet per write, in order and unchanged |
| TcpServer.AfterWrite | Assets/Scripts/TCPServer.cs:214-226 | a write reaches a live client only, never changes which client is current, and never starts a read loop that was not running |
| TcpServer.AfterWritesAppend | Assets/Scripts/TCPServer.cs:214-226 | writing one series and then another is writing their concatenation |
| TcpServer.AfterWritesEffect | Assets/Scripts/TCPServer.cs:214-313 | a series of writes reaches a live client in order and unchanged or sends nothing; a read loop survives only if the client was live; the connection is untouched |
| TcpServer.Server.Snapshot | Assets/Scripts/TCPServer.cs:64-70 | the snapshot is live exactly when the server is |
| TcpServer.Server.constructor | Assets/Scripts/TCPServer.cs:49-70 | a new server has an empty buffer, no client, no stream and no task |
| TcpServer.Server.StartListening | Assets/Scripts/TCPServer.cs:79-88 | a fresh listener cancellation source is installed; the accept loop starts, with reading hooked to connections, unless an earlier one still owns the port |
| TcpServer.Server.Accept | Assets/Scripts/TCPServer.cs:95-109 | the previous client is closed first, the new one becomes current and live with no stream, reading starts through the hook, and the loop ends if cancellation was requested |
| TcpServer.Server.StopListening | Assets/Scripts/TCPServer.cs:121-127 | nothing changes before listening started; afterwards the hook is removed, the client disconnected and the listener cancelled |
| TcpServer.Server.StartReading | Assets/Scripts/TCPServer.cs:154-160 | a fresh cancellation source and a running read loop |
| TcpServer.Server.StopReading | Assets/Scripts/TCPServer.cs:204-209 | cancellation is requested and reading stops; once requested a second call changes nothing; with no source the call fails and changes nothing |
| TcpServer.Server.ReadStep | Assets/Scripts/TCPServer.cs:163-193 | with no live client the loop ends and stores nothing; otherwise it takes the stream and stores a non-empty read as one ASCII string |
| TcpServer.Server.ReadLoop | Assets/Scripts/TCPServer.cs:160-198 | a live client's polls are stored one message per non-empty read, in order, and the stream becomes the current client's; otherwise nothing is stored, the stream is untouched and the loop ends; with no polls the reading flag is unchanged |
| TcpServer.Server.Write | Assets/Scripts/TCPServer.cs:214-226 | the bytes reach a live current client unchanged and nothing else is sent; a read loop keeps running exactly when it was running and the client is live |
| TcpServer.Server.WriteHandler | Assets/Scripts/TCPServer.cs:298-313 | a live client gets the stream and the bytes, and reading restarts when asked; otherwise nothing is written and reading is not restarted |
| TcpServer.Server.Disconnect | Assets/Scripts/TCPServer.cs:231-251 | afterwards there is no stream, no read loop and no live client; it is safe with no client, and a second call changes nothing |
| TcpServer.Server.Shutdown | Assets/Scripts/TCPServer.cs:256-266 | the server is disconnected, the reading hook removed, the listener cancelled if listening had started and the read cancelled if reading was on; each cancellation token is otherwise untouched, as are the accepting and listening-started flags |
| TcpServer.Server.TryDequeue | Assets/Scripts/TCPServer.cs:49 | the oldest message is taken when there is one, and the queue is unchanged otherwise |
| TcpServer.ConnectingTwoClientsClosesFirst | Assets/Tests/TCPServerTests.cs:98-133 | after a second client connects the first is closed and the second is live and being read |
| TcpServer.MessageWritesToNewestClient | Assets/Tests/TCPServerTests.cs:207-253 | after a second client connects a write reaches only the second client |
| TcpServer.PacketsTo | Assets/Tests/TCPServerTests.cs:207-253 | a client receives no more writes than were sent |
| TcpServer.StopListeningStopsReading | Assets/Tests/TCPServerTests.cs:329-366 | stopping listening after a connection ends the read loop and closes the client |
| TcpServer.CanReceiveMultipleMessages | Assets/Tests/TCPServerTests.cs:407-449 | two ASCII messages sent one after the other are dequeued in order and unchanged |
| TcpServer.CanReadMessageAfterWriting | Assets/Tests/TCPServerTests.cs:451-497 | a write leaves reading running: the reply is delivered and a later message is still received |
| ScreenDrawing.ToInt32 | Assets/Scripts/ScreenDrawing.cs:130 | the `(int)` cast keeps every value in range |
| ScreenDrawing.EncodeResponse | Assets/Scripts/ScreenDrawing.cs:209-213 | the reply is 5 bytes |
| ScreenDrawing.ResponseRoundTrip | Assets/Scripts/ScreenDrawing.cs:209-213 | decoding the reply as a bool byte and a little-endian int32 gives back the response |
| ScreenDrawing.EncodeResponseInjective | Assets/Scripts/ScreenDrawing.cs:209-213 | different responses have different replies |
| ScreenDrawing.Presses | Assets/Scripts/ScreenDrawing.cs:36-134 | key presses record at most one response per frame, all seen |
| ScreenDrawing.PressesPrefix | Assets/Scripts/ScreenDrawing.cs:36-45 | one frame further, a press in that frame is recorded after the earlier ones |
| ScreenDrawing.FirstRecorded | Assets/Scripts/ScreenDrawing.cs:200-206 | after the presses and the not-seen fallback, the first new response is the one the presentation reports |
| ScreenDrawing.PressesEmpty | Assets/Scripts/ScreenDrawing.cs:36-45 | no response is recorded if and only if no frame has a key down |
| ScreenDrawing.FirstResponseIsEarliest | Assets/Scripts/ScreenDrawing.cs:176-206 | the reported response is that of the earliest key press, timed from the start of the presentation |
| ScreenDrawing.Wrap32 | Assets/Scripts/ScreenDrawing.cs:172 | `int` subtraction keeps every difference in range |
| ScreenDrawing.TruncDiv | Assets/Scripts/ScreenDrawing.cs:172 | `int` division truncates toward zero: the remainder has the dividend's sign and is smaller than the divisor |
| ScreenDrawing.WaitAsWrittenWholeSeconds | Assets/Scripts/ScreenDrawing.cs:172-173 | the wait as written is never negative and always whole seconds |
| ScreenDrawing.WaitAsWrittenDropsSubSecondWait | Assets/Scripts/ScreenDrawing.cs:172-173 | a 200 ms stimulus with a 1000 ms window gets no wait as written, against 800 ms intended |
| ScreenDrawing.ResponseWaitCoversWindow | Assets/Scripts/ScreenDrawing.cs:172-173 | stimulus plus wait last the response window, or the stimulus alone when longer; for a non-negative duration the intended wait is at most 999 ms longer than the written one |
| ScreenDrawing.WaitAsWrittenNeverLonger | Assets/Scripts/ScreenDrawing.cs:172-173 | when `ResponseWindow - Duration` does not overflow `int`, the written wait is never longer than the intended one |
| ScreenDrawing.ClampLevel | Assets/Scripts/ScreenDrawing.cs:217-228 | the level lies in [0, 100]; in-range levels are unchanged, higher ones become 100 and lower ones 0 |
| ScreenDrawing.ClampLevelIdempotentMonotone | Assets/Scripts/ScreenDrawing.cs:217-228 | clamping twice is clamping once, and the clamp keeps the order of levels |
| ScreenDrawing.Drawing.constructor | Assets/Scripts/ScreenDrawing.cs:17-28 | no responses, no presentation and no listener |
| ScreenDrawing.Drawing.OnKeyPressed | Assets/Scripts/ScreenDrawing.cs:128-134 | a seen response timed from the start of the presentation is appended and nothing else changes |
| ScreenDrawing.Drawing.Update | Assets/Scripts/ScreenDrawing.cs:36-45 | a key press in the frame is recorded exactly when a listener is registered |
| ScreenDrawing.Drawing.Watch | Assets/Scripts/ScreenDrawing.cs:186-196 | the stimulus stays up for its duration, then the wait lasts until a response or the end of the wait; every press is recorded in frame order |
| ScreenDrawing.Drawing.PresentCoroutine | Assets/Scripts/ScreenDrawing.cs:172-213 | responses are only appended: the presses, then "not seen" exactly when there was none; the reply encodes `Responses[NumberOfResponses]`, the first response of this presentation; "not seen" comes only after the stimulus and the whole wait |
| ViveProEye.ToAlpha | Assets/Scripts/ViveProEye.cs:21-28 | the result is a number exactly when the maximum is not zero |
| ViveProEye.ToAlphaClamps | Assets/Scripts/ViveProEye.cs:24-27 | for any device with a positive maximum and minimum at most the maximum: in range the alpha is cd/Max, below the minimum Min/Max, above the maximum exactly 1, and always in [Min/Max, 1] |
| ViveProEye.ToAlphaRoundTrip | Assets/Scripts/ViveProEye.cs:27 | for any device with a positive maximum, an in-range luminance is recovered from its alpha |
| ViveProEye.ToAlphaMonotone | Assets/Scripts/ViveProEye.cs:24-27 | a brighter stimulus never gets a smaller alpha |
| ViveProEye.ToAlphaCrossedBounds | Assets/Scripts/ViveProEye.cs:24-25 | the maximum is applied last: with the bounds crossed every luminance is fully opaque |
| ViveProEye.DefaultAlphaRange | Assets/Scripts/ViveProEye.cs:9-27 | with the defaults 10 and 143 every alpha lies in [10/143, 1] |

## Left out

- Socket I/O and concurrency: `TcpListener`, task scheduling, locks and the race between the read task and `Write`'s continuation. Each public operation, each accepted connection and each pass of the read loop is one atomic step. A write that waits for the read task is modelled as done at once.
- The throwaway socket that unblocks the accept loop in `StopListening`: network I/O.
- `IsConnected`'s `Poll`/`Peek` probe is the `connected` input of `InputProcessing.Update`.
- The server's UnityEvents other than the `StartReading` hook, and all logging: test instrumentation and diagnostics.
- The parsers `Conversions.ToAlpha/ToEye`, `FixationPoint.CreateFixationPoint`, `StaticStimulus.CreateStaticStimulus`, `int.Parse` and `double.Parse` are parameters of the handlers rather than written out: the handlers' properties hold for any parser, and the parsers' number formats, Unity colour names and culture rules are outside this model. `Conversions.ToColor` is written out because its length rule decides the handlers' replies.
- InputProcessing.Update: scheduling the background, presenting and shutting down are returned as effects rather than performed. Their code is in `MainExecution` and `ScreenDrawing`, outside this layer.
- InputProcessing.Update and MessageProcessing.MessageLoop.BeginProcessing: messages enqueued by the read task while a pass runs are not modelled; the queue is the one seen at the start.
- MessageProcessing.MessageLoop.BeginProcessing: the `TryDequeue` failure branch is not modelled. It cannot happen with the single consumer the loop assumes.
- MessageProcessing: `OPI_CLOSE` is the outcome `RunShutdown`. The called member is a private iterator of `MainExecution`, so calling it would not run it. `OPI_MONO_PRESENT` assigns parsed doubles to the `int` duration fields. The stimulus therefore keeps the parsed reals, and passing it on is the `PresentMono` outcome.
- Float time: `Time.time`, `WaitForSeconds` and the float `secondsToWait` are whole milliseconds. Floating-point rounding, NaN and infinities are not modelled, except that a division by a zero maximum in `ToAlpha` is `None`.
- ScreenDrawing.Drawing.PresentCoroutine: the rendering steps are not modelled. These are finding the stimulus and fixation objects (and the early exit when they are missing), eye, level, position, colour and size. The call to `Server.Write` is the `reply` result.
- ScreenDrawing.Drawing.PresentCoroutine: it waits `ResponseWait`, the corrected wait, not the truncated one. See "Findings".
- ScreenDrawing.Drawing.PresentCoroutine: it requires a clock that never runs backwards. Unity's frame time does not decrease.
- `ViveProEye.ToVector` and the resolution properties: a cast and constants with no logic.
- `SocketServer`, `PresentationControl`, `UnityOPI` and `MainExecution` are not part of this model: callback plumbing, rendering and lifecycle glue.

## Findings

| source | as written | input that shows it | evidently intended | confidence | as-written member | corrected member |
|---|---|---|---|---|---|---|
| Assets/Scripts/ScreenDrawing.cs:172-173 | `(stimulus.ResponseWindow - stimulus.Duration)/1000` divides two `int`s. The wait after the stimulus is truncated to whole seconds before it becomes a float. | Duration 200 ms and ResponseWindow 1000 ms give a wait of 0 s instead of 0.8 s. | The wait is the rest of the response window, (ResponseWindow − Duration)/1000.0 seconds, clamped at 0. | not executed; high (both fields are `int` in StaticStimulus.cs) | ScreenDrawing.WaitAsWrittenDropsSubSecondWait | ScreenDrawing.ResponseWaitCoversWindow |
| Assets/Scripts/OPI Definitions/Units.cs:95-126 | `ToColor` accepts one string or three, but `OPI_SET_BGROUND` and `OPI_PRESENT` pass it four (InputProcessing.cs line 101 and StaticStimulus.cs line 69), so the colour never converts. | Any `OPI_SET_BGROUND` with 16 parameters replies false; any `OPI_PRESENT` with 11 writes the error reply. | A colour given as four strings (a name and three RGB values, as the parameter layout documents) converts, so valid requests set the background and present the stimulus. | not executed; high (the length test and the copy into a four-element array are both in the code) | InputProcessing.ColorAsWrittenRejectsEveryRequest | InputProcessing.ConvertibleArgumentsAccepted |
