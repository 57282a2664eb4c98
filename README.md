# SKKServ client core in Dafny

A model of the protocol core of a small command-line client for SKKServ. SKKServ is the
line-oriented TCP protocol of SKK Japanese dictionary servers. The client sends
single-byte-tagged requests and reads LF-terminated responses. The model covers three parts:

- **Request encoder** (`Requests`, from `Sources/SKKServRequest.swift`). The four requests
  `end`, `request(key)`, `version` and `host`, and their wire bytes: the tag `'0'` to `'3'`,
  the key for a lookup, then space and LF.
- **Response framer** (`Protocol`, from `Sources/SKKServProtocol.swift`). The framer instance
  is a class. It holds the unconsumed input bytes, the messages delivered to the connection,
  and the bytes written out. `HandleInput` is the source's `while true` loop. Each round it
  parses without consuming anything (`ParseInput`). Then it delivers the bytes before the
  first LF and consumes them together with the LF (`DeliverInputNoCopy`). `HandleOutput`
  writes a message's request bytes. The pure function `Frame` specifies the loop. Lemmas
  about it cover no lost or duplicated bytes, one response per LF in order, and
  independence from how the input is fragmented.
- **Client** (`Client`, from `Sources/Client.swift`). `connect`'s state handler is a mapping
  from one notification to the result it resumes with. `Connect` folds it over the
  notifications, so the first terminal notification decides the attempt. `run` is a loop
  over input lines: one lookup request sent, then one response received, per line. The
  transport's answers are parameters.

The transport is Network.framework's `parseInput`/`deliverInputNoCopy`. The model reduces
it to a buffer with two operations: peek at a window of bytes, and consume n bytes. It keeps
the two parse limits the source passes:

- The closure is not run while fewer than `minimumIncompleteLength` (4) bytes are buffered.
- The closure sees at most `maximumLength` (1024 * 1024) bytes.

Behaviour of the code that the model keeps as written:

- The encoder checks nothing and encodes any key, space and LF included. A key with an LF
  makes the request's first LF fall inside the key (`RequestLineBroken`).
- Lines are read with `strippingNewline: false`, so the key keeps its newline. The wire
  bytes for the line `aiueo` are `'1' "aiueo" LF ' ' LF` (`LineRequestTwoLines`).
- Every input line is sent as a lookup. No line becomes `end`, `version` or `host`.
- Because of the 4-byte parse minimum, `'a' LF 'b' LF 'c'` delivers `'a'` and holds
  `'b' LF 'c'` until more input arrives (`FrameExampleBelowMinimum`). A lone LF is held
  in the same way (`FrameExampleLoneLF`). An empty line within a longer buffer is
  delivered as an empty response (`FrameExampleEmptyResponse`).

## Model

| member | source | states |
|---|---|---|
| `Requests.Data` | Sources/SKKServRequest.swift:14-31 | Total for every key. The encoding is 3 bytes long, plus the key length for a lookup. It starts with one tag byte in '0'..'3' and ends with space, LF. For a lookup, the bytes between tag and trailer are exactly the key. |
| `Requests.WireTable` | Sources/SKKServRequest.swift:19-29 | end is 30 20 0A, version is 32 20 0A, host is 33 20 0A, and a lookup is 31, the key, 20 0A. |
| `Requests.TagOfData` | Sources/SKKServRequest.swift:19-29 | The tag byte identifies the kind of request, in both directions, for each of the four tags. |
| `Requests.Parse` | Sources/SKKServRequest.swift:18-30 | A reader of the request table. It accepts only byte strings that are the encoding of the request it returns. |
| `Requests.ParseData` | Sources/SKKServRequest.swift:18-30 | Parse recovers every request from its encoding, including the key of a lookup. |
| `Requests.DataInjective` | Sources/SKKServRequest.swift:21-25 | Two requests with equal encodings are equal. |
| `Protocol.FirstLF` | Sources/SKKServProtocol.swift:22 | The index found holds an LF with no LF before it. No index is found exactly when the bytes contain no LF. |
| `Protocol.FirstLFAt` | Sources/SKKServProtocol.swift:22 | An LF with no earlier LF is the one the search finds. |
| `Protocol.FirstIndexOfLF` | Sources/SKKServProtocol.swift:22 | The left-to-right scan returns the first LF's index, or none when there is no LF. |
| `Protocol.ReceivedFound` | Sources/SKKServProtocol.swift:20-27 | A found response followed by LF is a prefix of the buffer. It contains no LF and is shorter than 1024 * 1024 bytes. |
| `Protocol.ReceivedNone` | Sources/SKKServProtocol.swift:20-32 | A parse finds nothing exactly when the buffer has fewer than 4 bytes or no LF in its first 1024 * 1024 bytes. |
| `Protocol.ReceivedExtends` | Sources/SKKServProtocol.swift:20-27 | Once a parse finds a response, appending bytes does not change what it finds. |
| `Protocol.Frame` | Sources/SKKServProtocol.swift:17-36 | The loop stops only on a buffer where a parse finds nothing. The retained remainder is never longer than the input. |
| `Protocol.FrameResponses` | Sources/SKKServProtocol.swift:20-26 | Every delivered response is LF-free and shorter than 1,048,576 bytes. |
| `Protocol.FrameConserves` | Sources/SKKServProtocol.swift:22-34 | The delivered responses, each followed by LF, then the remainder, are exactly the input. |
| `Protocol.FrameCountsLF` | Sources/SKKServProtocol.swift:18-35 | The LFs of the input are one per delivered response plus those still in the remainder. |
| `Protocol.FrameWithoutLF` | Sources/SKKServProtocol.swift:22-32 | A buffer without an LF delivers nothing and keeps every byte. |
| `Protocol.FrameAppend` | Sources/SKKServProtocol.swift:17-36 | Framing a + b at once equals framing a, then framing a's remainder followed by b. The responses come in the same order. |
| `Protocol.FrameAppendFound` | Sources/SKKServProtocol.swift:17-36 | The case of FrameAppend where a parse of a finds a response. |
| `Protocol.FrameExampleOneLine` | Sources/SKKServProtocol.swift:17-36 | "abc" LF delivers the response "abc" and leaves nothing. |
| `Protocol.FrameExampleFragments` | Sources/SKKServProtocol.swift:17-36 | "ab" alone delivers nothing and keeps both bytes. Adding "c" LF delivers "abc". |
| `Protocol.FrameExampleBelowMinimum` | Sources/SKKServProtocol.swift:17-36 | "a" LF "b" LF "c" delivers "a" and holds "b" LF "c", which is below the 4-byte parse minimum. |
| `Protocol.FrameExampleLoneLF` | Sources/SKKServProtocol.swift:17-36 | A buffer holding only LF is below the 4-byte parse minimum: nothing is delivered and the LF is kept. |
| `Protocol.FrameExampleEmptyResponse` | Sources/SKKServProtocol.swift:17-36 | LF "abc" delivers one empty response and holds "abc". |
| `Protocol.RequestLine` | Sources/SKKServRequest.swift:21-25 | With an LF-free key, the first LF of a lookup request is its final byte. A server reads one line: '1', the key, ' '. |
| `Protocol.RequestLineBroken` | Sources/SKKServRequest.swift:21-25 | The encoder does not reject a key containing an LF. The request's first LF is then the key's first LF. |
| `Protocol.SKKServProtocol.constructor` | Sources/SKKServProtocol.swift:11 | A new framer has an empty buffer and has delivered and written nothing. |
| `Protocol.SKKServProtocol.ParseInput` | Sources/SKKServProtocol.swift:20-29 | Yields exactly `Received` of the buffer. It has no modifies clause, so the parse consumes 0 bytes. |
| `Protocol.SKKServProtocol.DeliverInputNoCopy` | Sources/SKKServProtocol.swift:33-34 | Consumes exactly `length` bytes and appends the message to the delivered messages. |
| `Protocol.SKKServProtocol.HandleInput` | Sources/SKKServProtocol.swift:17-36 | Returns 0. The new buffer is `Frame`'s remainder. The delivered messages gain one response message per framed response, in order. Nothing is written. |
| `Protocol.SKKServProtocol.HandleOutput` | Sources/SKKServProtocol.swift:38-43 | For a message that carries a request, appends exactly the request's encoding to the output. Input and deliveries are unchanged. |
| `Protocol.ReceiveChunks` | Sources/SKKServProtocol.swift:17-36 | Input arrives in chunks and the framer runs after each. It delivers what the concatenated input delivers at once and keeps the same remainder. |
| `Client.OnStateUpdate` | Sources/Client.swift:55-73 | Only .ready, .failed and .cancelled resume the attempt. The result is the connection exactly for .ready. |
| `Client.Connect` | Sources/Client.swift:52-77 | Undecided exactly when no notification is terminal. Otherwise the outcome is the handler's result for the first terminal notification. |
| `Client.ConnectFirstTerminal` | Sources/Client.swift:54-74 | The first terminal notification determines the outcome. |
| `Client.ConnectOutcomes` | Sources/Client.swift:56-70 | The outcome is the connection exactly when the first terminal notification is .ready. .failed(e) throws e. The outcome is nil exactly when it is .cancelled. |
| `Client.ConnectLater` | Sources/Client.swift:56-70 | Notifications after the deciding one do not change the outcome the attempt resumes with. Setup, preparing and waiting before it are ignored. A later .failed or .cancelled would resume the continuation a second time, which traps in Swift; the model does not capture that trap. |
| `Client.ReceiveResult` | Sources/Client.swift:37-47 | Throws exactly when the completion reports an error, and throws that error. Yields response bytes exactly when there is no error and the protocol metadata holds a response message, and the bytes are that message's response. |
| `Client.ReceiveDelivered` | Sources/Client.swift:41-42 | A message the framer delivered reaches the client as exactly the framed response bytes. |
| `Client.Failure` | Sources/Client.swift:27-40 | An iteration fails with the send error when the send reports one. Otherwise it fails exactly with the receive error, if any. |
| `Client.Session` | Sources/Client.swift:21-49 | Line i meets exchange i, in input order. Each completed iteration sent a lookup of line i as read, never end/version/host, and then received exactly one result. The loop ends normally exactly when every line is done, and never fatally. A thrown error is the failure of the first exchange that failed. |
| `Client.Run` | Sources/Client.swift:13-50 | The loop gives exactly RunResult. A thrown connect is rethrown. A nil connection is the fatal error "Cancelled". Otherwise it runs the session. |
| `Client.LineRequestTwoLines` | Sources/Client.swift:22-25 | Take a line that ends in its newline and has no other LF. The lookup's first LF is the line's newline, followed only by ' ' LF. A server therefore reads two lines. |

## Left out

- The transport (Network.framework) is not modelled. Bytes arriving become `SKKServProtocol.Receive`. The results of `send` and `receiveMessage` for each line are the parameter `exchanges` of `Run`. Its one-exchange-per-line precondition only sizes that parameter.
- The `isComplete` flag of the parse closure and end-of-stream delivery: the source ignores the flag, and the framework's final-delivery rules are not visible.
- `start`, `wakeup`, `stop` and `cleanup` of the framer: they return constants and hold no logic.
- The space terminator of version and host replies: the source only has a TODO for it and always frames on LF.
- The same-message semantics of `NWProtocolFramer.Message`: the model's `Message` holds only the optional request and the optional response that the source reads and writes.
- Async continuations: `Connect` takes the first terminal notification. A second resume, which traps in Swift, is not modelled. An attempt that never resumes leaves `Connect` undecided. `Run` takes the awaited result as input, so it does not model waiting forever.
- `HandleOutput`: the `fatalError("request is not set")` path for a message without a request is a precondition. A fatal error stops the process, which the model does not represent.
- The `@unknown default` fatal error of the state switch: the model's notification type is closed.
- String handling: input lines are given as bytes. Their UTF-8 encoding and its "Fail to encode string" fatal path are library code.
- Response decoding: the source only prints the count of the received bytes and decodes nothing.
- All console output (`print`, `printErr`).
- Argument parsing, the default port 1178 and the "Invalid port" check.
- `NWParameters+SKKServ.swift` and `NSParameters+SKKServ.swift`: protocol-stack configuration and the 5-second connect timeout. `Package.swift`: build manifest.
- The unused `var data = Data()` in `run`.
