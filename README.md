# NanoHTTPlib HTTP/1.1 engine in Dafny

A Dafny model of the protocol engine of NanoHTTPlib, a small embeddable
HTTP/1.1 server written in Java. The model covers the classes nested in
`NanoHTTPserver`:

- the server itself: run state, listen socket, registry of connection workers,
  request counters, handler list and the `serve` dispatcher;
- `httpServerWorker`: the keep-alive loop of one connection;
- `httpServerRequest`: the request line of section 3.1.1 of RFC 7230, the
  split of the target at `?`, the query pairs, and the `Name: value` header
  lines of section 3.2 of RFC 7230;
- `httpServerResponse`: the status line, the header fields, Content-Length or
  chunked framing, and the body copy loop;
- `httpResponseException`;
- `httpBasicAuth`: the account store of the Basic scheme of RFC 7617.

The repository holds two copies of this code.

- The current copy is `core/src/main/java/com/poixson/nanosocket/NanoHTTPserver.java`.
  The table below cites it.
- The older copy is `core/src/main/java/com/poixson/NanoHTTPlib/NanoHTTPserver.java`.
  It holds the same exception, worker, request and response code 233 lines
  earlier: exception at 160-185, worker at 195-320, request at 324-458,
  response at 467-634.
- The older copy adds a socket registry (`registerConnection`,
  `unRegisterConnection`, `closeAllConnections`). That registry is cited from
  the older file.

Modules, one file each:

| file | module | what it holds |
|---|---|---|
| `common.dfy` | `Common` | `Option` (Java's null), decimal rendering, UTF-8 encoding, and the key/value store a loop of `Properties.put` calls builds |
| `text.dfy` | `Text` | `String.trim`, `toLowerCase`, `indexOf` and `StringTokenizer` |
| `percent.dfy` | `Percent` | `URLDecoder.decode`, with an encoder as its partner |
| `protocol.dfy` | `Protocol` | methods, statuses, MIME types, `httpResponseException`, and the failures a read or parse can raise |
| `request.dfy` | `Requests` | the request parser as a class reading lines (`LineReader`), with methods proved against the functions `TargetOf`, `HeaderLoop` and `ParseSpec` |
| `request_format.dfy` | `RequestFormat` | the request a client writes, and the proof that parsing it gives it back |
| `response.dfy` | `Responses` | the body stream and response classes, and `send` proved against `WireOf` |
| `auth.dfy` | `Auth` | the `httpBasicAuth` class |
| `server.dfy` | `Server` | the server and worker classes, with the worker loop proved against `RunSpec` |

## Behaviour of the code worth knowing

The model captures each of these behaviours.

- **End of input.** A connection whose input is at its end does not end the
  keep-alive loop.
  - `readLine` returns null, and the constructor returns an empty request
    with no method and no URI.
  - That request is dispatched, counted and answered like any other.
  - The loop stops only when the socket is closed or `serve` fails
    (`Server.EndOfStreamKeepsServing`).
- **Malformed request line.** No 400 is sent for it.
  - The constructor throws before `request` is assigned.
  - `getResponse(null)` returns null, and the connection closes without an
    answer (`Server.SilentRun`).
- **`+` in the path.** The path is decoded by the same `URLDecoder` as the
  query, so `+` in the path becomes a space (`Percent.DecodeWithoutEscapes`).
- **Chunked responses carry no body bytes.** Neither chunks nor the final
  zero-length chunk are written. The byte count stays -1 on the chunked
  branch, so the copy code never runs (`Responses.NoBodyWithoutLength`).
- **Short body stream.** When the stream holds fewer bytes than
  `available()` announced, the fixed-length copy stops silently. The body is
  then shorter than the Content-Length (`Responses.CopyBody`).
- **Error answers say keep-alive.** The 500, or the answer of an
  `httpResponseException`, announces `Connection: keep-alive`, but the worker
  closes the connection right after it (`Server.ErrorAnswer`). The base
  `serve` catches every exception a handler throws and never returns null,
  so these answers arise only when a subclass overrides `serve`, as the
  class comment invites.
- **Already-chunked responses.** A response that a handler returns with the
  chunked flag already set is counted, answered after the loop, and then the
  connection closes.
- **`close()` closes only one registered worker.**
  - That worker's `close` removes it from the set being iterated.
  - The next step of the iteration throws, and `close()` swallows the
    exception (`Server.Server.CloseConnections`).
- **A second listener closes the server.** When `runListenerLoop` finds the
  server already running, its early `return` still passes through the
  `finally` block. That block clears `running` and calls `stop()`
  (`Server.Server.BeginListening`, then `Server.Server.EndListening`).
- **No restart.** `stopping` is never reset. After a close, `start` creates
  a new listen socket, and then `thread.start()` throws
  `IllegalThreadStateException`, because the listener thread is a final
  field that was already started. No listener runs again; `isRunning`
  stays false, and `Accept` refuses every connection.

## Model

| member | source | states |
|---|---|---|
| `Text.TrimStart` | core/src/main/java/com/poixson/nanosocket/NanoHTTPserver.java:609 | the result is a suffix of the input; it is empty or starts with a character above U+0020 |
| `Text.TrimStartDrops` | core/src/main/java/com/poixson/nanosocket/NanoHTTPserver.java:609 | every character trimmed from the front is at most U+0020 |
| `Text.TrimEnd` | core/src/main/java/com/poixson/nanosocket/NanoHTTPserver.java:609 | the result is a prefix of the input; it is empty or ends with a character above U+0020 |
| `Text.TrimEndDrops` | core/src/main/java/com/poixson/nanosocket/NanoHTTPserver.java:609 | every character trimmed from the back is at most U+0020 |
| `Text.Trim` | core/src/main/java/com/poixson/nanosocket/NanoHTTPserver.java:613-614 | the trimmed name or value is no longer than the text, and neither of its ends is a character at most U+0020 |
| `Text.TrimEmptyIff` | core/src/main/java/com/poixson/nanosocket/NanoHTTPserver.java:609 | a line trims to the empty string exactly when all its characters are at most U+0020 |
| `Text.BlankAll` | core/src/main/java/com/poixson/nanosocket/NanoHTTPserver.java:609 | a line is blank exactly when all its characters are at most U+0020 |
| `Text.TrimBlank` | core/src/main/java/com/poixson/nanosocket/NanoHTTPserver.java:609 | the header loop's test `trim().length() > 0` holds exactly for a line that is not blank |
| `Text.TrimUnchanged` | core/src/main/java/com/poixson/nanosocket/NanoHTTPserver.java:613-614 | text with no padding at either end trims to itself |
| `Text.TrimPadded` | core/src/main/java/com/poixson/nanosocket/NanoHTTPserver.java:613-614 | padding of characters at most U+0020 around unpadded text is removed exactly |
| `Text.TrimStartPadded` | core/src/main/java/com/poixson/nanosocket/NanoHTTPserver.java:613-614 | leading padding before unpadded text is removed exactly |
| `Text.TrimEndPadded` | core/src/main/java/com/poixson/nanosocket/NanoHTTPserver.java:613-614 | trailing padding after unpadded text is removed exactly |
| `Text.LowerChar` | core/src/main/java/com/poixson/nanosocket/NanoHTTPserver.java:613 | the result is never an upper-case ASCII letter; it is either the character itself or that letter moved 32 code points down |
| `Text.Lower` | core/src/main/java/com/poixson/nanosocket/NanoHTTPserver.java:613 | lower-casing a header name keeps its length |
| `Text.LowerAt` | core/src/main/java/com/poixson/nanosocket/NanoHTTPserver.java:613 | lower-casing works character by character |
| `Text.LowerProperties` | core/src/main/java/com/poixson/nanosocket/NanoHTTPserver.java:613 | no upper-case ASCII letter is left; a name without one is unchanged; lower-casing twice is lower-casing once |
| `Text.IndexOf` | core/src/main/java/com/poixson/nanosocket/NanoHTTPserver.java:610 | the result is -1 or an index that holds the character |
| `Text.IndexOfFound` | core/src/main/java/com/poixson/nanosocket/NanoHTTPserver.java:610 | the index is non-negative exactly when the character occurs |
| `Text.IndexOfFirst` | core/src/main/java/com/poixson/nanosocket/NanoHTTPserver.java:595 | no earlier position holds the character |
| `Text.IndexOfSplit` | core/src/main/java/com/poixson/nanosocket/NanoHTTPserver.java:595 | after a prefix free of the character, the character is found at the prefix's length |
| `Text.Span` | core/src/main/java/com/poixson/nanosocket/NanoHTTPserver.java:580 | the leading run of non-delimiters is no longer than the text |
| `Text.SpanStops` | core/src/main/java/com/poixson/nanosocket/NanoHTTPserver.java:580 | the run holds no delimiter and stops at a delimiter or at the end |
| `Text.Tokens` | core/src/main/java/com/poixson/nanosocket/NanoHTTPserver.java:580 | there are no more tokens than characters |
| `Text.TokensShape` | core/src/main/java/com/poixson/nanosocket/NanoHTTPserver.java:580-593 | every token is non-empty and holds no delimiter; non-empty text without delimiters is its own single token |
| `Text.TokensCons` | core/src/main/java/com/poixson/nanosocket/NanoHTTPserver.java:654-656 | a token followed by a delimiter is split off first, and tokenising goes on after the delimiter |
| `Text.SpanOf` | core/src/main/java/com/poixson/nanosocket/NanoHTTPserver.java:580 | the run in front of a delimiter is exactly the delimiter-free prefix |
| `Text.TokensJoin` | core/src/main/java/com/poixson/nanosocket/NanoHTTPserver.java:580-593 | non-empty, delimiter-free tokens joined with a delimiter tokenise back to the same tokens |
| `Percent.HexValue` | core/src/main/java/com/poixson/nanosocket/NanoHTTPserver.java:682-688 | a hex digit has a value below 16 |
| `Percent.Decode` | core/src/main/java/com/poixson/nanosocket/NanoHTTPserver.java:682-688 | a decoded string is never longer than its encoding; a malformed escape gives None (the decoder throws) |
| `Percent.DecodePlain` | core/src/main/java/com/poixson/nanosocket/NanoHTTPserver.java:682-688 | text without `%` and `+` decodes to itself |
| `Percent.DecodeWithoutEscapes` | core/src/main/java/com/poixson/nanosocket/NanoHTTPserver.java:682-688 | text without `%` never makes the decoder throw; its length is kept and each `+` becomes a space |
| `Percent.HexDigit` | core/src/main/java/com/poixson/nanosocket/NanoHTTPserver.java:682-688 | the hex digit written for a value below 16 reads back as that value |
| `Percent.Encode` | core/src/main/java/com/poixson/nanosocket/NanoHTTPserver.java:682-688 | non-empty text encodes to non-empty text |
| `Percent.DecodeEncode` | core/src/main/java/com/poixson/nanosocket/NanoHTTPserver.java:682-688 | decoding the encoding of any ASCII string gives the string back |
| `Percent.DecodeEncodedHead` | core/src/main/java/com/poixson/nanosocket/NanoHTTPserver.java:682-688 | an encoded ASCII character in front decodes to that character in front of the rest's decoding |
| `Percent.EncodeAlphabet` | core/src/main/java/com/poixson/nanosocket/NanoHTTPserver.java:595-601 | an encoding holds only unreserved characters, `+` and `%` |
| `Percent.EncodedCharIsNoDelimiter` | core/src/main/java/com/poixson/nanosocket/NanoHTTPserver.java:595-601 | an encoded character is never whitespace, `&`, `=`, `?` or `:` |
| `Common.DigitChar` | core/src/main/java/com/poixson/nanosocket/NanoHTTPserver.java:793 | the character written for a digit below 10 is a decimal digit with that value |
| `Common.Decimal` | core/src/main/java/com/poixson/nanosocket/NanoHTTPserver.java:793 | `Integer.toString` of a length writes at least one decimal digit and no leading zero |
| `Common.DecimalRoundTrip` | core/src/main/java/com/poixson/nanosocket/NanoHTTPserver.java:793 | the written Content-Length reads back as the length |
| `Common.DecimalInjective` | core/src/main/java/com/poixson/nanosocket/NanoHTTPserver.java:793 | two lengths written the same are the same length |
| `Common.Utf8Char` | core/src/main/java/com/poixson/nanosocket/NanoHTTPserver.java:734-736 | one character takes one to four bytes, and one byte exactly for ASCII, where the byte is its code |
| `Common.Utf8` | core/src/main/java/com/poixson/nanosocket/NanoHTTPserver.java:734-736 | a message takes at least one byte per character |
| `Common.Utf8Ascii` | core/src/main/java/com/poixson/nanosocket/NanoHTTPserver.java:734-736 | an ASCII message is encoded as one byte per character, each byte the character's code |
| `Common.OverlayLastWins` | core/src/main/java/com/poixson/nanosocket/NanoHTTPserver.java:659-667 | with `put` called in a loop, the last pair for a key decides its value |
| `Common.OverlayUntouched` | core/src/main/java/com/poixson/nanosocket/NanoHTTPserver.java:659-667 | a key that no pair mentions keeps what the store held before |
| `Common.OverlayKeys` | core/src/main/java/com/poixson/nanosocket/NanoHTTPserver.java:659-667 | the keys afterwards are the keys before plus the keys of the pairs |
| `Common.OverlayCollectLastWins` | core/src/main/java/com/poixson/nanosocket/NanoHTTPserver.java:610-615 | the last item that yields a key decides its value; items that yield nothing are skipped |
| `Common.OverlayCollectFrom` | core/src/main/java/com/poixson/nanosocket/NanoHTTPserver.java:610-615 | every stored key was there before or was yielded by some item |
| `Common.OverlayCollectUntouched` | core/src/main/java/com/poixson/nanosocket/NanoHTTPserver.java:655-668 | a key that no item yields keeps what the store held before |
| `Common.CollectAllSome` | core/src/main/java/com/poixson/nanosocket/NanoHTTPserver.java:655-668 | when every item yields a pair, the pairs are collected one per item, in order |
| `Common.PutEachOverlay` | core/src/main/java/com/poixson/nanosocket/NanoHTTPserver.java:655-668 | a put loop that stops at the first item that throws gives None exactly when some item throws; otherwise every pair is put in order |
| `Common.PutAllOverlay` | core/src/main/java/com/poixson/nanosocket/NanoHTTPserver.java:609-617 | a put loop that skips items without a pair stores the same as putting all the collected pairs in order |
| `Common.CollectYields` | core/src/main/java/com/poixson/nanosocket/NanoHTTPserver.java:655-668 | items that each yield a given pair collect to exactly those pairs |
| `Common.PutEachYields` | core/src/main/java/com/poixson/nanosocket/NanoHTTPserver.java:655-668 | items that each yield a given pair make the loop succeed, with those pairs put in order |
| `Protocol.LookupMethod` | core/src/main/java/com/poixson/nanosocket/NanoHTTPserver.java:636-641 | a method is found exactly when the token is a method's name, and the name of the method found is the token |
| `Protocol.ExceptionStatus` | core/src/main/java/com/poixson/nanosocket/NanoHTTPserver.java:396-411 | without an explicit status an `httpResponseException` carries INTERNAL_ERROR, with one it carries that status, and the message is kept; `ResponseError` and `ResponseErrorWith` model the constructors |
| `Protocol.LookupName` | core/src/main/java/com/poixson/nanosocket/NanoHTTPserver.java:640 | every method's name looks up to that method |
| `Requests.GetMethod` | core/src/main/java/com/poixson/nanosocket/NanoHTTPserver.java:636-641 | null without a stored token; otherwise a method exactly when the token names one, and its name is the token |
| `Requests.LineReader.constructor` | core/src/main/java/com/poixson/nanosocket/NanoHTTPserver.java:571 | the reader holds the connection's events |
| `Requests.LineReader.ReadLine` | core/src/main/java/com/poixson/nanosocket/NanoHTTPserver.java:577-578 | a read yields the next line, a timeout or an I/O failure; past the end it yields null forever; one event is consumed |
| `Requests.DecodeQuery` | core/src/main/java/com/poixson/nanosocket/NanoHTTPserver.java:652-676 | a null argument leaves the store as it was; otherwise the `&` pieces are decoded and put in order, and the first malformed escape ends it with None |
| `Requests.QueryOfAll` | core/src/main/java/com/poixson/nanosocket/NanoHTTPserver.java:652-676 | the query store is None exactly when some piece fails to decode; otherwise it is every decoded pair put in order |
| `Requests.QueryFailsIff` | core/src/main/java/com/poixson/nanosocket/NanoHTTPserver.java:652-676 | decoding the query fails exactly when one of its pieces holds a malformed escape |
| `Requests.QueryLastWins` | core/src/main/java/com/poixson/nanosocket/NanoHTTPserver.java:655-668 | a key's value comes from the last piece that names it; a piece without `=` maps its key to "" |
| `Requests.QueryUntouched` | core/src/main/java/com/poixson/nanosocket/NanoHTTPserver.java:655-668 | a key that no piece names keeps what the store held |
| `Requests.TargetSplit` | core/src/main/java/com/poixson/nanosocket/NanoHTTPserver.java:593-602 | without `?` the whole target is the decoded path and the query is empty; with `?` the split is at the first one, the path holds no `?`, and both halves must decode |
| `Requests.ReadTarget` | core/src/main/java/com/poixson/nanosocket/NanoHTTPserver.java:595-601 | the method computes the target's split and decoding as `TargetOf` defines it |
| `Requests.ReadSplitTarget` | core/src/main/java/com/poixson/nanosocket/NanoHTTPserver.java:596-598 | the query is decoded first and then the path; a failure of either gives None |
| `Requests.HeaderFieldOf` | core/src/main/java/com/poixson/nanosocket/NanoHTTPserver.java:610-615 | a line yields a field exactly when it holds `:`; the field is the trimmed, lower-cased name and the trimmed value |
| `Requests.HeadersLastWins` | core/src/main/java/com/poixson/nanosocket/NanoHTTPserver.java:606-617 | the last line that names a header decides its value |
| `Requests.HeadersFromLines` | core/src/main/java/com/poixson/nanosocket/NanoHTTPserver.java:606-617 | every stored header comes from a line with that name |
| `Requests.HeaderRun` | core/src/main/java/com/poixson/nanosocket/NanoHTTPserver.java:608-609 | the header run is the longest prefix of non-blank lines; what follows it is not a non-blank line |
| `Requests.HeaderRunAt` | core/src/main/java/com/poixson/nanosocket/NanoHTTPserver.java:608-617 | any prefix of non-blank lines that is followed by something else is the header run |
| `Requests.HeaderLoop` | core/src/main/java/com/poixson/nanosocket/NanoHTTPserver.java:607-617 | the header loop never consumes more events than there are |
| `Requests.HeaderLoopRun` | core/src/main/java/com/poixson/nanosocket/NanoHTTPserver.java:607-617 | the loop puts the fields of the header run. A blank line ends it and is consumed; the end of input ends it; a timeout or I/O failure ends the parse with that exception |
| `Requests.HeaderLoopStep` | core/src/main/java/com/poixson/nanosocket/NanoHTTPserver.java:609-616 | one non-blank line is read and its field put, and the loop goes on from the next event |
| `Requests.HeaderLoopPhase` | core/src/main/java/com/poixson/nanosocket/NanoHTTPserver.java:607-617 | the loop started from the empty store stores the header run's fields, last value winning |
| `Requests.ReadHeaders` | core/src/main/java/com/poixson/nanosocket/NanoHTTPserver.java:607-617 | the method's outcome, and the events it consumes, are those of the header loop |
| `Requests.PutHeader` | core/src/main/java/com/poixson/nanosocket/NanoHTTPserver.java:610-615 | a line with `:` puts its field; any other line leaves the store unchanged |
| `Requests.IsHeaderLine` | core/src/main/java/com/poixson/nanosocket/NanoHTTPserver.java:609 | the loop goes on exactly when a line was read and it is not blank |
| `Requests.HeaderLinesRead` | core/src/main/java/com/poixson/nanosocket/NanoHTTPserver.java:608-617 | the non-blank lines before the stop are the header run, and their texts are those lines |
| `Requests.ReadRequestLine` | core/src/main/java/com/poixson/nanosocket/NanoHTTPserver.java:580-602 | the method's outcome is the request line's outcome as `RequestLineOf` defines it |
| `Requests.ParseSpec` | core/src/main/java/com/poixson/nanosocket/NanoHTTPserver.java:570-629 | the constructor consumes at most the events there are, and nothing exactly when the input is already at its end |
| `Requests.ParseFrom` | core/src/main/java/com/poixson/nanosocket/NanoHTTPserver.java:603-618 | after the request line, one event plus at most the rest is consumed |
| `Requests.ParseRequest` | core/src/main/java/com/poixson/nanosocket/NanoHTTPserver.java:570-629 | the constructor's outcome, and the lines it reads, are those of `ParseSpec` |
| `Requests.ParseAtEnd` | core/src/main/java/com/poixson/nanosocket/NanoHTTPserver.java:577-578 | at the end of input the request is the empty one, whose method is null, and nothing is consumed |
| `Requests.RequestLineCases` | core/src/main/java/com/poixson/nanosocket/NanoHTTPserver.java:582-602 | no token throws the syntax-error 400 and one token the missing-URI 400; a malformed target throws; otherwise the method token and target are taken, and headers are read exactly when a third token exists |
| `Requests.ParseAfterRequestLine` | core/src/main/java/com/poixson/nanosocket/NanoHTTPserver.java:603-618 | a failing request line consumes one line; without a version the headers stay empty; with one, the header loop decides the outcome and what is consumed |
| `RequestFormat.EncodePairParses` | core/src/main/java/com/poixson/nanosocket/NanoHTTPserver.java:656-667 | an encoded pair of ASCII strings is one non-empty, `&`-free query piece that decodes back to the pair |
| `RequestFormat.QueryParses` | core/src/main/java/com/poixson/nanosocket/NanoHTTPserver.java:652-676 | encoded pairs of ASCII strings joined with `&` decode to the pairs put in order |
| `RequestFormat.TargetParses` | core/src/main/java/com/poixson/nanosocket/NanoHTTPserver.java:593-602 | the written target of an ASCII path and ASCII pairs is one request-line token and decodes to the path and the query |
| `RequestFormat.PathHasNoQuestionMark` | core/src/main/java/com/poixson/nanosocket/NanoHTTPserver.java:595 | an encoded path holds no `?`, so the split happens after it |
| `RequestFormat.TargetWithQuery` | core/src/main/java/com/poixson/nanosocket/NanoHTTPserver.java:595-598 | a target with a query, over ASCII text, decodes to its path and pairs |
| `RequestFormat.TargetAt` | core/src/main/java/com/poixson/nanosocket/NanoHTTPserver.java:595-598 | a target whose prefix has no `?` is split at the `?` after that prefix |
| `RequestFormat.HeaderLineParses` | core/src/main/java/com/poixson/nanosocket/NanoHTTPserver.java:610-615 | a written header line with a lower-case ASCII name is not blank and reads back as its name and value |
| `RequestFormat.HeadersParse` | core/src/main/java/com/poixson/nanosocket/NanoHTTPserver.java:606-617 | written header lines with lower-case ASCII names yield exactly the headers written, in order |
| `RequestFormat.HeaderBlockParses` | core/src/main/java/com/poixson/nanosocket/NanoHTTPserver.java:606-617 | header lines with lower-case ASCII names followed by an empty line give back the headers, and the loop consumes exactly those lines |
| `RequestFormat.ParseWritten` | core/src/main/java/com/poixson/nanosocket/NanoHTTPserver.java:570-629 | parsing a written request with an ASCII path and query and lower-case ASCII header names gives back its method token, path, query and headers, and reads exactly its lines |
| `RequestFormat.RequestLineParses` | core/src/main/java/com/poixson/nanosocket/NanoHTTPserver.java:580-602 | a written request line with an ASCII path and query gives back the method token, path and query, and asks for headers |
| `RequestFormat.LineTokens` | core/src/main/java/com/poixson/nanosocket/NanoHTTPserver.java:580-593 | three tokens joined with spaces tokenise back to those three |
| `RequestFormat.WrittenMethod` | core/src/main/java/com/poixson/nanosocket/NanoHTTPserver.java:636-641 | a written request whose method token is a method's name is dispatched as that method |
| `Responses.Body.FromBytes` | core/src/main/java/com/poixson/nanosocket/NanoHTTPserver.java:734-736 | a byte-array stream holds the bytes, reports all of them as available, and makes full reads |
| `Responses.Body.Stream` | core/src/main/java/com/poixson/nanosocket/NanoHTTPserver.java:745-755 | any other stream holds its bytes, its `available()` report, and the lengths of its short reads |
| `Responses.Body.Read` | core/src/main/java/com/poixson/nanosocket/NanoHTTPserver.java:830 | a read gives -1 at the end of the stream; otherwise it gives between 1 and `size` bytes, which are the stream's next bytes |
| `Responses.Body.Close` | core/src/main/java/com/poixson/nanosocket/NanoHTTPserver.java:844 | closing marks the stream closed and leaves its contents alone |
| `Responses.CopyBody` | core/src/main/java/com/poixson/nanosocket/NanoHTTPserver.java:826-835 | whatever lengths the reads deliver, the bytes copied are the first `length` bytes of the stream, or all of it when it is shorter. No read asks for more than 16 KiB |
| `Responses.FramingOf` | core/src/main/java/com/poixson/nanosocket/NanoHTTPserver.java:789-800 | Content-Length framing is used exactly when there is a body and the chunked flag is off, with the reported length |
| `Responses.Response.constructor` | core/src/main/java/com/poixson/nanosocket/NanoHTTPserver.java:745-755 | a null status keeps OK, a null MIME type stays null, the request's method is recorded, and the response is not chunked |
| `Responses.Response.WithMessage` | core/src/main/java/com/poixson/nanosocket/NanoHTTPserver.java:730-741 | the message's UTF-8 bytes become a fresh, fully available body; a null message gives no body |
| `Responses.Response.Text` | core/src/main/java/com/poixson/nanosocket/NanoHTTPserver.java:724-726 | the response has status OK and plain text, with the message as its body |
| `Responses.Response.Of` | core/src/main/java/com/poixson/nanosocket/NanoHTTPserver.java:745-755 | a response built by a handler has exactly the given state |
| `Responses.Response.Send` | core/src/main/java/com/poixson/nanosocket/NanoHTTPserver.java:761-846 | the bytes written are `WireOf` the state. A response without a body becomes chunked; for HEAD the data is dropped and the stream left open; otherwise the stream is closed |
| `Responses.Response.IsChunked` | core/src/main/java/com/poixson/nanosocket/NanoHTTPserver.java:862-864 | a response reports chunked exactly when its chunked flag is set, and then `send` uses chunked framing |
| `Responses.GetResponse` | core/src/main/java/com/poixson/nanosocket/NanoHTTPserver.java:415-418 | there is no response without a request; otherwise the response has the exception's status and message and the default type |
| `Responses.HeadValuesAt` | core/src/main/java/com/poixson/nanosocket/NanoHTTPserver.java:776-802 | the head holds Date, Server, the authentication field, the framing fields and Content-Type, in that order |
| `Responses.FramingValuesAt` | core/src/main/java/com/poixson/nanosocket/NanoHTTPserver.java:789-800 | fixed-length framing writes Accept-Ranges, Content-Length and keep-alive; chunked framing writes Transfer-Encoding and close |
| `Responses.AuthValuesAt` | core/src/main/java/com/poixson/nanosocket/NanoHTTPserver.java:783-784 | the authentication field carries the realm in quotes, and is absent without an authenticator |
| `Responses.FramingNameAt` | core/src/main/java/com/poixson/nanosocket/NanoHTTPserver.java:776-802 | under any other field name, only the framing fields contribute |
| `Responses.FixedLengthHead` | core/src/main/java/com/poixson/nanosocket/NanoHTTPserver.java:790-795 | with a body and the chunked flag off, the head holds exactly one Content-Length (the reported length), keep-alive, Accept-Ranges, and no Transfer-Encoding |
| `Responses.ChunkedHead` | core/src/main/java/com/poixson/nanosocket/NanoHTTPserver.java:796-800 | without a body, or with the chunked flag set, the head holds Transfer-Encoding chunked and close, and neither Content-Length nor Accept-Ranges |
| `Responses.DateAndServer` | core/src/main/java/com/poixson/nanosocket/NanoHTTPserver.java:777-781 | Date and Server are each written once |
| `Responses.AuthHead` | core/src/main/java/com/poixson/nanosocket/NanoHTTPserver.java:783-784 | WWW-Authenticate is written once exactly when an authenticator is attached |
| `Responses.ContentTypeHead` | core/src/main/java/com/poixson/nanosocket/NanoHTTPserver.java:765 | Content-Type is written once: the chosen type, or `DEFAULT_MIME` (taken to be text/plain) when none was chosen |
| `Responses.BodyWithinLength` | core/src/main/java/com/poixson/nanosocket/NanoHTTPserver.java:812-835 | the body never exceeds the announced length, and equals it when the stream holds that many bytes; the announced value reads back as the length |
| `Responses.NoBodyWithoutLength` | core/src/main/java/com/poixson/nanosocket/NanoHTTPserver.java:786-812 | a HEAD or chunked response writes no body bytes, and a response without a body is chunked |
| `Responses.MessageWire` | core/src/main/java/com/poixson/nanosocket/NanoHTTPserver.java:730-741 | a message response announces its UTF-8 length and, except for HEAD, writes exactly those bytes; ASCII text takes one byte per character |
| `Server.ServerSocket.constructor` | core/src/main/java/com/poixson/nanosocket/NanoHTTPserver.java:132 | a new listen socket is open |
| `Server.ServerSocket.Close` | core/src/main/java/com/poixson/nanosocket/NanoHTTPserver.java:295 | closing the listen socket marks it closed |
| `Server.Socket.constructor` | core/src/main/java/com/poixson/nanosocket/NanoHTTPserver.java:188 | an accepted connection socket is open |
| `Server.Socket.Close` | core/src/main/java/com/poixson/nanosocket/NanoHTTPserver.java:532 | closing a connection socket marks it closed |
| `Server.Handler.constructor` | core/src/main/java/com/poixson/nanosocket/NanoHTTPserver.java:344-346 | a handler is given by what it answers to each request |
| `Server.FirstAnswerIsEarliest` | core/src/main/java/com/poixson/nanosocket/NanoHTTPserver.java:354-377 | dispatch picks the response of the earliest handler that gives one, and only that response; handlers answering null or throwing are passed over |
| `Server.NoAnswer` | core/src/main/java/com/poixson/nanosocket/NanoHTTPserver.java:373-375 | no handler's response is chosen exactly when no handler gives one |
| `Server.HostOf` | core/src/main/java/com/poixson/NanoHTTPlib/NanoHTTPcommon.java:20-23 | an empty host name is stored as null (bind to every address); any other is kept |
| `Server.Server.constructor` | core/src/main/java/com/poixson/nanosocket/NanoHTTPserver.java:103-120 | a new server is neither running nor stopping, has no listen socket, workers or handlers, and both counters are zero |
| `Server.Server.Start` | core/src/main/java/com/poixson/nanosocket/NanoHTTPserver.java:127-138 | start does nothing when the server is running or a listen socket exists; otherwise it opens a new listen socket and changes nothing else |
| `Server.Server.IsRunning` | core/src/main/java/com/poixson/nanosocket/NanoHTTPserver.java:144-148 | the server runs exactly when it is not stopping, has a listen socket and has its running flag set |
| `Server.Server.BeginListening` | core/src/main/java/com/poixson/nanosocket/NanoHTTPserver.java:170-177 | the listener goes on exactly when it was not already running, and the server is running afterwards; `EndListening` follows both outcomes, so a refused entry closes the server |
| `Server.Server.EndListening` | core/src/main/java/com/poixson/nanosocket/NanoHTTPserver.java:204-207 | when the listener ends, after either outcome of its entry, the running flag is cleared and the server closed as `Close` does: one registered worker closed and unregistered, the other workers' sockets untouched, counters, handlers and the socket registry kept |
| `Server.Server.Accept` | core/src/main/java/com/poixson/nanosocket/NanoHTTPserver.java:214-242 | while stopping, the socket is closed and nothing is registered; otherwise the connection count rises by one, and a new worker with that number is registered |
| `Server.Server.IncrementConnections` | core/src/main/java/com/poixson/nanosocket/NanoHTTPserver.java:270-272 | the connection count rises by one, and the new count is returned |
| `Server.Server.IncrementRequests` | core/src/main/java/com/poixson/nanosocket/NanoHTTPserver.java:273-275 | the request count rises by one, and the new count is returned |
| `Server.Server.Close` | core/src/main/java/com/poixson/nanosocket/NanoHTTPserver.java:292-301 | close marks the server stopping, closes the listen socket, closes and unregisters one registered worker while every other worker's socket keeps its state, and drops the listen socket |
| `Server.Server.UnregisterWorker` | core/src/main/java/com/poixson/nanosocket/NanoHTTPserver.java:313-320 | a worker leaves the registry exactly when it is not null and its socket is closed |
| `Server.Server.CloseConnections` | core/src/main/java/com/poixson/nanosocket/NanoHTTPserver.java:324-335 | with workers registered, exactly one of them is closed and unregistered, and every other worker's socket keeps its state; the call throws `ConcurrentModificationException` exactly when two or more workers were registered |
| `Server.Server.Serve` | core/src/main/java/com/poixson/nanosocket/NanoHTTPserver.java:354-377 | serve returns the first handler response; without one, a fresh 404 "Resource not found!" in the default type |
| `Server.Server.RegisterHandler` | core/src/main/java/com/poixson/nanosocket/NanoHTTPserver.java:382-384 | a handler is appended unless already registered, so none is listed twice |
| `Server.Server.RegisterConnection` | core/src/main/java/com/poixson/NanoHTTPlib/NanoHTTPserver.java:697-699 | the socket is added to the registry |
| `Server.Server.UnRegisterConnection` | core/src/main/java/com/poixson/NanoHTTPlib/NanoHTTPserver.java:707-709 | that socket, and only that one, leaves the registry |
| `Server.Server.CloseAllConnections` | core/src/main/java/com/poixson/NanoHTTPlib/NanoHTTPserver.java:714-718 | every registered socket is closed, and none is removed |
| `Server.TurnOf` | core/src/main/java/com/poixson/nanosocket/NanoHTTPserver.java:470-500 | a turn goes on only with an unchunked response that serve returned; a turn that stops counts at most one request, and only a returned response |
| `Server.AccountsNext` | core/src/main/java/com/poixson/nanosocket/NanoHTTPserver.java:495-500 | a turn that answers and goes on moves its answer and its count from what is owed to what is done |
| `Server.AccountsStop` | core/src/main/java/com/poixson/nanosocket/NanoHTTPserver.java:502-514 | when a turn stops, its leftover answer, if any, is all that is still owed |
| `Server.RunNext` | core/src/main/java/com/poixson/nanosocket/NanoHTTPserver.java:495-500 | a run after a turn that goes on is that turn's answer followed by the run on the remaining input |
| `Server.RunStop` | core/src/main/java/com/poixson/nanosocket/NanoHTTPserver.java:502-514 | a run that stops at its first turn answers that turn's leftover and counts its count |
| `Server.RunBounds` | core/src/main/java/com/poixson/nanosocket/NanoHTTPserver.java:464-519 | a run answers at most once per turn, answers every request it counts, and answers at most one request it did not count |
| `Server.RunAnswers` | core/src/main/java/com/poixson/nanosocket/NanoHTTPserver.java:493-500 | each counted answer is the response serve returned for that turn; every answer but the last is unchunked, so a chunked response is the last thing a connection sends |
| `Server.SilentRun` | core/src/main/java/com/poixson/nanosocket/NanoHTTPserver.java:476-493 | a connection sends nothing exactly when its first request fails to parse, an overriding serve times out on it, or the socket is already closed |
| `Server.EndOfStreamKeepsServing` | core/src/main/java/com/poixson/nanosocket/NanoHTTPserver.java:470-500 | at the end of input the empty request is dispatched on every turn, and each unchunked response is answered and counted |
| `Server.ErrorAnswer` | core/src/main/java/com/poixson/nanosocket/NanoHTTPserver.java:480-514 | a failed or null dispatch, which only an overriding serve produces, is answered once, uncounted: with the `httpResponseException`'s status and message, or 500 and an empty body, in the default type with Content-Length and keep-alive |
| `Server.InternalErrorWire` | core/src/main/java/com/poixson/nanosocket/NanoHTTPserver.java:502-513 | the 500 announces Content-Length 0 and writes no body |
| `Server.Worker.constructor` | core/src/main/java/com/poixson/nanosocket/NanoHTTPserver.java:440-460 | a worker keeps its number, server and socket, and has counted no request |
| `Server.Worker.Run` | core/src/main/java/com/poixson/nanosocket/NanoHTTPserver.java:464-519 | the responses written, in order, and both request counts are those of `RunSpec`; afterwards the socket is closed and the worker unregistered; the server's run state, listen socket, handlers, connection count and socket registry are kept |
| `Server.Worker.Finish` | core/src/main/java/com/poixson/nanosocket/NanoHTTPserver.java:502-518 | after the loop, what is still owed is answered, then the socket is closed and the worker unregistered; the server's other fields are kept |
| `Server.Worker.Answer` | core/src/main/java/com/poixson/nanosocket/NanoHTTPserver.java:502-514 | a request still held is answered by the result, or by a 500 without one; with no request held, nothing is sent |
| `Server.Worker.Step` | core/src/main/java/com/poixson/nanosocket/NanoHTTPserver.java:470-501 | after each turn, what is answered and counted so far plus what is still owed make up the whole run; only the request counters of the server change |
| `Server.Worker.Turn` | core/src/main/java/com/poixson/nanosocket/NanoHTTPserver.java:471-500 | a turn parses one request, counts and answers as `TurnOf` says, and hands back the request and result still owed when it stops; only the request counters of the server change |
| `Server.Worker.IsClosed` | core/src/main/java/com/poixson/nanosocket/NanoHTTPserver.java:537-539 | a worker is closed exactly when its socket is, and `Server.Worker.Close` makes it so |
| `Server.Worker.IncrementRequests` | core/src/main/java/com/poixson/nanosocket/NanoHTTPserver.java:542-545 | the request is counted on the worker and on the server |
| `Server.Worker.Close` | core/src/main/java/com/poixson/nanosocket/NanoHTTPserver.java:531-536 | the socket is closed and the worker leaves the server's registry |
| `Auth.AddRefusals` | core/src/main/java/com/poixson/nanosocket/NanoHTTPserver.java:908-914 | addAccount refuses exactly an empty user name or password, and keeps every stored name and password non-empty |
| `Auth.AddThenCheck` | core/src/main/java/com/poixson/nanosocket/NanoHTTPserver.java:908-930 | after an account is added, validate accepts that user with exactly that password, and answers for every other user as before |
| `Auth.CheckRejectsEmpty` | core/src/main/java/com/poixson/nanosocket/NanoHTTPserver.java:924-930 | an empty user name or password never validates; on a well-formed store, validation is exactly a stored-password match |
| `Auth.BasicAuth.constructor` | core/src/main/java/com/poixson/nanosocket/NanoHTTPserver.java:884-887 | an authenticator starts with its realm and no accounts |
| `Auth.BasicAuth.Create` | core/src/main/java/com/poixson/nanosocket/NanoHTTPserver.java:884-887 | an empty realm is refused; otherwise the authenticator has an empty store |
| `Auth.BasicAuth.CreateWith` | core/src/main/java/com/poixson/nanosocket/NanoHTTPserver.java:879-883 | the result is refused when the realm or the account is refused; otherwise it holds exactly that one account |
| `Auth.BasicAuth.AddAccount` | core/src/main/java/com/poixson/nanosocket/NanoHTTPserver.java:908-914 | an empty argument is refused and the store left as it was; otherwise the entry is put, overwriting |
| `Auth.BasicAuth.Validate` | core/src/main/java/com/poixson/nanosocket/NanoHTTPserver.java:924-930 | a user validates exactly when that user's stored password equals the given one; empty arguments never validate |
| `Auth.BasicAuth.Clone` | core/src/main/java/com/poixson/nanosocket/NanoHTTPserver.java:889-900 | the copy is a fresh authenticator with the same realm and the same accounts |

## Left out

### Concurrency and I/O

- Threads, `synchronized` blocks and `volatile` fields are left out. The listener thread is the call sequence `BeginListening`, `Accept`, `EndListening`, and a worker's loop runs as one call.
- Sockets and streams are objects with a closed flag. `setSoTimeout`, `bind`, `validateHostPort`, the listen backlog and the `InetSocketAddress` are not modelled.
- runListenerLoop's accept loop is not modelled. That covers waiting in `accept`, logging a failed accept, the 50 ms back-off, and the interrupt that ends the loop. Its entry and exit are modelled as `Server.Server.BeginListening` and `Server.Server.EndListening`.
- Worker.Run does not model the character decoding of the input. Input arrives as events: lines (without their terminator), read timeouts and I/O failures. The UTF-8 decoding by `InputStreamReader` and the CR/LF handling of `readLine` are not modelled.
- Server.Worker.Run takes what `serve` does with each parsed request as a `Dispatch` value; it does not call `Serve` itself. `Server.Server.Serve` and `Server.FirstAnswerIsEarliest` model what `serve` computes.
- Server.Worker.Run builds each returned response afresh from its state. Aliasing is not modelled: the same response object returned for two requests, or shared with other code.
- `Server.Worker.Run` requires `Buildable` of every `Dispatch` value: a response's authenticator, if any, has a non-empty realm. `httpBasicAuth` refuses any other.
- Server.Worker.Run models the socket being closed from outside by `ds` running out, rather than as a separate event.
- Server.Worker.Run gives each turn the events the previous turn left unread. The source builds a new `BufferedReader` for every request, which reads ahead up to 8192 characters and is dropped with that request. What it read ahead, such as the rest of a POST body or a pipelined next request, is lost to the next turn in the source and kept in the model. So in the model an unread body is parsed as the next request line, while in the source the next request usually follows the discarded buffer.
- Server.Worker.Run accepts any `Dispatch`, including `Raised(_)` and `Returned(None)`. The base `serve` catches every exception a handler throws, checked or not, and answers 404 when no handler gives a response, so it always yields `Returned(Some(_))`. The other cases model a subclass that overrides the public `serve`.
- The worker's `send` wrapper is not modelled; the worker calls `Response.Send` directly. The wrapper swallows exceptions from writing, and writing never fails in the model.
- The date of the Date header and `NanoHTTPserver.version` are parameters. The clock and the date format are not modelled.

### Operations not modelled

- `createServerWorker` is not modelled as an overridable factory; `Accept` always creates the worker.
- The thread names are not modelled: `setThreadName`, `getThreadName`, and the worker's name.
- The debug print of the request line is not modelled.
- `stop()` is `safeClose(this)`, which is `close()`. `Server.Server.Close` models it.
- `closeAll()` is an empty TODO in the source.
- The counter getters are not separate members: `totalConnections`, `totalRequests` and the worker's `getRequests`. They read the fields `countConnections` and `countRequests` directly.
- `httpResponseException.getStatus` is not a separate member; the model reads the `status` field of `ResponseException`.
- `Server.Worker.IsClosed` models only the socket test. It ignores the test `!Thread.currentThread().isAlive()`, which is always false in the worker's own thread.
- Requests hold only what the engine reads. The `pre` store of the request becomes the method token and the URI fields. The request's public `reader` field is not modelled, so a handler cannot read the body through it.
- Protocol.LookupMethod assumes `httpMethod.lookup` matches the token exactly and case-sensitively against the six names GET, PUT, POST, DELETE, HEAD and OPTIONS. `httpMethod` is not part of this model.
- Responses.ContentTypeHead takes `DEFAULT_MIME` to be `text/plain` (`Protocol.DEFAULT_MIME`). The constant is inherited by `NanoHTTPserver` from a class that is not part of this model.
- Server.ErrorAnswer states the error answer's type as `DEFAULT_MIME`, taken to be `text/plain` for the same reason.
- Protocol.ResponseException holds a non-null message. An `httpResponseException` built with a null message gives a response without a body, which `send` frames as chunked; that case is not modelled.
- Only the members the engine uses are given of `httpMethod`, `httpStatus` and `httpMime`. The enumerations themselves are not part of this model, nor is the MIME table.
- The older copy's leftover fields and factory are not part of this model: the `NanoHTTPD` constructor, the temp-file manager fields, and `DefaultTempFileManagerFactory`. They belong to a different class and do not compile there.

### The response writer

- Responses.Response.Send writes no custom header lines: no member of the response ever adds one, so that map is always empty. For the same reason the Date header is always written.
- Responses.Response.Send does not model the chunked copy loop. That loop is unreachable: the byte count is positive only on the fixed-length branch.
- Responses.Response.Send writes `WWW-Authenticate` only when a realm is attached, but the response's `basicAuth` field is private and no member assigns it, so in the source that header is never written. `ResponseState.realm`, `Responses.AuthHead` and `Server.Buildable` describe a response that no code path builds with a realm.
- Responses.Response.Send ignores the clone of the authenticator it makes: only the realm is read from it. `Auth.BasicAuth.Clone` models the clone itself.
- Responses.Response.Send does not model a failing read or write. In the source, such an exception is printed and swallowed, and the stream is still closed.
- Responses.Body.Read never throws.
- Responses.Body.Available is a `nat`. The byte count and every counter are unbounded integers: the 32-bit `int` wrap-around of `Content-Length` is not modelled.
- Server.Server.IncrementConnections does not model 32-bit wrap-around of `countConnections`, which needs more than two billion connections.
- Server.Server.IncrementRequests does not model 32-bit wrap-around of `countRequests`, for the same reason.

### Text handling

- Percent.Decode turns an escape `%XX` into the single character with code XX. `URLDecoder` instead reassembles runs of escapes as UTF-8 bytes into one character, so escapes of non-ASCII characters decode differently.
- Percent.Decode rejects an escape whose first digit is a sign, such as `%+A`. `URLDecoder` reads the two characters with `Integer.parseInt`, which accepts a leading `+`.
- Text.Lower lower-cases only the ASCII letters. `toLowerCase(Locale.US)` also lower-cases other letters, such as `À`, so non-ASCII header names keep their case in the model.
