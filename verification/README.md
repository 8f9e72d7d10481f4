# Verified model of an HTTP server's byte-stream core

This project models, in Dafny, the parts of the server where bytes arrive and leave in
arbitrary pieces, together with its configuration front end and its choice of location
blocks, and proves properties of that model. `dafny verify dfyconfig.toml` checks all of it.

Objects that the server updates in place are classes here, with the same fields and the same
branches; each method is proved against a function on values, and the theorems are about those
functions, so they carry over to the objects.

| part of the server | files |
|---|---|
| chunked transfer coding (section 4.1 of RFC 7230, without extensions and trailers) | `ChunkCodec.dfy`, `ChunkedBodyParser.dfy` |
| header sections and request lines | `Headers.dfy`, `Request.dfy` |
| the request parser, with its pause for routing and its body file | `RequestMachine.dfy`, `RequestParser.dfy` |
| requests cut into reads, pipelined requests, whole requests | `Fragmentation.dfy`, `Pipelining.dfy`, `Session.dfy`, `EndToEnd.dfy`, `RequestRoundTrip.dfy`, `Connection.dfy` |
| CGI output streamed to a client under backpressure | `CgiStream.dfy` |
| the event dispatcher | `EventDispatcher.dfy` |
| configuration lexer and parser, `$variable` arguments | `Lexer.dfy`, `ConfigTokens.dfy`, `ConfigGrammar.dfy`, `ConfigParser.dfy`, `ConfigLoader.dfy`, `Arguments.dfy` |
| location matching | `Locations.dfy` |
| characters, trimming, words, 64-bit sizes | `Text.dfy`, `Base.dfy` |

## What the main theorems say

- **How a request is cut does not matter, and exactly when it does.** `Fragmentation` proves
  that the outcome of a request is a function of its bytes and of how many of them were buffered
  when the end of the head came in. `WhenCutsMatter` gives, for every request, the condition on
  these two under which the outcome is that of delivering the head alone. Two families of requests,
  for every limit, show that it can fail: the header limit is tested against the whole buffer
  (`SurplusCountsAgainstLimit`), and the request line may take its third word from beyond the head
  (`ThirdWordFromBody`). `Connection.ReceiveAll` proves that the parser object does what these
  theorems are about, over any number of reads.
- **From bytes to a complete request.** `EndToEnd` proves that a well-formed head followed by any
  chunked encoding, or by a Content-Length body, cut in any way that fits the buffer, gives
  exactly that request with exactly that body, or 413 exactly when the body exceeds the limit.
  `RequestRoundTrip` adds the writing side: any request line and headers, names in any letter case,
  with any blanks and either line end, are received as they were written, with any body, in one
  request or in a pipeline. For every stream and every cut, the
  body stays within the limit of its route (`EveryBodyWithinLimit`).
- **The chunk decoder is the inverse of an encoder.** A byte-wise machine is the reference. The
  block-reading loop agrees with it; it is insensitive to cuts; it decodes every encoding (any
  letter case, any leading zeros) followed by anything; what it accepts is such an encoding; and
  what it refuses, and with which status, is characterised on the bytes too (`RefusesExactly`).
  The body limit holds in every reachable state although the sum in the size line may wrap.
- **Whole connections.** A buffer of well-formed requests is read as exactly those requests in
  order, and what follows them stays in the buffer. `Sessions` proves the same of a whole connection
  whose bytes are cut in any way, if and only if each head fits the limit when it comes in: counted
  from its first byte to the end of the read that brings in its end. `Connection.ReadSession` proves
  it of the parser object.
- **CGI streaming.** Over every sequence of batches of events, in either order, with any answers of
  the kernel, what is on the wire, unsent, in flight and unread is always the whole response, and
  which response it is, and with which `Connection` header, follows from the output and the reads of
  its headers. The send buffer is bounded, and neither handler is ever left without an event to wait
  for. A finished response was sent in full but for bytes lost by a failed read, or by a hangup that
  is handled after the buffer it was reported with has drained. The second is a loss in the code:
  the hangup was reported while the pipe was not watched, and bytes are still in it
  (`StaleHangupLosesOutput`). `HandleBatch` gives the exact condition. While both ends are ready
  every response finishes (`Finish`, `Serve`).
- **Dispatch.** In one batch, whatever handlers do to each other, each event reaches only a
  handler in service; deletion comes after the batch and happens once; the shadow masks are the
  kernel's.
- **Configuration.** Every text is a layout of tokens, blanks and comments, and is lexed to those
  tokens; the parser accepts exactly what the grammar derives; any servers, locations and directives
  given as plain words and laid out in any way are loaded as they are; and every argument in the text
  is at one place of the nodes, which hold nothing else (`Load`).
- **Locations.** The loop of truncations and lookups computes a choice stated over all the
  configured keys, and that choice is unique.

## Conventions

- A byte is a `char`; text is 7-bit. A `size_t` is a natural number and every sum that can wrap
  is written with `AddSize` or `SubSize`. Where the code relies on a total not reaching 2^64, the
  model says so (`Fits`): everything decoded and buffered, with the new input, stays below 2^64.
- A decoder whose limit is zero has no limit, as in the code; the limit of a request is never zero.
- An exception, or an error return, is a value: `Failed`, `Refused`, `None` or a false result.
- The disk, the socket and the pipe are nondeterministic: a write or a send may take any part of
  its argument or fail. `Disk.reliable` says that nothing fails and every write is whole. For the
  socket and the pipe the kernel's answers are parameters (`Io`).
- Routing is a parameter: a function from request line and headers to the limits that apply.
- Where the code and a comment in it disagree, the model follows the code. The grammar comment in
  `inc/config/pipeline/Parser.hpp` gives a location one argument; the code takes one or more.
- The kernel reports a pipe as readable if it is watched and holds bytes, and a hangup, whether it
  is watched or not, once the process has closed it. Both are as of the moment a batch is reported,
  not of the moment an event is handled.

## Model

| member | source | states |
|---|---|---|
| ChunkCodec.FeedSplit | src/http/internal/ChunkedBodyParser.cpp:210-246 | Split invariance from every state: reading `a` then `b`, stopping at a failure, gives the status, output, next state and bytes used of reading `a + b`. |
| ChunkCodec.FeedStopsAtEnd | src/http/internal/ChunkedBodyParser.cpp:225-245 | The decoder neither uses nor looks at bytes after the end of the body: reading only the bytes it used gives the same outcome. |
| ChunkCodec.FeedWithinLimit | src/http/internal/ChunkedBodyParser.cpp:130-147 | In every reachable state the decoded total is the number of decoded bytes and never exceeds the limit, even when the sum at a size line wrapped. |
| ChunkCodec.StepReachable | src/http/internal/ChunkedBodyParser.cpp:101-208 | Every step keeps the invariant of reachable states: the stored size line holds no CRLF, a chunk being read has bytes left, a pending CR only between lines. |
| ChunkCodec.DecodeInvertsEncode | src/http/internal/ChunkedBodyParser.cpp:85-208 | Any encoding of non-empty chunks, each size spelled in hexadecimal in any letter case and with any leading zeros, followed by anything, decodes to its data and uses exactly the encoding; it fails with 413 exactly when the data exceeds the limit. |
| ChunkCodec.HexReads | src/http/internal/ChunkedBodyParser.cpp:11-17 | A size is read as the number it spells, digit by digit from the tables `0`-`9`, `a`-`f` and `A`-`F`; and a string is no number exactly when it spells none. |
| ChunkCodec.DigitRefused | src/http/internal/ChunkedBodyParser.cpp:11-17 | A character is no digit exactly when it is in neither table. |
| ChunkCodec.HexRoundTrip | src/http/internal/ChunkedBodyParser.cpp:85-99 | Every number, printed in any letter case digit by digit and with any leading zeros, is read back, and is a size exactly below 2^64. |
| ChunkCodec.DecodePrinted | src/http/internal/ChunkedBodyParser.cpp:85-208 | From the data alone: any pieces, each sent with its length printed in any style, decode to the data, or are refused with 413 exactly when it exceeds the limit. |
| ChunkCodec.RefusesExactly | src/http/internal/ChunkedBodyParser.cpp:101-208 | When a body is refused, and with which status, for every input: exactly when some whole chunks within the limit are followed by a line that spells no size, or by data or a zero size without its line end (400); or by a size, or by data, that oversteps the limit (413). |
| ChunkCodec.AcceptedIsEncoded | src/http/internal/ChunkedBodyParser.cpp:85-208 | Conversely, when a fresh decoder is done, the bytes it used are such an encoding of its output, within the limit. |
| ChunkCodec.AcceptsExactlyEncodings | src/http/internal/ChunkedBodyParser.cpp:210-246 | Both directions: a fresh decoder finishes on exactly the inputs that start with an encoding within the limit. |
| ChunkCodec.FeedSizeLine | src/http/internal/ChunkedBodyParser.cpp:101-136 | However a size line is spread over stored bytes and input, it is read as the text before its first CRLF, and exactly its bytes are used. |
| ChunkCodec.FeedDataRefuses | src/http/internal/ChunkedBodyParser.cpp:138-147 | A block of chunk data that would take the total past the limit is refused, at whichever byte that happens. |
| ChunkedBodyParsing.FindCRLF | src/http/internal/ChunkedBodyParser.cpp:21-27 | The index of the first CRLF, or nothing exactly when there is none. |
| ChunkedBodyParsing.ParseHex | src/http/internal/ChunkedBodyParser.cpp:85-99 | Succeeds exactly on the strings that spell a number below 2^64 in hexadecimal, with that number. |
| ChunkedBodyParsing.ChunkedBodyParser.ReadSize | src/http/internal/ChunkedBodyParser.cpp:101-136 | Takes at least one byte; the byte-wise machine on the bytes taken reaches the same state, or fails with the same status. |
| ChunkedBodyParsing.ChunkedBodyParser.ReadData | src/http/internal/ChunkedBodyParser.cpp:138-154 | The same for chunk data, with the output it appends; the total counts the output and stays within the limit. |
| ChunkedBodyParsing.ChunkedBodyParser.ReadTrailerCrlf | src/http/internal/ChunkedBodyParser.cpp:156-181 | The same for the line end after a chunk, whole or split after its CR. |
| ChunkedBodyParsing.ChunkedBodyParser.ReadFinalCrlf | src/http/internal/ChunkedBodyParser.cpp:183-208 | The same for the final line end, after which the decoder is done. |
| ChunkedBodyParsing.ChunkedBodyParser.Parse | src/http/internal/ChunkedBodyParser.cpp:210-246 | The block-reading loop refines the byte-wise machine: same status, output, next state, bytes used; on a failure the same status, nothing used, and the decoder is done. |
| ChunkedBodyParsing.ChunkedBodyParser.Reset | src/http/internal/ChunkedBodyParser.cpp:61-69 | The decoder is fresh again, without a limit. |
| ChunkedBodyParsing.FeedCrlfBlock | src/http/internal/ChunkedBodyParser.cpp:156-208 | What the byte-wise machine does on a line end for each way a block can present it. |
| Headers.FindHeaderEnd | src/http/Headers.cpp:118-132 | The scan returns the first position of any of the four delimiter forms (LF LF, CRLF LF, LF CRLF, CRLF CRLF), with the length of the form. |
| Headers.FirstDelimiterUnique | src/http/Headers.cpp:118-132 | There is only one first delimiter, so the forms never compete. |
| Headers.HeaderEndStable | src/http/Headers.cpp:118-132 | Once found, the end of a head is unchanged by any bytes appended. |
| Headers.HeaderEndPrefix | src/http/Headers.cpp:118-132 | A prefix of a text has the same end of head if it reaches past it, and none otherwise. |
| Headers.Parse | src/http/Headers.cpp:49-80 | The reading loop gives the result of the line-by-line specification, in strict and lenient mode. |
| Headers.ParseSectionStable | src/http/Headers.cpp:52-75 | Reading stops at the first empty line: text after a blank line changes neither success nor headers. |
| Headers.ParseWritten | src/http/Headers.cpp:49-80 | Header lines as written, with names in any letter case and any blanks around name and value, are read one by one, whatever follows them. |
| Headers.ReadsExactly | src/http/Headers.cpp:49-80 | Every text is such lines and then an end or a bad line (no colon, no name, or in strict mode no carriage return); those headers are what is read, and reading succeeds exactly when no bad line comes. |
| Headers.GetAdded | src/http/Headers.cpp:10-32 | A header is found under exactly the names that equal its own but for the case of letters; adding it changes what is found under no other. |
| Headers.AddAllMeans | src/http/Headers.cpp:20-32 | What written headers mean: under every name, in any letter case, the last value written, or nothing. |
| Headers.WrittenAnnounce | src/http/Headers.cpp:41-93 | From the bytes: a written `Content-Length` in decimal, in any letter case, is read as that length below 2^63; without one the length is 0; and a body is chunked exactly when some line is a `Transfer-Encoding`. |
| Headers.ParsedPrintable | src/http/Headers.cpp:49-107 | Whatever is read can be printed and read again. |
| Text.ToLowerIsSame | src/http/Headers.cpp:10-18 | Two names have one normal form exactly when they are equal letter by letter but for case. |
| Text.TrimBetween | src/common/string.cpp:7-17 | Trimming strips the blanks on both sides of a text and nothing else. |
| Headers.ToString | src/http/Headers.cpp:100-107 | Prints every header exactly once, in some order. |
| Headers.PrintParseRoundTrip | src/http/Headers.cpp:49-107 | Parsing the printed form of any map of normalised, trimmed headers gives the map back, in either mode, for any order of printing, with or without the empty line after it. |
| Headers.StrToLReads | src/http/Headers.cpp:41-47 | `strtol` on any text: after leading space and at most one sign it reads the longest run of digits and nothing after it, kept within 64 bits. |
| Headers.AnnouncedLength | src/http/Headers.cpp:41-47 | A length announced in decimal is read as that length exactly below 2^63, and as 2^63 - 1 from there on. |
| Headers.AnnouncedNegative | src/http/Headers.cpp:41-47 | A negative length is read as 2^64 less its size, so as a huge one. |
| Requests.TakeThreeAppend | src/http/Request.cpp:11-19 | Three words that end before the text does are the same three words in any longer text. |
| Requests.ParseStartLineAppend | src/http/Request.cpp:11-34 | So the request line read from a head does not depend on what follows it. |
| Requests.MaxAllowedContentSize | src/http/Request.cpp:87-97 | The location's setting counts before the server's; zero means the default of 1 MiB, even where the server has another; so the limit is never zero, which to the chunk decoder would mean none. |
| Requests.Request.Clear | src/http/Request.cpp:73-85 | Everything is cleared except the query string of the old request line. |
| RequestMachine.StripLeadingDrops | src/http/RequestParser.cpp:72-81 | What is dropped is the longest run of line ends at the front, and nothing else. |
| RequestMachine.ResetIsInitial | src/http/RequestParser.cpp:13-40 | After a reset the parser stands where a new one does, but for its buffer and its decoder; a refusal is a reset and the status. |
| RequestMachine.WaitingBufferBounded | src/http/RequestParser.cpp:72-93 | While it waits for a head, the parser holds no more than its limit, or at most 1024 bytes of blank lines. |
| RequestParsing.RequestParser.constructor | src/http/RequestParser.cpp:13-17 | A new parser is in the initial state. |
| RequestParsing.RequestParser.Reset | src/http/RequestParser.cpp:19-29 | Everything but the buffer and the chunk decoder starts over. |
| RequestParsing.RequestParser.SetError | src/http/RequestParser.cpp:34-40 | The parser is refused with the status, its request cleared. |
| RequestParsing.RequestParser.SetRequestReady | src/http/RequestParser.cpp:209-217 | The request is ready, or, only on an unreliable disk, refused because its body cannot be rewound. |
| RequestParsing.RequestParser.ParseHeaders | src/http/RequestParser.cpp:71-127 | Takes the parser to the specified state on every buffer; never past the pause; the buffer never grows. |
| RequestParsing.RequestParser.ReadHeaders | src/http/RequestParser.cpp:95-126 | With a whole head in the buffer: request line and headers are read, the head leaves the buffer, and the parser pauses or is ready; or the request is refused. |
| RequestParsing.RequestParser.TakeHead | src/http/RequestParser.cpp:117-126 | The head leaves the buffer; the parser pauses exactly when the headers announce a body. |
| RequestParsing.RequestParser.HandleContentLengthBody | src/http/RequestParser.cpp:145-167 | Conservation under short writes: file contents followed by buffer is unchanged, and the request is ready exactly when the file has the announced length; it is refused only with 500, and on a reliable disk never. |
| RequestParsing.RequestParser.WriteToBodyFile | src/http/RequestParser.cpp:169-180 | On any disk the file grows by as much of the data as was counted written, a prefix of it, or the request is refused with 500; on a reliable disk by all of it. |
| RequestParsing.RequestParser.HandleChunkedBody | src/http/RequestParser.cpp:182-207 | On any disk the buffer loses exactly the bytes the decoder uses and the file grows by the decoded bytes, less the end of them that a short write drops; a failure of the decoder refuses with its status, one of the disk with 500; on a reliable disk nothing is dropped. |
| RequestParsing.RequestParser.ParseBody | src/http/RequestParser.cpp:129-143 | The same for either kind of body on any disk, with the file opened on first use. |
| RequestParsing.RequestParser.ProceedReadingBody | src/http/RequestParser.cpp:54-69 | After routing: 413 for too long an announced length; otherwise the buffered bytes are taken into the body, of either kind, on any disk. |
| RequestParsing.RequestParser.Feed | src/http/RequestParser.cpp:42-52 | Bytes are taken in while reading headers or body and dropped in any other state; on any disk a Content-Length body conserves file, buffer and input, and a chunked one decodes buffer and input. |
| Fragmentation.DeliverKeepsStep | src/http/RequestParser.cpp:42-127 | The run invariant: after each read the parser stands where the reference on all bytes so far says. |
| Fragmentation.HeadEnds | src/network/ClientHandler.cpp:160-191 | When the end of the head is in the buffer, reading it, routing and beginning the body give the reference's outcome. |
| Fragmentation.BodyContinues | src/http/RequestParser.cpp:129-207 | More bytes take a body from where the reference stood to where it stands with them; a finished one stays as it is. |
| Fragmentation.DeliveryMatchesReference | src/network/ClientHandler.cpp:129-191 | However a stream is cut, the outcome depends only on its bytes and on how many were buffered when the end of the head came in. |
| Fragmentation.SectionIsolated | src/http/RequestParser.cpp:104-113 | The header lines parsed do not depend on bytes after the delimiter, even where their computed length wraps because there are none. |
| Fragmentation.ReadHeadIsolated | src/http/RequestParser.cpp:95-119 | The whole head is read from its own bytes alone, once the three words of the request line are among them. |
| Fragmentation.WhenCutsMatter | src/http/RequestParser.cpp:83-119 | Exact condition on the bytes and the window, for every request: a cut gives the outcome of delivering the head alone if and only if the head exceeds the limit; or, with three words in the head, the buffer was not overfilled or the request is malformed; or, without them, it was overfilled or the request is malformed as buffered. Overfilling refuses with 400, and so does a head alone without three words. |
| Fragmentation.FragmentationInvariance | src/http/RequestParser.cpp:42-127 | Two ways of cutting the same bytes, neither overfilling the buffer, end with the same request line, headers, body and status. |
| Fragmentation.SurplusCountsAgainstLimit | src/http/RequestParser.cpp:83-86 | For every limit that holds the head `DELETE a b` and a blank line: that request is complete when cut after its head, and refused when more bytes than the limit leaves room for come with it. |
| Fragmentation.ThirdWordFromBody | src/http/RequestParser.cpp:96-101 | For every limit that holds it: `DELETE a`, a blank line and `b` are refused when cut after the head, and complete when the last byte comes with it. |
| Fragmentation.ReferenceRefuses | src/http/RequestParser.cpp:83-119 | What is buffered is refused with 400 exactly when it exceeds the limit, has fewer than three words, an unknown method or malformed header lines, or is followed by a malformed chunked body. |
| Pipelining.ReadsOne | src/network/ClientHandler.cpp:393-404 | One round reads exactly the first request of the buffer, leaves exactly the rest, and so shrinks the buffer, whatever state the chunk decoder was left in. |
| Pipelining.RoundsReadAll | src/network/ClientHandler.cpp:393-404 | Repeated rounds over requests back to back, blank lines between them allowed, read exactly those requests in order and leave what follows. |
| Pipelining.PipelinedStream | src/network/ClientHandler.cpp:129-191 | The same when the whole stream comes with the connection's first read. |
| Pipelining.SecondChunkedIsEmpty | src/http/RequestParser.cpp:19-29 | Once the decoder is done, a further chunked request on the connection is complete with an empty body, and its whole encoded body is left in the buffer as the next request. |
| Sessions.ReadStep | src/network/ClientHandler.cpp:129-191 | One read anywhere in a stream of well-formed requests, sized or chunked, of any size: the request in progress stays in progress, or is completed exactly, with the bytes after it left over; and it is refused exactly when its head was not complete before the read and the bytes from the first one of the head on are more than the limit. |
| Sessions.DrainReads | src/network/ClientHandler.cpp:393-404 | The rounds after a completed request read every request that is complete in the buffer, and stop in the middle of the next, or refuse it. |
| Sessions.MoreIsEndOfRead | src/http/RequestParser.cpp:83-86 | The positions that `HeadFits` compares: `More` is the end of the first read that reaches a byte. |
| Sessions.AllFitIsEach | src/http/RequestParser.cpp:83-86 | `AllFit` says that each head, where it is in the stream, fits. |
| Sessions.SessionReadsAll | src/network/ClientHandler.cpp:129-191 | A whole connection of k well-formed requests, at most one of them chunked, cut anywhere, with reset and an empty feed after each: the outcomes are those requests, in order and before anything that follows, if and only if for each the bytes from the first one of its head to the end of the read that brings in the end of its head are at most the limit. With nothing after them nothing else comes out. Otherwise those before the first that does not fit come out, and then a 400. |
| EndToEnd.HeadThenBody | src/network/ClientHandler.cpp:160-191 | A well-formed head and what follows, cut in any way that fits, has the outcome of its body under the routed limit. |
| EndToEnd.ChunkedRequest | src/http/RequestParser.cpp:54-127 | A chunked request, in any chunking and any cutting that fits, is complete with exactly its data, or refused with 413 exactly when the data exceeds the limit. |
| EndToEnd.LengthRequest | src/http/RequestParser.cpp:54-127 | A request with a Content-Length, or none, is complete with exactly its body, or refused with 413 exactly when the length exceeds the limit. |
| EndToEnd.EveryBodyWithinLimit | src/http/RequestParser.cpp:54-69 | For every stream, well-formed or not, and every cut: the body received so far, complete or not, is within the limit of the route its head leads to. |
| EndToEnd.FramingsAgreeOnLimit | src/http/RequestParser.cpp:58-65 | Two delivered requests with the same data and the same limit, one chunked and one with a length, are refused alike. |
| RequestRoundTrip.PrintedMethod | src/http/Request.cpp:36-65 | Matching the name of a known method gives the method back. |
| RequestRoundTrip.MethodsKnown | src/http/Request.cpp:36-48 | Exactly the five names are methods, each its own; every other word, also in another letter case, is none. |
| RequestRoundTrip.PrintedLine | src/http/Request.cpp:11-34 | A request line with any blanks between and after its words is read as those words, target split into path and query. |
| RequestRoundTrip.HeadShape | src/http/Headers.cpp:118-132 | In a written head, with either kind of line end on each line, the only blank line is the last, so the end found is its own end. |
| RequestRoundTrip.HeadRoundTrip | src/http/RequestParser.cpp:88-113 | Any written head, header names in any letter case, any blanks, either line end, is well formed, and what is read is its request line and its headers added in turn. |
| RequestRoundTrip.RequestRoundTrip | src/http/RequestParser.cpp:42-127 | A written request whose headers announce its body's length in decimal, or nothing, cut in any way that fits and followed by anything, is received as it was written: its request line, under every name the last value written, and its body; or refused with 413 exactly when the body exceeds the routed limit. |
| RequestRoundTrip.ChunkedRoundTrip | src/http/RequestParser.cpp:42-127 | The same for data cut into pieces in any way, each sent as a chunk with its length in any style, under any `Transfer-Encoding`. |
| RequestRoundTrip.WrittenMessage | src/network/ClientHandler.cpp:393-404 | A written request is a well-formed message of a pipeline or a session, blank lines before it allowed, and its round must give it as it was written. |
| RequestRoundTrip.WrittenChunkedMessage | src/network/ClientHandler.cpp:393-404 | The same for data sent in chunks. |
| Connection.HandleRead | src/network/ClientHandler.cpp:129-191 | One read event on the parser object is one step of the delivery the theorems are about. |
| Connection.ReceiveAll | src/network/ClientHandler.cpp:129-191 | A whole run of reads: a fresh parser object ends with the outcome of the delivery of the same bytes. |
| Connection.DeliverLoad | src/http/RequestParser.cpp:42-207 | Decoded total and buffer together grow by no more than the bytes that came in, so the 64-bit bound is one on the input. |
| Connection.ReceiveBody | src/http/RequestParser.cpp:145-167 | A whole Content-Length body in any pieces on any disk: file and buffer hold everything that came in, the file never exceeds the announced length, and the request is ready exactly when it has it. |
| Connection.NextRequest | src/network/ClientHandler.cpp:393-404 | Reset and an empty feed on the parser object are one round. |
| Connection.ReadLeftovers | src/network/ClientHandler.cpp:393-404 | Once per request in the buffer: the parser object reads exactly those requests in order and keeps exactly what came after. |
| Connection.ReadReady | src/network/ClientHandler.cpp:393-404 | The rounds on the parser object, as long as a request is complete, terminate and give the outcomes of the specified rounds. |
| Connection.ReadSession | src/network/ClientHandler.cpp:129-191 | A whole connection on a reliable disk: the parser object gives the outcomes of the session over the same bytes. |
| CgiStreaming.ResponseBody.Read | src/http/ResponseBody.cpp:57-96 | Some of the remaining bytes, or their end, or a failure, as the kernel has them; bytes read and bytes remaining are conserved. |
| CgiStreaming.ClientHandler.constructor | src/network/ClientHandler.cpp:220-236 | Setting up a CGI response establishes the invariant. |
| CgiStreaming.ClientHandler.Send | src/network/ClientHandler.cpp:36-56 | As many of the unsent bytes go onto the wire as the socket has room for; the buffer empties exactly when all have. |
| CgiStreaming.ClientHandler.PushToSendBuffer | src/network/ClientHandler.cpp:291-302 | Bytes in flight join the buffer, in order and within the bound; writing is on; reading the pipe stops exactly when the buffer is larger than 1 MiB. |
| CgiStreaming.ClientHandler.BuildHeaders | src/http/Response.cpp:46-59 | A start line, every header once, a blank line. |
| CgiStreaming.ClientHandler.OnCgiHeadersParsed | src/network/ClientHandler.cpp:319-341 | The response is settled: a block and then all output after the delimiter. The block has the start line of a known `Status`, else the default; a client that reads it finds every header of the process with its value but no `Status`, and a `Connection` that is `keep-alive` if and only if the connection is to be kept; which it is exactly when it was before and the process announced a length or a transfer coding. |
| CgiStreaming.ResponseAnswers | src/network/ClientHandler.cpp:319-336 | What looking up any name, in any letter case, finds in the headers sent: the connection header; nothing for the status; else what the process wrote. |
| CgiStreaming.SettledSays | src/network/ClientHandler.cpp:319-404 | Every response that is settled and not passed on as it stands, error page included, tells a client that reads its headers whether the connection will be kept. |
| CgiStreaming.ClientHandler.OnCgiComplete | src/network/ClientHandler.cpp:304-317 | With bytes unsent, the hand-over to the static path keeps every byte. With none, the response is over, and what the pipe still holds is lost. |
| CgiStreaming.ClientHandler.HandleError | src/network/ClientHandler.cpp:366-391 | Before anything was built, the response becomes the error page and the handler is removed; afterwards nothing changes. |
| CgiStreaming.ClientHandler.HandleCgiResponseWrite | src/network/ClientHandler.cpp:343-360 | As much of the buffer goes out as the socket takes; when it has drained, writing pauses and reading the pipe is on; until then nothing else changes. |
| CgiStreaming.ClientHandler.HandleStaticResponseWrite | src/network/ClientHandler.cpp:261-285 | How much goes out, in order: what the socket takes of the buffer; if that is all of it, either the response finishes, exactly when the body is at its end or its read fails, or the body goes on, with what the socket takes of what was read. |
| CgiStreaming.ClientHandler.FinalizeConnection | src/network/ClientHandler.cpp:393-436 | In any state: keep-alive resets the response state and waits for reading; otherwise, and only then, the connection drains; what was never read, and whether a read failed, is recorded. |
| CgiStreaming.ClientHandler.HandleEvent | src/network/ClientHandler.cpp:105-123 | An event on the client keeps the invariant, whatever the response is stays settled, and the wire only grows; a hangup closes the connection with a prefix of the response sent. |
| CgiStreaming.CGIHandler.HandleEvent | src/network/handlers/CGIHandler.cpp:20-27 | An event on the pipe, at any time the handler is attached, keeps the invariant and sends nothing. A hangup detaches the handler; it ends the response exactly when the buffer is empty, and then cuts off exactly what the pipe holds. |
| CgiStreaming.CGIHandler.HandleRead | src/network/handlers/CGIHandler.cpp:29-90 | One read keeps the invariant, with its cause for which response it is, and makes progress: bytes leave the pipe or the handler is detached; only with an overfull buffer is nothing read, and then reading stops. |
| CgiStreaming.CGIHandler.ReceivedHeader | src/network/handlers/CGIHandler.cpp:40-90 | A read of the headers leaves the response open exactly while no read was empty or failed, at most 8192 bytes came, and the headers have not ended; otherwise it settles it: as an error exactly when reading ended or failed, too much came, or the headers are malformed, and else as built from the whole output. |
| CgiStreaming.OutputHeaders | src/network/handlers/CGIHandler.cpp:64-89 | The headers, and where the body starts, are those of the whole output, however the pipe was read. |
| CgiStreaming.ShortOutputNeverFails | src/network/handlers/CGIHandler.cpp:58-80 | Output with complete, well-formed headers and at most 8192 bytes is never refused, however the pipe is read, unless a read fails. |
| CgiStreaming.CutsDecideExactlyLongOutput | src/network/handlers/CGIHandler.cpp:58-80 | Output that answers can be refused by some way of reading the pipe exactly when it is longer than 8192 bytes. |
| CgiStreaming.HandleBatch | src/network/EventDispatcher.cpp:134-150 | Events reported together and handled in either order: bytes are cut off exactly when a hangup is reported of a pipe that is not watched and not empty, and the socket's event comes first and takes everything unsent; what the reads of the headers return is a function of the output and the batch. |
| CgiStreaming.StaleHangupLosesOutput | src/network/ClientHandler.cpp:304-360 | An input for that: any output larger than 1 MiB and one read, passed on as it stands, ends with bytes lost and no failed read. |
| CgiStreaming.HangupLeavesUnanswered | src/network/ClientHandler.cpp:304-317 | An input that gets no response at all: any output of at most one read without complete headers, after which the process ends. |
| CgiStreaming.Finish | src/network/ClientHandler.cpp:261-360 | As long as both ends are ready and nothing fails, in any order and amounts, the response finishes and all of it is sent; and what it said of the connection is what is done with it. |
| CgiStreaming.Serve | src/network/ClientHandler.cpp:261-360 | Any number of batches with any answers of the kernel. A finished response is the output, the page or the built response, chosen by `SettledAs` from the reads of the headers, themselves a function of output and script; its `Connection` header, as a client reads it, is `keep-alive` if and only if the connection is reset and not drained; it is on the wire but for the bytes lost, and bytes are lost without a failed read if and only if a hangup was handled with nothing unsent and bytes in the pipe, which needs the socket's event first. Nothing is sent only if the output has no complete headers. Otherwise a prefix was sent; an empty buffer implies the pipe is watched, a non-empty one that the client is; the buffer is bounded. A close needs a hangup of the socket, and a script with both ends ready finishes the response within a number of batches bounded by the sizes of output and response. |
| EventDispatching.EventDispatcher.RegisterHandler | src/network/EventDispatcher.cpp:48-55 | A handler on a descriptor that no handler in service has, though one waiting for deletion may have had its number, comes into service, watched for reading; a missing or closed one changes nothing. |
| EventDispatching.EventDispatcher.RemoveHandler | src/network/EventDispatcher.cpp:57-66 | The handler leaves service with its kernel mask cleared and waits for deletion, also when removed twice. |
| EventDispatching.EventDispatcher.UpdateEventMask | src/network/EventDispatcher.cpp:78-85 | The kernel is told exactly when the mask differs, and its mask of every handler in service equals the shadow. |
| EventDispatching.EventDispatcher.DisableRead | src/network/EventDispatcher.cpp:96-100 | Only interest in reading is dropped; shadow and kernel stay equal. |
| EventDispatching.EventDispatcher.CleanUpGarbage | src/network/EventDispatcher.cpp:68-74 | Each waiting handler is deleted once and none waits afterwards, if no destructor removes a handler. |
| EventDispatching.EventDispatcher.Dispatch | src/network/EventDispatcher.cpp:134-150 | Events are handled in the order of the batch; each reaches only a handler then in service and undeleted, and reaches every handler that stays in service, as often as it is listed; nothing is deleted meanwhile. |
| EventDispatching.EventDispatcher.HandleBatch | src/network/EventDispatcher.cpp:134-153 | A batch and its clean-up keep the invariant: active and waiting sets disjoint, masks equal to the kernel's, nothing left waiting. |
| EventDispatching.EventDispatcher.Destroy | src/network/EventDispatcher.cpp:34-41 | Shutting down deletes every handler, in service or waiting, exactly once, if no destructor removes a handler. |
| ConfigLexer.Lexer.Run | src/config/pipeline/Lexer.cpp:23-38 | On every text, broken quotes included, the loop stops with the cursor at most one past the end and adds exactly the tokens of the text. |
| ConfigLexer.Lexer.HandleQuoted | src/config/pipeline/Lexer.cpp:63-75 | A quoted string becomes one token; without a closing quote nothing is added and the text is read to its end. |
| ConfigLexer.Lexer.HandleBare | src/config/pipeline/Lexer.cpp:77-84 | A bare value becomes one token and is never empty, so the test for that never fires. |
| ConfigLexer.Lexer.IdentifyLastToken | src/config/pipeline/Lexer.cpp:97-108 | The last token becomes a number exactly when it holds digits only, the empty string included. |
| ConfigLexer.Tokenize | src/config/pipeline/Lexer.cpp:16-21 | The tokens of a text. |
| ConfigLexer.LexesLayout | src/config/pipeline/Lexer.cpp:23-108 | However a text is laid out, with any blanks and comments between braces, semicolons and values, and values quoted or bare, it is lexed to the tokens it is written for: each brace and semicolon as itself, a value as a number exactly when it is all digits. |
| ConfigLexer.EveryLayout | src/config/pipeline/Lexer.cpp:23-108 | And every text is such a layout, perhaps with a last quote that is never closed; so this is all the lexer does. |
| ConfigLexer.CommentLine | src/config/pipeline/Lexer.cpp:40-43 | A comment up to the end of its line changes nothing. |
| ConfigLexer.LexInvertsPrint | src/config/pipeline/Lexer.cpp:23-108 | Lexing the printed form of any tokens the lexer can produce gives them back, and the end-of-file token. |
| ConfigLexer.LexGivesLexerOutput | src/config/pipeline/Lexer.cpp:23-38 | On every text: producible tokens, at most one broken quote before the end, and the end-of-file token last and only there. |
| ConfigLexer.RelexIsStable | src/config/pipeline/Lexer.cpp:23-108 | Printing what was lexed and lexing it again gives the same tokens, for every text without a broken quote. |
| ConfigGrammar.ServersSound | src/config/pipeline/Parser.cpp:65-118 | What the parser accepts is derivable, every token being used exactly once and in order. |
| ConfigGrammar.ServersComplete | src/config/pipeline/Parser.cpp:65-118 | Every derivable token array is accepted with its derivation. |
| ConfigGrammar.ParsesExactlyDerivable | src/config/pipeline/Parser.cpp:65-118 | Both directions, for every token array whose end-of-file token is last and only there; so the grammar is unambiguous. |
| ConfigParsing.Parser.TakeValues | src/config/pipeline/Parser.cpp:112-115 | Takes the longest run of values at the cursor and stops before the end. |
| ConfigParsing.Parser.HandleDirective | src/config/pipeline/Parser.cpp:104-118 | Reads a directive exactly when the grammar has one there, and leaves the cursor after it. |
| ConfigParsing.Parser.HandleLocationBlock | src/config/pipeline/Parser.cpp:83-102 | Reads a location, with one or more arguments, and adds to the current server a child with those arguments and the location's directives. |
| ConfigParsing.Parser.HandleStatement | src/config/pipeline/Parser.cpp:76-81 | Reads a statement and adds it to the current server, merged or as a child. |
| ConfigParsing.Parser.HandleServerBlock | src/config/pipeline/Parser.cpp:65-74 | The cursor parser terminates on every token array whose end-of-file token is last and only there, and accepts what the grammar accepts, with the nodes of the derivation. |
| ConfigParsing.MergedAppend | src/config/pipeline/Parser.cpp:47-57 | Adding directives one by one merges arguments of the same name in source order. |
| ConfigParsing.ArgumentsLand | src/config/pipeline/Parser.cpp:47-57 | The arguments of each directive land together, in order, after those of earlier directives of the same name. |
| ConfigParsing.ArgumentsComeFrom | src/config/pipeline/Parser.cpp:47-57 | Conversely, every merged argument is one argument of exactly one directive. |
| ConfigLoading.Load | src/config/pipeline/Parser.cpp:10-118 | A text is accepted exactly when it is written for a syntax tree. Then the nodes are built from that tree: one for each server, in order, with a child for each of its locations, in order and with its arguments, and each with its own directives merged. And every value of the text, other than the first of its statement, is at exactly one place of one node, and no place holds anything else. |
| ConfigLoading.NodesBuilt | src/config/pipeline/Parser.cpp:65-110 | The nodes of a tree: one for each server and one child for each location, in order, with name and arguments; and under each directive's name its arguments after those of the earlier ones. |
| ConfigLoading.NodesPlaced | src/config/pipeline/Parser.cpp:47-118 | Conservation: labelling tokens with places is one-to-one between the values after the first of each statement and the argument places of the nodes. |
| ConfigLoading.WrittenConfigLoads | src/config/pipeline/Parser.cpp:65-118 | Any servers, locations and directives given as plain words, laid out in a text in any way, are what the text is written for, and nothing else is. |
| ConfigLoading.LoadsExactlyDerivable | src/config/pipeline/Parser.cpp:65-118 | A text is accepted exactly when its tokens derive from the grammar. |
| ConfigLoading.ConfigRoundTrip | src/config/pipeline/Lexer.cpp:23-108 | Laying out the tokens of any tree in a text in any way, lexing and parsing it gives the tree back and no other. |
| Arguments.GetVariableLength | src/config/arguments/ArgumentFactory.cpp:39-45 | The length of the longest run of variable characters at a position. |
| Arguments.VariableChars | src/config/arguments/ArgumentFactory.cpp:35-37 | Exactly the small letters, the digits and the underscore are variable characters. |
| Arguments.TruthValueMeans | src/config/arguments/Bool.cpp:17-28 | `true`, `on`, `yes` and `1` are true, `false`, `off`, `no` and `0` false, each in any letter case; no other string is a truth value. |
| Arguments.SplitRefuses | src/config/arguments/ArgumentFactory.cpp:61-86 | A string is refused exactly when some `$` has no variable character after it. |
| Arguments.SplitPrints | src/config/arguments/ArgumentFactory.cpp:61-86 | The pieces, printed with a `$` before each variable, are the string; no piece is empty and no text holds a `$`. |
| Arguments.SplitEvaluates | src/config/arguments/ConcatenatedValue.cpp:38-45 | The pieces evaluate to the left-to-right substitution, whatever the variables hold. |
| Arguments.ArgumentMeansSubstitution | src/config/arguments/ArgumentFactory.cpp:47-87 | For every string: it is accepted exactly when every `$` has a name, and evaluates, in whichever form, to its left-to-right substitution, except that a string for a truth value evaluates to the name of that value. |
| Arguments.HandleStringVariable | src/config/arguments/ArgumentFactory.cpp:47-87 | On every string the method gives that argument, or refuses. |
| Arguments.ConcatenatedValue.Evaluate | src/config/arguments/ConcatenatedValue.cpp:38-45 | The values of the pieces, in order. |
| Locations.RFind | src/config/ServerBlockDetails.cpp:45 | The last occurrence at or before a position, also when the position wrapped past the end. |
| Locations.BestMatchLocation | src/config/ServerBlockDetails.cpp:18-55 | The path itself, else the path with a slash, else the longest key ending in a slash that is a prefix, else the root, else none; the loop terminates. |
| Locations.BestKeyUnique | src/config/ServerBlockDetails.cpp:18-55 | That choice over all configured keys is unique. |
| Locations.BestKeyRanksHighest | src/config/ServerBlockDetails.cpp:18-55 | The choice is the configured key of the highest rank: the path, the path with a slash, a directory above it by its length, the root; and none exactly when no key has a rank. |
| Locations.Shorten | src/config/ServerBlockDetails.cpp:43-49 | One truncation skips no configured directory key. |
| Locations.MatchExtensionLocation | src/config/ServerBlockDetails.cpp:57-73 | The first listed path whose location's extension ends the URI. |
| Locations.EndsWithMeans | src/config/ServerBlockDetails.cpp:65-69 | An extension ends a URI exactly when the URI is some text followed by it. |
| Locations.ListedFirst | src/config/ServerBlock.cpp:29-37 | Searching the listed paths finds the first matching extension location of all those declared. |
| Locations.ServerBlock.AddLocation | src/config/ServerBlock.cpp:29-37 | The first declaration of a path is kept; the list of extension paths stays that of the declarations. |
| Locations.ServerBlock.MatchLocation | src/config/ServerBlock.cpp:11-20 | The first-declared extension location that ends the URI, else the prefix choice. |

## Left out

- Sockets, `epoll_ctl` failures, pipes, `fork`, `waitpid`, signals, clocks: a file is what it
  holds, the wire is what was sent, the kernel's interest list is a map.
- RemoveHandler: always succeeds here. In the code it throws when the descriptor is already closed,
  and one answer of the kernel that is modelled leads there: after a failed read with header bytes
  buffered, `handleError` has removed the handler and closed the pipe, the append throws, and the
  dispatcher's second removal runs `epoll_ctl` on the closed descriptor (`EventDispatcher.cpp:57-66`,
  `139-149`). That exception leaves the event loop, which the model does not show.
- HandleChunkedBody: a short write of decoded data loses the rest of it, because `writeToBodyFile`
  does not retry. The contract says exactly which bytes the file then has; the theorems about whole
  chunked requests assume a reliable disk.
- HandleContentLengthBody: after a short write the code waits for another feed; that one comes is
  not part of the statement.
- A second chunked request on one connection: `reset` leaves the decoder done, so such a request is
  misread (`SecondChunkedIsEmpty`), and sessions have at most one. After a failure the decoder's
  state is not compared (`Agrees`), since the parser never consults it again.
- FragmentationInvariance: requires the three words of the request line to be in the head and the
  buffer not to be overfilled, because without either it is false; the exact condition and the
  counterexamples are in the table.
- SessionReadsAll: says what the parser reads when each response is finished before the next read; a
  read while a response is pending is dropped by `feed`.
- ConfigRoundTrip: is about trees that have a layout. A word with a quote in it can only be written
  bare, so it holds no blank or punctuation and does not start with the quote; and no word holds a NUL
  character, which ends the text for the lexer.
- Serve: follows one connection from the set-up of the CGI handler to the end of that response, and
  not into the next request. The client's reads are proved to be off all that time, so the reading
  branch of the client's event handler has no part in it. A process whose pipe hangs up before its
  headers ended gets no response at all, and not 502, as in the code.
- The bound on the send buffer is the larger of the header block and 1 MiB, plus one read of 8192.
- `SEND_ERROR` is never returned by the code, so its branches are not followed; nor is the test for
  a missing handler in `handleCgiResponseWrite`, which is only called with one.
- Dispatch: one batch. Descriptors of handlers in service are distinct; a removed handler is not
  registered again, and is not removed or remasked again once its number belongs to another handler.
  Stale events across batches and reuse of addresses are not modelled.
- Destroy: destructors remove no handlers here. In the code a client's destructor removes a CGI
  handler that is still attached, which at shutdown may already have been deleted, its descriptor
  being lower.
- CleanUpGarbage: the same; a handler that a destructor removes during the clean-up is not modelled.
- Static, upload and delete handlers, directory listings, error pages, MIME and status tables: the
  table of start lines and the error page are parameters of the CGI model.
- Integer arguments, directive classes, block storage, the validator and the mapper: one-branch
  checks.
- Server name matching and the choice of a server by port: routing is a parameter.
- The environment and arguments of CGI processes: string assembly around system calls.
- Locale effects of `isspace`, `isdigit` and `tolower`, and bytes above 127.
