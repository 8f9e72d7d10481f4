/** The request parser object: a growing buffer, a pause for routing once the headers are
    read, and a body written to a temporary file on a disk that may fail or take only part
    of a write. On a reliable disk it does exactly what RequestMachine.dfy says; on any disk
    a Content-Length body loses and invents nothing. */
module RequestParsing {
  import opened Base
  import opened Text
  import opened Headers
  import opened Requests
  import opened RequestMachine
  import C = ChunkCodec
  import opened ChunkedBodyParsing

  class RequestParser {
    const maxHeaderSize: nat
    const disk: Disk
    const request: Request
    const chunkParser: ChunkedBodyParser

    var state: ParserState
    var errorStatus: HttpStatus
    var buffer: string
    var contentLength: nat
    var bytesWrittenToBody: nat
    var isContentChunked: bool

    /** What the body file holds. */
    ghost function BodyBytes(): string
      reads request, request.body
    {
      if request.body == null then "" else request.body.contents
    }

    ghost function Value(): Parser
      reads this, request, request.body, chunkParser
    {
      Parser(state, errorStatus, buffer, maxHeaderSize, contentLength, bytesWrittenToBody, isContentChunked,
             request.requestLine, request.headers,
             if request.body == null then None else Some(request.body.contents),
             request.route, chunkParser.State())
    }

    ghost predicate Valid()
      reads this, request, request.body, chunkParser
    {
      && chunkParser.Valid()
      && contentLength < SIZE_LIMIT
      && (request.body != null ==> request.body.disk == disk)
      && (state.READING_HEADERS? || state.HEADERS_READY? ==> request.body == null && bytesWrittenToBody == 0)
      && (state.READING_HEADERS? ==> request.headers == map[])
      && (state.READING_BODY? && !isContentChunked ==>
          bytesWrittenToBody == |BodyBytes()| <= contentLength && contentLength > 0)
      && (state.REQUEST_READY? && !isContentChunked ==>
          bytesWrittenToBody == |BodyBytes()| == contentLength)
    }

    /** The machine's bound: everything decoded and everything buffered fit a `size_t`. */
    ghost predicate Fits(chunk: string)
      reads this, chunkParser
    {
      chunkParser.totalBytesWritten + |buffer| + |chunk| < SIZE_LIMIT
    }

    /** What a chunked body does on any disk with the input `input`, the decoder being `d` and the
        file holding `contents`, `written` bytes having been written: the buffer loses exactly the
        bytes the decoder uses, and the file grows by the decoded bytes, except that a short write
        drops the rest of them. A failure of the decoder or of the disk refuses the request. */
    ghost predicate TookChunked(d: C.Decoder, input: string, contents: string, written: nat)
      reads this, request, request.body, chunkParser
    {
      match C.Feed(d, input)
      case Failed(status) => state.ERROR? && (errorStatus == status || errorStatus == InternalServerError)
      case Fed(d', out, used) =>
        if state.ERROR? then errorStatus == InternalServerError else
        && state == (if d'.phase.Done? then REQUEST_READY else READING_BODY)
        && buffer == input[used..] && chunkParser.State() == d'
        && written <= bytesWrittenToBody <= written + |out|
        && BodyBytes() == contents + out[..bytesWrittenToBody - written]
    }

    constructor (request: Request, disk: Disk, maxHeaderSize: nat)
      modifies request
      ensures this.request == request && this.disk == disk && this.maxHeaderSize == maxHeaderSize
      ensures fresh(chunkParser) && Valid()
      ensures Value() == Initial(maxHeaderSize, old(request.requestLine))
    {
      this.maxHeaderSize, this.request, this.disk := maxHeaderSize, request, disk;
      chunkParser := new ChunkedBodyParser();
      buffer := "";
      new;
      Reset();
    }

    method Reset()
      modifies this, request
      ensures Value() == RequestMachine.Reset(old(Value()))
      ensures old(chunkParser.Valid()) ==> Valid()
    {
      state, errorStatus := READING_HEADERS, OK;
      contentLength, bytesWrittenToBody, isContentChunked := 0, 0, false;
      request.Clear();
    }

    method SetError(status: HttpStatus)
      modifies this, request
      ensures Value() == Refuse(old(Value()), status)
      ensures old(chunkParser.Valid()) ==> Valid()
    {
      Reset();
      errorStatus := status;
      state := ERROR;
    }

    /** Declares the request complete and rewinds its body, which may fail. */
    method SetRequestReady()
      requires chunkParser.Valid() && contentLength < SIZE_LIMIT
      requires request.body != null ==> request.body.disk == disk
      requires !isContentChunked ==> bytesWrittenToBody == |BodyBytes()| == contentLength
      modifies this, request
      ensures Valid()
      ensures Value() == old(Value()).(state := REQUEST_READY)
           || (!disk.reliable && state.ERROR? && errorStatus == InternalServerError)
      ensures old(request.body == null) ==> Value() == old(Value()).(state := REQUEST_READY)
      ensures request.body == if state.ERROR? then null else old(request.body)
    {
      state := REQUEST_READY;
      if request.body != null && request.body.isOpen {
        var ok := request.body.Rewind();
        if !ok {
          SetError(InternalServerError);
        }
      }
    }

    method ParseHeaders()
      requires Valid() && state.READING_HEADERS?
      modifies this, request
      ensures Valid()
      ensures Value() == RequestMachine.ParseHeaders(old(Value()))
      ensures !state.READING_BODY? && request.body == null && |buffer| <= old(|buffer|)
    {
      hide HeaderEnd;
      hide HeaderSection;
      hide ParseStartLine;
      hide ParseSection;
      hide ContentLength;
      hide IsContentChunked;
      hide StripLeading;
      hide DelimiterAt;
      hide IndexOf;
      var stripped := StripLeading(buffer);
      if stripped == "" && buffer != "" {
        if |buffer| > 1024 {
          buffer := "";
        }
        return;
      }
      buffer := stripped;
      if |buffer| > maxHeaderSize {
        SetError(BadRequest);
        return;
      }
      var headerEnd := FindHeaderEnd(buffer);
      if headerEnd.None? {
        return;
      }
      DelimiterHasFeed(buffer, headerEnd.value);
      ReadHeaders(headerEnd.value);
    }

    /** The second half of `ParseHeaders`: the buffer holds a whole head, ending at `d`. */
    method ReadHeaders(d: Delimiter)
      requires Valid() && state.READING_HEADERS? && d.End() <= |buffer| && '\n' in buffer
      modifies this, request
      ensures Valid()
      ensures Value() == HeadFound(old(Value()), old(buffer), d)
      ensures !state.READING_BODY? && request.body == null && |buffer| <= old(|buffer|)
    {
      hide HeaderSection;
      hide ParseStartLine;
      hide ParseSection;
      hide ContentLength;
      hide IsContentChunked;
      state := HEADERS_READY;
      request.requestLine := ParseStartLine(buffer);
      if request.requestLine.httpMethod.UNKNOWN? {
        SetError(BadRequest);
        return;
      }
      var headerSection := HeaderSection(buffer, d);
      var ok;
      ok, request.headers := Parse(headerSection, request.headers, false);
      if !ok {
        SetError(BadRequest);
        return;
      }
      TakeHead(d);
    }

    /** The head was read: it leaves the buffer, and the parser pauses if there is to be a body. */
    method TakeHead(d: Delimiter)
      requires chunkParser.Valid() && state.HEADERS_READY? && d.End() <= |buffer|
      requires request.body == null && bytesWrittenToBody == 0
      modifies this, request
      ensures Valid() && (state.HEADERS_READY? || state.REQUEST_READY?)
      ensures Value() == HeadRead(old(Value()), old(buffer), d, old(request.requestLine), old(request.headers))
      ensures state.HEADERS_READY? <==>
        ContentLength(old(request.headers)) > 0 || Get(old(request.headers), "Transfer-Encoding").Some?
      ensures request.body == null && |buffer| <= old(|buffer|)
    {
      hide ContentLength;
      hide Get;
      contentLength := ContentLength(request.headers);
      isContentChunked := IsContentChunked(request.headers);
      var isBodyExpected := contentLength > 0 || isContentChunked;
      buffer := buffer[d.End()..];
      if !isBodyExpected {
        SetRequestReady();
      }
    }

    /** One attempt to move buffered bytes into the file. What the file and the buffer hold
        together does not change, and the body is complete exactly when the file has the
        announced length. */
    method HandleContentLengthBody()
      requires Valid() && state.READING_BODY? && !isContentChunked
      requires request.body != null
      modifies this, request, request.body
      ensures Valid() && chunkParser.State() == old(chunkParser.State())
      ensures !state.ERROR? ==>
        && request.body == old(request.body) && old(BodyBytes()) <= BodyBytes()
        && BodyBytes() + buffer == old(BodyBytes() + buffer)
        && contentLength == old(contentLength) && !isContentChunked
        && state == (if |BodyBytes()| == contentLength then REQUEST_READY else READING_BODY)
      ensures state.ERROR? ==> !disk.reliable && errorStatus == InternalServerError
      ensures disk.reliable ==> Value() == ParseContentLengthBody(old(Value()))
      ensures request.body == old(request.body) || request.body == null
    {
      MoveNothing(BodyBytes(), buffer);
      if bytesWrittenToBody == contentLength {
        SetRequestReady();
        return;
      }
      var bytesLeftToWrite := contentLength - bytesWrittenToBody;
      var bytesToWrite := Min(|buffer|, bytesLeftToWrite);
      if bytesToWrite == 0 {
        return;
      }
      ghost var contents, pending := BodyBytes(), buffer;
      var written := request.body.Write(buffer[..bytesToWrite]);
      if written < 0 {
        SetError(InternalServerError);
        return;
      }
      MoveSome(contents, pending, written, bytesToWrite);
      buffer := buffer[written..];
      bytesWrittenToBody := bytesWrittenToBody + written;
      if bytesWrittenToBody == contentLength {
        SetRequestReady();
      }
    }

    method WriteToBodyFile(data: string) returns (ok: bool)
      requires Valid() && state.READING_BODY? && isContentChunked
      requires request.body != null
      modifies this, request, request.body
      ensures Valid() && chunkParser.State() == old(chunkParser.State())
      ensures ok <==> !state.ERROR?
      ensures disk.reliable ==>
        && ok && request.body == old(request.body)
        && Value() == old(Value()).(body := Some(old(BodyBytes()) + data), written := old(bytesWrittenToBody) + |data|)
      ensures ok ==>
        && request.body == old(request.body) && old(bytesWrittenToBody) <= bytesWrittenToBody
        && bytesWrittenToBody <= old(bytesWrittenToBody) + |data|
        && BodyBytes() == old(BodyBytes()) + data[..bytesWrittenToBody - old(bytesWrittenToBody)]
        && Value() == old(Value()).(body := Some(BodyBytes()), written := bytesWrittenToBody)
      ensures !ok ==> request.body == null && errorStatus == InternalServerError
    {
      var written := request.body.Write(data);
      if written < 0 {
        SetError(InternalServerError);
        return false;
      }
      assert data[..|data|] == data;
      bytesWrittenToBody := bytesWrittenToBody + written;
      return true;
    }

    /** Decoded bytes are written, if there are any. */
    method StoreDecoded(data: string) returns (ok: bool)
      requires Valid() && state.READING_BODY? && isContentChunked
      requires request.body != null
      modifies this, request, request.body
      ensures Valid() && chunkParser.State() == old(chunkParser.State())
      ensures ok <==> !state.ERROR?
      ensures ok ==>
        && request.body == old(request.body) && old(bytesWrittenToBody) <= bytesWrittenToBody
        && bytesWrittenToBody <= old(bytesWrittenToBody) + |data|
        && BodyBytes() == old(BodyBytes()) + data[..bytesWrittenToBody - old(bytesWrittenToBody)]
        && Value() == old(Value()).(body := Some(BodyBytes()), written := bytesWrittenToBody)
      ensures !ok ==> request.body == null && errorStatus == InternalServerError
      ensures disk.reliable ==> ok && bytesWrittenToBody == old(bytesWrittenToBody) + |data|
    {
      if data == "" {
        assert BodyBytes() + data[..0] == BodyBytes();
        return true;
      }
      ok := WriteToBodyFile(data);
    }

    /** After decoding with status `status`: a failure refuses, the end makes the request ready. */
    method FinishChunked(status: ChunkStatus)
      requires Valid() && state.READING_BODY? && isContentChunked && request.body != null
      modifies this, request
      ensures Valid() && chunkParser.State() == old(chunkParser.State())
      ensures status == CHUNK_ERROR ==> Value() == Refuse(old(Value()), old(chunkParser.errorStatus))
      ensures status == CHUNK_DONE ==>
        || Value() == old(Value()).(state := REQUEST_READY)
        || (!disk.reliable && state.ERROR? && errorStatus == InternalServerError)
      ensures status == CHUNK_CONTINUE ==> Value() == old(Value())
      ensures request.body == if state.ERROR? then null else old(request.body)
    {
      if status == CHUNK_ERROR {
        SetError(chunkParser.errorStatus);
        return;
      }
      if status == CHUNK_DONE {
        SetRequestReady();
      }
    }

    method HandleChunkedBody()
      requires Valid() && state.READING_BODY? && isContentChunked && Fits("")
      requires request.body != null
      modifies this, request, request.body, chunkParser
      ensures Valid()
      ensures state.READING_BODY? || state.REQUEST_READY? || state.ERROR?
      ensures disk.reliable ==> Agrees(Value(), ParseChunkedBody(old(Value())))
      ensures TookChunked(old(chunkParser.State()), old(buffer), old(BodyBytes()), old(bytesWrittenToBody))
      ensures request.body == old(request.body) || request.body == null
    {
      hide C.Feed;
      ghost var r := C.Feed(chunkParser.State(), buffer);
      var status, decodedData, bytesConsumed := chunkParser.Parse(buffer, "");
      assert r.Fed? ==> decodedData == "" + r.out == r.out;
      buffer := buffer[bytesConsumed..];
      assert decodedData[..|decodedData|] == decodedData;
      var ok := StoreDecoded(decodedData);
      if !ok {
        return;
      }
      FinishChunked(status);
    }

    method ParseBody()
      requires Valid() && state.READING_BODY? && Fits("")
      modifies this, request, request.body, chunkParser
      ensures Valid()
      ensures !old(isContentChunked) ==> chunkParser.State() == old(chunkParser.State())
      ensures state.READING_BODY? || state.REQUEST_READY? || state.ERROR?
      ensures !old(isContentChunked) && !state.ERROR? ==>
        && request.body != null && old(BodyBytes()) <= BodyBytes()
        && BodyBytes() + buffer == old(BodyBytes() + buffer)
        && contentLength == old(contentLength) && !isContentChunked
        && state == (if |BodyBytes()| == contentLength then REQUEST_READY else READING_BODY)
      ensures !old(isContentChunked) && state.ERROR? ==> !disk.reliable && errorStatus == InternalServerError
      ensures disk.reliable ==> Agrees(Value(), RequestMachine.ParseBody(old(Value())))
      ensures old(isContentChunked) ==>
        TookChunked(old(chunkParser.State()), old(buffer), old(BodyBytes()), old(bytesWrittenToBody))
      ensures
        || request.body == old(request.body) || request.body == null
        || (old(request.body) == null && fresh(request.body))
    {
      hide ParseContentLengthBody;
      hide ParseChunkedBody;
      if request.body == null {
        EmptyBodyFile(Value());
        request.body := new TempFile(disk);
      }
      if !request.body.isOpen {
        var nowOpen := request.body.Open();
        if !nowOpen {
          SetError(InternalServerError);
          return;
        }
      }
      if isContentChunked {
        HandleChunkedBody();
      } else {
        HandleContentLengthBody();
      }
    }

    /** Resumes after routing: the body limit is checked against the announced length, or
        handed to the chunk decoder. */
    method ProceedReadingBody()
      requires Valid() && Fits("") && MaxAllowedContentSize(request.route) < SIZE_LIMIT
      modifies this, request, request.body, chunkParser
      ensures Valid()
      ensures disk.reliable ==> Agrees(Value(), Proceed(old(Value())))
      ensures old(state).HEADERS_READY? && old(isContentChunked) ==>
        TookChunked(old(chunkParser.State()).(maxBody := old(MaxAllowedContentSize(request.route))), old(buffer), "", 0)
      ensures old(state).HEADERS_READY? && old(!isContentChunked && contentLength > 0) && !state.ERROR? ==>
        && BodyBytes() + buffer == old(buffer)
        && contentLength == old(contentLength) <= old(MaxAllowedContentSize(request.route))
        && !isContentChunked
        && state == (if |BodyBytes()| == contentLength then REQUEST_READY else READING_BODY)
      ensures old(state).HEADERS_READY? && old(!isContentChunked) && state.ERROR? ==>
        if old(contentLength > MaxAllowedContentSize(request.route)) then errorStatus == PayloadTooLarge
        else !disk.reliable && errorStatus == InternalServerError
      ensures old(state.HEADERS_READY? && !isContentChunked && contentLength > MaxAllowedContentSize(request.route)) ==>
        state.ERROR?
      ensures
        || request.body == old(request.body) || request.body == null
        || (old(request.body) == null && fresh(request.body))
    {
      if !state.HEADERS_READY? {
        return;
      }
      state := READING_BODY;
      if isContentChunked {
        chunkParser.SetMaxBodySize(MaxAllowedContentSize(request.route));
        ParseBody();
        return;
      }
      if contentLength > 0 {
        if contentLength > MaxAllowedContentSize(request.route) {
          SetError(PayloadTooLarge);
          return;
        }
        ParseBody();
        return;
      }
      SetRequestReady();
    }

    /** Takes in bytes from the connection. They are dropped unless the parser is reading
        headers or a body. */
    method Feed(chunk: string)
      requires Valid() && Fits(chunk)
      modifies this, request, request.body, chunkParser
      ensures Valid()
      ensures disk.reliable || !old(state).READING_BODY? ==>
        Agrees(Value(), RequestMachine.Feed(old(Value()), chunk))
      ensures old(state.READING_BODY? && isContentChunked) ==>
        TookChunked(old(chunkParser.State()), old(buffer) + chunk, old(BodyBytes()), old(bytesWrittenToBody))
      ensures old(state.READING_BODY? && !isContentChunked) && state.ERROR? ==>
        !disk.reliable && errorStatus == InternalServerError
      ensures !old(state).READING_BODY? ==> |buffer| <= old(|buffer|) + |chunk|
      ensures old(!state.READING_BODY? || !isContentChunked) ==> chunkParser.State() == old(chunkParser.State())
      ensures old(state).READING_BODY? ==> state.READING_BODY? || state.REQUEST_READY? || state.ERROR?
      ensures old(state.READING_BODY? && !isContentChunked) && !state.ERROR? ==>
        && request.body != null && old(BodyBytes()) <= BodyBytes()
        && BodyBytes() + buffer == old(BodyBytes() + buffer) + chunk
        && contentLength == old(contentLength) && !isContentChunked
        && state == (if |BodyBytes()| == contentLength then REQUEST_READY else READING_BODY)
      ensures
        || request.body == old(request.body) || request.body == null
        || (old(request.body) == null && fresh(request.body))
    {
      hide RequestMachine.ParseHeaders;
      hide RequestMachine.ParseBody;
      if state.READING_HEADERS? {
        buffer := buffer + chunk;
        ParseHeaders();
      }
      if state.READING_BODY? {
        ghost var contents := BodyBytes();
        assert contents + (buffer + chunk) == contents + buffer + chunk;
        buffer := buffer + chunk;
        ParseBody();
      }
    }
  }

  lemma MoveNothing(contents: string, pending: string)
    ensures pending[..0] == "" && pending[0..] == pending && contents + "" == contents
  {
  }

  // Moving a prefix from the buffer to the end of the file keeps the two together unchanged.
  lemma MoveSome(contents: string, pending: string, n: nat, m: nat)
    requires n <= m <= |pending|
    ensures pending[..m][..n] == pending[..n]
    ensures contents + pending[..n] + pending[n..] == contents + pending
  {
    assert pending == pending[..n] + pending[n..];
  }
}
