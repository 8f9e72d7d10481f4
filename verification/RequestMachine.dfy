/** What the request parser does, as functions on its state when the disk never fails.
    RequestParser.dfy proves the parser object against these functions. */
module RequestMachine {
  import opened Base
  import opened Text
  import opened Headers
  import opened Requests
  import C = ChunkCodec

  datatype ParserState = READING_HEADERS | HEADERS_READY | READING_BODY | REQUEST_READY | ERROR

  datatype Parser = Parser(
    state: ParserState,
    errorStatus: HttpStatus,
    buffer: string,
    maxHeaderSize: nat,
    contentLength: nat,
    written: nat,
    chunked: bool,
    line: StartLine,
    headers: HeaderMap,
    body: Option<string>,
    route: Route,
    decoder: C.Decoder)

  function Initial(maxHeaderSize: nat, line: StartLine): Parser {
    Parser(READING_HEADERS, OK, "", maxHeaderSize, 0, 0, false, Cleared(line), map[], None, NO_ROUTE, C.Fresh(0))
  }

  /** Everything but the buffer and the chunk decoder starts over. */
  function Reset(p: Parser): Parser {
    p.(state := READING_HEADERS, errorStatus := OK, contentLength := 0, written := 0, chunked := false,
       line := Cleared(p.line), headers := map[], body := None, route := NO_ROUTE)
  }

  function Refuse(p: Parser, status: HttpStatus): Parser {
    Reset(p).(state := ERROR, errorStatus := status)
  }

  /** After a reset a parser stands where a new one does, but for the bytes it holds and the state its
      chunk decoder was left in. */
  lemma ResetIsInitial(p: Parser)
    ensures Reset(p) == Initial(p.maxHeaderSize, p.line).(buffer := p.buffer, decoder := p.decoder)
    ensures forall status :: Refuse(p, status) == Reset(p).(state := ERROR, errorStatus := status)
  {
  }

  // ----------------------------------------------------------------------------- the head

  predicate IsLineEnd(c: char) {
    c == '\r' || c == '\n'
  }

  function StripLeading(s: string): (r: string)
    ensures |r| <= |s|
    ensures r != "" ==> !IsLineEnd(r[0])
  {
    if s != "" && IsLineEnd(s[0]) then StripLeading(s[1..]) else s
  }

  /** What goes is the longest run of line ends at the front, and nothing else. */
  lemma {:induction false} StripLeadingDrops(s: string)
    ensures var r := StripLeading(s);
      && r == s[|s| - |r|..] && (forall k :: 0 <= k < |s| - |r| ==> s[k] == '\r' || s[k] == '\n')
      && (r != "" ==> r[0] != '\r' && r[0] != '\n')
    decreases |s|
  {
    if s != "" && IsLineEnd(s[0]) {
      StripLeadingDrops(s[1..]);
    }
  }

  function Substr(s: string, pos: nat, n: nat): string
    requires pos <= |s|
  {
    s[pos..Min(|s|, pos + n)]
  }

  /** The header lines of a buffer: from after its first line feed, for a length computed
      with wrapping arithmetic. */
  function HeaderSection(t: string, d: Delimiter): string
    requires '\n' in t
  {
    var start := IndexOf(t, '\n') + 1;
    Substr(t, start, AddSize(SubSize(d.start, start), SubSize(d.length, 2)))
  }

  /** A parsed head: request line, headers, and what they say about the body. */
  datatype Head = Head(line: StartLine, headers: HeaderMap) | BadHead

  function ReadHead(t: string, d: Delimiter, known: HeaderMap): Head
    requires '\n' in t
  {
    var line := ParseStartLine(t);
    var parsed := ParseSection(HeaderSection(t, d), known, false);
    if line.httpMethod.UNKNOWN? || !parsed.ok then BadHead else Head(line, parsed.headers)
  }

  predicate HasBody(h: HeaderMap) {
    ContentLength(h) > 0 || IsContentChunked(h)
  }

  function HeadRead(p: Parser, t: string, d: Delimiter, line: StartLine, headers: HeaderMap): Parser
    requires d.End() <= |t|
  {
    p.(state := if HasBody(headers) then HEADERS_READY else REQUEST_READY,
       buffer := t[d.End()..], line := line, headers := headers,
       contentLength := ContentLength(headers), chunked := IsContentChunked(headers))
  }

  ghost function ParseHeaders(p: Parser): Parser
  {
    var t := StripLeading(p.buffer);
    if t == "" && p.buffer != "" then
      if |p.buffer| > 1024 then p.(buffer := "") else p
    else if |t| > p.maxHeaderSize then Refuse(p.(buffer := t), BadRequest)
    else
      match HeaderEnd(t)
      case None => p.(buffer := t)
      case Some(d) =>
        DelimiterHasFeed(t, d);
        HeadFound(p.(buffer := t), t, d)
  }

  /** While it waits for a head, a parser holds no more than its limit, or than 1024 blank bytes. */
  lemma WaitingBufferBounded(p: Parser)
    requires p.state.READING_HEADERS? && ParseHeaders(p).state.READING_HEADERS?
    ensures var held := ParseHeaders(p).buffer;
      || |held| <= p.maxHeaderSize
      || (|held| <= 1024 && forall k :: 0 <= k < |held| ==> held[k] == '\r' || held[k] == '\n')
  {
    hide HeaderEnd;
    hide StripLeading;
    hide HeadFound;
    hide Refuse;
    var t := StripLeading(p.buffer);
    if t == "" && p.buffer != "" {
      StripLeadingDrops(p.buffer);
    } else if |t| > p.maxHeaderSize {
      RefusalStops(p.(buffer := t), BadRequest);
    } else if HeaderEnd(t).Some? {
      DelimiterHasFeed(t, HeaderEnd(t).value);
      HeadFoundStops(p.(buffer := t), t, HeaderEnd(t).value);
    }
  }

  lemma RefusalStops(p: Parser, status: HttpStatus)
    ensures !Refuse(p, status).state.READING_HEADERS?
  {
  }

  lemma HeadFoundStops(p: Parser, t: string, d: Delimiter)
    requires d.End() <= |t| && '\n' in t
    ensures !HeadFound(p, t, d).state.READING_HEADERS?
  {
    hide ReadHead;
    hide ParseStartLine;
  }

  /** The whole head is in the buffer `t` and ends at `d`. */
  function HeadFound(p: Parser, t: string, d: Delimiter): Parser
    requires d.End() <= |t| && '\n' in t
  {
    match ReadHead(t, d, p.headers)
    case BadHead => Refuse(p.(line := ParseStartLine(t)), BadRequest)
    case Head(line, headers) => HeadRead(p, t, d, line, headers)
  }

  lemma DelimiterHasFeed(t: string, d: Delimiter)
    requires DelimiterAt(t, d)
    ensures '\n' in t
  {
    DelimiterShape(t, d);
    assert t[FirstFeed(t, d)] == '\n';
  }

  // ----------------------------------------------------------------------------- the body

  function BodyOf(p: Parser): string {
    match p.body case None => "" case Some(b) => b
  }

  /** The state after `n` buffered bytes have moved into the body. */
  function MoveBytes(p: Parser, n: nat): Parser
    requires n <= |p.buffer|
  {
    p.(state := if p.written + n == p.contentLength then REQUEST_READY else p.state,
       buffer := p.buffer[n..], body := Some(BodyOf(p) + p.buffer[..n]), written := p.written + n)
  }

  function ParseContentLengthBody(p: Parser): Parser {
    MoveBytes(p, if p.written <= p.contentLength then Min(|p.buffer|, p.contentLength - p.written) else 0)
  }

  /** The state after the chunk decoder has read the buffer with outcome `r`. */
  function Decoded(p: Parser, r: C.Fed): Parser
    requires r.Fed? ==> r.used <= |p.buffer|
  {
    match r
    case Failed(status) => Refuse(p, status)
    case Fed(d, out, used) =>
      p.(state := if d.phase.Done? then REQUEST_READY else p.state,
         buffer := p.buffer[used..], body := Some(BodyOf(p) + out), written := p.written + |out|, decoder := d)
  }

  function ParseChunkedBody(p: Parser): Parser {
    Decoded(p, C.Feed(p.decoder, p.buffer))
  }

  function ParseBody(p: Parser): Parser {
    if p.chunked then ParseChunkedBody(p) else ParseContentLengthBody(p)
  }

  lemma EmptyBodyFile(p: Parser)
    requires p.body.None?
    ensures ParseBody(p.(body := Some(""))) == ParseBody(p)
  {
  }

  function Proceed(p: Parser): Parser {
    if !p.state.HEADERS_READY? then p
    else
      var q := p.(state := READING_BODY);
      var limit := MaxAllowedContentSize(p.route);
      if p.chunked then ParseBody(q.(decoder := q.decoder.(maxBody := limit)))
      else if p.contentLength > limit then Refuse(q, PayloadTooLarge)
      else if p.contentLength > 0 then ParseBody(q)
      else q.(state := REQUEST_READY)
  }

  ghost function Feed(p: Parser, chunk: string): Parser
  {
    match p.state
    case READING_HEADERS => ParseHeaders(p.(buffer := p.buffer + chunk))
    case READING_BODY => ParseBody(p.(buffer := p.buffer + chunk))
    case _ => p
  }

  /** Equality of parser states, except that the chunk decoder is not compared after a failure:
      what it then holds is never looked at before the parser is discarded. */
  predicate Agrees(v: Parser, w: Parser) {
    v == w.(decoder := v.decoder) && (w.state.ERROR? || v.decoder == w.decoder)
  }
}
