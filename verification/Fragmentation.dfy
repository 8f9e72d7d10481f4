/** How a connection delivers a request to the parser, and why the way the bytes were cut
    does not matter. */
module Fragmentation {
  import opened Base
  import opened Text
  import opened Headers
  import opened Requests
  import opened RequestMachine
  import C = ChunkCodec

  /** Routing: from the request line and headers to the body-size settings that apply. */
  type Router = (StartLine, HeaderMap) -> Route

  /** One read from the connection: feed the bytes and, at the pause, route and go on. */
  ghost function Deliver(p: Parser, fragment: string, router: Router): Parser {
    if p.state.ERROR? then p
    else Continue(Feed(p, fragment), router)
  }

  function Continue(p: Parser, router: Router): Parser {
    if p.state.HEADERS_READY? then Proceed(p.(route := router(p.line, p.headers))) else p
  }

  ghost function DeliverAll(p: Parser, fragments: seq<string>, router: Router): Parser
    decreases |fragments|
  {
    if fragments == [] then p else DeliverAll(Deliver(p, fragments[0], router), fragments[1..], router)
  }

  function Concat(fragments: seq<string>): string {
    if fragments == [] then "" else fragments[0] + Concat(fragments[1..])
  }

  /** What can be observed of a request. Bytes after its end are not part of it. */
  datatype Outcome =
    | Waiting
    | Pausing
    | Receiving(line: StartLine, headers: HeaderMap, soFar: string)
    | Complete(line: StartLine, headers: HeaderMap, body: Option<string>)
    | Refused(status: HttpStatus)

  function View(p: Parser): Outcome {
    match p.state
    case READING_HEADERS => Waiting
    case HEADERS_READY => Pausing
    case READING_BODY => Receiving(p.line, p.headers, BodyOf(p))
    case REQUEST_READY => Complete(p.line, p.headers, p.body)
    case ERROR => Refused(p.errorStatus)
  }

  // ------------------------------------------------- the reference: the whole stream at once

  /** What becomes of a body, given all the bytes received after the head. */
  function BodyOutcome(line: StartLine, h: HeaderMap, limit: nat, received: string): Outcome {
    if IsContentChunked(h) then DecodedOutcome(line, h, C.Feed(C.Fresh(limit), received))
    else if ContentLength(h) == 0 then Complete(line, h, None)
    else if ContentLength(h) > limit then Refused(PayloadTooLarge)
    else if |received| >= ContentLength(h) then Complete(line, h, Some(received[..ContentLength(h)]))
    else Receiving(line, h, received)
  }

  function DecodedOutcome(line: StartLine, h: HeaderMap, r: C.Fed): Outcome {
    match r
    case Failed(status) => Refused(status)
    case Fed(d, out, _) =>
      if d.phase.Done? then Complete(line, h, Some(out)) else Receiving(line, h, out)
  }

  ghost predicate IsWindow(s: string, window: nat) {
    HeaderEnd(s).Some? ==> HeaderEnd(s).value.End() <= window <= |s|
  }

  lemma WindowHasFeed(s: string, window: nat)
    requires IsWindow(s, window) && HeaderEnd(s).Some?
    ensures '\n' in s[..window] && HeaderEnd(s[..window]) == HeaderEnd(s)
  {
    HeaderEndPrefix(s, window);
    DelimiterHasFeed(s[..window], HeaderEnd(s).value);
  }

  /** What becomes of a stream (without leading line ends), given how many of its bytes were
      buffered when the end of the head came in. */
  ghost function Reference(router: Router, maxHeaderSize: nat, s: string, window: nat): Outcome
    requires IsWindow(s, window)
  {
    match HeaderEnd(s)
    case None => if |s| > maxHeaderSize then Refused(BadRequest) else Waiting
    case Some(d) =>
      WindowHasFeed(s, window);
      if window > maxHeaderSize then Refused(BadRequest)
      else
        match ReadHead(s[..window], d, map[])
        case BadHead => Refused(BadRequest)
        case Head(line, h) => BodyOutcome(line, h, MaxAllowedContentSize(router(line, h)), s[d.End()..])
  }

  // ------------------------------------------------------------------------ the body stage

  /** The parser has received `received` after the head and stands where the reference says. */
  ghost predicate InBody(p: Parser, line: StartLine, h: HeaderMap, limit: nat, received: string) {
    && (p.state.READING_BODY? || p.state.REQUEST_READY? || p.state.ERROR?)
    && View(p) == BodyOutcome(line, h, limit, received)
    && (p.state.READING_BODY? ==> MidBody(p, line, h, limit, received))
  }

  ghost predicate MidBody(p: Parser, line: StartLine, h: HeaderMap, limit: nat, received: string) {
    && p.buffer == "" && p.body.Some? && p.line == line && p.headers == h
    && p.chunked == IsContentChunked(h) && p.contentLength == ContentLength(h)
    && (if p.chunked then C.Feed(C.Fresh(limit), received) == C.Fed(p.decoder, p.body.value, |received|)
        else p.body == Some(received) && p.written == |received| < p.contentLength <= limit)
  }

  // A final outcome stays what it is when more bytes arrive.
  lemma OutcomeStable(line: StartLine, h: HeaderMap, limit: nat, received: string, more: string)
    requires !BodyOutcome(line, h, limit, received).Receiving?
    ensures BodyOutcome(line, h, limit, received + more) == BodyOutcome(line, h, limit, received)
  {
    hide C.Feed;
    hide ContentLength;
    hide IsContentChunked;
    if IsContentChunked(h) {
      DecodedStable(C.Fresh(limit), received, more);
    } else if 0 < ContentLength(h) <= limit {
      assert (received + more)[..ContentLength(h)] == received[..ContentLength(h)];
    }
  }

  lemma DecodedStable(d: C.Decoder, received: string, more: string)
    requires C.Feed(d, received).Fed? ==> C.Feed(d, received).d.phase.Done?
    ensures C.Feed(d, received + more) == C.Feed(d, received)
  {
    hide C.Feed;
    C.FeedSplit(d, received, more);
    var r := C.Feed(d, received);
    if r.Fed? {
      C.FeedDone(r.d, more);
      assert r.out + "" == r.out;
    }
  }

  lemma BodyContinues(p: Parser, line: StartLine, h: HeaderMap, limit: nat, received: string, more: string)
    requires InBody(p, line, h, limit, received)
    ensures var q := Feed(p, more);
      InBody(q, line, h, limit, received + more) && !q.state.HEADERS_READY?
  {
    hide MidBody;
    hide BodyOutcome;
    hide ParseBody;
    if !p.state.READING_BODY? {
      OutcomeStable(line, h, limit, received, more);
    } else if p.chunked {
      ChunkedBodyContinues(p, line, h, limit, received, more);
    } else {
      LengthBodyContinues(p, line, h, limit, received, more);
    }
  }

  lemma ChunkedBodyContinues(p: Parser, line: StartLine, h: HeaderMap, limit: nat, received: string, more: string)
    requires MidBody(p, line, h, limit, received) && p.state.READING_BODY? && p.chunked
    ensures InBody(Feed(p, more), line, h, limit, received + more)
  {
    hide C.Feed;
    hide ContentLength;
    hide IsContentChunked;
    C.FeedSplit(C.Fresh(limit), received, more);
    assert p.buffer + more == more;
    var r := C.Feed(p.decoder, more);
    assert Feed(p, more) == Decoded(p.(buffer := more), r);
    if r.Fed? && !r.d.phase.Done? {
      assert r.used == |more|;
    }
  }

  lemma LengthBodyContinues(p: Parser, line: StartLine, h: HeaderMap, limit: nat, received: string, more: string)
    requires MidBody(p, line, h, limit, received) && p.state.READING_BODY? && !p.chunked
    ensures InBody(Feed(p, more), line, h, limit, received + more)
  {
    hide C.Feed;
    hide ContentLength;
    hide IsContentChunked;
    assert p.buffer + more == more;
    var n := Min(|more|, p.contentLength - p.written);
    assert Feed(p, more) == MoveBytes(p.(buffer := more), n);
    TakeMore(received, more, p.contentLength);
  }

  lemma TakeMore(received: string, more: string, total: nat)
    requires |received| < total
    ensures var n := Min(|more|, total - |received|);
      && received + more[..n] == (received + more)[..Min(|received + more|, total)]
      && (|received + more| <= total ==> more[..n] == more && more[n..] == "")
      && (|received + more| <= total ==> received + more[..n] == received + more)
  {
    var n := Min(|more|, total - |received|);
    if |received + more| <= total {
      assert more[..n] == more && more[n..] == "";
    }
  }

  /** After the pause the parser stands where the reference says on the bytes it already has. */
  lemma BodyBegins(p: Parser)
    requires p.state.HEADERS_READY? && HasBody(p.headers) && p.body.None? && p.written == 0
    requires p.chunked == IsContentChunked(p.headers) && p.contentLength == ContentLength(p.headers)
    requires p.decoder == C.Fresh(0)
    ensures InBody(Proceed(p), p.line, p.headers, MaxAllowedContentSize(p.route), p.buffer)
  {
    if p.chunked {
      ChunkedBodyBegins(p);
    } else {
      LengthBodyBegins(p);
    }
  }

  lemma ChunkedBodyBegins(p: Parser)
    requires p.state.HEADERS_READY? && p.body.None? && p.written == 0 && p.decoder == C.Fresh(0)
    requires p.chunked == IsContentChunked(p.headers) == true && p.contentLength == ContentLength(p.headers)
    ensures InBody(Proceed(p), p.line, p.headers, MaxAllowedContentSize(p.route), p.buffer)
  {
    hide C.Feed;
    hide ContentLength;
    hide IsContentChunked;
    var r := C.Feed(C.Fresh(MaxAllowedContentSize(p.route)), p.buffer);
    if r.Fed? {
      assert "" + r.out == r.out;
    }
  }

  lemma LengthBodyBegins(p: Parser)
    requires p.state.HEADERS_READY? && p.body.None? && p.written == 0
    requires p.chunked == IsContentChunked(p.headers) == false && p.contentLength == ContentLength(p.headers) > 0
    ensures InBody(Proceed(p), p.line, p.headers, MaxAllowedContentSize(p.route), p.buffer)
  {
    hide C.Feed;
    hide ContentLength;
    hide IsContentChunked;
    if p.contentLength <= MaxAllowedContentSize(p.route) {
      TakeMore("", p.buffer, p.contentLength);
      assert "" + p.buffer == p.buffer;
      assert Proceed(p) == MoveBytes(p.(state := READING_BODY), Min(|p.buffer|, p.contentLength));
    }
  }

  // ------------------------------------------------------------------------ the head stage

  lemma {:induction false} StripAppend(s: string, t: string)
    ensures StripLeading(s + t) == (if StripLeading(s) != "" then StripLeading(s) + t else StripLeading(t))
    decreases |s|
  {
    if s == "" {
      assert s + t == t;
    } else {
      assert (s + t)[0] == s[0] && (s + t)[1..] == s[1..] + t;
      if IsLineEnd(s[0]) {
        StripAppend(s[1..], t);
      }
    }
  }

  lemma StripStripped(s: string)
    requires s != "" ==> !IsLineEnd(s[0])
    ensures StripLeading(s) == s
  {
  }

  /** The parser is still looking for the end of the head of a stream of which `seen` came in. */
  ghost predicate InHead(p: Parser, maxHeaderSize: nat, seen: string) {
    var s := StripLeading(seen);
    && p.state.READING_HEADERS? && p.maxHeaderSize == maxHeaderSize
    && p.headers == map[] && p.body.None? && p.written == 0 && p.decoder == C.Fresh(0)
    && HeaderEnd(s).None? && |s| <= maxHeaderSize
    && StripLeading(p.buffer) == s && (s != "" ==> p.buffer == s)
  }

  /** The parser stands where the reference says, `seen` having come in, with `window` bytes
      buffered when the end of the head came in. */
  ghost predicate Represents(p: Parser, router: Router, maxHeaderSize: nat, seen: string, window: nat) {
    var s := StripLeading(seen);
    && IsWindow(s, window)
    && !p.state.HEADERS_READY?
    && View(p) == Reference(router, maxHeaderSize, s, window)
    && (p.state.READING_HEADERS? ==> InHead(p, maxHeaderSize, seen))
    && (p.state.READING_BODY? ==>
        && HeaderEnd(s).Some? && WindowHasHead(s, window)
        && var h := ReadHead(s[..window], HeaderEnd(s).value, map[]);
           && h.Head?
           && MidBody(p, h.line, h.headers, MaxAllowedContentSize(router(h.line, h.headers)),
                      s[HeaderEnd(s).value.End()..]))
  }

  ghost predicate WindowHasHead(s: string, window: nat) {
    window <= |s| && '\n' in s[..window]
  }

  ghost function NextWindow(seen: string, window: nat, fragment: string): nat {
    if HeaderEnd(StripLeading(seen)).Some? then window else |StripLeading(seen + fragment)|
  }

  /** One read keeps the parser in step with the reference. */
  lemma DeliverKeepsStep(p: Parser, router: Router, maxHeaderSize: nat, seen: string, window: nat, fragment: string)
    requires Represents(p, router, maxHeaderSize, seen, window)
    ensures Represents(Deliver(p, fragment, router), router, maxHeaderSize, seen + fragment,
                       NextWindow(seen, window, fragment))
  {
    var s := StripLeading(seen);
    StripAppend(seen, fragment);
    if p.state.READING_HEADERS? {
      HeadContinues(p, router, maxHeaderSize, seen, fragment);
    } else if HeaderEnd(s).None? {
      HeaderEndOrNot(StripLeading(seen + fragment), |StripLeading(seen + fragment)|);
    } else {
      AfterHeadContinues(p, router, maxHeaderSize, seen, window, fragment);
    }
  }

  lemma HeaderEndOrNot(s: string, n: nat)
    requires n == |s|
    ensures IsWindow(s, n) && s[..n] == s
  {
  }

  lemma AfterHeadContinues(
    p: Parser, router: Router, maxHeaderSize: nat, seen: string, window: nat, fragment: string)
    requires Represents(p, router, maxHeaderSize, seen, window)
    requires !p.state.READING_HEADERS? && HeaderEnd(StripLeading(seen)).Some?
    ensures Represents(Deliver(p, fragment, router), router, maxHeaderSize, seen + fragment, window)
  {
    hide ReadHead;
    hide BodyOutcome;
    hide MidBody;
    hide StripLeading;
    hide HeaderEnd;
    hide ParseBody;
    var s := StripLeading(seen);
    var d := HeaderEnd(s).value;
    HeaderEndStable(s, fragment);
    WindowHasFeed(s, window);
    StripAppend(seen, fragment);
    assert (s + fragment)[..window] == s[..window];
    assert (s + fragment)[d.End()..] == s[d.End()..] + fragment;
    var h := ReadHead(s[..window], d, map[]);
    if window <= maxHeaderSize && h.Head? {
      var limit := MaxAllowedContentSize(router(h.line, h.headers));
      assert InBody(p, h.line, h.headers, limit, s[d.End()..]);
      BodyContinues(p, h.line, h.headers, limit, s[d.End()..], fragment);
    }
  }

  lemma HeadContinues(p: Parser, router: Router, maxHeaderSize: nat, seen: string, fragment: string)
    requires InHead(p, maxHeaderSize, seen)
    ensures var s := StripLeading(seen + fragment);
      Represents(Deliver(p, fragment, router), router, maxHeaderSize, seen + fragment, |s|)
  {
    var s := StripLeading(seen + fragment);
    var q := p.(buffer := p.buffer + fragment);
    StripAppend(seen, fragment);
    StripAppend(p.buffer, fragment);
    assert StripLeading(q.buffer) == s;
    HeaderEndOrNot(s, |s|);
    if s == "" {
      HeaderEndEmpty();
      assert StripLeading("") == "";
    } else {
      StripStripped(s);
      if HeaderEnd(s).Some? && |s| <= maxHeaderSize {
        HeadEnds(q, router, maxHeaderSize, s);
      }
    }
  }

  lemma HeaderEndEmpty()
    ensures HeaderEnd("") == None
  {
    if HeaderEnd("").Some? {
      DelimiterShape("", HeaderEnd("").value);
      assert false;
    }
  }

  // The end of the head is in the buffer: the head is read and the body begins.
  lemma HeadEnds(q: Parser, router: Router, maxHeaderSize: nat, s: string)
    requires q.state.READING_HEADERS? && q.maxHeaderSize == maxHeaderSize
    requires q.headers == map[] && q.body.None? && q.written == 0 && q.decoder == C.Fresh(0)
    requires s != "" && StripLeading(q.buffer) == s && HeaderEnd(s).Some? && |s| <= maxHeaderSize
    ensures var r := Continue(ParseHeaders(q), router);
      && IsWindow(s, |s|) && WindowHasHead(s, |s|)
      && !r.state.HEADERS_READY? && !r.state.READING_HEADERS?
      && View(r) == Reference(router, maxHeaderSize, s, |s|)
      && (r.state.READING_BODY? ==>
          var h := ReadHead(s[..|s|], HeaderEnd(s).value, map[]);
          h.Head? && MidBody(r, h.line, h.headers, MaxAllowedContentSize(router(h.line, h.headers)),
                             s[HeaderEnd(s).value.End()..]))
  {
    hide ReadHead;
    hide ContentLength;
    hide IsContentChunked;
    hide C.Feed;
    var d := HeaderEnd(s).value;
    WindowHasFeed(s, |s|);
    assert s[..|s|] == s;
    var h := ReadHead(s, d, map[]);
    if h.Head? {
      var p1 := HeadRead(q, s, d, h.line, h.headers);
      assert ParseHeaders(q) == HeadRead(q.(buffer := s), s, d, h.line, h.headers) == p1;
      if HasBody(h.headers) {
        BodyBegins(p1.(route := router(h.line, h.headers)));
      }
    }
  }

  // ------------------------------------------------------------------------- whole deliveries

  /** How many bytes (after leading line ends) are buffered when the end of the head comes in;
      all of them when it never does. */
  ghost function Window(seen: string, window: nat, fragments: seq<string>): nat
    decreases |fragments|
  {
    if fragments == [] then window
    else Window(seen + fragments[0], NextWindow(seen, window, fragments[0]), fragments[1..])
  }

  lemma {:induction false} DeliverAllKeepsStep(
    p: Parser, router: Router, maxHeaderSize: nat, seen: string, window: nat, fragments: seq<string>)
    requires Represents(p, router, maxHeaderSize, seen, window)
    ensures Represents(DeliverAll(p, fragments, router), router, maxHeaderSize,
                       seen + Concat(fragments), Window(seen, window, fragments))
    decreases |fragments|
  {
    hide Represents;
    hide Deliver;
    hide NextWindow;
    if fragments == [] {
      assert seen + "" == seen;
    } else {
      DeliverKeepsStep(p, router, maxHeaderSize, seen, window, fragments[0]);
      DeliverAllKeepsStep(Deliver(p, fragments[0], router), router, maxHeaderSize, seen + fragments[0],
                          NextWindow(seen, window, fragments[0]), fragments[1..]);
      assert seen + fragments[0] + Concat(fragments[1..]) == seen + Concat(fragments);
    }
  }

  /** However a stream is cut, the outcome is a function of the stream and of how many bytes
      were buffered when the end of the head came in. */
  lemma DeliveryMatchesReference(router: Router, maxHeaderSize: nat, line: StartLine, fragments: seq<string>)
    ensures var s := StripLeading(Concat(fragments));
      && IsWindow(s, Window("", 0, fragments))
      && View(DeliverAll(Initial(maxHeaderSize, line), fragments, router))
         == Reference(router, maxHeaderSize, s, Window("", 0, fragments))
  {
    HeaderEndEmpty();
    assert StripLeading("") == "";
    assert Represents(Initial(maxHeaderSize, line), router, maxHeaderSize, "", 0);
    DeliverAllKeepsStep(Initial(maxHeaderSize, line), router, maxHeaderSize, "", 0, fragments);
    assert "" + Concat(fragments) == Concat(fragments);
  }

  // -------------------------------------------------------- when the window does not matter

  /** The header lines do not depend on what follows the delimiter, even where their computed
      length wraps because the head has no header lines. */
  lemma SectionIsolated(s: string, window: nat, known: HeaderMap)
    requires IsWindow(s, window) && HeaderEnd(s).Some?
    ensures var d := HeaderEnd(s).value;
      && '\n' in s[..window] && '\n' in s[..d.End()]
      && ParseSection(HeaderSection(s[..window], d), known, false)
         == ParseSection(HeaderSection(s[..d.End()], d), known, false)
  {
    hide HeaderSection;
    hide ParseSection;
    hide HeaderEnd;
    hide IsDelimiter;
    hide IndexOf;
    var d := HeaderEnd(s).value;
    WindowHasFeed(s, window);
    WindowHasFeed(s, d.End());
    var long, short := s[..window], s[..d.End()];
    DelimiterShape(s, d);
    var feed := FirstFeed(s, d);
    var i := IndexOf(short, '\n');
    assert i <= feed by { assert short[feed] == '\n'; }
    IndexOfFound(long, '\n', i);
    if i == feed {
      NoHeaderLines(long, d, feed, known);
      NoHeaderLines(short, d, feed, known);
    } else {
      HeaderLinesInside(s, d, i);
      SectionInside(s, window, d, i);
    }
  }

  lemma SectionInside(s: string, window: nat, d: Delimiter, i: nat)
    requires d.End() <= window <= |s| && 2 <= d.length && i + 1 <= d.start
    requires '\n' in s[..window] && IndexOf(s[..window], '\n') == i
    requires '\n' in s[..d.End()] && IndexOf(s[..d.End()], '\n') == i
    ensures HeaderSection(s[..window], d) == HeaderSection(s[..d.End()], d)
  {
    hide HeaderSection;
    var n := d.End() - i - 3;
    SectionOf(s[..window], d, i);
    SectionOf(s[..d.End()], d, i);
    WrappedAtMost(n);
    SliceOfPrefix(s, d.End(), window, i + 1, i + 1 + n % SIZE_LIMIT);
  }

  lemma SliceOfPrefix(s: string, m: nat, n: nat, from: nat, to: nat)
    requires from <= to <= m <= n <= |s|
    ensures s[..m][from..to] == s[..n][from..to]
  {
  }

  // With header lines, the section runs to two bytes before the end of the delimiter (for any
  // head whose size a `size_t` can hold), so it lies inside the head.
  lemma SectionOf(t: string, d: Delimiter, i: nat)
    requires d.End() <= |t| && IndexOf(t, '\n') == i && '\n' in t
    requires 2 <= d.length && i + 1 <= d.start
    ensures HeaderSection(t, d) == t[i + 1..i + 1 + (d.End() - i - 3) % SIZE_LIMIT]
  {
    hide AddSize;
    hide SubSize;
    hide IndexOf;
    var n := d.End() - i - 3;
    assert d.start - (i + 1) + d.length - 2 == n;
    WrappedLength(d.start, i + 1, d.length);
    WrappedAtMost(n);
  }

  lemma WrappedLength(start: nat, from: nat, length: nat)
    ensures AddSize(SubSize(start, from), SubSize(length, 2)) == (start - from + length - 2) % SIZE_LIMIT
  {
  }

  lemma WrappedAtMost(n: nat)
    ensures 0 <= n % SIZE_LIMIT <= n
  {
  }

  // With header lines, the section starts before the delimiter does.
  lemma HeaderLinesInside(s: string, d: Delimiter, i: nat)
    requires FirstDelimiter(s, d) && i < FirstFeed(s, d) && s[i] == '\n'
    ensures i + 1 <= d.start
  {
    DelimiterShape(s, d);
  }

  // Without header lines, the section is empty or starts with an empty line.
  lemma NoHeaderLines(t: string, d: Delimiter, feed: nat, known: HeaderMap)
    requires DelimiterAt(t, d) && FirstFeed(t, d) == feed && IndexOf(t, '\n') == feed && '\n' in t
    ensures ParseSection(HeaderSection(t, d), known, false) == Parsed(true, known)
  {
    DelimiterShape(t, d);
    var section := HeaderSection(t, d);
    if t[feed + 1] == '\n' {
      if section != "" {
        assert section[0] == '\n';
        assert IndexOf(section, '\n') == 0 && section[..0] == "";
      }
    } else {
      WrappedLength(d.start, feed + 1, d.length);
      assert section == "";
    }
  }

  /** The head read from a buffer is the head read from its own bytes, once the three words of
      the request line are among them. */
  lemma ReadHeadIsolated(s: string, window: nat, known: HeaderMap)
    requires IsWindow(s, window) && HeaderEnd(s).Some?
    requires TakeThree(s[..HeaderEnd(s).value.End()]).Some?
    ensures var d := HeaderEnd(s).value;
      && '\n' in s[..window] && '\n' in s[..d.End()]
      && ReadHead(s[..window], d, known) == ReadHead(s[..d.End()], d, known)
  {
    var d := HeaderEnd(s).value;
    SectionIsolated(s, window, known);
    DelimiterShape(s, d);
    var short := s[..d.End()];
    assert s[..window] == short + s[d.End()..window];
    ParseStartLineAppend(short, s[d.End()..window]);
  }

  /** The outcome of delivering the head on its own, before any byte that follows it. */
  ghost function Canonical(router: Router, maxHeaderSize: nat, s: string): Outcome {
    Reference(router, maxHeaderSize, s, if HeaderEnd(s).Some? then HeaderEnd(s).value.End() else |s|)
  }

  ghost predicate HeadHasThreeWords(s: string) {
    HeaderEnd(s).Some? ==> TakeThree(s[..HeaderEnd(s).value.End()]).Some?
  }

  /** The header limit is tested against the whole buffer, bytes after the head included. */
  ghost predicate Overfilled(maxHeaderSize: nat, s: string, window: nat) {
    HeaderEnd(s).Some? && HeaderEnd(s).value.End() <= maxHeaderSize < window
  }

  /** The head is not one the server can read, given how much is buffered with it: fewer than three
      words, an unknown method, or malformed header lines. */
  predicate Unreadable(t: string, d: Delimiter)
    requires '\n' in t
  {
    match TakeThree(t)
    case None => true
    case Some(w) =>
      w.first !in ["GET", "POST", "PUT", "DELETE", "HEAD"] || !ParseSection(HeaderSection(t, d), map[], false).ok
  }

  lemma UnreadableIsBad(t: string, d: Delimiter)
    requires '\n' in t
    ensures ReadHead(t, d, map[]).BadHead? <==> Unreadable(t, d)
  {
    hide TakeThree;
    hide ParseSection;
    hide HeaderSection;
  }

  /** The first `n` bytes, which hold the head, are refused as a bad request: the head cannot be
      read from them, or the body after the head is chunked and malformed. */
  ghost predicate Malformed(router: Router, s: string, n: nat)
    requires IsWindow(s, n) && HeaderEnd(s).Some?
  {
    WindowHasFeed(s, n);
    var d := HeaderEnd(s).value;
    Unreadable(s[..n], d)
    || (UnreadableIsBad(s[..n], d);
        var h := ReadHead(s[..n], d, map[]);
        IsContentChunked(h.headers)
        && C.Feed(C.Fresh(MaxAllowedContentSize(router(h.line, h.headers))), s[d.End()..]) == C.Failed(BadRequest))
  }

  lemma ReferenceRefuses(router: Router, maxHeaderSize: nat, s: string, n: nat)
    requires IsWindow(s, n) && HeaderEnd(s).Some?
    ensures Reference(router, maxHeaderSize, s, n) == Refused(BadRequest)
        <==> n > maxHeaderSize || Malformed(router, s, n)
  {
    hide ReadHead;
    hide Unreadable;
    hide C.Feed;
    hide IsContentChunked;
    hide ContentLength;
    WindowHasFeed(s, n);
    UnreadableIsBad(s[..n], HeaderEnd(s).value);
  }

  /** The condition on the bytes of a stream, and on how many of them came in with the end of the
      head, under which they are answered as if the head had come in alone. */
  ghost predicate SameAsHeadAlone(router: Router, maxHeaderSize: nat, s: string, window: nat)
    requires IsWindow(s, window)
  {
    match HeaderEnd(s)
    case None => true
    case Some(d) =>
      || d.End() > maxHeaderSize
      || (if TakeThree(s[..d.End()]).Some? then window <= maxHeaderSize || Malformed(router, s, d.End())
          else window > maxHeaderSize || Malformed(router, s, window))
  }

  /** Exactly when a way of cutting gives the outcome of delivering the head alone. With the three
      words of the request line in the head: unless bytes after it overfill the buffer; or the
      request is malformed anyway. Without them the head alone is refused; so, exactly when the
      cut overfills the buffer too, or the request is malformed with the bytes that came in with
      the head. A request whose head comes in overfilled is always refused. */
  lemma WhenCutsMatter(router: Router, maxHeaderSize: nat, line: StartLine, fragments: seq<string>)
    ensures
      var s := StripLeading(Concat(fragments));
      var window := Window("", 0, fragments);
      var got := View(DeliverAll(Initial(maxHeaderSize, line), fragments, router));
      && IsWindow(s, window)
      && (Overfilled(maxHeaderSize, s, window) ==> got == Refused(BadRequest))
      && (!HeadHasThreeWords(s) ==> Canonical(router, maxHeaderSize, s) == Refused(BadRequest))
      && (got == Canonical(router, maxHeaderSize, s) <==> SameAsHeadAlone(router, maxHeaderSize, s, window))
  {
    hide Reference;
    hide Malformed;
    hide Window;
    hide View;
    hide DeliverAll;
    hide TakeThree;
    var s := StripLeading(Concat(fragments));
    var w := Window("", 0, fragments);
    DeliveryMatchesReference(router, maxHeaderSize, line, fragments);
    if HeaderEnd(s).Some? {
      var n := HeaderEnd(s).value.End();
      ReferenceRefuses(router, maxHeaderSize, s, w);
      ReferenceRefuses(router, maxHeaderSize, s, n);
      if TakeThree(s[..n]).Some? {
        ReferenceInside(router, maxHeaderSize, s, w);
      } else {
        TwoWordsMalformed(router, s, n);
      }
    } else {
      ReferenceWithoutHead(router, maxHeaderSize, s, w);
    }
  }

  lemma FitsIsSame(router: Router, maxHeaderSize: nat, s: string, window: nat)
    requires IsWindow(s, window) && HeadHasThreeWords(s) && !Overfilled(maxHeaderSize, s, window)
    ensures SameAsHeadAlone(router, maxHeaderSize, s, window)
  {
    hide Malformed;
    hide TakeThree;
  }

  // With the three words in the head and the buffer not overfilled, the window does not matter.
  lemma ReferenceInside(router: Router, maxHeaderSize: nat, s: string, window: nat)
    requires IsWindow(s, window) && HeaderEnd(s).Some?
    requires TakeThree(s[..HeaderEnd(s).value.End()]).Some?
    ensures window <= maxHeaderSize ==>
      Reference(router, maxHeaderSize, s, window) == Reference(router, maxHeaderSize, s, HeaderEnd(s).value.End())
  {
    hide ReadHead;
    hide BodyOutcome;
    hide TakeThree;
    ReadHeadIsolated(s, window, map[]);
  }

  lemma TwoWordsMalformed(router: Router, s: string, n: nat)
    requires IsWindow(s, n) && HeaderEnd(s).Some? && TakeThree(s[..n]).None?
    ensures Malformed(router, s, n)
  {
    WindowHasFeed(s, n);
  }

  lemma ReferenceWithoutHead(router: Router, maxHeaderSize: nat, s: string, window: nat)
    requires HeaderEnd(s).None?
    ensures Reference(router, maxHeaderSize, s, window) == Canonical(router, maxHeaderSize, s)
  {
  }

  /** Fragmentation invariance: two ways of cutting the same bytes, neither of which overfills
      the buffer, end with the same request line, headers, body and status. */
  lemma FragmentationInvariance(
    router: Router, maxHeaderSize: nat, line: StartLine, one: seq<string>, other: seq<string>)
    requires Concat(one) == Concat(other)
    requires HeadHasThreeWords(StripLeading(Concat(one)))
    requires !Overfilled(maxHeaderSize, StripLeading(Concat(one)), Window("", 0, one))
    requires !Overfilled(maxHeaderSize, StripLeading(Concat(one)), Window("", 0, other))
    ensures View(DeliverAll(Initial(maxHeaderSize, line), one, router))
         == View(DeliverAll(Initial(maxHeaderSize, line), other, router))
  {
    hide View;
    hide DeliverAll;
    hide Window;
    hide SameAsHeadAlone;
    hide Canonical;
    hide Overfilled;
    hide HeadHasThreeWords;
    hide StripLeading;
    var s := StripLeading(Concat(one));
    WhenCutsMatter(router, maxHeaderSize, line, one);
    WhenCutsMatter(router, maxHeaderSize, line, other);
    FitsIsSame(router, maxHeaderSize, s, Window("", 0, one));
    FitsIsSame(router, maxHeaderSize, s, Window("", 0, other));
  }

  // ---------------------------------------------------------- why the two conditions are there

  /** Cutting right after the head gives the canonical outcome. */
  lemma HeadFirstIsCanonical(router: Router, maxHeaderSize: nat, line: StartLine, s: string)
    requires HeaderEnd(s).Some? && StripLeading(s) == s
    ensures var n := HeaderEnd(s).value.End();
      View(DeliverAll(Initial(maxHeaderSize, line), [s[..n], s[n..]], router)) == Canonical(router, maxHeaderSize, s)
  {
    hide View;
    hide DeliverAll;
    hide Reference;
    var n := HeaderEnd(s).value.End();
    var cut := [s[..n], s[n..]];
    HeaderEndPrefix(s, n);
    HeaderEndEmpty();
    assert StripLeading("") == "";
    assert s[..n] != "" && s[..n][0] == s[0];
    StripStripped(s[..n]);
    assert "" + s[..n] == s[..n];
    TwoFragments(s[..n], s[n..]);
    assert s[..n] + s[n..] == s;
    DeliveryMatchesReference(router, maxHeaderSize, line, cut);
  }

  lemma TwoFragments(a: string, b: string)
    ensures Concat([a, b]) == a + b
    ensures Window("", 0, [a, b]) == NextWindow("" + a, NextWindow("", 0, a), b)
  {
    var cut := [a, b];
    assert cut[1..] == [b] && [b][1..] == [];
    assert Concat([b]) == b + "" == b;
    assert Window("" + a + b, NextWindow("" + a, NextWindow("", 0, a), b), []) ==
           NextWindow("" + a, NextWindow("", 0, a), b);
  }

  /** Delivering everything at once fills the window with everything. */
  lemma AllAtOnce(router: Router, maxHeaderSize: nat, line: StartLine, s: string)
    requires HeaderEnd(s).Some? && StripLeading(s) == s
    ensures IsWindow(s, |s|)
    ensures View(DeliverAll(Initial(maxHeaderSize, line), [s], router)) == Reference(router, maxHeaderSize, s, |s|)
  {
    hide View;
    hide DeliverAll;
    hide Reference;
    HeaderEndEmpty();
    assert StripLeading("") == "";
    assert [s][1..] == [];
    assert Concat([s]) == s + "" == s;
    assert "" + s == s;
    assert Window("", 0, [s]) == NextWindow("", 0, s) == |s|;
    DeliveryMatchesReference(router, maxHeaderSize, line, [s]);
  }

  lemma WordIs(space: string, word: string, rest: string)
    requires (forall k :: 0 <= k < |space| ==> IsSpace(space[k])) && word != ""
    requires (forall k :: 0 <= k < |word| ==> !IsSpace(word[k])) && (rest != "" ==> IsSpace(rest[0]))
    ensures NextWord(space + word + rest) == Some(Word(word, rest))
    decreases |space|
  {
    var s := space + word + rest;
    if space == "" {
      assert s == word + rest;
      assert s[0] == word[0];
      var n := WordLength(s);
      assert forall k :: 0 <= k < |word| ==> s[k] == word[k];
      assert rest != "" ==> s[|word|] == rest[0];
      assert n == |word|;
      assert s[..n] == word && s[n..] == rest;
    } else {
      assert s[0] == space[0] && s[1..] == space[1..] + word + rest;
      WordIs(space[1..], word, rest);
    }
  }

  lemma ThreeWordsAre(text: string, a: string, b: string, c: string, s1: string, s2: string, rest: string)
    requires text == a + s1 + b + s2 + c + rest
    requires a != "" && b != "" && c != "" && s1 != "" && s2 != ""
    requires forall k :: 0 <= k < |a| ==> !IsSpace(a[k])
    requires forall k :: 0 <= k < |b| ==> !IsSpace(b[k])
    requires forall k :: 0 <= k < |c| ==> !IsSpace(c[k])
    requires forall k :: 0 <= k < |s1| ==> IsSpace(s1[k])
    requires forall k :: 0 <= k < |s2| ==> IsSpace(s2[k])
    requires rest != "" ==> IsSpace(rest[0])
    ensures TakeThree(text) == Some(ThreeWords(a, b, c, rest))
  {
    hide NextWord;
    assert text == "" + a + (s1 + b + s2 + c + rest);
    WordIs("", a, s1 + b + s2 + c + rest);
    assert s1 + b + s2 + c + rest == s1 + b + (s2 + c + rest);
    WordIs(s1, b, s2 + c + rest);
    WordIs(s2, c, rest);
  }

  // A head that is only a request line: where it ends, and what is read from it.
  lemma BareHead(line: string, tail: string)
    requires line != "" && '\n' !in line && '\r' !in line
    ensures var s := line + "\n\n" + tail;
      && HeaderEnd(s) == Some(Delimiter(|line|, 2)) && StripLeading(s) == s && '\n' in s
      && ReadHead(s, Delimiter(|line|, 2), map[])
         == (if ParseStartLine(s).httpMethod.UNKNOWN? then BadHead else Head(ParseStartLine(s), map[]))
  {
    hide ParseStartLine;
    hide ParseSection;
    hide HeaderSection;
    var s := line + "\n\n" + tail;
    var n := |line|;
    assert s[n] == '\n' && s[n + 1] == '\n';
    assert forall k :: 0 <= k < n ==> s[k] == line[k] && line[k] in line;
    FirstFromFeed(s, n);
    assert DelimiterOf(s, n) == Delimiter(n, 2);
    HeaderEndIs(s, Delimiter(n, 2));
    StripStripped(s);
    IndexOfFound(s, '\n', n);
    DelimiterFromFeed(s, n);
    NoHeaderLines(s, Delimiter(n, 2), n, map[]);
  }

  const PARSED_LINE := StartLine(DELETE, "a", "a", "", "b")

  lemma ReadsParsedLine(text: string, gap: string, rest: string)
    requires text == "DELETE" + " " + "a" + gap + "b" + rest
    requires gap != "" && forall k :: 0 <= k < |gap| ==> IsSpace(gap[k])
    requires rest != "" ==> IsSpace(rest[0])
    ensures TakeThree(text).Some? && ParseStartLine(text) == PARSED_LINE
  {
    hide TakeThree;
    ThreeWordsAre(text, "DELETE", "a", "b", " ", gap, rest);
    IndexOfAbsent("a", '?');
  }

  lemma NoBody(line: StartLine, limit: nat, received: string)
    ensures BodyOutcome(line, map[], limit, received) == Complete(line, map[], None)
  {
  }

  // The two deliveries of a head and what follows it, apart and together.
  lemma ApartAndTogether(
    router: Router, maxHeaderSize: nat, line: StartLine, head: string, tail: string, d: Delimiter)
    requires HeaderEnd(head + tail) == Some(d) && d.End() == |head| && '\n' in head && '\n' in head + tail
    requires StripLeading(head + tail) == head + tail && |head| <= maxHeaderSize
    ensures View(DeliverAll(Initial(maxHeaderSize, line), [head, tail], router)) ==
      match ReadHead(head, d, map[])
      case BadHead => Refused(BadRequest)
      case Head(l, h) => BodyOutcome(l, h, MaxAllowedContentSize(router(l, h)), tail)
    ensures View(DeliverAll(Initial(maxHeaderSize, line), [head + tail], router)) ==
      if |head + tail| > maxHeaderSize then Refused(BadRequest)
      else
        match ReadHead(head + tail, d, map[])
        case BadHead => Refused(BadRequest)
        case Head(l, h) => BodyOutcome(l, h, MaxAllowedContentSize(router(l, h)), tail)
  {
    hide View;
    hide DeliverAll;
    hide ReadHead;
    hide BodyOutcome;
    hide HeaderEnd;
    hide StripLeading;
    var s := head + tail;
    assert s[..|head|] == head && s[|head|..] == tail && s[..|s|] == s;
    HeadFirstIsCanonical(router, maxHeaderSize, line, s);
    AllAtOnce(router, maxHeaderSize, line, s);
  }

  const BARE_HEAD := "DELETE a b" + "\n\n"

  /** Bytes after the head count against the header limit, whatever the limit: this request is
      complete when cut after its head, and refused when more bytes than the limit leaves room for
      come in with it. */
  lemma SurplusCountsAgainstLimit(router: Router, maxHeaderSize: nat, line: StartLine, tail: string)
    requires |BARE_HEAD| <= maxHeaderSize < |BARE_HEAD + tail|
    ensures View(DeliverAll(Initial(maxHeaderSize, line), [BARE_HEAD, tail], router))
         == Complete(PARSED_LINE, map[], None)
    ensures View(DeliverAll(Initial(maxHeaderSize, line), [BARE_HEAD + tail], router)) == Refused(BadRequest)
  {
    hide View;
    hide DeliverAll;
    hide ReadHead;
    hide BodyOutcome;
    hide HeaderEnd;
    hide StripLeading;
    hide TakeThree;
    hide ParseStartLine;
    var words := "DELETE a b";
    BareHead(words, tail);
    BareHead(words, "");
    assert BARE_HEAD + "" == BARE_HEAD;
    ReadsParsedLine(BARE_HEAD, " ", "\n\n");
    ApartAndTogether(router, maxHeaderSize, line, BARE_HEAD, tail, Delimiter(10, 2));
    NoBody(PARSED_LINE, MaxAllowedContentSize(router(PARSED_LINE, map[])), tail);
  }

  const SHORT_HEAD := "DELETE a" + "\n\n"

  /** The request line can take its third word from beyond the head, whatever the limit: this
      request is refused when cut after its head, and complete when the next byte comes in with it. */
  lemma ThirdWordFromBody(router: Router, maxHeaderSize: nat, line: StartLine)
    requires |SHORT_HEAD + "b"| <= maxHeaderSize
    ensures View(DeliverAll(Initial(maxHeaderSize, line), [SHORT_HEAD, "b"], router)) == Refused(BadRequest)
    ensures View(DeliverAll(Initial(maxHeaderSize, line), [SHORT_HEAD + "b"], router))
         == Complete(PARSED_LINE, map[], None)
  {
    hide View;
    hide DeliverAll;
    hide ReadHead;
    hide BodyOutcome;
    hide HeaderEnd;
    hide StripLeading;
    hide TakeThree;
    var words := "DELETE a";
    BareHead(words, "b");
    BareHead(words, "");
    assert SHORT_HEAD + "" == SHORT_HEAD;
    OnlyTwoWords(SHORT_HEAD);
    assert SHORT_HEAD + "b" == "DELETE" + " " + "a" + "\n\n" + "b" + "";
    ReadsParsedLine(SHORT_HEAD + "b", "\n\n", "");
    ApartAndTogether(router, maxHeaderSize, line, SHORT_HEAD, "b", Delimiter(8, 2));
    NoBody(PARSED_LINE, MaxAllowedContentSize(router(PARSED_LINE, map[])), "b");
  }

  lemma OnlyTwoWords(text: string)
    requires text == "DELETE a" + "\n\n"
    ensures TakeThree(text) == None
  {
    hide NextWord;
    assert text == "" + "DELETE" + " a\n\n";
    WordIs("", "DELETE", " a\n\n");
    assert " a\n\n" == " " + "a" + "\n\n";
    WordIs(" ", "a", "\n\n");
    NoWordInSpace();
  }

  lemma NoWordInSpace()
    ensures NextWord("\n\n") == None
  {
    assert "\n\n"[1..] == "\n" && "\n"[1..] == "";
    assert SkipSpace("\n") == SkipSpace("") == "";
  }
}
