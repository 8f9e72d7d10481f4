/** The reading side of a client connection: every read is fed to the request parser, and at
    the pause the request is routed and its body begun. */
module Connection {
  import opened Base
  import opened Requests
  import opened RequestMachine
  import opened RequestParsing
  import opened Fragmentation
  import opened Headers
  import opened Pipelining
  import opened Sessions
  import C = ChunkCodec

  ghost predicate LimitsFit(router: Router) {
    forall line, headers :: MaxAllowedContentSize(router(line, headers)) < SIZE_LIMIT
  }

  /** One read event. On a reliable disk this is one step of the delivery whose outcome
      Fragmentation.dfy shows not to depend on the cuts. */
  method HandleRead(parser: RequestParser, fragment: string, router: Router)
    requires parser.Valid() && (parser.state.ERROR? || parser.Fits(fragment)) && LimitsFit(router)
    modifies parser, parser.request, parser.request.body, parser.chunkParser
    ensures parser.Valid()
    ensures parser.request.body == old(parser.request.body) || parser.request.body == null || fresh(parser.request.body)
    ensures parser.disk.reliable ==> Agrees(parser.Value(), Deliver(old(parser.Value()), fragment, router))
  {
    if parser.state.ERROR? {
      return;
    }
    parser.Feed(fragment);
    if parser.state.HEADERS_READY? {
      parser.request.route := router(parser.request.requestLine, parser.request.headers);
      parser.ProceedReadingBody();
    }
  }

  // What has been decoded and what is buffered, together, never outgrow what came in.
  function Load(p: Parser): nat {
    p.decoder.total + |p.buffer|
  }

  lemma ParseBodyLoad(p: Parser)
    ensures Load(ParseBody(p)) <= Load(p)
  {
    hide C.Feed;
    if p.chunked && C.Feed(p.decoder, p.buffer).Fed? {
      C.FeedTotal(p.decoder, p.buffer);
    }
  }

  lemma HeadFoundLoad(p: Parser, d: Delimiter)
    requires d.End() <= |p.buffer| && '\n' in p.buffer
    ensures Load(HeadFound(p, p.buffer, d)) <= Load(p)
  {
    hide ReadHead;
    hide ContentLength;
    hide IsContentChunked;
    hide ParseStartLine;
  }

  lemma ParseHeadersLoad(p: Parser)
    ensures Load(ParseHeaders(p)) <= Load(p)
  {
    hide HeadFound;
    hide HeaderEnd;
    hide StripLeading;
    hide DelimiterAt;
    var t := StripLeading(p.buffer);
    if HeaderEnd(t).Some? {
      DelimiterHasFeed(t, HeaderEnd(t).value);
      HeadFoundLoad(p.(buffer := t), HeaderEnd(t).value);
    }
  }

  lemma DeliverLoad(p: Parser, fragment: string, router: Router)
    ensures Load(Deliver(p, fragment, router)) <= Load(p) + |fragment|
  {
    hide ParseBody;
    hide ParseHeaders;
    var q := p.(buffer := p.buffer + fragment);
    ParseBodyLoad(q);
    ParseHeadersLoad(q);
    var r := Feed(p, fragment);
    var limit := MaxAllowedContentSize(router(r.line, r.headers));
    var s := r.(route := router(r.line, r.headers), state := READING_BODY);
    ParseBodyLoad(s);
    ParseBodyLoad(s.(decoder := s.decoder.(maxBody := limit)));
  }

  /** A whole run of read events on a reliable disk: a fresh parser object ends with the
      outcome that the delivery of the same bytes gives. */
  method ReceiveAll(parser: RequestParser, ghost line: StartLine, fragments: seq<string>, router: Router)
    requires parser.Valid() && parser.disk.reliable && LimitsFit(router)
    requires parser.Value() == Initial(parser.maxHeaderSize, line) && |Concat(fragments)| < SIZE_LIMIT
    modifies parser, parser.request, parser.request.body, parser.chunkParser
    ensures parser.Valid()
    ensures View(parser.Value()) == View(DeliverAll(Initial(parser.maxHeaderSize, line), fragments, router))
  {
    hide Deliver;
    ghost var p := Initial(parser.maxHeaderSize, line);
    var i := 0;
    assert fragments[0..] == fragments;
    while i < |fragments|
      invariant i <= |fragments| && parser.Valid()
      invariant
        || parser.request.body == old(parser.request.body) || parser.request.body == null
        || fresh(parser.request.body)
      invariant Agrees(parser.Value(), p)
      invariant DeliverAll(p, fragments[i..], router)
             == DeliverAll(Initial(parser.maxHeaderSize, line), fragments, router)
      invariant Load(p) + |Concat(fragments[i..])| < SIZE_LIMIT
    {
      ConcatSplit(fragments, i);
      assert fragments[i..][1..] == fragments[i + 1..];
      DeliverLoad(p, fragments[i], router);
      DeliverAgrees(parser.Value(), p, fragments[i], router);
      HandleRead(parser, fragments[i], router);
      p := Deliver(p, fragments[i], router);
      i := i + 1;
    }
  }

  // A failed parser ignores what comes in; any other agrees with another only by being equal.
  lemma DeliverAgrees(v: Parser, w: Parser, fragment: string, router: Router)
    requires Agrees(v, w)
    ensures if w.state.ERROR? then Deliver(w, fragment, router) == w && Deliver(v, fragment, router) == v else v == w
  {
  }

  /** A whole Content-Length body arriving in any pieces on any disk: what the file and the
      buffer hold is everything that came in, the file never exceeds the announced length, and
      the request is ready exactly when it has that length. Reading stops there or at a
      failure of the disk, after `used` pieces. */
  method ReceiveBody(parser: RequestParser, pieces: seq<string>) returns (used: nat)
    requires parser.Valid() && parser.state.READING_BODY? && !parser.isContentChunked
    requires parser.request.body != null && parser.bytesWrittenToBody < parser.contentLength
    requires parser.Fits(Concat(pieces))
    modifies parser, parser.request, parser.request.body, parser.chunkParser
    ensures parser.Valid() && used <= |pieces|
    ensures !parser.state.ERROR? ==>
      && parser.BodyBytes() + parser.buffer == old(parser.BodyBytes() + parser.buffer) + Concat(pieces[..used])
      && |parser.BodyBytes()| <= parser.contentLength == old(parser.contentLength)
      && (parser.state.REQUEST_READY? <==> |parser.BodyBytes()| == parser.contentLength)
      && (parser.state.READING_BODY? ==> used == |pieces|)
  {
    used := 0;
    ghost var start := parser.BodyBytes() + parser.buffer;
    assert pieces[..0] == [] && start + "" == start && pieces[0..] == pieces;
    while used < |pieces| && parser.state.READING_BODY?
      invariant used <= |pieces| && parser.Valid()
      invariant parser.request.body == null || parser.request.body == old(parser.request.body)
      invariant parser.state.READING_BODY? || parser.state.REQUEST_READY? || parser.state.ERROR?
      invariant !parser.state.ERROR? ==>
        && !parser.isContentChunked && parser.request.body != null
        && parser.BodyBytes() + parser.buffer == start + Concat(pieces[..used])
        && parser.contentLength == old(parser.contentLength)
        && (parser.state.REQUEST_READY? <==> |parser.BodyBytes()| == parser.contentLength)
      invariant parser.state.READING_BODY? ==> parser.Fits(Concat(pieces[used..]))
    {
      ConcatSplit(pieces, used);
      var piece := pieces[used];
      ghost var came := Concat(pieces[..used]);
      parser.Feed(piece);
      assert start + came + piece == start + (came + piece);
      used := used + 1;
    }
  }

  /** Keep-alive: after a request is finished the parser is reset and fed no new bytes, so that the
      next one is read from what is left in the buffer. */
  method NextRequest(parser: RequestParser, router: Router)
    requires parser.Valid() && parser.disk.reliable && LimitsFit(router) && parser.Fits("")
    modifies parser, parser.request, parser.request.body, parser.chunkParser
    ensures parser.Valid()
    ensures Agrees(parser.Value(), Deliver(RequestMachine.Reset(old(parser.Value())), "", router))
    ensures parser.state.ERROR? || parser.Fits("")
    ensures
      || parser.request.body == old(parser.request.body) || parser.request.body == null
      || fresh(parser.request.body)
  {
    hide Deliver;
    parser.Reset();
    DeliverLoad(parser.Value(), "", router);
    HandleRead(parser, "", router);
  }

  /** Once for each request in the buffer: the parser object reads exactly those requests, in
      order, and keeps exactly what came after them. */
  method ReadLeftovers(parser: RequestParser, ghost ms: seq<Message>, ghost tail: string, count: nat, router: Router)
    returns (ghost outcomes: seq<Outcome>)
    requires parser.Valid() && parser.disk.reliable && LimitsFit(router) && parser.Fits("")
    requires AllWellFormed(ms, router) && count == |ms|
    requires parser.buffer == WireOf(ms) + tail && |parser.buffer| <= parser.maxHeaderSize
    modifies parser, parser.request, parser.request.body, parser.chunkParser
    ensures parser.Valid()
    ensures outcomes == ExpectedAll(ms) && parser.buffer == tail
  {
    hide Deliver;
    hide WellFormed;
    hide Expected;
    hide View;
    outcomes := [];
    var i := 0;
    assert ms[0..] == ms && [] + ExpectedAll(ms) == ExpectedAll(ms);
    while i < count
      invariant i <= count && parser.Valid() && parser.Fits("")
      invariant
        || parser.request.body == old(parser.request.body) || parser.request.body == null
        || fresh(parser.request.body)
      invariant parser.buffer == WireOf(ms[i..]) + tail && |parser.buffer| <= parser.maxHeaderSize
      invariant outcomes + ExpectedAll(ms[i..]) == ExpectedAll(ms)
    {
      ghost var p := RequestMachine.Reset(parser.Value());
      LeftoverRound(p, ms, i, tail, outcomes, router);
      NextRequest(parser, router);
      outcomes := outcomes + [View(Deliver(p, "", router))];
      i := i + 1;
    }
  }

  // One round over the leftovers.
  lemma LeftoverRound(
    p: Parser, ms: seq<Message>, i: nat, tail: string, outcomes: seq<Outcome>, router: Router)
    requires AllWellFormed(ms, router) && i < |ms| && AtStart(p)
    requires p.buffer == WireOf(ms[i..]) + tail && |p.buffer| <= p.maxHeaderSize
    ensures var q := Deliver(p, "", router);
      && !q.state.ERROR? && q.buffer == WireOf(ms[i + 1..]) + tail
      && q.maxHeaderSize == p.maxHeaderSize && |q.buffer| <= |p.buffer|
      && outcomes + [View(q)] + ExpectedAll(ms[i + 1..]) == outcomes + ExpectedAll(ms[i..])
  {
    hide Deliver;
    hide WellFormed;
    hide Expected;
    var rest := WireOf(ms[i + 1..]) + tail;
    assert ms[i..][1..] == ms[i + 1..] && ms[i..][0] == ms[i];
    assert WireOf(ms[i..]) + tail == ms[i].Wire() + rest;
    ReadsOne(p, ms[i], rest, router);
    ExpectedCompletes(ms[i], router);
  }

  /** The rounds as long as a request is complete, and what they give. */
  method ReadReady(parser: RequestParser, router: Router) returns (ghost outcomes: seq<Outcome>)
    requires parser.Valid() && parser.disk.reliable && LimitsFit(router)
    requires parser.state.ERROR? || parser.Fits("")
    modifies parser, parser.request, parser.request.body, parser.chunkParser
    ensures parser.Valid()
    ensures outcomes == Drain(old(parser.Value()), router).0
    ensures Agrees(parser.Value(), Drain(old(parser.Value()), router).1)
    ensures
      || parser.request.body == old(parser.request.body) || parser.request.body == null
      || fresh(parser.request.body)
  {
    hide Deliver;
    hide View;
    ghost var start, p := parser.Value(), parser.Value();
    outcomes := [];
    while parser.state.REQUEST_READY?
      invariant parser.Valid() && (parser.state.ERROR? || parser.Fits(""))
      invariant
        || parser.request.body == old(parser.request.body) || parser.request.body == null
        || fresh(parser.request.body)
      invariant Agrees(parser.Value(), p)
      invariant outcomes + Drain(p, router).0 == Drain(start, router).0 && Drain(p, router).1 == Drain(start, router).1
      decreases if parser.state.REQUEST_READY? then |parser.buffer| + 1 else 0
    {
      ReadyShrinks(RequestMachine.Reset(p), router);
      NextRequest(parser, router);
      ghost var next := Deliver(RequestMachine.Reset(p), "", router);
      assert outcomes + ([View(p)] + Drain(next, router).0) == outcomes + [View(p)] + Drain(next, router).0;
      outcomes := outcomes + [View(p)];
      p := next;
    }
  }

  /** A whole connection on a reliable disk: every read handled, and after it every request that is
      complete. The parser object gives the outcomes of the session over the same bytes. */
  method ReadSession(parser: RequestParser, ghost line: StartLine, fragments: seq<string>, router: Router)
    returns (ghost outcomes: seq<Outcome>)
    requires parser.Valid() && parser.disk.reliable && LimitsFit(router)
    requires parser.Value() == Initial(parser.maxHeaderSize, line) && |Concat(fragments)| < SIZE_LIMIT
    modifies parser, parser.request, parser.request.body, parser.chunkParser
    ensures parser.Valid()
    ensures outcomes == Session(Initial(parser.maxHeaderSize, line), fragments, router).0
  {
    hide Deliver;
    hide Drain;
    ghost var p := Initial(parser.maxHeaderSize, line);
    ghost var all := Session(p, fragments, router).0;
    outcomes := [];
    var i := 0;
    assert fragments[0..] == fragments && [] + all == all;
    while i < |fragments|
      invariant i <= |fragments| && parser.Valid()
      invariant
        || parser.request.body == old(parser.request.body) || parser.request.body == null
        || fresh(parser.request.body)
      invariant Agrees(parser.Value(), p)
      invariant outcomes + Session(p, fragments[i..], router).0 == all
      invariant Load(p) + |Concat(fragments[i..])| < SIZE_LIMIT
    {
      ConcatSplit(fragments, i);
      assert fragments[i..][1..] == fragments[i + 1..];
      ghost var q := Deliver(p, fragments[i], router);
      DeliverLoad(p, fragments[i], router);
      DeliverAgrees(parser.Value(), p, fragments[i], router);
      HandleRead(parser, fragments[i], router);
      DrainLoad(q, router);
      DrainAgrees(parser.Value(), q, router);
      ghost var now := ReadReady(parser, router);
      p := Drain(q, router).1;
      ghost var later := Session(p, fragments[i + 1..], router).0;
      assert outcomes + (now + later) == outcomes + now + later;
      outcomes := outcomes + now;
      i := i + 1;
    }
  }

  lemma {:induction false} DrainLoad(q: Parser, router: Router)
    ensures Load(Drain(q, router).1) <= Load(q)
    decreases |q.buffer|
  {
    hide Deliver;
    if q.state.REQUEST_READY? {
      var next := Deliver(RequestMachine.Reset(q), "", router);
      DeliverLoad(RequestMachine.Reset(q), "", router);
      if next.state.REQUEST_READY? {
        ReadyShrinks(RequestMachine.Reset(q), router);
        DrainLoad(next, router);
      }
    }
  }

  lemma DrainAgrees(v: Parser, w: Parser, router: Router)
    requires Agrees(v, w)
    ensures Drain(v, router).0 == Drain(w, router).0
    ensures forall u :: Agrees(u, Drain(v, router).1) ==> Agrees(u, Drain(w, router).1)
  {
    if w.state.ERROR? {
      assert Drain(v, router) == ([], v) && Drain(w, router) == ([], w);
    }
  }

  lemma ExpectedCompletes(m: Message, router: Router)
    requires WellFormed(m, router)
    ensures Expected(m).Complete?
  {
  }

  // Moving one piece from the pieces to come to the pieces that came.
  lemma ConcatSplit(pieces: seq<string>, n: nat)
    requires n < |pieces|
    ensures Concat(pieces[..n + 1]) == Concat(pieces[..n]) + pieces[n]
    ensures Concat(pieces[n..]) == pieces[n] + Concat(pieces[n + 1..])
  {
    assert pieces[..n + 1] == pieces[..n] + [pieces[n]];
    ConcatSnoc(pieces[..n], pieces[n]);
    assert pieces[n..][1..] == pieces[n + 1..];
  }

  lemma {:induction false} ConcatSnoc(pieces: seq<string>, last: string)
    ensures Concat(pieces + [last]) == Concat(pieces) + last
    decreases |pieces|
  {
    if pieces == [] {
      assert [last][1..] == [];
      assert Concat([last]) == last + "" == last;
    } else {
      assert (pieces + [last])[1..] == pieces[1..] + [last];
      ConcatSnoc(pieces[1..], last);
    }
  }
}
