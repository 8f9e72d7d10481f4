/** Several requests in one buffer: each is read exactly, in order, from what the one before
    it left behind. */
module Pipelining {
  import opened Base
  import opened Headers
  import opened Requests
  import opened RequestMachine
  import opened Fragmentation
  import C = ChunkCodec

  /** How a body is sent: as it is, its length being announced; or in chunks. */
  datatype Framing = Sized | Chunked(chunks: seq<C.Chunk>, zero: string)

  /** One request on the wire: blank lines, a head up to its delimiter, and a body in its framing. */
  datatype Message = Message(blank: string, head: string, body: string, framing: Framing) {
    function Sent(): string {
      match framing case Sized => body case Chunked(chunks, zero) => C.EncodeBody(chunks, zero)
    }

    function Wire(): string { blank + head + Sent() }
  }

  /** What is read from a head on its own. */
  ghost function HeadOf(head: string): Head {
    if HeaderEnd(head).None? || '\n' !in head then BadHead
    else ReadHead(head, HeaderEnd(head).value, map[])
  }

  /** A head the server accepts: blank lines, then lines up to the first delimiter, with the
      three words of the request line among them. */
  ghost predicate WellFormedHead(blank: string, head: string) {
    && (forall k :: 0 <= k < |blank| ==> IsLineEnd(blank[k]))
    && head != "" && !IsLineEnd(head[0])
    && HeaderEnd(head).Some? && HeaderEnd(head).value.End() == |head|
    && TakeThree(head).Some?
    && HeadOf(head).Head?
  }

  /** A request the server accepts, bodyless or with a Content-Length within its limit. */
  ghost predicate WellFormed(m: Message, router: Router) {
    && WellFormedHead(m.blank, m.head) && m.framing.Sized?
    && var h := HeadOf(m.head);
       && !IsContentChunked(h.headers)
       && |m.body| == ContentLength(h.headers) <= MaxAllowedContentSize(router(h.line, h.headers))
  }

  /** A request the server accepts whose body is sent in chunks and stays within its limit. */
  ghost predicate WellFormedChunked(m: Message, router: Router) {
    && WellFormedHead(m.blank, m.head) && m.framing.Chunked?
    && C.AllValid(m.framing.chunks) && C.IsZeroSize(m.framing.zero) && m.body == C.Data(m.framing.chunks)
    && var h := HeadOf(m.head);
       && IsContentChunked(h.headers)
       && |m.body| <= MaxAllowedContentSize(router(h.line, h.headers)) < SIZE_LIMIT
  }

  ghost predicate AllWellFormed(ms: seq<Message>, router: Router) {
    forall i :: 0 <= i < |ms| ==> WellFormed(ms[i], router)
  }

  /** What reading the message must give. */
  ghost function Expected(m: Message): Outcome {
    match HeadOf(m.head)
    case BadHead => Refused(BadRequest)
    case Head(line, headers) => Complete(line, headers, if m.framing.Sized? && m.body == "" then None else Some(m.body))
  }

  function WireOf(ms: seq<Message>): string {
    if ms == [] then "" else ms[0].Wire() + WireOf(ms[1..])
  }

  ghost function ExpectedAll(ms: seq<Message>): seq<Outcome> {
    if ms == [] then [] else [Expected(ms[0])] + ExpectedAll(ms[1..])
  }

  /** A parser at the start of a request, with bytes already in its buffer. The chunk decoder
      may be in any state. */
  predicate AtStart(p: Parser) {
    p.state.READING_HEADERS? && p.headers == map[] && p.body.None? && p.written == 0
  }

  // The head is found in a stream that starts with it.
  lemma HeadInStream(blank: string, head: string, tail: string)
    requires WellFormedHead(blank, head)
    ensures var t := head + tail;
      && StripLeading(blank + head + tail) == t && t != "" && t[..|head|] == head && t[|head|..] == tail
      && HeaderEnd(t) == HeaderEnd(head) && HeaderEnd(t).Some? && HeaderEnd(t).value.End() == |head|
  {
    hide ReadHead;
    hide TakeThree;
    hide HeadOf;
    var t := head + tail;
    HeaderEndStable(head, tail);
    StripAllBlank(blank, t);
    assert blank + head + tail == blank + t;
    StripStripped(t);
  }

  // However much of what follows is buffered with it, the same head is read.
  lemma HeadReadInStream(blank: string, head: string, tail: string, w: nat)
    requires WellFormedHead(blank, head) && |head| <= w <= |head + tail|
    requires HeaderEnd(head + tail) == HeaderEnd(head)
    ensures var t := head + tail;
      && IsWindow(t, w) && '\n' in t[..w] && ReadHead(t[..w], HeaderEnd(t).value, map[]) == HeadOf(head)
  {
    hide ReadHead;
    hide TakeThree;
    var t := head + tail;
    assert t[..|head|] == head;
    ReadHeadIsolated(t, w, map[]);
  }

  lemma {:induction false} StripAllBlank(blank: string, t: string)
    requires forall k :: 0 <= k < |blank| ==> IsLineEnd(blank[k])
    ensures StripLeading(blank + t) == StripLeading(t)
    decreases |blank|
  {
    if blank == "" {
      assert blank + t == t;
    } else {
      assert (blank + t)[0] == blank[0] && (blank + t)[1..] == blank[1..] + t;
      StripAllBlank(blank[1..], t);
    }
  }

  // The head of a well-formed message is read from the front of the buffer.
  lemma HeadParsed(p: Parser, blank: string, head: string, tail: string)
    requires AtStart(p) && WellFormedHead(blank, head)
    requires p.buffer == blank + head + tail && |head + tail| <= p.maxHeaderSize
    ensures var h := HeadOf(head);
      ParseHeaders(p)
      == p.(state := if HasBody(h.headers) then HEADERS_READY else REQUEST_READY,
            buffer := tail, line := h.line, headers := h.headers,
            contentLength := ContentLength(h.headers), chunked := IsContentChunked(h.headers))
  {
    hide ReadHead;
    hide TakeThree;
    hide HeadOf;
    hide StripLeading;
    hide IsContentChunked;
    hide ContentLength;
    var t := head + tail;
    HeadInStream(blank, head, tail);
    HeadReadInStream(blank, head, tail, |t|);
    assert t[..|t|] == t;
  }

  /** One round: the first message of the buffer is read exactly, the buffer keeps the bytes
      after it, and so shrinks. */
  lemma ReadsOne(p: Parser, m: Message, rest: string, router: Router)
    requires AtStart(p) && WellFormed(m, router)
    requires p.buffer == m.Wire() + rest && |m.head + m.Sent() + rest| <= p.maxHeaderSize
    ensures var q := Deliver(p, "", router);
      && View(q) == Expected(m)
      && q.buffer == rest && |q.buffer| < |p.buffer|
      && q.maxHeaderSize == p.maxHeaderSize
  {
    hide HeadOf;
    hide ParseHeaders;
    hide TakeThree;
    hide HeaderEnd;
    hide IsContentChunked;
    hide ContentLength;
    hide Proceed;
    assert m.Wire() + rest == m.blank + m.head + (m.body + rest);
    assert p.buffer + "" == p.buffer;
    HeadParsed(p, m.blank, m.head, m.body + rest);
    var h := HeadOf(m.head);
    if HasBody(h.headers) {
      TakesBody(ParseHeaders(p).(route := router(h.line, h.headers)), m.body, rest);
    } else {
      assert m.body + rest == rest;
    }
  }

  lemma TakesBody(q: Parser, body: string, rest: string)
    requires q.state.HEADERS_READY? && !q.chunked && q.written == 0 && q.body.None?
    requires q.buffer == body + rest && 0 < |body| == q.contentLength <= MaxAllowedContentSize(q.route)
    ensures var r := Proceed(q);
      r == q.(state := REQUEST_READY, buffer := rest, body := Some(body), written := |body|)
  {
    assert q.buffer[..|body|] == body && q.buffer[|body|..] == rest;
    assert "" + body == body;
  }

  /** After a chunked request the decoder stays done, so that another one is complete with an
      empty body, and its whole encoded body is left in the buffer as the next request. */
  lemma SecondChunkedIsEmpty(p: Parser, blank: string, head: string, tail: string, router: Router)
    requires AtStart(p) && p.decoder.phase.Done? && WellFormedHead(blank, head)
    requires p.buffer == blank + head + tail && |head + tail| <= p.maxHeaderSize
    requires IsContentChunked(HeadOf(head).headers)
    ensures var q := Deliver(p, "", router);
      && View(q) == Complete(HeadOf(head).line, HeadOf(head).headers, Some(""))
      && q.buffer == tail && q.decoder.phase.Done?
  {
    hide HeadOf;
    hide ParseHeaders;
    hide TakeThree;
    hide HeaderEnd;
    hide IsContentChunked;
    hide ContentLength;
    hide C.Feed;
    var h := HeadOf(head);
    assert p.buffer + "" == p.buffer;
    HeadParsed(p, blank, head, tail);
    C.FeedDone(p.decoder.(maxBody := MaxAllowedContentSize(router(h.line, h.headers))), tail);
    assert "" + "" == "";
  }

  /** The rounds after a request is finished: reset, then feed no new bytes. */
  ghost function Rounds(p: Parser, n: nat, router: Router): (seq<Outcome>, Parser)
    decreases n
  {
    if n == 0 then ([], p)
    else
      var q := Deliver(Reset(p), "", router);
      var (later, last) := Rounds(q, n - 1, router);
      ([View(q)] + later, last)
  }

  /** Pipelining: rounds over a buffer of requests give exactly those requests, in order, and
      leave exactly what came after them. */
  lemma {:induction false} RoundsReadAll(p: Parser, ms: seq<Message>, tail: string, router: Router)
    requires AllWellFormed(ms, router)
    requires p.buffer == WireOf(ms) + tail && |p.buffer| <= p.maxHeaderSize
    ensures var (outcomes, last) := Rounds(p, |ms|, router);
      outcomes == ExpectedAll(ms) && last.buffer == tail
    decreases |ms|
  {
    hide WellFormed;
    hide Deliver;
    hide Expected;
    if ms == [] {
      assert "" + tail == tail;
    } else {
      var rest := WireOf(ms[1..]) + tail;
      assert WireOf(ms) + tail == ms[0].Wire() + rest;
      ReadsOne(Reset(p), ms[0], rest, router);
      RoundsReadAll(Deliver(Reset(p), "", router), ms[1..], tail, router);
    }
  }

  /** The same from a connection's first read: the first request is read as the bytes come in,
      the others from the leftovers. */
  lemma PipelinedStream(
    maxHeaderSize: nat, line: StartLine, ms: seq<Message>, tail: string, router: Router)
    requires AllWellFormed(ms, router) && ms != [] && |WireOf(ms) + tail| <= maxHeaderSize
    ensures var first := Deliver(Initial(maxHeaderSize, line), WireOf(ms) + tail, router);
      var (outcomes, last) := Rounds(first, |ms| - 1, router);
      [View(first)] + outcomes == ExpectedAll(ms) && last.buffer == tail
  {
    hide WellFormed;
    hide Expected;
    hide Deliver;
    var stream := WireOf(ms) + tail;
    var p := Initial(maxHeaderSize, line).(buffer := stream);
    var rest := WireOf(ms[1..]) + tail;
    FirstRead(maxHeaderSize, line, stream, router);
    assert stream == ms[0].Wire() + rest;
    ReadsOne(p, ms[0], rest, router);
    RoundsReadAll(Deliver(p, "", router), ms[1..], tail, router);
  }

  lemma FirstRead(maxHeaderSize: nat, line: StartLine, stream: string, router: Router)
    ensures var p := Initial(maxHeaderSize, line);
      Deliver(p, stream, router) == Deliver(p.(buffer := stream), "", router)
  {
    hide ParseHeaders;
    assert "" + stream == stream && stream + "" == stream;
  }
}
