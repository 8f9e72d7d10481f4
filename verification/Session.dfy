/** A connection that carries one request after another, its bytes cut anywhere: each read is
    delivered, and while a request is complete the parser is reset and fed nothing, so that the
    bytes left over begin the next one. */
module Sessions {
  import opened Base
  import opened Headers
  import opened Requests
  import opened RequestMachine
  import opened Fragmentation
  import opened Pipelining
  import C = ChunkCodec

  // ------------------------------------------------------------------------- how it is driven

  /** Complete requests are recorded one after the other, each round reading from what the one
      before it left in the buffer. */
  ghost function Drain(q: Parser, router: Router): (seq<Outcome>, Parser)
    decreases |q.buffer|
  {
    if !q.state.REQUEST_READY? then ([], q)
    else
      var next := Deliver(Reset(q), "", router);
      if !next.state.REQUEST_READY? then ([View(q)], next)
      else
        ReadyShrinks(Reset(q), router);
        var (later, last) := Drain(next, router);
        ([View(q)] + later, last)
  }

  ghost function Session(p: Parser, fragments: seq<string>, router: Router): (seq<Outcome>, Parser)
    decreases |fragments|
  {
    if fragments == [] then ([], p)
    else
      var (now, q) := Drain(Deliver(p, fragments[0], router), router);
      var (later, last) := Session(q, fragments[1..], router);
      (now + later, last)
  }

  // A request that completes has used up a head.
  lemma ReadyShrinks(p: Parser, router: Router)
    requires p.state.READING_HEADERS?
    ensures var q := Deliver(p, "", router); q.state.REQUEST_READY? ==> |q.buffer| < |p.buffer|
  {
    hide ParseHeaders;
    hide Proceed;
    assert p.buffer + "" == p.buffer;
    HeadShrinks(p);
    var h := ParseHeaders(p);
    ProceedShrinks(h.(route := router(h.line, h.headers)));
  }

  lemma HeadShrinks(p: Parser)
    requires p.state.READING_HEADERS?
    ensures var q := ParseHeaders(p);
      q.state.REQUEST_READY? || q.state.HEADERS_READY? ==> |q.buffer| < |p.buffer|
  {
    hide ReadHead;
    hide IsContentChunked;
    hide ContentLength;
    hide StripLeading;
    var t := StripLeading(p.buffer);
    if HeaderEnd(t).Some? {
      DelimiterShape(t, HeaderEnd(t).value);
    }
  }

  lemma ProceedShrinks(p: Parser)
    ensures Proceed(p).state.REQUEST_READY? ==> |Proceed(p).buffer| <= |p.buffer|
  {
    hide C.Feed;
  }

  // -------------------------------------------------------------------- between two reads

  /** A request the server accepts, in either framing. */
  ghost predicate Acceptable(m: Message, router: Router) {
    WellFormed(m, router) || WellFormedChunked(m, router)
  }

  predicate AllLineEnds(s: string) {
    forall k :: 0 <= k < |s| ==> IsLineEnd(s[k])
  }

  /** The head of message `m` is incomplete: the buffer and what is still to come are blank lines,
      the message from its head on, and what follows it. */
  ghost predicate MidHead(p: Parser, m: Message, blank: string, future: string, later: string) {
    && AtStart(p) && AllLineEnds(blank) && |blank| <= |m.blank|
    && p.buffer + future == blank + m.head + m.Sent() + later
    && |p.buffer| < |blank| + |m.head|
  }

  /** The head was read, and the body is incomplete. */
  ghost predicate MidSized(p: Parser, m: Message, future: string, later: string) {
    && p.state.READING_BODY? && !p.chunked && p.buffer == "" && HeadOf(m.head).Head?
    && p.line == HeadOf(m.head).line && p.headers == HeadOf(m.head).headers
    && p.written < p.contentLength == |m.body|
    && p.body == Some(m.body[..p.written]) && future == m.body[p.written..] + later
  }

  /** The same for a body sent in chunks, of which `k` bytes came in. */
  ghost predicate MidChunked(p: Parser, m: Message, k: nat, router: Router, future: string, later: string) {
    && p.state.READING_BODY? && p.chunked && p.buffer == "" && HeadOf(m.head).Head?
    && p.line == HeadOf(m.head).line && p.headers == HeadOf(m.head).headers
    && k < |m.Sent()| && future == m.Sent()[k..] + later && p.body.Some? && !p.decoder.phase.Done?
    && C.Feed(C.Fresh(LimitFor(m, router)), m.Sent()[..k]) == C.Fed(p.decoder, p.body.value, k)
  }

  /** The limit on the body of a message. */
  ghost function LimitFor(m: Message, router: Router): nat
    requires HeadOf(m.head).Head?
  {
    MaxAllowedContentSize(router(HeadOf(m.head).line, HeadOf(m.head).headers))
  }

  ghost predicate MidBody(p: Parser, m: Message, router: Router, future: string, later: string) {
    if m.framing.Sized? then MidSized(p, m, future, later)
    else exists k: nat :: MidChunked(p, m, k, router, future, later)
  }

  ghost predicate Midway(p: Parser, m: Message, router: Router, future: string, later: string) {
    (exists blank :: MidHead(p, m, blank, future, later)) || MidBody(p, m, router, future, later)
  }

  /** The message was completed by this read, with the bytes after it in the buffer. */
  ghost predicate Completes(q: Parser, m: Message, future: string, later: string) {
    q.state.REQUEST_READY? && View(q) == Expected(m) && q.buffer + future == later
  }

  /** How many bytes are still to come before the head of `m` ends; negative if more came in. */
  function Ahead(m: Message, future: string, later: string): int {
    |future| - |later| - |m.Sent()|
  }

  /** The guard of the parser: the bytes that came in from the first one of the head on are more
      than the limit. */
  predicate TooMuch(m: Message, future: string, later: string, maxHeaderSize: nat) {
    |m.head| - Ahead(m, future, later) > maxHeaderSize
  }

  // --------------------------------------------------------------------------- one read

  // The buffer and the read, seen as the front of the stream.
  lemma StreamFront(t: string, future: string, whole: string, rest: string)
    requires t + future == whole + rest
    ensures |t| <= |whole| ==> t == whole[..|t|] && future == whole[|t|..] + rest
    ensures |t| >= |whole| ==> t == whole + t[|whole|..] && t[|whole|..] + future == rest
  {
    var s := t + future;
    if |t| <= |whole| {
      assert t == s[..|t|] && future == s[|t|..];
    } else {
      assert whole == s[..|whole|] == t[..|whole|] && rest == s[|whole|..];
    }
  }

  // Only blank lines so far: they are dropped, or kept.
  lemma BlankGrows(p: Parser)
    requires AtStart(p) && AllLineEnds(p.buffer)
    ensures var q := ParseHeaders(p); q == p || q == p.(buffer := "")
  {
    BlankStripped(p.buffer);
    HeaderEndEmpty();
  }

  // Part of a head so far: the blank lines before it are dropped, and the rest must fit.
  lemma PartGrows(p: Parser, blank: string, head: string, n: nat)
    requires AtStart(p) && AllLineEnds(blank) && 0 < n < |head| && p.buffer == blank + head[..n]
    requires !IsLineEnd(head[0]) && HeaderEnd(head).Some? && HeaderEnd(head).value.End() == |head|
    ensures ParseHeaders(p)
         == if n > p.maxHeaderSize then Refuse(p.(buffer := head[..n]), BadRequest) else p.(buffer := head[..n])
  {
    hide HeaderEnd;
    var h := head[..n];
    assert h[0] == head[0];
    StripAllBlank(blank, h);
    StripStripped(h);
    HeaderEndPrefix(head, n);
  }

  // The head stays incomplete.
  lemma HeadGrows(
    p: Parser, m: Message, blank: string, f: string, router: Router, future: string, later: string)
    requires WellFormedHead(m.blank, m.head) && MidHead(p, m, blank, f + future, later)
    requires |p.buffer + f| < |blank| + |m.head|
    ensures Ahead(m, future, later) > 0
    ensures var q := Deliver(p, f, router);
      if TooMuch(m, future, later, p.maxHeaderSize) then q.state.ERROR? && View(q) == Refused(BadRequest)
      else
        && (exists b :: MidHead(q, m, b, future, later)) && q.maxHeaderSize == p.maxHeaderSize
        && q.state.READING_HEADERS? && q.decoder == p.decoder
  {
    hide HeadOf;
    hide TakeThree;
    hide ParseHeaders;
    hide HeaderEnd;
    var t := p.buffer + f;
    var whole := blank + m.head;
    assert p.buffer + (f + future) == t + future;
    assert t + future == whole + (m.Sent() + later);
    StreamFront(t, future, whole, m.Sent() + later);
    assert |t| + |future| == |whole| + |m.Sent()| + |later|;
    var q := Deliver(p, f, router);
    if |t| <= |blank| {
      assert t == blank[..|t|] && whole[|t|..] == blank[|t|..] + m.head;
      BlankGrows(p.(buffer := t));
      BlanksStay(q, m, blank, t, future, later);
    } else {
      var n := |t| - |blank|;
      assert t == blank + m.head[..n] && whole[|t|..] == m.head[n..];
      PartGrows(p.(buffer := t), blank, m.head, n);
      if n <= p.maxHeaderSize {
        PartStays(q, m, n, future, later);
      }
    }
  }

  // Part of the head.
  lemma PartStays(q: Parser, m: Message, n: nat, future: string, later: string)
    requires AtStart(q) && n < |m.head| && q.buffer == m.head[..n] && future == m.head[n..] + (m.Sent() + later)
    ensures MidHead(q, m, "", future, later)
  {
    assert m.head[..n] + m.head[n..] == "" + m.head;
    HeadStays(q, m, "", future, later);
  }

  // Blank lines alone, kept or dropped.
  lemma BlanksStay(q: Parser, m: Message, blank: string, t: string, future: string, later: string)
    requires AtStart(q) && AllLineEnds(blank) && |blank| <= |m.blank| && m.head != ""
    requires |t| <= |blank| && t == blank[..|t|] && (q.buffer == t || q.buffer == "")
    requires future == blank[|t|..] + m.head + (m.Sent() + later)
    ensures exists b :: MidHead(q, m, b, future, later)
  {
    var left := blank[|t|..];
    if q.buffer == "" {
      assert "" + future == future;
      HeadStays(q, m, left, future, later);
    } else {
      assert t + left == blank;
      assert t + (left + m.head + (m.Sent() + later)) == t + left + m.head + (m.Sent() + later);
      HeadStays(q, m, blank, future, later);
    }
  }

  lemma HeadStays(q: Parser, m: Message, blank: string, future: string, later: string)
    requires AtStart(q) && AllLineEnds(blank) && |blank| <= |m.blank| && |q.buffer| < |blank| + |m.head|
    requires q.buffer + future == blank + m.head + (m.Sent() + later)
    ensures MidHead(q, m, blank, future, later)
  {
    assert blank + m.head + (m.Sent() + later) == blank + m.head + m.Sent() + later;
  }

  lemma BlankStripped(t: string)
    requires AllLineEnds(t)
    ensures StripLeading(t) == ""
  {
    assert t + "" == t;
    StripAllBlank(t, "");
  }

  // The head is completed, with `y` after it.
  lemma HeadArrives(p: Parser, m: Message, blank: string, f: string, future: string, later: string)
    returns (y: string)
    requires WellFormedHead(m.blank, m.head) && MidHead(p, m, blank, f + future, later)
    requires |p.buffer + f| >= |blank| + |m.head|
    ensures y + future == m.Sent() + later && |y| == -Ahead(m, future, later) && |y| <= |f|
    ensures var q := ParseHeaders(p.(buffer := p.buffer + f));
      var h := HeadOf(m.head);
      if TooMuch(m, future, later, p.maxHeaderSize) then q.state.ERROR? && q.errorStatus == BadRequest
      else
        q == p.(state := if HasBody(h.headers) then HEADERS_READY else REQUEST_READY,
                buffer := y, line := h.line, headers := h.headers,
                contentLength := ContentLength(h.headers), chunked := IsContentChunked(h.headers))
  {
    hide HeadOf;
    hide TakeThree;
    hide HeaderEnd;
    hide ParseHeaders;
    hide IsContentChunked;
    hide ContentLength;
    var t := p.buffer + f;
    var whole := blank + m.head;
    assert p.buffer + (f + future) == t + future;
    assert t + future == whole + (m.Sent() + later);
    StreamFront(t, future, whole, m.Sent() + later);
    y := t[|whole|..];
    assert t == blank + m.head + y;
    assert |y + future| == |m.Sent() + later|;
    assert WellFormedHead(blank, m.head);
    if |m.head + y| <= p.maxHeaderSize {
      HeadParsed(p.(buffer := t), blank, m.head, y);
    } else {
      HeadOverfills(p.(buffer := t), blank, m.head, y);
    }
  }

  lemma HeadOverfills(p: Parser, blank: string, head: string, tail: string)
    requires WellFormedHead(blank, head) && p.buffer == blank + head + tail && |head + tail| > p.maxHeaderSize
    ensures ParseHeaders(p).state.ERROR? && ParseHeaders(p).errorStatus == BadRequest
  {
    hide HeadOf;
    hide TakeThree;
    hide HeaderEnd;
    hide StripLeading;
    HeadInStream(blank, head, tail);
  }

  // The head is completed, and perhaps the body with it.
  lemma HeadCompletes(
    p: Parser, m: Message, blank: string, f: string, router: Router, future: string, later: string)
    requires Acceptable(m, router) && MidHead(p, m, blank, f + future, later)
    requires m.framing.Chunked? ==> p.decoder == C.Fresh(0)
    requires |p.buffer + f| >= |blank| + |m.head|
    ensures Ahead(m, future, later) <= 0
    ensures var q := Deliver(p, f, router);
      if TooMuch(m, future, later, p.maxHeaderSize) then q.state.ERROR? && View(q) == Refused(BadRequest)
      else
        && (Completes(q, m, future, later) || MidBody(q, m, router, future, later))
        && q.maxHeaderSize == p.maxHeaderSize && (m.framing.Sized? ==> q.decoder == p.decoder)
  {
    hide HeadOf;
    hide ParseHeaders;
    hide TakeThree;
    hide HeaderEnd;
    hide IsContentChunked;
    hide ContentLength;
    hide Proceed;
    hide MaxAllowedContentSize;
    hide C.EncodeBody;
    hide C.Feed;
    hide MidSized;
    hide MidChunked;
    hide C.IsZeroSize;
    var y := HeadArrives(p, m, blank, f, future, later);
    if !TooMuch(m, future, later, p.maxHeaderSize) {
      var h := HeadOf(m.head);
      var q := ParseHeaders(p.(buffer := p.buffer + f)).(route := router(h.line, h.headers));
      if m.framing.Chunked? {
        ChunkedTaken(q, m, y, router, future, later);
      } else if HasBody(h.headers) {
        SizedTaken(q, m, y, future, later);
      } else {
        assert m.body + later == later;
      }
    }
  }

  // Bytes of the body come in: all that are missing, with more after them, or some of them.
  lemma Split(body: string, k: nat, y: string, future: string, later: string)
    requires k <= |body| && y + future == body[k..] + later
    ensures var n := Min(|y|, |body| - k);
      && body[..k] + y[..n] == body[..k + n]
      && (k + n == |body| ==> y[n..] + future == later)
      && (k + n < |body| ==> y[n..] == "" && future == body[k + n..] + later)
  {
    var n := Min(|y|, |body| - k);
    var s := y + future;
    assert y[..n] == s[..n] == body[k..][..n] == body[k..k + n];
    if k + n == |body| {
      assert s[n..] == later && s[n..] == y[n..] + future;
    } else {
      assert s[n..] == future && s[n..] == body[k..][n..] + later;
      assert body[k..][n..] == body[k + n..];
    }
  }

  lemma SizedTaken(q: Parser, m: Message, y: string, future: string, later: string)
    requires q.state.HEADERS_READY? && !q.chunked && q.written == 0 && q.body.None? && m.framing.Sized?
    requires HeadOf(m.head).Head? && q.line == HeadOf(m.head).line && q.headers == HeadOf(m.head).headers
    requires q.buffer == y && 0 < |m.body| == q.contentLength <= MaxAllowedContentSize(q.route)
    requires y + future == m.body + later
    ensures var r := Proceed(q);
      && (Completes(r, m, future, later) || MidSized(r, m, future, later))
      && r.maxHeaderSize == q.maxHeaderSize && r.decoder == q.decoder
  {
    hide HeadOf;
    hide MaxAllowedContentSize;
    assert m.body[0..] == m.body && m.body[..0] == "";
    Split(m.body, 0, y, future, later);
    var n := Min(|y|, |m.body|);
    assert "" + y[..n] == y[..n];
    assert m.body[..|m.body|] == m.body;
  }

  lemma SizedGrows(p: Parser, m: Message, f: string, router: Router, future: string, later: string)
    requires MidSized(p, m, f + future, later) && m.framing.Sized?
    ensures var q := Deliver(p, f, router);
      && (Completes(q, m, future, later) || MidSized(q, m, future, later))
      && q.maxHeaderSize == p.maxHeaderSize && q.decoder == p.decoder
  {
    hide HeadOf;
    assert "" + f == f;
    Split(m.body, p.written, f, future, later);
    assert m.body[..|m.body|] == m.body;
  }

  // What the decoder makes of the front of an encoding: part of it, or all and what follows.
  lemma EncodingFront(limit: nat, chunks: seq<C.Chunk>, zero: string, y: string, future: string, later: string)
    requires C.AllValid(chunks) && C.IsZeroSize(zero) && |C.Data(chunks)| <= limit && 0 < limit < SIZE_LIMIT
    requires y + future == C.EncodeBody(chunks, zero) + later
    ensures var enc := C.EncodeBody(chunks, zero);
      var r := C.Feed(C.Fresh(limit), y);
      && r.Fed?
      && (if |y| >= |enc| then
            r.d.phase.Done? && r.out == C.Data(chunks) && r.used == |enc| && y[|enc|..] + future == later
          else
            !r.d.phase.Done? && r.used == |y| && y == enc[..|y|] && future == enc[|y|..] + later)
  {
    hide C.Feed;
    hide C.EncodeBody;
    hide C.IsZeroSize;
    hide C.Data;
    hide C.AllValid;
    var enc := C.EncodeBody(chunks, zero);
    StreamFront(y, future, enc, later);
    if |y| >= |enc| {
      C.DecodeInvertsEncode(limit, chunks, zero, y[|enc|..]);
    } else {
      var rest := enc[|y|..];
      assert y + rest == enc && enc + "" == enc;
      C.DecodeInvertsEncode(limit, chunks, zero, "");
      C.FeedSplit(C.Fresh(limit), y, rest);
      var r := C.Feed(C.Fresh(limit), y);
      if r.Fed? && r.d.phase.Done? {
        C.FeedDone(r.d, rest);
      }
    }
  }

  lemma ChunkedTaken(q: Parser, m: Message, y: string, router: Router, future: string, later: string)
    requires WellFormedChunked(m, router) && q.state.HEADERS_READY? && q.chunked && q.body.None? && q.written == 0
    requires q.line == HeadOf(m.head).line && q.headers == HeadOf(m.head).headers
    requires q.decoder == C.Fresh(0) && MaxAllowedContentSize(q.route) == LimitFor(m, router)
    requires q.buffer == y && y + future == m.Sent() + later
    ensures var r := Proceed(q);
      && (Completes(r, m, future, later) || MidBody(r, m, router, future, later))
      && r.maxHeaderSize == q.maxHeaderSize
  {
    hide HeadOf;
    hide TakeThree;
    hide HeaderEnd;
    hide IsContentChunked;
    hide C.Feed;
    hide C.EncodeBody;
    hide C.IsZeroSize;
    hide C.Data;
    hide C.AllValid;
    hide MaxAllowedContentSize;
    var limit := LimitFor(m, router);
    EncodingFront(limit, m.framing.chunks, m.framing.zero, y, future, later);
    var r := C.Feed(C.Fresh(limit), y);
    assert "" + r.out == r.out;
    if !r.d.phase.Done? {
      assert MidChunked(Proceed(q), m, |y|, router, future, later);
    }
  }

  lemma ChunkedGrows(p: Parser, m: Message, k: nat, f: string, router: Router, future: string, later: string)
    requires WellFormedChunked(m, router) && MidChunked(p, m, k, router, f + future, later)
    ensures var q := Deliver(p, f, router);
      && (Completes(q, m, future, later) || MidBody(q, m, router, future, later))
      && q.maxHeaderSize == p.maxHeaderSize
  {
    hide HeadOf;
    hide TakeThree;
    hide HeaderEnd;
    hide IsContentChunked;
    hide C.Feed;
    hide C.EncodeBody;
    hide C.IsZeroSize;
    hide C.Data;
    hide C.AllValid;
    hide MaxAllowedContentSize;
    var limit, enc := LimitFor(m, router), m.Sent();
    var y := enc[..k] + f;
    assert "" + f == f;
    assert y + future == enc[..k] + (f + future) == enc[..k] + enc[k..] + later == enc + later;
    EncodingFront(limit, m.framing.chunks, m.framing.zero, y, future, later);
    C.FeedSplit(C.Fresh(limit), enc[..k], f);
    var r := C.Feed(p.decoder, f);
    if r.Fed? && r.d.phase.Done? {
      assert f[r.used..] == y[|enc|..];
    } else if r.Fed? {
      assert f[r.used..] == "";
      assert MidChunked(Deliver(p, f, router), m, |y|, router, future, later);
    }
  }

  /** One read, between two points of the stream: the message in progress stays so, or is
      completed exactly; unless its head is not complete before the read, and the guard applies. */
  lemma ReadStep(p: Parser, m: Message, f: string, router: Router, future: string, later: string)
    requires Acceptable(m, router) && Midway(p, m, router, f + future, later)
    requires p.state.READING_HEADERS? && m.framing.Chunked? ==> p.decoder == C.Fresh(0)
    ensures var q := Deliver(p, f, router);
      if p.state.READING_HEADERS? && TooMuch(m, future, later, p.maxHeaderSize) then
        q.state.ERROR? && View(q) == Refused(BadRequest)
      else
        && (Completes(q, m, future, later) || Midway(q, m, router, future, later))
        && q.maxHeaderSize == p.maxHeaderSize && !q.state.ERROR?
        && (q.state.READING_HEADERS? ==> p.state.READING_HEADERS? && Ahead(m, future, later) > 0)
        && (!q.state.READING_HEADERS? && p.state.READING_HEADERS? ==> Ahead(m, future, later) <= 0)
        && (q.state.READING_HEADERS? || m.framing.Sized? ==> q.decoder == p.decoder)
    ensures p.state.READING_HEADERS? ==> Ahead(m, f + future, later) > 0
  {
    hide Acceptable;
    hide MidSized;
    hide MidChunked;
    hide Deliver;
    hide View;
    hide Expected;
    WhatIsAcceptable(m, router);
    var q := Deliver(p, f, router);
    if blank :| MidHead(p, m, blank, f + future, later) {
      assert |p.buffer + (f + future)| == |blank + m.head + m.Sent() + later|;
      if |p.buffer + f| < |blank| + |m.head| {
        HeadGrows(p, m, blank, f, router, future, later);
      } else {
        HeadCompletes(p, m, blank, f, router, future, later);
      }
    } else if m.framing.Sized? {
      SizedGrows(p, m, f, router, future, later);
    } else {
      var k: nat :| MidChunked(p, m, k, router, f + future, later);
      ChunkedGrows(p, m, k, f, router, future, later);
    }
    BodyStates(p, m, router, f + future, later);
    BodyStates(q, m, router, future, later);
  }

  lemma WhatIsAcceptable(m: Message, router: Router)
    requires Acceptable(m, router)
    ensures WellFormedHead(m.blank, m.head) && (m.framing.Chunked? ==> WellFormedChunked(m, router))
  {
    hide WellFormedHead;
    hide HeadOf;
    hide C.AllValid;
    hide C.IsZeroSize;
    hide IsContentChunked;
    hide ContentLength;
    hide MaxAllowedContentSize;
  }

  lemma BodyStates(p: Parser, m: Message, router: Router, future: string, later: string)
    ensures MidBody(p, m, router, future, later) ==> p.state.READING_BODY?
  {
  }

  // -------------------------------------------------------------- which heads come in in time

  /** How many of the bytes to come will have come in when the read that brings in the byte before
      position `n` ends; none if that byte is in already. */
  function More(fragments: seq<string>, n: int): nat
    decreases |fragments|
  {
    if n <= 0 || fragments == [] then 0 else |fragments[0]| + More(fragments[1..], n - |fragments[0]|)
  }

  /** The guard of the parser as a condition on the bytes, for a message that starts at position
      `start` of what is to come (before it, if negative): from the first byte of its head to the
      end of the read that brings in the end of its head there are at most `maxHeaderSize` bytes. */
  predicate HeadFits(m: Message, start: int, fragments: seq<string>, maxHeaderSize: nat) {
    var first := start + |m.blank|;
    More(fragments, first + |m.head|) - first <= maxHeaderSize
  }

  predicate AllFit(ms: seq<Message>, start: int, fragments: seq<string>, maxHeaderSize: nat)
    decreases |ms|
  {
    ms == [] ||
    (HeadFits(ms[0], start, fragments, maxHeaderSize)
     && AllFit(ms[1..], start + |ms[0].Wire()|, fragments, maxHeaderSize))
  }

  /** What `More` counts: up to the end of the first read that reaches position `n`. */
  lemma {:induction false} MoreIsEndOfRead(fragments: seq<string>, n: nat) returns (j: nat)
    requires 0 < n <= |Concat(fragments)|
    ensures 0 < j <= |fragments| && More(fragments, n) == |Concat(fragments[..j])|
    ensures |Concat(fragments[..j - 1])| < n <= |Concat(fragments[..j])|
    decreases |fragments|
  {
    var f, rest := fragments[0], fragments[1..];
    if n <= |f| {
      j := 1;
      assert fragments[..1] == [f] && [f][1..] == [] && fragments[..0] == [];
    } else {
      var k := MoreIsEndOfRead(rest, n - |f|);
      j := k + 1;
      assert fragments[..j][1..] == rest[..k] && fragments[..j - 1][1..] == rest[..k - 1];
    }
  }

  /** The head of message `i` fits, where it is. */
  predicate FitsAt(ms: seq<Message>, i: nat, start: int, fragments: seq<string>, maxHeaderSize: nat)
    requires i < |ms|
  {
    HeadFits(ms[i], start + |WireOf(ms[..i])|, fragments, maxHeaderSize)
  }

  lemma FitsAtLater(ms: seq<Message>, i: nat, start: int, fragments: seq<string>, maxHeaderSize: nat)
    requires ms != [] && i + 1 < |ms|
    ensures FitsAt(ms, i + 1, start, fragments, maxHeaderSize)
        <==> FitsAt(ms[1..], i, start + |ms[0].Wire()|, fragments, maxHeaderSize)
  {
    hide HeadFits;
    assert ms[..i + 1][1..] == ms[1..][..i] && ms[..i + 1][0] == ms[0];
  }

  /** What `AllFit` says: each head fits. */
  lemma {:induction false} AllFitIsEach(ms: seq<Message>, start: int, fragments: seq<string>, maxHeaderSize: nat)
    ensures AllFit(ms, start, fragments, maxHeaderSize)
        <==> forall i :: 0 <= i < |ms| ==> FitsAt(ms, i, start, fragments, maxHeaderSize)
    decreases |ms|
  {
    hide HeadFits;
    hide FitsAt;
    if ms != [] {
      var rest, next := ms[1..], start + |ms[0].Wire()|;
      AllFitIsEach(rest, next, fragments, maxHeaderSize);
      FitsAtFirst(ms, start, fragments, maxHeaderSize);
      forall i: nat | i < |rest|
        ensures FitsAt(ms, i + 1, start, fragments, maxHeaderSize) <==> FitsAt(rest, i, next, fragments, maxHeaderSize)
      {
        FitsAtLater(ms, i, start, fragments, maxHeaderSize);
      }
      if forall i :: 0 <= i < |ms| ==> FitsAt(ms, i, start, fragments, maxHeaderSize) {
        forall i: nat | i < |rest| ensures FitsAt(rest, i, next, fragments, maxHeaderSize) {
          assert FitsAt(ms, i + 1, start, fragments, maxHeaderSize);
        }
      }
      if AllFit(ms, start, fragments, maxHeaderSize) {
        forall i: nat | i < |ms| ensures FitsAt(ms, i, start, fragments, maxHeaderSize) {
          if i > 0 {
            assert FitsAt(rest, i - 1, next, fragments, maxHeaderSize);
            assert FitsAt(ms, (i - 1) + 1, start, fragments, maxHeaderSize);
          }
        }
      }
    }
  }

  lemma FitsAtFirst(ms: seq<Message>, start: int, fragments: seq<string>, maxHeaderSize: nat)
    requires ms != []
    ensures FitsAt(ms, 0, start, fragments, maxHeaderSize) <==> HeadFits(ms[0], start, fragments, maxHeaderSize)
  {
    assert ms[..0] == [];
  }

  lemma {:induction false} MoreReaches(fragments: seq<string>, n: int)
    requires n <= |Concat(fragments)|
    ensures More(fragments, n) >= n
    decreases |fragments|
  {
    if n > 0 {
      MoreReaches(fragments[1..], n - |fragments[0]|);
    }
  }

  // One read later, every position is that much nearer.
  lemma {:induction false} FitShifts(ms: seq<Message>, start: int, fragments: seq<string>, maxHeaderSize: nat)
    requires fragments != [] && (ms != [] ==> start + |ms[0].blank| + |ms[0].head| > 0)
    ensures AllFit(ms, start, fragments, maxHeaderSize)
        <==> AllFit(ms, start - |fragments[0]|, fragments[1..], maxHeaderSize)
    decreases |ms|
  {
    if ms != [] {
      var next := start + |ms[0].Wire()|;
      assert |ms[0].Wire()| >= |ms[0].blank| + |ms[0].head|;
      assert start - |fragments[0]| + |ms[0].Wire()| == next - |fragments[0]|;
      FitShifts(ms[1..], next, fragments, maxHeaderSize);
    }
  }

  /** Where the messages `ms`, followed by `tail`, start in what is to come. */
  function StartOf(ms: seq<Message>, tail: string, future: string): int {
    |future| - |WireOf(ms)| - |tail|
  }

  // The first message among those to come, and how far ahead its head ends.
  lemma StartAhead(ms: seq<Message>, tail: string, future: string)
    requires ms != []
    ensures var later := WireOf(ms[1..]) + tail;
      && StartOf(ms, tail, future) + |ms[0].blank| + |ms[0].head| == Ahead(ms[0], future, later)
      && StartOf(ms[1..], tail, future) == StartOf(ms, tail, future) + |ms[0].Wire()|
  {
  }

  // Once its head is in, or can only come in too late, the guard says whether the message fits.
  lemma HeadDecided(ms: seq<Message>, tail: string, fragments: seq<string>, maxHeaderSize: nat)
    requires ms != []
    ensures var future := Concat(fragments);
      var later := WireOf(ms[1..]) + tail;
      var fits := HeadFits(ms[0], StartOf(ms, tail, future), fragments, maxHeaderSize);
      && (Ahead(ms[0], future, later) <= 0 ==> (fits <==> !TooMuch(ms[0], future, later, maxHeaderSize)))
      && (TooMuch(ms[0], future, later, maxHeaderSize) ==> !fits)
  {
    var future := Concat(fragments);
    var n := Ahead(ms[0], future, WireOf(ms[1..]) + tail);
    StartAhead(ms, tail, future);
    MoreReaches(fragments, n);
  }

  // So the guard at the first head decides whether all fit, or leaves it to the others.
  lemma FirstDecides(ms: seq<Message>, tail: string, fragments: seq<string>, maxHeaderSize: nat)
    requires ms != []
    ensures var future := Concat(fragments);
      var later := WireOf(ms[1..]) + tail;
      var fits := AllFit(ms, StartOf(ms, tail, future), fragments, maxHeaderSize);
      && (TooMuch(ms[0], future, later, maxHeaderSize) ==> !fits)
      && (!TooMuch(ms[0], future, later, maxHeaderSize) && Ahead(ms[0], future, later) <= 0 ==>
            (fits <==> AllFit(ms[1..], StartOf(ms[1..], tail, future), fragments, maxHeaderSize)))
  {
    hide HeadFits;
    hide TooMuch;
    StartAhead(ms, tail, Concat(fragments));
    HeadDecided(ms, tail, fragments, maxHeaderSize);
  }

  // ------------------------------------------------------------------------- whole sessions

  predicate AnyChunked(ms: seq<Message>) {
    exists i :: 0 <= i < |ms| && ms[i].framing.Chunked?
  }

  /** At most one of the messages is sent in chunks: the decoder is not made new after it. */
  predicate OneChunked(ms: seq<Message>) {
    forall i, j :: 0 <= i < j < |ms| && ms[i].framing.Chunked? ==> !ms[j].framing.Chunked?
  }

  ghost predicate AllAcceptable(ms: seq<Message>, router: Router) {
    forall i :: 0 <= i < |ms| ==> Acceptable(ms[i], router)
  }

  lemma ChunkedAmong(ms: seq<Message>)
    requires ms != [] && OneChunked(ms)
    ensures OneChunked(ms[1..]) && (AnyChunked(ms[1..]) ==> AnyChunked(ms))
    ensures ms[0].framing.Chunked? ==> AnyChunked(ms) && !AnyChunked(ms[1..])
  {
    if AnyChunked(ms[1..]) {
      var i :| 0 <= i < |ms[1..]| && ms[1..][i].framing.Chunked?;
      assert ms[i + 1].framing.Chunked?;
    }
  }

  /** The decoder is as good as new for the messages whose head is still to be read. */
  predicate DecoderFor(p: Parser, ms: seq<Message>) {
    AnyChunked(ms) ==> p.decoder == C.Fresh(0)
  }

  /** Between two reads, the messages `ms` and then `tail` still to be completed. */
  ghost predicate AtRest(p: Parser, ms: seq<Message>, tail: string, router: Router, future: string) {
    if ms == [] then tail == "" ==> AtStart(p) && p.buffer == "" && future == ""
    else
      && Midway(p, ms[0], router, future, WireOf(ms[1..]) + tail) && !p.state.ERROR?
      && DecoderFor(p, if p.state.READING_HEADERS? then ms else ms[1..])
  }

  /** The heads still to be read fit. */
  predicate RestFits(p: Parser, ms: seq<Message>, tail: string, fragments: seq<string>, maxHeaderSize: nat) {
    var due := if ms == [] || p.state.READING_HEADERS? then ms else ms[1..];
    AllFit(due, StartOf(due, tail, Concat(fragments)), fragments, maxHeaderSize)
  }

  // Nothing but the start of a message has come in.
  lemma StartsMidway(p: Parser, m: Message, router: Router, future: string, later: string)
    requires AtStart(p) && p.buffer == "" && AllLineEnds(m.blank) && m.head != ""
    requires future == m.Wire() + later
    ensures Midway(p, m, router, future, later)
  {
    assert "" + future == future;
    assert m.Wire() + later == m.blank + m.head + (m.Sent() + later);
    HeadStays(p, m, m.blank, future, later);
  }

  // Feeding nothing to a full buffer is reading it.
  lemma Refeed(p: Parser, router: Router)
    requires p.state.READING_HEADERS?
    ensures Deliver(p, "", router) == Deliver(p.(buffer := ""), p.buffer, router)
  {
    hide ParseHeaders;
    assert p.buffer + "" == p.buffer && "" + p.buffer == p.buffer;
  }

  // One round after a completed message: the next one is read from what was left over.
  lemma RoundStep(q: Parser, m: Message, router: Router, future: string, later: string)
    requires Acceptable(m, router) && q.buffer + future == m.Wire() + later
    requires m.framing.Chunked? ==> q.decoder == C.Fresh(0)
    ensures var next := Deliver(Reset(q), "", router);
      if TooMuch(m, future, later, q.maxHeaderSize) then next.state.ERROR? && View(next) == Refused(BadRequest)
      else
        && (Completes(next, m, future, later) || Midway(next, m, router, future, later))
        && next.maxHeaderSize == q.maxHeaderSize && !next.state.ERROR?
        && (if next.state.READING_HEADERS? then Ahead(m, future, later) > 0 else Ahead(m, future, later) <= 0)
        && (next.state.READING_HEADERS? || m.framing.Sized? ==> next.decoder == q.decoder)
  {
    hide Deliver;
    hide Midway;
    hide Acceptable;
    hide HeadOf;
    hide TakeThree;
    hide HeaderEnd;
    var p := Reset(q).(buffer := "");
    Refeed(Reset(q), router);
    WhatIsAcceptable(m, router);
    StartsMidway(p, m, router, q.buffer + future, later);
    ReadStep(p, m, q.buffer, router, future, later);
  }

  // Where a step that did not refuse leaves the parser.
  lemma StepRests(
    q: Parser, decoder: C.Decoder, ms: seq<Message>, tail: string, router: Router, fragments: seq<string>,
    maxHeaderSize: nat)
    requires ms != [] && OneChunked(ms) && (AnyChunked(ms) ==> decoder == C.Fresh(0))
    requires var future, later := Concat(fragments), WireOf(ms[1..]) + tail;
      && Midway(q, ms[0], router, future, later) && !q.state.ERROR?
      && !TooMuch(ms[0], future, later, maxHeaderSize)
      && (if q.state.READING_HEADERS? then Ahead(ms[0], future, later) > 0 else Ahead(ms[0], future, later) <= 0)
    requires q.state.READING_HEADERS? || ms[0].framing.Sized? ==> q.decoder == decoder
    ensures AtRest(q, ms, tail, router, Concat(fragments))
    ensures RestFits(q, ms, tail, fragments, maxHeaderSize)
        <==> AllFit(ms, StartOf(ms, tail, Concat(fragments)), fragments, maxHeaderSize)
  {
    hide Midway;
    hide AnyChunked;
    hide AllFit;
    hide StartOf;
    hide TooMuch;
    ChunkedAmong(ms);
    FirstDecides(ms, tail, fragments, maxHeaderSize);
  }

  // With nothing left over, the parser waits.
  lemma NothingLeft(p: Parser, router: Router)
    requires AtStart(p) && p.buffer == ""
    ensures Deliver(p, "", router) == p
  {
    hide ParseHeaders;
    hide Proceed;
    assert p.buffer + "" == p.buffer;
    BlankGrows(p);
  }

  lemma FirstOfAll(ms: seq<Message>, tail: string, router: Router)
    requires ms != [] && AllAcceptable(ms, router)
    ensures Acceptable(ms[0], router) && AllAcceptable(ms[1..], router)
    ensures WireOf(ms) + tail == ms[0].Wire() + (WireOf(ms[1..]) + tail)
  {
    hide Acceptable;
  }

  // One round: the next message is refused, completed, or left in the middle; and how the heads
  // still due fit follows.
  lemma RoundRests(q: Parser, ms: seq<Message>, tail: string, router: Router, fragments: seq<string>)
    requires ms != [] && AllAcceptable(ms, router) && OneChunked(ms) && DecoderFor(q, ms)
    requires q.buffer + Concat(fragments) == WireOf(ms) + tail
    ensures var next := Deliver(Reset(q), "", router);
      var future := Concat(fragments);
      var fits := AllFit(ms, StartOf(ms, tail, future), fragments, q.maxHeaderSize);
      if next.state.ERROR? then !fits && View(next) == Refused(BadRequest)
      else if next.state.REQUEST_READY? then
        && Completes(next, ms[0], future, WireOf(ms[1..]) + tail) && DecoderFor(next, ms[1..])
        && next.maxHeaderSize == q.maxHeaderSize
        && (fits <==> AllFit(ms[1..], StartOf(ms[1..], tail, future), fragments, q.maxHeaderSize))
      else
        && AtRest(next, ms, tail, router, future) && next.maxHeaderSize == q.maxHeaderSize
        && (fits <==> RestFits(next, ms, tail, fragments, q.maxHeaderSize))
  {
    hide Deliver;
    hide Midway;
    hide Acceptable;
    hide View;
    hide Expected;
    hide AnyChunked;
    hide AllFit;
    hide StartOf;
    hide TooMuch;
    hide Ahead;
    hide Completes;
    hide AtRest;
    hide RestFits;
    hide OneChunked;
    hide WireOf;
    hide Concat;
    hide AllAcceptable;
    var next := Deliver(Reset(q), "", router);
    var future, later := Concat(fragments), WireOf(ms[1..]) + tail;
    FirstOfAll(ms, tail, router);
    ChunkedAmong(ms);
    RoundStep(q, ms[0], router, future, later);
    FirstDecides(ms, tail, fragments, q.maxHeaderSize);
    MidIsNotReady(next, ms[0], router, future, later);
    CompleteIsReady(next, ms[0], future, later);
    if !next.state.ERROR? && !next.state.REQUEST_READY? {
      StepRests(next, q.decoder, ms, tail, router, fragments, q.maxHeaderSize);
    }
  }

  // The rounds read every message that is complete in the buffer, and stop in the middle of the
  // next, or refuse it; or they go on into `tail`.
  lemma {:induction false} DrainReads(
    q: Parser, ms: seq<Message>, tail: string, router: Router, fragments: seq<string>)
    returns (n: nat, more: seq<Outcome>, refused: bool)
    requires q.state.REQUEST_READY? && AllAcceptable(ms, router) && OneChunked(ms) && DecoderFor(q, ms)
    requires q.buffer + Concat(fragments) == WireOf(ms) + tail
    ensures n <= |ms| && (more == [] || (n == |ms| && tail != ""))
    ensures var (outcomes, last) := Drain(q, router);
      var fits := AllFit(ms, StartOf(ms, tail, Concat(fragments)), fragments, q.maxHeaderSize);
      && outcomes == [View(q)] + ExpectedAll(ms[..n]) + more
      && (if refused then n < |ms| && !fits && last.state.ERROR? && View(last) == Refused(BadRequest)
          else
            && AtRest(last, ms[n..], tail, router, Concat(fragments))
            && (fits <==> RestFits(last, ms[n..], tail, fragments, q.maxHeaderSize))
            && (n < |ms| ==> last.maxHeaderSize == q.maxHeaderSize))
    decreases |q.buffer|
  {
    hide Deliver;
    hide Midway;
    hide Acceptable;
    hide View;
    hide Expected;
    hide AllFit;
    hide DecoderFor;
    var next := Deliver(Reset(q), "", router);
    var (outcomes, last) := Drain(q, router);
    n, more, refused := 0, [], false;
    assert ms[..0] == [] && ms[0..] == ms;
    if ms == [] {
      if tail == "" {
        NothingLeft(Reset(q), router);
      } else {
        more := outcomes[1..];
      }
    } else {
      RoundRests(q, ms, tail, router, fragments);
      if next.state.REQUEST_READY? {
        ChunkedAmong(ms);
        ReadyShrinks(Reset(q), router);
        var k;
        k, more, refused := DrainReads(next, ms[1..], tail, router, fragments);
        n := k + 1;
        ExpectedFirst(ms, n);
        assert ms[1..][k..] == ms[n..];
      } else {
        refused := next.state.ERROR?;
      }
    }
  }

  lemma MidIsNotReady(p: Parser, m: Message, router: Router, future: string, later: string)
    ensures Midway(p, m, router, future, later) ==> !p.state.REQUEST_READY?
  {
    BodyStates(p, m, router, future, later);
  }

  lemma CompleteIsReady(p: Parser, m: Message, future: string, later: string)
    ensures Completes(p, m, future, later) ==> p.state.REQUEST_READY?
  {
  }

  lemma ExpectedFirst(ms: seq<Message>, n: nat)
    requires 0 < n <= |ms|
    ensures ExpectedAll(ms[..n]) == [Expected(ms[0])] + ExpectedAll(ms[1..][..n - 1])
  {
    assert ms[..n][1..] == ms[1..][..n - 1];
  }

  lemma {:induction false} ExpectedSplit(ms: seq<Message>, n: nat)
    requires n <= |ms|
    ensures ExpectedAll(ms) == ExpectedAll(ms[..n]) + ExpectedAll(ms[n..])
    decreases n
  {
    hide Expected;
    if n == 0 {
      assert ms[..0] == [] && ms[0..] == ms;
    } else {
      ExpectedFirst(ms, n);
      ExpectedSplit(ms[1..], n - 1);
      assert ms[1..][n - 1..] == ms[n..];
    }
  }

  // A message that is midway needs more bytes.
  lemma MidwayNeedsMore(p: Parser, m: Message, router: Router, later: string)
    ensures !Midway(p, m, router, "", later)
  {
    hide HeadOf;
    hide C.Feed;
    hide C.EncodeBody;
    forall blank ensures !MidHead(p, m, blank, "", later) {
      assert |p.buffer + ""| == |p.buffer| && |blank + m.head + m.Sent() + later| >= |blank| + |m.head|;
    }
    if p.written < |m.body| {
      assert |m.body[p.written..] + later| > 0;
    }
    forall k: nat ensures !MidChunked(p, m, k, router, "", later) {
      if k < |m.Sent()| {
        assert |m.Sent()[k..] + later| > 0;
      }
    }
  }

  lemma ErrorStays(q: Parser, f: string, router: Router)
    requires q.state.ERROR?
    ensures Deliver(q, f, router) == q
  {
  }

  // A refused connection stays so.
  lemma {:induction false} RefusedStays(q: Parser, fragments: seq<string>, router: Router)
    requires q.state.ERROR?
    ensures Session(q, fragments, router) == ([], q)
    decreases |fragments|
  {
    hide Deliver;
    if fragments != [] {
      ErrorStays(q, fragments[0], router);
      RefusedStays(q, fragments[1..], router);
      var none: seq<Outcome> := [];
      assert none + none == none;
    }
  }

  /** What a session gives: all the messages, before anything that follows; or those before the
      first one that is refused. */
  ghost predicate Gives(outcomes: seq<Outcome>, last: Parser, ms: seq<Message>, tail: string, fits: bool) {
    if fits then
      ExpectedAll(ms) <= outcomes && (tail == "" ==> outcomes == ExpectedAll(ms) && last.buffer == "")
    else
      exists i: nat :: i < |ms| && outcomes == ExpectedAll(ms[..i]) && View(last) == Refused(BadRequest)
  }

  lemma {:induction false} SessionReads(
    p: Parser, ms: seq<Message>, tail: string, fragments: seq<string>, router: Router)
    requires AllAcceptable(ms, router) && OneChunked(ms) && AtRest(p, ms, tail, router, Concat(fragments))
    ensures var (outcomes, last) := Session(p, fragments, router);
      Gives(outcomes, last, ms, tail, RestFits(p, ms, tail, fragments, p.maxHeaderSize))
    decreases |fragments|, 0
  {
    hide Deliver;
    hide Midway;
    hide Acceptable;
    hide Expected;
    hide View;
    hide AnyChunked;
    hide HeadFits;
    hide TooMuch;
    if fragments == [] {
      if ms != [] {
        MidwayNeedsMore(p, ms[0], router, WireOf(ms[1..]) + tail);
      }
    } else {
      var f, rest := fragments[0], fragments[1..];
      if ms == [] {
        if tail == "" {
          NothingLeft(p, router);
          SessionReads(p, [], "", rest, router);
        }
      } else {
        SessionGoesOn(p, ms, tail, fragments, router);
      }
    }
  }

  lemma BodyAhead(p: Parser, m: Message, router: Router, future: string, later: string)
    requires MidBody(p, m, router, future, later)
    ensures |future| > |later|
  {
    hide HeadOf;
    hide C.Feed;
    hide C.EncodeBody;
  }

  // After one read every head still due is that much nearer.
  lemma RestShifts(p: Parser, ms: seq<Message>, tail: string, fragments: seq<string>, router: Router)
    requires ms != [] && fragments != [] && AtRest(p, ms, tail, router, Concat(fragments))
    requires p.state.READING_HEADERS? ==> Ahead(ms[0], Concat(fragments), WireOf(ms[1..]) + tail) > 0
    ensures var due := if p.state.READING_HEADERS? then ms else ms[1..];
      RestFits(p, ms, tail, fragments, p.maxHeaderSize)
      <==> AllFit(due, StartOf(due, tail, Concat(fragments[1..])), fragments[1..], p.maxHeaderSize)
  {
    hide MidBody;
    hide AllFit;
    hide AnyChunked;
    var future, later := Concat(fragments), WireOf(ms[1..]) + tail;
    StartAhead(ms, tail, future);
    if p.state.READING_HEADERS? {
      FitShifts(ms, StartOf(ms, tail, future), fragments, p.maxHeaderSize);
    } else {
      BodyAhead(p, ms[0], router, future, later);
      FitShifts(ms[1..], StartOf(ms[1..], tail, future), fragments, p.maxHeaderSize);
    }
  }

  // A read in the middle of a session.
  lemma {:induction false} SessionGoesOn(
    p: Parser, ms: seq<Message>, tail: string, fragments: seq<string>, router: Router)
    requires ms != [] && fragments != []
    requires AllAcceptable(ms, router) && OneChunked(ms) && AtRest(p, ms, tail, router, Concat(fragments))
    ensures var (outcomes, last) := Session(p, fragments, router);
      Gives(outcomes, last, ms, tail, RestFits(p, ms, tail, fragments, p.maxHeaderSize))
    decreases |fragments| - 1, 2
  {
    hide Deliver;
    hide Midway;
    hide Acceptable;
    hide Expected;
    hide View;
    hide AnyChunked;
    hide AllFit;
    hide StartOf;
    hide TooMuch;
    var f, rest := fragments[0], fragments[1..];
    var future, later := Concat(rest), WireOf(ms[1..]) + tail;
    var q := Deliver(p, f, router);
    ChunkedAmong(ms);
    ReadStep(p, ms[0], f, router, future, later);
    RestShifts(p, ms, tail, fragments, router);
    FirstDecides(ms, tail, rest, p.maxHeaderSize);
    CompleteIsReady(q, ms[0], future, later);
    MidIsNotReady(q, ms[0], router, future, later);
    if q.state.ERROR? {
      RefusedStays(q, rest, router);
      assert ms[..0] == [];
    } else if q.state.REQUEST_READY? {
      SessionCompletes(q, ms, tail, rest, router);
    } else {
      if p.state.READING_HEADERS? {
        StepRests(q, p.decoder, ms, tail, router, rest, p.maxHeaderSize);
      }
      SessionReads(q, ms, tail, rest, router);
    }
  }

  // After a read that completes a message, the rounds and the rest of the session go on.
  lemma {:induction false} SessionCompletes(
    q: Parser, ms: seq<Message>, tail: string, rest: seq<string>, router: Router)
    requires ms != [] && AllAcceptable(ms, router) && OneChunked(ms) && DecoderFor(q, ms[1..])
    requires Completes(q, ms[0], Concat(rest), WireOf(ms[1..]) + tail)
    ensures var (now, p) := Drain(q, router);
      var (outcomes, last) := Session(p, rest, router);
      Gives(now + outcomes, last, ms, tail,
            AllFit(ms[1..], StartOf(ms[1..], tail, Concat(rest)), rest, q.maxHeaderSize))
    decreases |rest|, 1
  {
    hide Deliver;
    hide Drain;
    hide AtRest;
    hide Acceptable;
    hide Expected;
    hide View;
    hide AnyChunked;
    hide AllFit;
    var ms' := ms[1..];
    ChunkedAmong(ms);
    var n, more, refused := DrainReads(q, ms', tail, router, rest);
    var p := Drain(q, router).1;
    if refused {
      RefusedStays(p, rest, router);
      ExpectedFirst(ms, n + 1);
    } else {
      SessionReads(p, ms'[n..], tail, rest, router);
      GivesOn(View(q), ms, n, more, Session(p, rest, router).0, Session(p, rest, router).1, tail,
              RestFits(p, ms'[n..], tail, rest, p.maxHeaderSize));
      NothingDue(p, ms'[n..], tail, rest, p.maxHeaderSize, q.maxHeaderSize);
    }
  }

  lemma NothingDue(p: Parser, ms: seq<Message>, tail: string, fragments: seq<string>, one: nat, other: nat)
    ensures ms == [] ==> RestFits(p, ms, tail, fragments, one) && RestFits(p, ms, tail, fragments, other)
  {
  }

  // What the rounds gave, and then what the rest gives.
  lemma GivesOn(
    first: Outcome, ms: seq<Message>, n: nat, more: seq<Outcome>, later: seq<Outcome>, last: Parser, tail: string,
    fits: bool)
    requires ms != [] && n < |ms| && first == Expected(ms[0])
    requires more == [] || (n == |ms| - 1 && tail != "")
    requires Gives(later, last, ms[1..][n..], tail, fits)
    ensures Gives([first] + ExpectedAll(ms[1..][..n]) + more + later, last, ms, tail, fits)
  {
    hide Expected;
    hide View;
    if fits {
      ExpectedSplit(ms[1..], n);
      Assemble(first, ExpectedAll(ms[1..][..n]), more, ExpectedAll(ms[1..][n..]), later);
    } else {
      var i: nat :| i < |ms[1..][n..]| && later == ExpectedAll(ms[1..][n..][..i]);
      PartOfThem(ms, n, i);
      assert [first] + ExpectedAll(ms[1..][..n]) + more + later == [first] + (ExpectedAll(ms[1..][..n]) + later);
    }
  }

  lemma PartOfThem(ms: seq<Message>, n: nat, i: nat)
    requires n + i + 1 <= |ms|
    ensures ExpectedAll(ms[..n + i + 1])
         == [Expected(ms[0])] + (ExpectedAll(ms[1..][..n]) + ExpectedAll(ms[1..][n..][..i]))
  {
    hide Expected;
    var part := ms[1..][..n + i];
    ExpectedFirst(ms, n + i + 1);
    ExpectedSplit(part, n);
    assert part[..n] == ms[1..][..n] && part[n..] == ms[1..][n..][..i];
  }

  lemma Assemble(first: Outcome, now: seq<Outcome>, more: seq<Outcome>, due: seq<Outcome>, later: seq<Outcome>)
    requires due <= later && (more == [] || due == [])
    ensures [first] + (now + due) <= [first] + now + more + later
    ensures more == [] && later == due ==> [first] + now + more + later == [first] + (now + due)
  {
    if more == [] {
      assert [first] + now + more + later == [first] + (now + later);
    } else {
      assert now + due == now;
      assert [first] + now + more + later == ([first] + now) + (more + later);
    }
  }

  lemma {:induction false} ExpectedLength(ms: seq<Message>)
    ensures |ExpectedAll(ms)| == |ms|
    decreases |ms|
  {
    hide Expected;
    if ms != [] {
      ExpectedLength(ms[1..]);
    }
  }

  /** A whole connection: requests one after the other, at most one of them in chunks, blank lines
      before each allowed, their bytes cut anywhere. The outcomes are those requests, in order and
      before anything that follows them, if and only if each head fits: from its first byte to the
      end of the read that brings in its end there are at most as many bytes as the limit. With
      nothing after them nothing else comes out. If a head does not fit, the requests before the
      first such one come out, and then the connection is refused. */
  lemma SessionReadsAll(
    router: Router, maxHeaderSize: nat, line: StartLine, ms: seq<Message>, tail: string, fragments: seq<string>)
    requires AllAcceptable(ms, router) && OneChunked(ms) && Concat(fragments) == WireOf(ms) + tail
    ensures var (outcomes, last) := Session(Initial(maxHeaderSize, line), fragments, router);
      var fits := AllFit(ms, 0, fragments, maxHeaderSize);
      && (ExpectedAll(ms) <= outcomes <==> fits)
      && (fits && tail == "" ==> outcomes == ExpectedAll(ms) && last.buffer == "")
      && (!fits ==>
            exists i: nat :: i < |ms| && outcomes == ExpectedAll(ms[..i]) && View(last) == Refused(BadRequest))
  {
    hide Session;
    hide AtRest;
    hide RestFits;
    hide Gives;
    hide AllFit;
    hide View;
    var p := Initial(maxHeaderSize, line);
    InitialRests(p, ms, tail, fragments, router);
    SessionReads(p, ms, tail, fragments, router);
    var (outcomes, last) := Session(p, fragments, router);
    GivesExactly(outcomes, last, ms, tail, AllFit(ms, 0, fragments, maxHeaderSize));
  }

  lemma InitialRests(p: Parser, ms: seq<Message>, tail: string, fragments: seq<string>, router: Router)
    requires AtStart(p) && p.buffer == "" && p.decoder == C.Fresh(0)
    requires AllAcceptable(ms, router) && Concat(fragments) == WireOf(ms) + tail
    ensures AtRest(p, ms, tail, router, Concat(fragments))
    ensures RestFits(p, ms, tail, fragments, p.maxHeaderSize) <==> AllFit(ms, 0, fragments, p.maxHeaderSize)
  {
    hide Midway;
    hide Acceptable;
    hide AllFit;
    hide WellFormedHead;
    hide AnyChunked;
    if ms != [] {
      FirstOfAll(ms, tail, router);
      WhatIsAcceptable(ms[0], router);
      HeadNotEmpty(ms[0].blank, ms[0].head);
      StartsMidway(p, ms[0], router, Concat(fragments), WireOf(ms[1..]) + tail);
    }
  }

  lemma HeadNotEmpty(blank: string, head: string)
    requires WellFormedHead(blank, head)
    ensures AllLineEnds(blank) && head != ""
  {
    hide HeadOf;
    hide TakeThree;
    hide HeaderEnd;
  }

  // All of them exactly if they fit, for otherwise there are fewer.
  lemma GivesExactly(outcomes: seq<Outcome>, last: Parser, ms: seq<Message>, tail: string, fits: bool)
    requires Gives(outcomes, last, ms, tail, fits)
    ensures ExpectedAll(ms) <= outcomes <==> fits
    ensures fits && tail == "" ==> outcomes == ExpectedAll(ms) && last.buffer == ""
    ensures !fits ==>
      exists i: nat :: i < |ms| && outcomes == ExpectedAll(ms[..i]) && View(last) == Refused(BadRequest)
  {
    hide Expected;
    hide View;
    ExpectedLength(ms);
    if !fits {
      var i: nat :| i < |ms| && outcomes == ExpectedAll(ms[..i]) && View(last) == Refused(BadRequest);
      ExpectedLength(ms[..i]);
    }
  }
}
