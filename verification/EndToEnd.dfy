/** From bytes on the wire to a complete request: what a well-formed request, cut in any way,
    gives in the end. */
module EndToEnd {
  import opened Base
  import opened Headers
  import opened Requests
  import opened RequestMachine
  import opened Fragmentation
  import opened Pipelining
  import C = ChunkCodec

  // The outcome of a well-formed head and what follows it, cut in any way that fits.
  lemma HeadThenBody(
    router: Router, maxHeaderSize: nat, line: StartLine, blank: string, head: string, tail: string,
    fragments: seq<string>)
    requires WellFormedHead(blank, head) && |head| <= maxHeaderSize
    requires Concat(fragments) == blank + head + tail
    requires !Overfilled(maxHeaderSize, head + tail, Window("", 0, fragments))
    ensures HeadOf(head).Head?
    ensures var h := HeadOf(head);
      View(DeliverAll(Initial(maxHeaderSize, line), fragments, router))
      == BodyOutcome(h.line, h.headers, MaxAllowedContentSize(router(h.line, h.headers)), tail)
  {
    hide ReadHead;
    hide HeadOf;
    hide BodyOutcome;
    hide View;
    hide DeliverAll;
    hide Window;
    hide TakeThree;
    HeadInStream(blank, head, tail);
    DeliveryMatchesReference(router, maxHeaderSize, line, fragments);
    HeadReadInStream(blank, head, tail, Window("", 0, fragments));
  }

  lemma ChunkedOutcome(
    line: StartLine, h: HeaderMap, limit: nat, chunks: seq<C.Chunk>, zero: string, surplus: string)
    requires C.AllValid(chunks) && C.IsZeroSize(zero) && |C.Data(chunks)| < SIZE_LIMIT
    requires IsContentChunked(h) && 0 < limit < SIZE_LIMIT
    ensures BodyOutcome(line, h, limit, C.EncodeBody(chunks, zero) + surplus)
      == if |C.Data(chunks)| > limit then Refused(PayloadTooLarge) else Complete(line, h, Some(C.Data(chunks)))
  {
    hide C.Feed;
    hide C.EncodeBody;
    hide C.IsZeroSize;
    hide IsContentChunked;
    C.DecodeInvertsEncode(limit, chunks, zero, surplus);
  }

  /** A chunked request, in any chunking and any letter case of its sizes, cut in any way that
      fits the header buffer and followed by anything: it is complete with exactly the data of
      its chunks, or refused as too large exactly when the data exceeds the limit. */
  lemma ChunkedRequest(
    router: Router, maxHeaderSize: nat, line: StartLine, blank: string, head: string,
    chunks: seq<C.Chunk>, zero: string, surplus: string, fragments: seq<string>)
    requires WellFormedHead(blank, head) && |head| <= maxHeaderSize
    requires C.AllValid(chunks) && C.IsZeroSize(zero) && |C.Data(chunks)| < SIZE_LIMIT
    requires Concat(fragments) == blank + head + (C.EncodeBody(chunks, zero) + surplus)
    requires !Overfilled(maxHeaderSize, head + (C.EncodeBody(chunks, zero) + surplus), Window("", 0, fragments))
    requires IsContentChunked(HeadOf(head).headers)
    requires MaxAllowedContentSize(router(HeadOf(head).line, HeadOf(head).headers)) < SIZE_LIMIT
    ensures var h := HeadOf(head);
      View(DeliverAll(Initial(maxHeaderSize, line), fragments, router))
      == if |C.Data(chunks)| > MaxAllowedContentSize(router(h.line, h.headers)) then Refused(PayloadTooLarge)
         else Complete(h.line, h.headers, Some(C.Data(chunks)))
  {
    hide *;
    HeadThenBody(router, maxHeaderSize, line, blank, head, C.EncodeBody(chunks, zero) + surplus, fragments);
    var h := HeadOf(head);
    ChunkedOutcome(h.line, h.headers, MaxAllowedContentSize(router(h.line, h.headers)), chunks, zero, surplus);
  }

  lemma LengthOutcome(line: StartLine, h: HeaderMap, limit: nat, body: string, surplus: string)
    requires !IsContentChunked(h) && ContentLength(h) == |body|
    ensures BodyOutcome(line, h, limit, body + surplus)
      == if |body| > limit then Refused(PayloadTooLarge)
         else Complete(line, h, if body == "" then None else Some(body))
  {
    hide IsContentChunked;
    hide ContentLength;
    assert (body + surplus)[..|body|] == body;
  }

  /** A request with a Content-Length (or none), cut in any way that fits the header buffer and
      followed by anything: it is complete with exactly its body, or refused as too large
      exactly when the announced length exceeds the limit. */
  lemma LengthRequest(
    router: Router, maxHeaderSize: nat, line: StartLine, blank: string, head: string,
    body: string, surplus: string, fragments: seq<string>)
    requires WellFormedHead(blank, head) && |head| <= maxHeaderSize
    requires Concat(fragments) == blank + head + (body + surplus)
    requires !Overfilled(maxHeaderSize, head + (body + surplus), Window("", 0, fragments))
    requires !IsContentChunked(HeadOf(head).headers) && ContentLength(HeadOf(head).headers) == |body|
    ensures var h := HeadOf(head);
      View(DeliverAll(Initial(maxHeaderSize, line), fragments, router))
      == if |body| > MaxAllowedContentSize(router(h.line, h.headers)) then Refused(PayloadTooLarge)
         else Complete(h.line, h.headers, if body == "" then None else Some(body))
  {
    hide *;
    HeadThenBody(router, maxHeaderSize, line, blank, head, body + surplus, fragments);
    var h := HeadOf(head);
    LengthOutcome(h.line, h.headers, MaxAllowedContentSize(router(h.line, h.headers)), body, surplus);
  }

  // --------------------------------------------------------------------------- the body limit

  /** The body an outcome shows, complete or not, is no longer than the limit of its route. */
  predicate BodyWithinLimit(o: Outcome, router: Router) {
    match o
    case Receiving(line, h, soFar) => |soFar| <= MaxAllowedContentSize(router(line, h))
    case Complete(line, h, body) => body.Some? ==> |body.value| <= MaxAllowedContentSize(router(line, h))
    case _ => true
  }

  lemma OutcomeWithinLimit(line: StartLine, h: HeaderMap, router: Router, received: string)
    requires MaxAllowedContentSize(router(line, h)) < SIZE_LIMIT && |received| < SIZE_LIMIT
    ensures BodyWithinLimit(BodyOutcome(line, h, MaxAllowedContentSize(router(line, h)), received), router)
  {
    hide C.Feed;
    hide IsContentChunked;
    hide ContentLength;
    hide MaxAllowedContentSize;
    var d := C.Fresh(MaxAllowedContentSize(router(line, h)));
    if C.Feed(d, received).Fed? {
      C.FeedWithinLimit(d, received);
    }
  }

  /** Whatever comes in, well-formed or not, and however it is cut: at every point of every
      delivery the body is within the limit of the route its request line and headers lead to. */
  lemma EveryBodyWithinLimit(router: Router, maxHeaderSize: nat, line: StartLine, fragments: seq<string>)
    requires |Concat(fragments)| < SIZE_LIMIT
    requires forall l, h :: MaxAllowedContentSize(router(l, h)) < SIZE_LIMIT
    ensures BodyWithinLimit(View(DeliverAll(Initial(maxHeaderSize, line), fragments, router)), router)
  {
    hide ReadHead;
    hide BodyOutcome;
    hide BodyWithinLimit;
    hide View;
    hide DeliverAll;
    hide Window;
    hide MaxAllowedContentSize;
    hide StripLeading;
    var s := StripLeading(Concat(fragments));
    var w := Window("", 0, fragments);
    DeliveryMatchesReference(router, maxHeaderSize, line, fragments);
    NoBodyYet(router);
    if HeaderEnd(s).Some? {
      WindowHasFeed(s, w);
      var d := HeaderEnd(s).value;
      var head := ReadHead(s[..w], d, map[]);
      if head.Head? {
        OutcomeWithinLimit(head.line, head.headers, router, s[d.End()..]);
      }
    }
  }

  lemma NoBodyYet(router: Router)
    ensures BodyWithinLimit(Waiting, router) && BodyWithinLimit(Refused(BadRequest), router)
  {
  }

  // --------------------------------------------------------------------- the two framings

  /** The same data is accepted or refused alike, whichever way its size is announced and however
      the two requests are cut, if their routes have the same limit. */
  lemma FramingsAgreeOnLimit(
    router: Router, maxHeaderSize: nat, line: StartLine, chunked: string, sized: string,
    chunks: seq<C.Chunk>, zero: string, one: seq<string>, other: seq<string>)
    requires WellFormedHead("", chunked) && WellFormedHead("", sized)
    requires |chunked| <= maxHeaderSize && |sized| <= maxHeaderSize
    requires C.AllValid(chunks) && C.IsZeroSize(zero) && |C.Data(chunks)| < SIZE_LIMIT
    requires Concat(one) == chunked + C.EncodeBody(chunks, zero) && Concat(other) == sized + C.Data(chunks)
    requires !Overfilled(maxHeaderSize, chunked + C.EncodeBody(chunks, zero), Window("", 0, one))
    requires !Overfilled(maxHeaderSize, sized + C.Data(chunks), Window("", 0, other))
    requires IsContentChunked(HeadOf(chunked).headers)
    requires !IsContentChunked(HeadOf(sized).headers) && ContentLength(HeadOf(sized).headers) == |C.Data(chunks)|
    requires LimitOf(router, HeadOf(chunked)) == LimitOf(router, HeadOf(sized)) < SIZE_LIMIT
    ensures View(DeliverAll(Initial(maxHeaderSize, line), one, router)).Refused?
        <==> View(DeliverAll(Initial(maxHeaderSize, line), other, router)).Refused?
  {
    hide View;
    hide DeliverAll;
    hide Window;
    hide Overfilled;
    hide WellFormedHead;
    hide HeadOf;
    hide IsContentChunked;
    hide ContentLength;
    hide MaxAllowedContentSize;
    hide C.EncodeBody;
    hide C.IsZeroSize;
    hide Initial;
    hide Concat;
    assert "" + chunked + (C.EncodeBody(chunks, zero) + "") == chunked + C.EncodeBody(chunks, zero);
    assert "" + sized + (C.Data(chunks) + "") == sized + C.Data(chunks);
    assert C.EncodeBody(chunks, zero) + "" == C.EncodeBody(chunks, zero) && C.Data(chunks) + "" == C.Data(chunks);
    ChunkedRequest(router, maxHeaderSize, line, "", chunked, chunks, zero, "", one);
    LengthRequest(router, maxHeaderSize, line, "", sized, C.Data(chunks), "", other);
  }

  /** The limit of the route that a head leads to. */
  function LimitOf(router: Router, head: Head): nat
    requires head.Head?
  {
    MaxAllowedContentSize(router(head.line, head.headers))
  }
}
